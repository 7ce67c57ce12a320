/**
 * The start-up steps of the script, lifted out of module-level code: the
 * login URL read from the configuration, the check that the login
 * succeeded, and the extraction of the course entries from the landing
 * page (marker split, then `re.findall`).
 */
module Discovery {
  import opened Wrappers
  import opened Text

  /** Text that only a logged-in landing page contains. */
  const LoggedInMarker := "My courses"
  /** The heading after which the list of the user's courses starts. */
  const CoursesMarker := "<span tabindex=\"0\">My courses</span>"
  /** The literal start of the pattern matching one course entry. */
  const ItemPrefix := "<li class=\"type_course depth_3 collapsed contains_branch\" aria-expanded=\"false\">"
  /** The literal end of that pattern. */
  const ItemSuffix := "</li>"

  datatype Course = Course(name: string, url: string)

  datatype DiscoveryError =
    | CannotConnect   // `raise Exception('Cannot connect to Moodle.')`
    | NoCourseList    // `IndexError` from `split(...)[1]`

  predicate IsQuote(c: char)
  {
    c == '\'' || c == '"'
  }

  /** `conf.get("auth", "url").strip('\'"')`: the configured URL without surrounding quotes. */
  function AuthenticationUrl(raw: string): (url: string)
    ensures url == [] || (!IsQuote(url[0]) && !IsQuote(url[|url| - 1]))
    ensures |url| <= |raw|
  {
    Strip(raw, IsQuote)
  }

  /** A URL written in quotes in the configuration is read without them. */
  lemma AuthenticationUrlQuoted(url: string, q: char, q': char)
    requires IsQuote(q) && IsQuote(q')
    requires url == [] || (!IsQuote(url[0]) && !IsQuote(url[|url| - 1]))
    ensures AuthenticationUrl([q] + url + [q']) == url
  {
    StripUnique([q] + url + [q'], IsQuote, [q], url, [q']);
  }

  /** Stripping the quotes twice is the same as once. */
  lemma AuthenticationUrlIdempotent(raw: string)
    ensures AuthenticationUrl(AuthenticationUrl(raw)) == AuthenticationUrl(raw)
  {
    var url := AuthenticationUrl(raw);
    assert [] + url + [] == url;
    StripUnique(url, IsQuote, [], url, []);
  }

  /**
   * `s.split(sep)[1]`: the text between the first and the second
   * occurrence of `sep`, or up to the end when there is no second one;
   * `None` when `sep` does not occur (Python raises `IndexError`).
   */
  function SecondPiece(s: string, sep: string): (r: Option<string>)
    requires sep != []
    ensures r.None? <==> !Contains(s, sep)
    ensures r.Some? ==> Find(s, sep).value + |sep| + |r.value| <= |s|
    ensures r.Some? ==> s[Find(s, sep).value + |sep|..Find(s, sep).value + |sep| + |r.value|] == r.value
    ensures r.Some? ==> forall k: nat :: !OccursAt(r.value, sep, k)
    ensures r.Some? ==> forall k :: Find(s, sep).value + |sep| <= k < Find(s, sep).value + |sep| + |r.value| ==> !OccursAt(s, sep, k)
    ensures r.Some? ==> var stop := Find(s, sep).value + |sep| + |r.value|; stop == |s| || OccursAt(s, sep, stop)
  {
    match Find(s, sep)
    case None => None
    case Some(i) =>
      var rest := s[i + |sep|..];
      ShiftOccurrence(s, sep, i + |sep|);
      match Find(rest, sep)
      case None =>
        assert s[i + |sep|..i + |sep| + |rest|] == rest;
        Some(rest)
      case Some(j) =>
        PieceBeforeNext(s, sep, i + |sep|, j);
        assert s[i + |sep|..i + |sep| + |rest[..j]|] == rest[..j];
        Some(rest[..j])
  }

  /** The text from `a` up to the next `sep` holds no `sep`, and a `sep` follows it. */
  lemma PieceBeforeNext(s: string, sep: string, a: nat, j: nat)
    requires sep != [] && a <= |s| && Find(s[a..], sep) == Some(j)
    ensures a + j <= |s| && s[a..][..j] == s[a..a + j]
    ensures forall k: nat :: !OccursAt(s[a..][..j], sep, k)
    ensures OccursAt(s, sep, a + j)
  {
    var rest := s[a..];
    var piece := rest[..j];
    assert forall k: nat :: OccursAt(piece, sep, k) ==> OccursAt(rest, sep, k) by {
      forall k: nat | OccursAt(piece, sep, k) ensures OccursAt(rest, sep, k) {
        assert piece[k..k + |sep|] == rest[k..k + |sep|];
      }
    }
    assert s[a + j..a + j + |sep|] == rest[j..j + |sep|];
  }

  /**
   * A regular expression of the form `prefix(.*?)suffix` whose prefix and
   * suffix are plain text, as the course pattern is.
   */
  datatype Pattern = Pattern(prefix: string, suffix: string)

  /** Neither part is empty, so every match consumes text and ends in a visible suffix. */
  predicate ValidPattern(pat: Pattern)
  {
    pat.prefix != [] && pat.suffix != []
  }

  const CoursePattern := Pattern(ItemPrefix, ItemSuffix)

  /** One match: the group runs from `start` to `end`. */
  datatype Span = Span(start: nat, end: nat)

  /**
   * The lazy group `(.*?)suffix` starting at `q`: the first index at or after
   * `q` where the suffix begins, provided no newline comes before it (`.`
   * does not match a newline).
   */
  function GroupEnd(s: string, suffix: string, q: nat): (e: Option<nat>)
    decreases |s| - q
    ensures e.Some? ==> q <= e.value && OccursAt(s, suffix, e.value)
  {
    if OccursAt(s, suffix, q) then Some(q)
    else if q >= |s| || s[q] == '\n' then None
    else GroupEnd(s, suffix, q + 1)
  }

  /** The lazy group stops at the first suffix, and no newline comes before it. */
  lemma {:induction false} GroupEndFirst(s: string, suffix: string, q: nat)
    requires GroupEnd(s, suffix, q).Some?
    ensures forall k :: q <= k < GroupEnd(s, suffix, q).value ==> s[k] != '\n' && !OccursAt(s, suffix, k)
    decreases |s| - q
  {
    if !OccursAt(s, suffix, q) {
      GroupEndFirst(s, suffix, q + 1);
    }
  }

  /** The group fails only when every later suffix has a newline before it. */
  lemma {:induction false} GroupEndNone(s: string, suffix: string, q: nat, k: nat)
    requires GroupEnd(s, suffix, q).None?
    requires q <= k && OccursAt(s, suffix, k)
    ensures exists m :: q <= m < k && s[m] == '\n'
    decreases |s| - q
  {
    if q < |s| && s[q] != '\n' {
      GroupEndNone(s, suffix, q + 1, k);
    }
  }

  /** The pattern tried at position `p`: the end of its group when it matches. */
  function MatchAt(s: string, pat: Pattern, p: nat): (e: Option<nat>)
    ensures e.Some? ==> OccursAt(s, pat.prefix, p) && p + |pat.prefix| <= e.value
  {
    if OccursAt(s, pat.prefix, p) then GroupEnd(s, pat.suffix, p + |pat.prefix|) else None
  }

  /** The whole text matched by `sp`, prefix and suffix included, covers index `k`. */
  predicate Covers(pat: Pattern, sp: Span, k: nat)
  {
    sp.start - |pat.prefix| <= k < sp.end + |pat.suffix|
  }

  /** `sp` is what the pattern matches when tried at its own start. */
  predicate IsMatch(s: string, pat: Pattern, sp: Span)
  {
    sp.start >= |pat.prefix| && MatchAt(s, pat, sp.start - |pat.prefix|) == Some(sp.end)
  }

  /**
   * The scan of `re.findall` from position `p`: try the pattern at each
   * position; after a match continue right after it, otherwise one
   * position further.
   */
  function Matches(s: string, pat: Pattern, p: nat): (spans: seq<Span>)
    requires ValidPattern(pat)
    ensures spans != [] ==> p + |pat.prefix| <= spans[0].start
    ensures spans != [] ==> spans[|spans| - 1].end + |pat.suffix| <= |s|
    decreases |s| - p
  {
    if p >= |s| then []
    else match MatchAt(s, pat, p)
      case Some(e) => [Span(p + |pat.prefix|, e)] + Matches(s, pat, e + |pat.suffix|)
      case None => Matches(s, pat, p + 1)
  }

  /** One step of the scan when the pattern matches at `p`. */
  lemma MatchesHit(s: string, pat: Pattern, p: nat, e: nat)
    requires ValidPattern(pat) && p < |s| && MatchAt(s, pat, p) == Some(e)
    ensures Matches(s, pat, p) == [Span(p + |pat.prefix|, e)] + Matches(s, pat, e + |pat.suffix|)
  {
  }

  /** One step of the scan when the pattern does not match at `p`. */
  lemma MatchesMiss(s: string, pat: Pattern, p: nat)
    requires ValidPattern(pat) && p < |s| && MatchAt(s, pat, p).None?
    ensures Matches(s, pat, p) == Matches(s, pat, p + 1)
  {
  }

  /** Every span of `spans` is a match of the pattern. */
  predicate AllMatch(s: string, pat: Pattern, spans: seq<Span>)
  {
    forall i :: 0 <= i < |spans| ==> IsMatch(s, pat, spans[i])
  }

  lemma AllMatchCons(s: string, pat: Pattern, sp: Span, rest: seq<Span>)
    requires IsMatch(s, pat, sp) && AllMatch(s, pat, rest)
    ensures AllMatch(s, pat, [sp] + rest)
  {
    var spans := [sp] + rest;
    forall i | 0 <= i < |spans| ensures IsMatch(s, pat, spans[i]) {
      if i > 0 {
        assert spans[i] == rest[i - 1];
      }
    }
  }

  /** Every span found is a match of the pattern. */
  lemma {:induction false} MatchesSound(s: string, pat: Pattern, p: nat)
    requires ValidPattern(pat)
    ensures forall i :: 0 <= i < |Matches(s, pat, p)| ==> IsMatch(s, pat, Matches(s, pat, p)[i])
    decreases |s| - p
  {
    if p < |s| {
      match MatchAt(s, pat, p)
      case Some(e) =>
        MatchesHit(s, pat, p, e);
        MatchesSound(s, pat, e + |pat.suffix|);
        AllMatchCons(s, pat, Span(p + |pat.prefix|, e), Matches(s, pat, e + |pat.suffix|));
      case None =>
        MatchesMiss(s, pat, p);
        MatchesSound(s, pat, p + 1);
    }
  }

  /** Consecutive spans are apart by at least a suffix and a prefix. */
  predicate Ordered(pat: Pattern, spans: seq<Span>)
  {
    forall i :: 0 <= i < |spans| - 1 ==> spans[i].end + |pat.suffix| + |pat.prefix| <= spans[i + 1].start
  }

  lemma OrderedCons(pat: Pattern, sp: Span, rest: seq<Span>)
    requires Ordered(pat, rest)
    requires rest != [] ==> sp.end + |pat.suffix| + |pat.prefix| <= rest[0].start
    ensures Ordered(pat, [sp] + rest)
  {
    var spans := [sp] + rest;
    forall i | 0 <= i < |spans| - 1
      ensures spans[i].end + |pat.suffix| + |pat.prefix| <= spans[i + 1].start
    {
      assert spans[i + 1] == rest[i];
      if i > 0 {
        assert spans[i] == rest[i - 1];
      }
    }
  }

  /** Matches do not overlap and come out left to right. */
  lemma {:induction false} MatchesOrdered(s: string, pat: Pattern, p: nat)
    requires ValidPattern(pat)
    ensures Ordered(pat, Matches(s, pat, p))
    decreases |s| - p
  {
    if p < |s| {
      match MatchAt(s, pat, p)
      case Some(e) =>
        var rest := Matches(s, pat, e + |pat.suffix|);
        MatchesHit(s, pat, p, e);
        MatchesOrdered(s, pat, e + |pat.suffix|);
        OrderedCons(pat, Span(p + |pat.prefix|, e), rest);
      case None =>
        MatchesMiss(s, pat, p);
        MatchesOrdered(s, pat, p + 1);
    }
  }

  /** Some span of `spans` covers index `k`. */
  predicate CoveredBy(pat: Pattern, spans: seq<Span>, k: nat)
  {
    exists i :: 0 <= i < |spans| && Covers(pat, spans[i], k)
  }

  lemma CoveredCons(pat: Pattern, sp: Span, rest: seq<Span>, k: nat)
    requires Covers(pat, sp, k) || CoveredBy(pat, rest, k)
    ensures CoveredBy(pat, [sp] + rest, k)
  {
    var spans := [sp] + rest;
    if Covers(pat, sp, k) {
      assert spans[0] == sp;
    } else {
      var i :| 0 <= i < |rest| && Covers(pat, rest[i], k);
      assert spans[i + 1] == rest[i];
    }
  }

  /** A match found at `p` covers everything up to the end of its suffix. */
  lemma CoveredByFirst(s: string, pat: Pattern, p: nat, e: nat, k: nat)
    requires ValidPattern(pat) && p < |s| && MatchAt(s, pat, p) == Some(e)
    requires p <= k < e + |pat.suffix|
    ensures CoveredBy(pat, Matches(s, pat, p), k)
  {
    MatchesHit(s, pat, p, e);
    CoveredCons(pat, Span(p + |pat.prefix|, e), Matches(s, pat, e + |pat.suffix|), k);
  }

  /** What the scan after a match covers, the scan from the match covers too. */
  lemma CoveredByLater(s: string, pat: Pattern, p: nat, e: nat, k: nat)
    requires ValidPattern(pat) && p < |s| && MatchAt(s, pat, p) == Some(e)
    requires CoveredBy(pat, Matches(s, pat, e + |pat.suffix|), k)
    ensures CoveredBy(pat, Matches(s, pat, p), k)
  {
    MatchesHit(s, pat, p, e);
    CoveredCons(pat, Span(p + |pat.prefix|, e), Matches(s, pat, e + |pat.suffix|), k);
  }

  /** What the scan from the next position covers, the scan from `p` covers too. */
  lemma CoveredByNext(s: string, pat: Pattern, p: nat, k: nat)
    requires ValidPattern(pat) && p < |s| && MatchAt(s, pat, p).None?
    requires CoveredBy(pat, Matches(s, pat, p + 1), k)
    ensures CoveredBy(pat, Matches(s, pat, p), k)
  {
    MatchesMiss(s, pat, p);
  }

  /** No match is missed: wherever the pattern matches, a found span covers it. */
  lemma {:induction false} MatchesComplete(s: string, pat: Pattern, p: nat, k: nat)
    requires ValidPattern(pat)
    requires p <= k && MatchAt(s, pat, k).Some?
    ensures CoveredBy(pat, Matches(s, pat, p), k)
    decreases |s| - p, 1
  {
    assert p < |s| by {
      assert OccursAt(s, pat.prefix, k);
    }
    var m := MatchAt(s, pat, p);
    if m.None? {
      CompleteAfterMiss(s, pat, p, k);
    } else {
      CompleteAfterHit(s, pat, p, m.value, k);
    }
  }

  /** Completeness when the pattern does not match at `p`: the scan moves on by one. */
  lemma {:induction false} CompleteAfterMiss(s: string, pat: Pattern, p: nat, k: nat)
    requires ValidPattern(pat) && p < |s| && MatchAt(s, pat, p).None?
    requires p <= k && MatchAt(s, pat, k).Some?
    ensures CoveredBy(pat, Matches(s, pat, p), k)
    decreases |s| - p, 0
  {
    MatchesComplete(s, pat, p + 1, k);
    CoveredByNext(s, pat, p, k);
  }

  /** Completeness when the pattern matches at `p`: the scan resumes after the suffix. */
  lemma {:induction false} CompleteAfterHit(s: string, pat: Pattern, p: nat, e: nat, k: nat)
    requires ValidPattern(pat) && p < |s| && MatchAt(s, pat, p) == Some(e)
    requires p <= k && MatchAt(s, pat, k).Some?
    ensures CoveredBy(pat, Matches(s, pat, p), k)
    decreases |s| - p, 0
  {
    if k < e + |pat.suffix| {
      CoveredByFirst(s, pat, p, e, k);
    } else {
      MatchesComplete(s, pat, e + |pat.suffix|, k);
      CoveredByLater(s, pat, p, e, k);
    }
  }

  /** The text of one match's group: it has no newline and no suffix. */
  function GroupText(s: string, pat: Pattern, sp: Span): (item: string)
    requires ValidPattern(pat) && IsMatch(s, pat, sp)
    ensures sp.start <= sp.end <= |s| && item == s[sp.start..sp.end]
    ensures '\n' !in item && !Contains(item, pat.suffix)
  {
    var e := GroupEnd(s, pat.suffix, sp.start);
    assert e == Some(sp.end);
    GroupEndFirst(s, pat.suffix, sp.start);
    assert sp.start <= sp.end && OccursAt(s, pat.suffix, sp.end);
    var item := s[sp.start..sp.end];
    assert '\n' !in item by {
      forall k | 0 <= k < |item| ensures item[k] != '\n' {
        assert item[k] == s[sp.start + k];
      }
    }
    assert forall k: nat :: !OccursAt(item, pat.suffix, k) by {
      forall k: nat | OccursAt(item, pat.suffix, k) ensures false {
        OccursInSlice(s, sp.start, sp.end, pat.suffix, k);
      }
    }
    item
  }

  /** `regex.findall(text)`: the group text of every match, in order. */
  function FindAll(text: string, pat: Pattern): (items: seq<string>)
    requires ValidPattern(pat)
    ensures |items| == |Matches(text, pat, 0)|
    ensures forall i :: 0 <= i < |items| ==>
      var sp := Matches(text, pat, 0)[i];
      sp.start <= sp.end <= |text| && items[i] == text[sp.start..sp.end]
    ensures forall i :: 0 <= i < |items| ==> '\n' !in items[i] && !Contains(items[i], pat.suffix)
  {
    var spans := Matches(text, pat, 0);
    MatchesSound(text, pat, 0);
    seq(|spans|, i requires 0 <= i < |spans| => GroupText(text, pat, spans[i]))
  }

  lemma LoggedInMarkerInCoursesMarker()
    ensures Contains(CoursesMarker, LoggedInMarker)
  {
    assert OccursAt(CoursesMarker, LoggedInMarker, 19);
  }

  /**
   * The course entries of the landing page: fails with `CannotConnect` when
   * "My courses" is missing, with `NoCourseList` when the heading is, and
   * otherwise searches only the text between the first heading and the next.
   */
  function ExtractCourseItems(contents: string): (r: Result<seq<string>, DiscoveryError>)
    ensures r == Failure(CannotConnect) <==> !Contains(contents, LoggedInMarker)
    ensures r.Success? <==> Contains(contents, CoursesMarker)
    ensures r.Success? ==> r.value == FindAll(SecondPiece(contents, CoursesMarker).value, CoursePattern)
    ensures r.Success? ==> forall i :: 0 <= i < |r.value| ==> '\n' !in r.value[i] && !Contains(r.value[i], ItemSuffix)
  {
    if !Contains(contents, LoggedInMarker) then
      assert !Contains(contents, CoursesMarker) by {
        if Contains(contents, CoursesMarker) {
          LoggedInMarkerInCoursesMarker();
          ContainsTransitive(contents, CoursesMarker, LoggedInMarker);
        }
      }
      Failure(CannotConnect)
    else
      match SecondPiece(contents, CoursesMarker)
      case None => Failure(NoCourseList)
      case Some(piece) => Success(FindAll(piece, CoursePattern))
  }

  /**
   * `courses.append([course_name, course_link])` for each entry, where
   * `parseEntry` stands for reading the first anchor's text and `href`.
   */
  method BuildCourses(items: seq<string>, parseEntry: string -> Course) returns (courses: seq<Course>)
    ensures |courses| == |items|
    ensures forall i :: 0 <= i < |items| ==> courses[i] == parseEntry(items[i])
  {
    courses := [];
    for n := 0 to |items|
      invariant |courses| == n
      invariant forall i :: 0 <= i < n ==> courses[i] == parseEntry(items[i])
    {
      courses := courses + [parseEntry(items[n])];
    }
  }
}
