/**
 * `get_valid_filename`: turns a display string (a course name, or the last
 * segment of a download URL) into a name safe to use as a file or directory
 * name. Three steps: strip surrounding whitespace, replace each remaining
 * space by `_`, delete every character outside `-`, `.` and the word
 * characters.
 */
module Filename {
  import opened Text

  /**
   * Python's `str.isspace`, which `str.strip()` with no argument uses:
   * the ASCII controls 9-13 and 28-31, the space, and the Unicode spaces.
   */
  predicate IsWhitespace(c: char)
  {
    || '\t' <= c <= '\r'
    || '\U{1C}' <= c <= ' '
    || c == '\U{85}' || c == '\U{A0}' || c == '\U{1680}'
    || '\U{2000}' <= c <= '\U{200A}'
    || c == '\U{2028}' || c == '\U{2029}' || c == '\U{202F}' || c == '\U{205F}' || c == '\U{3000}'
  }

  /** The regular-expression class `\w`, restricted to ASCII. */
  predicate IsWordChar(c: char)
  {
    'a' <= c <= 'z' || 'A' <= c <= 'Z' || '0' <= c <= '9' || c == '_'
  }

  /** The characters `[-\w.]` that survive the final deletion. */
  predicate IsKept(c: char)
  {
    IsWordChar(c) || c == '-' || c == '.'
  }

  /**
   * `s.strip()`: the part of `s` that starts right after its leading
   * whitespace, and that neither starts nor ends with whitespace
   * (`StripWhitespaceCutAway`: everything cut away around it is whitespace).
   */
  function StripWhitespace(s: string): (r: string)
    ensures LeadingCount(s, IsWhitespace) + |r| <= |s|
    ensures s[LeadingCount(s, IsWhitespace)..LeadingCount(s, IsWhitespace) + |r|] == r
    ensures r == [] || (!IsWhitespace(r[0]) && !IsWhitespace(r[|r| - 1]))
  {
    Strip(s, IsWhitespace)
  }

  /** What `strip()` cuts away around the result is all whitespace. */
  lemma StripWhitespaceCutAway(s: string)
    ensures var n, r := LeadingCount(s, IsWhitespace), StripWhitespace(s);
      forall k :: 0 <= k < |s| && !(n <= k < n + |r|) ==> IsWhitespace(s[k])
  {
  }

  /** `s.replace(' ', '_')` */
  function ReplaceSpaces(s: string): (r: string)
    ensures |r| == |s|
    ensures forall i :: 0 <= i < |s| ==> r[i] == if s[i] == ' ' then '_' else s[i]
  {
    if s == [] then [] else [if s[0] == ' ' then '_' else s[0]] + ReplaceSpaces(s[1..])
  }

  /** `re.sub(r'(?u)[^-\w.]', '', s)` */
  function DropDisallowed(s: string): (r: string)
    ensures |r| <= |s|
    ensures forall i :: 0 <= i < |r| ==> IsKept(r[i])
  {
    if s == [] then []
    else (if IsKept(s[0]) then [s[0]] else []) + DropDisallowed(s[1..])
  }

  /** The deletion keeps exactly the characters of `[-\w.]`. */
  lemma {:induction false} DropDisallowedChars(s: string, c: char)
    ensures c in DropDisallowed(s) <==> c in s && IsKept(c)
  {
    if s != [] {
      DropDisallowedChars(s[1..], c);
      assert s == [s[0]] + s[1..];
    }
  }

  /** `get_valid_filename(s)`: only `[-\w.]` characters remain, so never a separator or a space. */
  function Sanitize(s: string): (r: string)
    ensures forall i :: 0 <= i < |r| ==> IsKept(r[i])
    ensures '/' !in r && '\\' !in r && ' ' !in r
    ensures |r| <= |s|
  {
    DropDisallowed(ReplaceSpaces(StripWhitespace(s)))
  }

  /** What one character of the stripped text turns into. */
  function CleanChar(c: char): (r: string)
  {
    if c == ' ' then "_" else if IsKept(c) then [c] else []
  }

  /** Replacement and deletion act character by character. */
  function Clean(s: string): string
  {
    DropDisallowed(ReplaceSpaces(s))
  }

  lemma {:induction false} CleanAppend(a: string, b: string)
    ensures Clean(a + b) == Clean(a) + Clean(b)
  {
    if a == [] {
      assert a + b == b;
    } else {
      assert (a + b)[1..] == a[1..] + b;
      CleanAppend(a[1..], b);
      assert ReplaceSpaces(a + b)[1..] == ReplaceSpaces((a + b)[1..]);
      assert ReplaceSpaces(a)[1..] == ReplaceSpaces(a[1..]);
    }
  }

  lemma CleanSingle(c: char)
    ensures Clean([c]) == CleanChar(c)
  {
    assert ReplaceSpaces([c])[1..] == [];
  }

  /**
   * Kept characters keep their relative order: the name of a concatenation is
   * the concatenation of the per-character results, as long as the outer
   * whitespace has already been removed.
   */
  lemma {:induction false} CleanIsPerCharacter(s: string, i: nat)
    requires i < |s|
    ensures Clean(s) == Clean(s[..i]) + CleanChar(s[i]) + Clean(s[i + 1..])
  {
    assert s == s[..i] + [s[i]] + s[i + 1..];
    CleanAppend(s[..i] + [s[i]], s[i + 1..]);
    CleanAppend(s[..i], [s[i]]);
    CleanSingle(s[i]);
  }

  /**
   * Surrounding whitespace of any kind is dropped; inside, a space becomes
   * `_`, every other whitespace character (a tab, a newline) is deleted.
   */
  lemma SanitizeCore(x: string, core: string, y: string)
    requires forall k :: 0 <= k < |x| ==> IsWhitespace(x[k])
    requires forall k :: 0 <= k < |y| ==> IsWhitespace(y[k])
    requires core == [] || (!IsWhitespace(core[0]) && !IsWhitespace(core[|core| - 1]))
    ensures Sanitize(x + core + y) == Clean(core)
  {
    StripUnique(x + core + y, IsWhitespace, x, core, y);
  }

  lemma {:induction false} ReplaceSpacesNoSpace(s: string)
    requires ' ' !in s
    ensures ReplaceSpaces(s) == s
  {
  }

  lemma {:induction false} DropDisallowedAllKept(s: string)
    requires forall i :: 0 <= i < |s| ==> IsKept(s[i])
    ensures DropDisallowed(s) == s
  {
    if s != [] {
      DropDisallowedAllKept(s[1..]);
    }
  }

  /** A name made only of `[-\w.]` is left unchanged. */
  lemma SanitizeValidName(s: string)
    requires forall i :: 0 <= i < |s| ==> IsKept(s[i])
    ensures Sanitize(s) == s
  {
    StripKept(s);
    assert ' ' !in s by {
      forall i | 0 <= i < |s| ensures s[i] != ' ' {
        assert IsKept(s[i]);
      }
    }
    ReplaceSpacesNoSpace(s);
    DropDisallowedAllKept(s);
  }

  lemma StripKept(s: string)
    requires forall i :: 0 <= i < |s| ==> IsKept(s[i])
    ensures StripWhitespace(s) == s
  {
    assert s == [] || (!IsWhitespace(s[0]) && !IsWhitespace(s[|s| - 1]));
    assert [] + s + [] == s;
    StripUnique(s, IsWhitespace, [], s, []);
  }

  /** A sanitised name is already valid: sanitising it again changes nothing. */
  lemma SanitizeIdempotent(s: string)
    ensures Sanitize(Sanitize(s)) == Sanitize(s)
  {
    SanitizeValidName(Sanitize(s));
  }

  /**
   * Which characters a sanitised name contains: exactly the kept characters
   * of the stripped text, plus `_` when the stripped text had a space.
   */
  lemma SanitizeChars(s: string, c: char)
    ensures c in Sanitize(s) <==> (IsKept(c) && c in StripWhitespace(s)) || (c == '_' && ' ' in StripWhitespace(s))
  {
    CleanChars(StripWhitespace(s), c);
  }

  lemma CleanChars(t: string, c: char)
    ensures c in Clean(t) <==> (IsKept(c) && c in t) || (c == '_' && ' ' in t)
  {
    var u := ReplaceSpaces(t);
    DropDisallowedChars(u, c);
    if c in u && IsKept(c) {
      var i :| 0 <= i < |u| && u[i] == c;
      assert t[i] in t;
    }
    if c in t && IsKept(c) {
      var i :| 0 <= i < |t| && t[i] == c;
      assert u[i] in u;
    }
    if c == '_' && ' ' in t {
      var i :| 0 <= i < |t| && t[i] == ' ';
      assert u[i] in u;
    }
  }

  lemma CleanParts(a: string, b: string, ra: string, rb: string)
    requires Clean(a) == ra && Clean(b) == rb
    ensures Clean(a + b) == ra + rb
  {
    CleanAppend(a, b);
  }

  lemma ExampleStripped(s: string)
    requires s == "Intro to CS (2024)"
    ensures StripWhitespace(s) == s
  {
    assert [] + s + [] == s;
    StripUnique(s, IsWhitespace, [], s, []);
  }

  lemma ExampleHead()
    ensures Clean("Intro to") == "Intro_to"
  {
  }

  lemma ExampleMiddle()
    ensures Clean(" CS ") == "_CS_"
  {
  }

  lemma ExampleTail()
    ensures Clean("(2024)") == "2024"
  {
  }

  lemma ExampleCleaned(s: string)
    requires s == "Intro to" + " CS " + "(2024)"
    ensures Clean(s) == "Intro_to" + "_CS_" + "2024"
  {
    ExampleHead();
    ExampleMiddle();
    ExampleTail();
    CleanParts("Intro to", " CS ", "Intro_to", "_CS_");
    CleanParts("Intro to" + " CS ", "(2024)", "Intro_to" + "_CS_", "2024");
  }

  /** The worked example: a course called "Intro to CS (2024)". */
  lemma SanitizeExample(s: string)
    requires s == "Intro to CS (2024)"
    ensures Sanitize(s) == "Intro_to_CS_2024"
  {
    ExampleStripped(s);
    assert s == "Intro to" + " CS " + "(2024)";
    ExampleCleaned(s);
    assert "Intro_to" + "_CS_" + "2024" == "Intro_to_CS_2024";
  }
}
