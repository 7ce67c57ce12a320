/**
 * The decision `download_file` takes for one link of a course page, what it
 * leaves in the course directory, the same over all links of a course
 * (`execute_function_in_parallel(download_file, ...)`, run one link after
 * another), and the flattening of the course page's topics into one list
 * of links.
 */
module Download {
  import opened Wrappers
  import opened Text
  import opened Url

  newtype byte = x: int | 0 <= x < 256

  type Bytes = seq<byte>

  /** A course directory: the files in it by name, with their contents. */
  type Directory = map<string, Bytes>

  /** An anchor of a course page; only its `href` is used. */
  datatype Link = Link(href: string)

  /** What `session.get(href, timeout=20)` gives back. */
  datatype Fetch =
    | TransportError
      // the request raised: no connection, timeout, too many redirects
    | Response(status: nat, finalUrl: string, chunks: seq<Bytes>)
      // `webFile.status_code`, `webFile.url` after redirects, `iter_content(512 * 1024)`

  /** The remote side, fixed for a run: what fetching each `href` gives. */
  type Remote = string -> Fetch

  /** Only links to resources are downloaded; forums, folders and the like are not. */
  const ResourceMarker := "resource"

  /** `'resource' in href`; a link shorter than the marker never qualifies. */
  predicate IsResourceLink(href: string): (b: bool)
    ensures b ==> |href| >= |ResourceMarker|
  {
    Contains(href, ResourceMarker)
  }

  /** A link is a resource link exactly when the marker occurs at some position of it. */
  lemma ResourceLinkIff(href: string)
    ensures IsResourceLink(href) <==> exists k :: OccursAt(href, ResourceMarker, k)
  {
    ContainsIff(href, ResourceMarker);
  }

  /** `raise_for_status()` raises for 4xx client and 5xx server errors. */
  predicate FetchFails(f: Fetch): (b: bool)
    ensures f.TransportError? ==> b
    ensures f.Response? ==> (b <==> 400 <= f.status < 600)
  {
    f.TransportError? || 400 <= f.status < 600
  }

  /**
   * What happened to one link. Every outcome but `NotResource` is logged;
   * `CannotOpen` is where the source's `open` raises instead of returning.
   */
  datatype Outcome =
    | NotResource           // not fetched at all
    | FetchFailed           // "Could not download link ..."
    | CannotOpen(name: string)   // `open` fails: the name denotes the course directory itself or its parent
    | FileFound(name: string)    // "File found : ..."
    | FileCreated(name: string)  // "Creating file : ..."

  /** The body as written to disk: the chunks one after another. */
  function Concat(chunks: seq<Bytes>): Bytes
  {
    if chunks == [] then [] else Concat(chunks[..|chunks| - 1]) + chunks[|chunks| - 1]
  }

  /** The chunks `if chunk:` lets through. */
  function NonEmpty(chunks: seq<Bytes>): (r: seq<Bytes>)
    ensures forall i :: 0 <= i < |r| ==> r[i] != []
    ensures |r| <= |chunks|
  {
    if chunks == [] then []
    else NonEmpty(chunks[..|chunks| - 1]) + (if chunks[|chunks| - 1] == [] then [] else [chunks[|chunks| - 1]])
  }

  lemma {:induction false} ConcatAppend(a: seq<Bytes>, b: seq<Bytes>)
    ensures Concat(a + b) == Concat(a) + Concat(b)
    decreases |b|
  {
    if b == [] {
      assert a + b == a;
    } else {
      assert (a + b)[..|a + b| - 1] == a + b[..|b| - 1];
      ConcatAppend(a, b[..|b| - 1]);
    }
  }

  /** Skipping the empty keep-alive chunks does not change what is written. */
  lemma {:induction false} ConcatNonEmpty(chunks: seq<Bytes>)
    ensures Concat(NonEmpty(chunks)) == Concat(chunks)
  {
    if chunks != [] {
      var init := chunks[..|chunks| - 1];
      var last := chunks[|chunks| - 1];
      ConcatNonEmpty(init);
      ConcatAppend(NonEmpty(init), if last == [] then [] else [last]);
      assert Concat([last]) == Concat([]) + last;
    }
  }

  /** Writing one more chunk, empty or not, extends what was written by that chunk. */
  lemma ConcatNonEmptyStep(chunks: seq<Bytes>, i: nat)
    requires i < |chunks|
    ensures Concat(NonEmpty(chunks[..i + 1])) == Concat(NonEmpty(chunks[..i])) + chunks[i]
  {
    var written := NonEmpty(chunks[..i]);
    assert chunks[..i + 1][..i] == chunks[..i];
    if chunks[i] != [] {
      assert (written + [chunks[i]])[..|written|] == written;
    } else {
      assert written + [] == written;
    }
  }

  /** The name the file gets: derived from the final URL, never from the link itself. */
  function NameOf(f: Fetch): string
    requires f.Response?
  {
    FileNameFromUrl(f.finalUrl)
  }

  /** A link that leads to a successful fetch, so that a file name is derived for it. */
  predicate Fetched(href: string, remote: Remote)
  {
    IsResourceLink(href) && !FetchFails(remote(href))
  }

  /**
   * Names that `os.path.join(course_dirname, name)` turns into a directory:
   * `isfile` is false for them and `open(..., 'wb')` raises.
   */
  predicate IsDirectoryName(name: string): (b: bool)
    ensures b <==> name == [] || (|name| <= 2 && name[0] == '.' && name[|name| - 1] == '.')
  {
    name == "" || name == "." || name == ".."
  }

  /** A link whose download creates a file, unless one of that name is already there. */
  predicate Eligible(href: string, remote: Remote)
  {
    Fetched(href, remote) && !IsDirectoryName(NameOf(remote(href)))
  }

  /**
   * The decision of `download_file` for one link: ignore it unless it is a
   * resource link, give up when the fetch fails, fail to open a name that
   * denotes a directory, skip it when a file of the derived name is
   * already there, and create the file otherwise.
   */
  function Decide(dir: Directory, href: string, remote: Remote): (o: Outcome)
    ensures o == NotResource <==> !IsResourceLink(href)
    ensures o == FetchFailed <==> IsResourceLink(href) && FetchFails(remote(href))
    ensures o.CannotOpen? <==> Fetched(href, remote) && IsDirectoryName(NameOf(remote(href)))
    ensures o.FileFound? || o.FileCreated? <==> Eligible(href, remote)
    ensures o.CannotOpen? || o.FileFound? || o.FileCreated? ==> o.name == NameOf(remote(href))
    ensures o.FileFound? ==> o.name in dir
    ensures o.FileCreated? ==> o.name !in dir
  {
    if !IsResourceLink(href) then NotResource
    else if FetchFails(remote(href)) then FetchFailed
    else if IsDirectoryName(NameOf(remote(href))) then CannotOpen(NameOf(remote(href)))
    else if NameOf(remote(href)) in dir then FileFound(NameOf(remote(href)))
    else FileCreated(NameOf(remote(href)))
  }

  /** A resource whose final URL ends in `/` derives the empty name, which `open` refuses. */
  lemma TrailingSlashCannotOpen(dir: Directory, href: string, remote: Remote)
    requires Fetched(href, remote)
    requires remote(href).finalUrl != [] && remote(href).finalUrl[|remote(href).finalUrl| - 1] == '/'
    ensures Decide(dir, href, remote) == CannotOpen("")
  {
    TrailingSlashEmptyName(remote(href).finalUrl);
  }

  /** A file to be written: its name and its whole contents. */
  datatype Write = Write(name: string, contents: Bytes)

  /** The file a link leads to, if any: nothing unless it is a resource that fetched successfully. */
  function Planned(href: string, remote: Remote): (w: Option<Write>)
    ensures w.Some? <==> Eligible(href, remote)
    ensures w.Some? ==> w.value.name == NameOf(remote(href)) && w.value.contents == Concat(remote(href).chunks)
  {
    if Eligible(href, remote) then Some(Write(NameOf(remote(href)), Concat(remote(href).chunks))) else None
  }

  /** A planned write takes effect only when no file of that name exists. */
  function Apply(dir: Directory, w: Option<Write>): (d: Directory)
    ensures forall n :: n in dir ==> n in d && d[n] == dir[n]
    ensures w.Some? && w.value.name !in dir ==> d.Keys == dir.Keys + {w.value.name} && d[w.value.name] == w.value.contents
    ensures !(w.Some? && w.value.name !in dir) ==> d == dir
  {
    if w.Some? && w.value.name !in dir then dir[w.value.name := w.value.contents] else dir
  }

  /**
   * The directory after `download_file` for one link: at most one new file,
   * holding the whole body, and only when `Decide` says it is created;
   * nothing already there is touched.
   */
  function AfterDownload(dir: Directory, href: string, remote: Remote): (d: Directory)
    ensures forall n :: n in dir ==> n in d && d[n] == dir[n]
    ensures Decide(dir, href, remote).FileCreated? ==>
      var n := Decide(dir, href, remote).name;
      d.Keys == dir.Keys + {n} && d[n] == Concat(remote(href).chunks)
    ensures !Decide(dir, href, remote).FileCreated? ==> d == dir
  {
    Apply(dir, Planned(href, remote))
  }

  /** The planned writes of a sequence of links, in order. */
  function Plans(links: seq<Link>, remote: Remote): (ws: seq<Option<Write>>)
    ensures |ws| == |links|
    ensures forall i :: 0 <= i < |links| ==> ws[i] == Planned(links[i].href, remote)
  {
    seq(|links|, i requires 0 <= i < |links| => Planned(links[i].href, remote))
  }

  /** The planned writes applied one after another. */
  function ApplyAll(dir: Directory, ws: seq<Option<Write>>): Directory
  {
    if ws == [] then dir else Apply(ApplyAll(dir, ws[..|ws| - 1]), ws[|ws| - 1])
  }

  /** The directory after `download_file` has run for each link in turn. */
  function AfterLinks(dir: Directory, links: seq<Link>, remote: Remote): (d: Directory)
    ensures forall n :: n in dir ==> n in d && d[n] == dir[n]
  {
    ApplyAllKeeps(dir, Plans(links, remote));
    ApplyAll(dir, Plans(links, remote))
  }

  /** Downloading one more link continues from where the previous links left the directory. */
  lemma AfterLinksStep(dir: Directory, links: seq<Link>, remote: Remote, i: nat)
    requires i < |links|
    ensures AfterLinks(dir, links[..i + 1], remote) == AfterDownload(AfterLinks(dir, links[..i], remote), links[i].href, remote)
  {
    var ws := Plans(links[..i + 1], remote);
    assert ws[..i] == Plans(links[..i], remote);
  }

  /** The names of the planned writes. */
  function Names(ws: seq<Option<Write>>): set<string>
  {
    set i | 0 <= i < |ws| && ws[i].Some? :: ws[i].value.name
  }

  /** Files are never overwritten: every file already present keeps its contents. */
  lemma {:induction false} ApplyAllKeeps(dir: Directory, ws: seq<Option<Write>>)
    ensures forall n :: n in dir ==> n in ApplyAll(dir, ws) && ApplyAll(dir, ws)[n] == dir[n]
  {
    if ws != [] {
      ApplyAllKeeps(dir, ws[..|ws| - 1]);
    }
  }

  /** The files afterwards are those before plus one per planned name. */
  lemma {:induction false} ApplyAllNames(dir: Directory, ws: seq<Option<Write>>)
    ensures ApplyAll(dir, ws).Keys == dir.Keys + Names(ws)
  {
    if ws != [] {
      var init := ws[..|ws| - 1];
      var last := ws[|ws| - 1];
      ApplyAllNames(dir, init);
      assert forall i :: 0 <= i < |init| ==> init[i] == ws[i];
      if last.Some? {
        assert Names(ws) == Names(init) + {last.value.name} by {
          forall n | n in Names(ws) ensures n in Names(init) + {last.value.name} {
            var i :| 0 <= i < |ws| && ws[i].Some? && n == ws[i].value.name;
            if i < |init| {
              assert n in Names(init);
            }
          }
          assert ws[|ws| - 1].Some?;
        }
      } else {
        assert Names(ws) == Names(init) by {
          forall n | n in Names(ws) ensures n in Names(init) {
            var i :| 0 <= i < |ws| && ws[i].Some? && n == ws[i].value.name;
            assert i < |init|;
          }
        }
      }
    }
  }

  /** When every planned name is already taken, nothing changes. */
  lemma {:induction false} ApplyAllNoOp(dir: Directory, ws: seq<Option<Write>>)
    requires Names(ws) <= dir.Keys
    ensures ApplyAll(dir, ws) == dir
  {
    if ws != [] {
      var init := ws[..|ws| - 1];
      assert Names(init) <= Names(ws) by {
        forall n | n in Names(init) ensures n in Names(ws) {
          var i :| 0 <= i < |init| && init[i].Some? && n == init[i].value.name;
          assert init[i] == ws[i];
        }
      }
      ApplyAllNoOp(dir, init);
      if ws[|ws| - 1].Some? {
        assert ws[|ws| - 1].value.name in Names(ws);
      }
    }
  }

  /** When several writes plan the same new name, the first of them decides the contents. */
  lemma {:induction false} ApplyAllFirstWins(dir: Directory, ws: seq<Option<Write>>, i: nat)
    requires i < |ws| && ws[i].Some? && ws[i].value.name !in dir
    requires forall j :: 0 <= j < i && ws[j].Some? ==> ws[j].value.name != ws[i].value.name
    ensures ws[i].value.name in ApplyAll(dir, ws)
    ensures ApplyAll(dir, ws)[ws[i].value.name] == ws[i].value.contents
  {
    var init := ws[..|ws| - 1];
    if i == |ws| - 1 {
      ApplyAllNames(dir, init);
      assert forall j :: 0 <= j < |init| ==> init[j] == ws[j];
      assert ws[i].value.name !in Names(init);
    } else {
      assert forall j :: 0 <= j <= i ==> init[j] == ws[j];
      ApplyAllFirstWins(dir, init, i);
      ApplyAllKeeps(ApplyAll(dir, init), [ws[|ws| - 1]]);
      assert [ws[|ws| - 1]][..0] == [];
    }
  }

  /** The planned names of a course's links are the names its eligible links derive. */
  lemma PlannedNames(links: seq<Link>, remote: Remote)
    ensures Names(Plans(links, remote)) == EligibleNames(links, remote)
  {
    var ws := Plans(links, remote);
    forall n | n in Names(ws) ensures n in EligibleNames(links, remote) {
      var i :| 0 <= i < |ws| && ws[i].Some? && n == ws[i].value.name;
      assert Eligible(links[i].href, remote);
    }
    forall n | n in EligibleNames(links, remote) ensures n in Names(ws) {
      var i :| 0 <= i < |links| && Eligible(links[i].href, remote) && n == NameOf(remote(links[i].href));
      assert ws[i].Some?;
    }
  }

  /** The names of the files the links lead to. */
  function EligibleNames(links: seq<Link>, remote: Remote): set<string>
  {
    set i | 0 <= i < |links| && Eligible(links[i].href, remote) :: NameOf(remote(links[i].href))
  }

  /**
   * Downloading a course's links keeps every file already there and adds
   * exactly one file per name derived from a link that fetched
   * successfully, however many links lead to it.
   */
  lemma AfterLinksFiles(dir: Directory, links: seq<Link>, remote: Remote)
    ensures AfterLinks(dir, links, remote).Keys == dir.Keys + EligibleNames(links, remote)
    ensures forall n :: n in dir ==> AfterLinks(dir, links, remote)[n] == dir[n]
  {
    ApplyAllNames(dir, Plans(links, remote));
    ApplyAllKeeps(dir, Plans(links, remote));
    PlannedNames(links, remote);
  }

  /** When every file a link would create is already there, nothing changes. */
  lemma AfterLinksNoOp(dir: Directory, links: seq<Link>, remote: Remote)
    requires EligibleNames(links, remote) <= dir.Keys
    ensures AfterLinks(dir, links, remote) == dir
  {
    PlannedNames(links, remote);
    ApplyAllNoOp(dir, Plans(links, remote));
  }

  /**
   * Running the downloads of a course a second time against the same remote
   * side writes nothing: every file was created by the first run or was
   * already there.
   */
  lemma RerunIsNoOp(dir: Directory, links: seq<Link>, remote: Remote)
    ensures AfterLinks(AfterLinks(dir, links, remote), links, remote) == AfterLinks(dir, links, remote)
  {
    AfterLinksFiles(dir, links, remote);
    AfterLinksNoOp(AfterLinks(dir, links, remote), links, remote);
  }

  /**
   * When several links lead to the same new name, the first of them in the
   * order they are processed decides the contents.
   */
  lemma FirstLinkWins(dir: Directory, links: seq<Link>, remote: Remote, i: nat)
    requires i < |links| && Eligible(links[i].href, remote)
    requires NameOf(remote(links[i].href)) !in dir
    requires forall j :: 0 <= j < i && Eligible(links[j].href, remote) ==>
      NameOf(remote(links[j].href)) != NameOf(remote(links[i].href))
    ensures NameOf(remote(links[i].href)) in AfterLinks(dir, links, remote)
    ensures AfterLinks(dir, links, remote)[NameOf(remote(links[i].href))] == Concat(remote(links[i].href).chunks)
  {
    var ws := Plans(links, remote);
    var n := NameOf(remote(links[i].href));
    assert ws[i] == Some(Write(n, Concat(remote(links[i].href).chunks)));
    forall j | 0 <= j < i && ws[j].Some? ensures ws[j].value.name != n {
      assert Eligible(links[j].href, remote);
    }
    ApplyAllFirstWins(dir, ws, i);
  }

  /** `course_links.extend(links)` for each topic in turn: the topics' links in order. */
  function Flatten(topics: seq<seq<Link>>): (links: seq<Link>)
    ensures forall l :: l in links ==> exists t :: 0 <= t < |topics| && l in topics[t]
  {
    if topics == [] then [] else Flatten(topics[..|topics| - 1]) + topics[|topics| - 1]
  }

  lemma {:induction false} FlattenAppend(a: seq<seq<Link>>, b: seq<seq<Link>>)
    ensures Flatten(a + b) == Flatten(a) + Flatten(b)
    decreases |b|
  {
    if b == [] {
      assert a + b == a;
    } else {
      assert (a + b)[..|a + b| - 1] == a + b[..|b| - 1];
      FlattenAppend(a, b[..|b| - 1]);
    }
  }

  /** A link is collected exactly when it is in one of the topics. */
  lemma {:induction false} FlattenMembers(topics: seq<seq<Link>>, l: Link)
    ensures l in Flatten(topics) <==> exists t :: 0 <= t < |topics| && l in topics[t]
  {
    if topics != [] {
      var init := topics[..|topics| - 1];
      FlattenMembers(init, l);
      assert forall t :: 0 <= t < |init| ==> init[t] == topics[t];
    }
  }

  /**
   * The loop of `check_course` over the topics: the links of each topic
   * that has any are appended, so the result is the topics' links in topic
   * order.
   */
  method CollectLinks(topics: seq<seq<Link>>) returns (courseLinks: seq<Link>)
    ensures courseLinks == Flatten(topics)
  {
    courseLinks := [];
    for t := 0 to |topics|
      invariant courseLinks == Flatten(topics[..t])
    {
      var links := topics[t];
      assert topics[..t + 1][..t] == topics[..t];
      if links != [] {
        courseLinks := courseLinks + links;
      }
    }
    assert topics[..|topics|] == topics;
  }
}
