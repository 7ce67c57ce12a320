# moodle-downloader, modelled in Dafny

`moodle.py` logs in to a Moodle site, reads the list of the user's courses
from the landing page, and then does the following for every course:

- creates a directory named after the course;
- collects the links of the course page's topic sections;
- downloads every link that points to a resource into that directory.

The file name comes from the final URL after redirects. A file that is
already there is skipped, so running the program again writes only what is
new. Every resource link is still fetched again, because its name comes
from the final URL.

This project models that pipeline and proves what it promises:

- **Naming.** What characters `get_valid_filename` lets through, and that
  sanitising twice is the same as once. How a file name is derived from a
  URL, where a trailing `/` gives the empty name and an encoded `%2F`
  never yields a `/`.
- **Pool.** What `execute_function_in_parallel` returns.
- **Course list.** How the course entries are cut out of the landing page:
  the login check, the split at the "My courses" heading, and the lazy
  `re.findall`. Matches are sound, complete, ordered and do not overlap.
- **Downloads.** The decision `download_file` takes for each link. A
  file's contents are the concatenation of the chunks. No file is ever
  overwritten. Each course ends up with exactly one file per derived name.
- **Reruns.** A second run against an unchanged site writes nothing.

The modules follow the structure of the script:

| module | covers |
|---|---|
| `Wrappers` | `Option` and `Result` |
| `Text` | substring search, `strip`, `split(...)[0]` and `split(...)[-1]` |
| `Filename` | `get_valid_filename` |
| `Url` | percent-decoding and the name of a downloaded file |
| `Pool` | `execute_function_in_parallel` |
| `Discovery` | configuration URL, login check, course list |
| `Download` | `download_file` and link flattening, as functions |
| `Store` | the `courses` directory as the class `CourseStore` |

`CourseStore` keeps the directory tree in a field. Its methods update that
field in place with the same steps as `check_course` and `download_file`,
including the chunk-by-chunk write loop. Each method is proved equal to
the functions in `Download` and `Store`, and the lemmas are proved about
those functions.

Four things are parameters of the model rather than computed by it:

- the landing page text;
- the topics of each course page (`pages`);
- what fetching each link returns (`remote`): a transport error, or a
  status code, the final URL and the body's chunks;
- how a course entry is read into a name and a link (`parseEntry`).

Behaviour of `moodle.py` worth noting:

- The URL is split at `/` before it is cut at `?`. A `/` inside the query
  therefore moves the name into the query (`Url.QueryWithSlash`).
- A fetch fails only for status codes 400 to 599 (`raise_for_status`).
  Redirects and other 3xx codes pass.
- `starmap_async(...).get()` returns results in argument order, not in
  completion order (`Pool.ExecuteInOrder`).
- `check_course` catches nothing. An error raised while it runs fails its
  call in the pool. `.get()` re-raises the error only after every chunk of
  calls has finished. So the other courses are still downloaded, except
  those in the same pool chunk (see "## Left out"). The program then
  stops with the error before it logs "Finished".

`CourseStore.DownloadLinks` and `CourseStore.CheckCourses` loop over their
links and courses directly. They stand for the calls of
`execute_function_in_parallel` at moodle.py:165 and moodle.py:168, whose
result is thrown away. That result is always `[]`, because `download_file`
and `check_course` return `None` (`Pool.ExecuteOnlyNone`).

## Model

| member | source | states |
|---|---|---|
| Text.Contains | moodle.py:93 | `sub in s`: the empty string is in every string, and no string longer than `s` is in `s` |
| Text.ContainsIff | moodle.py:93 | `sub in s` holds exactly when `sub` occurs at some position of `s` |
| Text.Find | moodle.py:93 | `sub in s`: the result is the leftmost occurrence, and none means `sub` occurs nowhere |
| Text.Strip | moodle.py:115 | `strip`: the result is a contiguous middle part of the input whose ends are not stripped characters, and everything cut away is a stripped character |
| Text.StripUnique | moodle.py:115 | padding of stripped characters around a core that neither starts nor ends with one strips to exactly that core |
| Text.AfterLast | moodle.py:152 | `split('/')[-1]`: a suffix of the input with no `/`, preceded by a `/` unless it is the whole input |
| Text.BeforeFirst | moodle.py:152 | `split('?')[0]`: a prefix of the input with no `?`, followed by a `?` unless it is the whole input |
| Filename.StripWhitespace | moodle.py:115 | `strip()`: the result is the text right after the leading whitespace, and it neither starts nor ends with whitespace |
| Filename.StripWhitespaceCutAway | moodle.py:115 | everything `strip()` cuts away around the result is whitespace |
| Filename.ReplaceSpaces | moodle.py:115 | `replace(' ', '_')`: the same length, each space becomes `_`, every other character is unchanged |
| Filename.DropDisallowed | moodle.py:116 | the `re.sub` deletion leaves only characters of `[-\w.]` and never lengthens the text |
| Filename.DropDisallowedChars | moodle.py:116 | a character survives the deletion exactly when it is in the input and in `[-\w.]` |
| Filename.Sanitize | moodle.py:114-116 | a sanitised name consists only of `[-\w.]`, so it has no `/`, `\` or space, and it is never longer than the input |
| Filename.SanitizeChars | moodle.py:114-116 | a character is in the result exactly when it is a kept character of the stripped text, or it is `_` and the stripped text had a space |
| Filename.CleanChars | moodle.py:115-116 | after stripping, a character survives the replacement and deletion exactly when it is kept, or it is `_` and the text had a space |
| Filename.SanitizeCore | moodle.py:115-116 | surrounding whitespace of any kind is dropped; inside, a space becomes `_` and other whitespace is deleted |
| Filename.CleanIsPerCharacter | moodle.py:115-116 | after stripping, each character is replaced or deleted on its own and the kept ones stay in order |
| Filename.SanitizeValidName | moodle.py:114-116 | a name made only of `[-\w.]` is returned unchanged |
| Filename.SanitizeIdempotent | moodle.py:114-116 | sanitising a sanitised name changes nothing |
| Filename.SanitizeExample | moodle.py:114-116 | "Intro to CS (2024)" becomes "Intro_to_CS_2024" |
| Url.HexDigit | moodle.py:152 | the hexadecimal digit written for a value reads back as that value |
| Url.Unquote | moodle.py:152 | `unquote` never lengthens the text and leaves text without `%` unchanged |
| Url.UnquotePercentEncode | moodle.py:152 | `unquote` undoes percent-encoding of any name |
| Url.LastSegment | moodle.py:152 | the piece of the URL used for the name contains neither `/` nor `?` |
| Url.FileNameFromUrl | moodle.py:150-152 | the derived file name consists only of `[-\w.]`, so an encoded `%2F` can never put a `/` into it |
| Url.TrailingSlashEmptyName | moodle.py:152 | a URL ending in `/` derives the empty name |
| Url.LastSegmentQuery | moodle.py:152 | a query string without `/` does not change the last segment |
| Url.QueryIgnored | moodle.py:152 | a query string without `/` does not change the file name |
| Url.NameAfterLastSlash | moodle.py:152 | whatever comes before the last `/`, a valid name after it with no `%` or `?` is the file name |
| Url.QueryWithSlash | moodle.py:152 | a `/` inside the query moves the name into the query (`h/f.pdf?x=/g` gives `g`) |
| Url.LastSegmentOfEncoded | moodle.py:152 | the last segment of `prefix/encoded-name?query` is the encoded name |
| Url.FileNameOfEncodedName | moodle.py:150-152 | a file served under its percent-encoded name, with any query without `/`, is stored under its sanitised name |
| Pool.DropNone | moodle.py:64 | the filtered results are no more than the results, every kept value was a result, and every non-`None` result is kept |
| Pool.DropNoneAppend | moodle.py:64 | filtering keeps the order of the results |
| Pool.DropNoneKeepsAll | moodle.py:64 | nothing is dropped exactly when every call returned a value |
| Pool.DropNoneAllNone | moodle.py:64 | results that are all `None` filter to the empty list |
| Pool.MapAll | moodle.py:63 | `starmap_async(...).get()` gives one result per argument tuple, each the function applied to its arguments |
| Pool.ExecuteInParallel | moodle.py:47-64 | a missing function or an empty argument list gives `[]`; otherwise each result came from some argument, each non-`None` result is returned, and the result is no longer than the input |
| Pool.ExecuteCollects | moodle.py:63-64 | a value is returned exactly when some argument produced it |
| Pool.ExecuteInOrder | moodle.py:63-64 | results come back in argument order: running over `a + b` gives the results of `a` followed by those of `b` |
| Pool.ExecuteOnlyNone | moodle.py:63-64 | a function that always returns `None` yields `[]`. This is why `DownloadLinks` and `CheckCourses` may drop the pool's result |
| Discovery.AuthenticationUrl | moodle.py:77 | the configured URL loses its surrounding quotes: neither end of the result is a quote |
| Discovery.AuthenticationUrlQuoted | moodle.py:77 | a URL written between quotes in the configuration is read back exactly |
| Discovery.AuthenticationUrlIdempotent | moodle.py:77 | stripping the quotes again changes nothing |
| Discovery.SecondPiece | moodle.py:96 | `split(heading)[1]` is missing exactly when the heading is absent. Otherwise it is the text right after the first heading up to the next heading or the end. No heading starts anywhere inside it, even one that overlaps its end |
| Discovery.GroupEnd | moodle.py:98 | when the lazy group `(.*?)` succeeds, it ends where a `</li>` begins, at or after its start |
| Discovery.GroupEndFirst | moodle.py:98 | the lazy group ends at the first following `</li>`: no newline and no earlier `</li>` come before its end |
| Discovery.GroupEndNone | moodle.py:98 | the group fails only when a newline comes before every later `</li>` |
| Discovery.MatchAt | moodle.py:98 | a match at a position starts with the literal prefix there |
| Discovery.Matches | moodle.py:98-99 | the scan of `findall` from a position: the first match starts at or after that position, and the last match ends, suffix included, within the text |
| Discovery.MatchesSound | moodle.py:98-99 | every span the scan reports is a match of the pattern |
| Discovery.MatchesOrdered | moodle.py:98-99 | the matches come out left to right and do not overlap |
| Discovery.MatchesComplete | moodle.py:98-99 | wherever the pattern matches, some reported match covers that position |
| Discovery.GroupText | moodle.py:98 | the captured text of a match is the span's text, with no newline and no `</li>` |
| Discovery.FindAll | moodle.py:98-99 | `findall` returns one item per match, in order; each item is the text of its span and has no newline and no `</li>` |
| Discovery.LoggedInMarkerInCoursesMarker | moodle.py:93-96 | the course-list heading contains "My courses", so a page with the heading passes the login check |
| Discovery.ExtractCourseItems | moodle.py:92-99 | fails with `CannotConnect` exactly when "My courses" is absent. It succeeds exactly when the heading is present. Its items are `findall` over the text between the first heading and the next, so they are newline-free and contain no `</li>` |
| Discovery.BuildCourses | moodle.py:102-107 | one course per entry, in order, each read from its entry |
| Download.IsResourceLink | moodle.py:141 | `'resource' in href`; a link shorter than "resource" never qualifies |
| Download.ResourceLinkIff | moodle.py:141 | a link is a resource link exactly when "resource" occurs at some position of it |
| Download.FetchFails | moodle.py:143-148 | a fetch fails when the request raises. A response fails exactly for status 400 to 599 (`raise_for_status`) |
| Download.IsDirectoryName | moodle.py:153-159 | the names `os.path.join` turns into a directory are exactly the empty name and the names of one or two characters that start and end with `.`, that is `.` and `..` |
| Download.NonEmpty | moodle.py:161 | only non-empty chunks pass the `if chunk:` filter, and there are no more of them than chunks |
| Download.ConcatNonEmpty | moodle.py:160-162 | skipping empty keep-alive chunks does not change the file's contents |
| Download.ConcatNonEmptyStep | moodle.py:160-162 | writing one more chunk extends the file by that chunk |
| Download.Decide | moodle.py:137-158 | the outcome for a link, case by case: not a resource exactly when `href` lacks "resource"; fetch failed exactly for a resource whose fetch raises; cannot open for a directory name; found or created exactly otherwise, named from the final URL, found exactly when the name exists |
| Download.TrailingSlashCannotOpen | moodle.py:150-159 | a resource whose final URL ends in `/` derives the empty name, and `open` fails on it |
| Download.Planned | moodle.py:141-152 | a link plans a write exactly when it leads to a file, with the derived name and the whole body |
| Download.Apply | moodle.py:153-163 | an existing file is never touched; a new name adds exactly that one file |
| Download.AfterDownload | moodle.py:137-163 | after one `download_file`, every existing file is unchanged. The directory gains exactly one file, holding the whole body, when the decision is to create it, and is otherwise unchanged |
| Download.Plans | moodle.py:165 | one planned write per link, in link order |
| Download.AfterLinks | moodle.py:165 | downloading a course's links never changes or removes a file already in the directory |
| Download.AfterLinksStep | moodle.py:165 | downloading links one after another: one more link continues from the previous state |
| Download.ApplyAllKeeps | moodle.py:153-165 | files already present keep their contents |
| Download.ApplyAllNames | moodle.py:153-165 | the files afterwards are those before plus one per planned name |
| Download.ApplyAllNoOp | moodle.py:153-165 | when every planned name exists, nothing changes |
| Download.ApplyAllFirstWins | moodle.py:153-165 | among writes planning the same new name, the first decides the contents |
| Download.PlannedNames | moodle.py:141-152 | the planned names are the names of the links that lead to a file |
| Download.AfterLinksFiles | moodle.py:137-165 | after a course's downloads, the directory holds the old files unchanged plus one file per derived name, however many links lead to it |
| Download.AfterLinksNoOp | moodle.py:153-156 | when every derived name is already there, downloading changes nothing |
| Download.RerunIsNoOp | moodle.py:137-165 | downloading a course's links a second time writes nothing |
| Download.FirstLinkWins | moodle.py:137-165 | when several links derive the same new name, the first of them in processing order decides the contents |
| Download.Flatten | moodle.py:131-135 | every collected link comes from some topic |
| Download.FlattenAppend | moodle.py:131-135 | the links of consecutive topic groups are concatenated in order |
| Download.FlattenMembers | moodle.py:131-135 | a link is collected exactly when it is in some topic |
| Download.CollectLinks | moodle.py:131-135 | the collected links are the topics' links in topic order |
| Store.CourseDir | moodle.py:121 | a course directory's name consists only of `[-\w.]` |
| Store.PlanOf | moodle.py:119-165 | a course's plan targets its sanitised directory, and its names are those the course's links derive |
| Store.CourseStep | moodle.py:119-165 | after `check_course`, the course directory holds `AfterLinks` over its flattened links, starting from its old contents or from empty. Every other directory is unchanged |
| Store.CoursePlans | moodle.py:168 | one plan per course, in course order |
| Store.StepEffect | moodle.py:119-165 | one course never deletes or overwrites a file and leaves its files all present |
| Store.StepNoOp | moodle.py:119-165 | a course whose files are all present changes nothing |
| Store.DoneGrows | moodle.py:119-165 | a course whose files are all present stays so as the tree grows |
| Store.RunPlansGrows | moodle.py:168 | the run over the courses never deletes or overwrites a file |
| Store.RunPlansDone | moodle.py:168 | after the run, every course's files are present |
| Store.RunPlansNoOp | moodle.py:168 | when every course's files are present, the run changes nothing |
| Store.AfterCourses | moodle.py:168 | the run over all courses never removes a directory, and every course ends with its directory |
| Store.AfterCoursesGrows | moodle.py:119-168 | the whole run never deletes or overwrites anything on disk |
| Store.AfterCoursesComplete | moodle.py:119-168 | after the whole run, every course directory holds every file its links lead to |
| Store.RerunIsIdempotent | moodle.py:119-168 | running the whole program twice against an unchanged site leaves the same tree as running it once |
| Store.CheckCourseStep | moodle.py:119-165 | creating the directory when needed and then downloading the course's links gives `CourseStep` |
| Store.CheckCoursesStep | moodle.py:168 | one more course continues the run from the previous state |
| Store.DownloadLinksStep | moodle.py:165 | one more link continues a course's downloads from the previous state |
| Store.CourseStore.constructor | moodle.py:109-111 | the store starts from the `courses` directory as found on disk |
| Store.CourseStore.MakeCourseDir | moodle.py:121-123 | returns the sanitised course name, and creates an empty directory of that name only when it is missing |
| Store.CourseStore.DownloadFile | moodle.py:137-163 | `download_file`: returns the outcome `Decide` gives and leaves the directory as `AfterDownload` says; no other directory changes |
| Store.CourseStore.WriteFile | moodle.py:158-163 | the write loop leaves a file holding the concatenation of all chunks |
| Store.CourseStore.DownloadLinks | moodle.py:165 | the course directory ends as `AfterLinks` over the links in order |
| Store.CourseStore.CheckCourse | moodle.py:119-165 | `check_course` leaves the tree as `CourseStep` says |
| Store.CourseStore.CheckCourses | moodle.py:168 | the run over all courses leaves the tree as `AfterCourses` says |

## Left out

- Network and session:
  - The HTTP session, the login `POST` (moodle.py:79-90) and the course-page `GET` (moodle.py:125-126) are not modelled. The landing page text and the topics of each course page (`pages`) are inputs.
  - The resource fetch (moodle.py:144) is the input `remote`. That includes the redirects `requests` follows, which yield the final URL, and the 20-second timeout, which is one of the ways a fetch fails.
- HTML and configuration:
  - BeautifulSoup parsing is not modelled. Reading a course entry's anchor (moodle.py:103-106) is the parameter `parseEntry`. Finding the topic sections and their anchors (moodle.py:128-129, 133) is part of `pages`.
  - Reading `config.ini` (moodle.py:71-76) is not modelled. Only the `strip` of the URL is.
- Concurrency:
  - Thread and process pools are not modelled: their creation, reuse and closing (moodle.py:50-62, 65-66), and the pool sizes.
  - Calls run one after another, in argument order. Interleavings of concurrent downloads are not modelled.
  - Races are not modelled either: two links racing to create the same file name, or two courses racing to create the same directory. `Download.FirstLinkWins` holds for the sequential order only.
- Logging: `log` and `PRINT_MESSAGES_TO_CONSOLE` (moodle.py:21-31) are output only and are left out, as is the final "Finished" message (moodle.py:169).
- Directory layout:
  - Creating the `courses` root directory (moodle.py:109-111) is not modelled. The tree is that directory's contents.
  - A sanitised course name of `""` or `.` denotes the `courses` directory itself, and `..` its parent. The model keys them as ordinary directory names.
- Filename.IsWordChar: `\w` is taken as ASCII letters, digits and `_`. Under `(?u)`, Python also keeps non-ASCII letters and digits, which `Filename.Sanitize` deletes. Unicode character classes are not available to the model.
- Url.Unquote: each `%HH` becomes the single character U+00HH. Python decodes the escaped bytes as UTF-8 and replaces invalid sequences, so names with multi-byte escapes differ. The model has no UTF-8 decoder.
- Store.CourseStore.DownloadFile: `session.get` (moodle.py:144) is called without `stream=True`, so the whole body is read inside the `try`. A read error is therefore a caught fetch failure, which the model covers. Only a disk write error after `open` (moodle.py:159-162) can leave a partial file that later runs skip. Disk write errors are not modelled, so the whole body is always written.
- Download.Decide, on `open` failures: when the derived name is `""`, `.` or `..`, `open` raises (moodle.py:159) outside the `try`. The model records `CannotOpen` and leaves the directory unchanged for that link. What the raised error does to the other links is described in the next line.
- Store.CourseStore.DownloadLinks: the model downloads every link, even after a link has raised. `starmap_async` (moodle.py:63) hands the calls to the pool in chunks. For a pool of 10 threads, a chunk holds ceil(n/40) calls, so 1 call when there are at most 40 links. An error ends its chunk, and the later links of that chunk are not downloaded in that run. The model therefore matches the source only when no link raises, or when the course has at most 40 links. Links raise when `open` fails, as above, and when an anchor has no `href`.
- Store.CourseStore.CheckCourses: in the same way, a `check_course` call that raises ends its chunk of courses when there are more than 40 courses, and the model still runs those courses. A call raises when a download raised, or when the course page fails to load or parse.
- Anchors without an `href`: `'resource' in None` raises (moodle.py:138-141). Every modelled link has an `href` string.
- Course-page failures: a failure to fetch or parse a course page (moodle.py:125-129) raises in `check_course`. In the model, `pages` always yields topics.
- Disk errors other than opening a directory name (full disk, permissions) are not modelled.
