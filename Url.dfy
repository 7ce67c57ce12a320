/**
 * How a downloaded resource is named: the final URL after redirects is cut
 * to the text after its last `/`, that text is cut at its first `?`,
 * percent-decoded (`urllib.parse.unquote`, section 2.1 of RFC 3986) and
 * sanitised with `get_valid_filename`.
 */
module Url {
  import opened Text
  import opened Filename

  predicate IsHexDigit(c: char)
  {
    '0' <= c <= '9' || 'a' <= c <= 'f' || 'A' <= c <= 'F'
  }

  function HexValue(c: char): (v: nat)
    requires IsHexDigit(c)
    ensures v < 16
  {
    if '0' <= c <= '9' then c as int - '0' as int
    else if 'a' <= c <= 'f' then c as int - 'a' as int + 10
    else c as int - 'A' as int + 10
  }

  /** The upper-case hexadecimal digit for `v`; `HexValue` reads it back. */
  function HexDigit(v: nat): (c: char)
    requires v < 16
    ensures IsHexDigit(c) && HexValue(c) == v
  {
    if v < 10 then ('0' as int + v) as char else ('A' as int + v - 10) as char
  }

  /** `s` begins with a percent escape: `%` and two hexadecimal digits. */
  predicate StartsWithEscape(s: string)
  {
    |s| >= 3 && s[0] == '%' && IsHexDigit(s[1]) && IsHexDigit(s[2])
  }

  /**
   * `unquote(s)`: every `%HH` becomes the character with code `HH`; a `%`
   * not followed by two hexadecimal digits stays as it is, and decoding
   * resumes right after it. Decoding never lengthens the text and leaves
   * text without `%` alone.
   */
  function Unquote(s: string): (r: string)
    ensures |r| <= |s|
    ensures '%' !in s ==> r == s
  {
    if s == [] then []
    else if StartsWithEscape(s) then [(16 * HexValue(s[1]) + HexValue(s[2])) as char] + Unquote(s[3..])
    else [s[0]] + Unquote(s[1..])
  }

  /** The unreserved characters of section 2.3 of RFC 3986. */
  predicate IsUnreserved(c: char)
  {
    'a' <= c <= 'z' || 'A' <= c <= 'Z' || '0' <= c <= '9' || c == '-' || c == '.' || c == '_' || c == '~'
  }

  /** Percent-encoding of one character; characters past U+00FF are left as they are. */
  function EncodeChar(c: char): (r: string)
  {
    if IsUnreserved(c) || c as int >= 256 then [c]
    else ['%', HexDigit(c as int / 16), HexDigit(c as int % 16)]
  }

  /**
   * The encoding a server applies to a file name when it puts the name in a
   * URL: everything outside the unreserved set (up to U+00FF) is escaped, so
   * no `/`, `?` or bare character needing escape is left.
   */
  function PercentEncode(s: string): (r: string)
    ensures forall i :: 0 <= i < |r| ==> r[i] == '%' || IsUnreserved(r[i]) || r[i] as int >= 256
  {
    if s == [] then [] else EncodeChar(s[0]) + PercentEncode(s[1..])
  }

  /** Decoding undoes encoding. */
  lemma {:induction false} UnquotePercentEncode(s: string)
    ensures Unquote(PercentEncode(s)) == s
  {
    if s != [] {
      var c := s[0];
      var e := PercentEncode(s);
      var rest := PercentEncode(s[1..]);
      assert e == EncodeChar(c) + rest;
      UnquotePercentEncode(s[1..]);
      if IsUnreserved(c) || c as int >= 256 {
        assert e[1..] == rest;
      } else {
        var n := c as int;
        assert e[3..] == rest;
        assert StartsWithEscape(e);
        assert 16 * (n / 16) + n % 16 == n;
      }
    }
  }

  /** `url.split('/')[-1].split('?')[0]` */
  function LastSegment(url: string): (seg: string)
    ensures '/' !in seg && '?' !in seg
  {
    BeforeFirst(AfterLast(url, '/'), '?')
  }

  /**
   * `get_valid_filename(unquote(url.split('/')[-1].split('?')[0]))`: a name
   * made only of `[-\w.]`, so an encoded `%2F` can never put a `/` into it.
   */
  function FileNameFromUrl(url: string): (name: string)
    ensures forall i :: 0 <= i < |name| ==> IsKept(name[i])
    ensures '/' !in name
  {
    Sanitize(Unquote(LastSegment(url)))
  }

  /** A URL that ends in `/` names the empty file. */
  lemma TrailingSlashEmptyName(url: string)
    requires url != [] && url[|url| - 1] == '/'
    ensures FileNameFromUrl(url) == []
  {
  }

  lemma {:induction false} AfterLastAppend(a: string, b: string, sep: char)
    requires sep !in b
    ensures AfterLast(a + b, sep) == AfterLast(a, sep) + b
  {
    if b != [] {
      var b' := b[..|b| - 1];
      assert (a + b)[..|a + b| - 1] == a + b';
      AfterLastAppend(a, b', sep);
      assert b == b' + [b[|b| - 1]];
    } else {
      assert a + b == a;
    }
  }

  lemma {:induction false} BeforeFirstAppend(a: string, b: string, sep: char)
    ensures BeforeFirst(a + [sep] + b, sep) == BeforeFirst(a, sep)
  {
    if a != [] {
      assert (a + [sep] + b)[1..] == a[1..] + [sep] + b;
      BeforeFirstAppend(a[1..], b, sep);
    }
  }

  /** The last path segment does not see a query string without `/`. */
  lemma LastSegmentQuery(path: string, query: string)
    requires '/' !in query
    ensures LastSegment(path + "?" + query) == LastSegment(path)
  {
    var q := ['?'] + query;
    assert path + "?" + query == path + q;
    assert '/' !in q by {
      assert forall i :: 0 < i < |q| ==> q[i] == query[i - 1];
    }
    AfterLastAppend(path, q, '/');
    var a := AfterLast(path, '/');
    assert a + q == a + ['?'] + query;
    BeforeFirstAppend(a, query, '?');
  }

  /**
   * The query string is ignored as long as it has no `/` in it: the name
   * comes from the path alone.
   */
  lemma QueryIgnored(path: string, query: string)
    requires '/' !in query
    ensures FileNameFromUrl(path + "?" + query) == FileNameFromUrl(path)
  {
    LastSegmentQuery(path, query);
  }

  /**
   * Because the URL is split at `/` before it is cut at `?`, a `/` inside the
   * query string moves the name into the query: for `h/f.pdf?x=/g` the name
   * is `g`, not `f.pdf`.
   */
  lemma QueryWithSlash()
    ensures FileNameFromUrl("h/f.pdf?x=/g") == "g"
  {
    var url, head, name := "h/f.pdf?x=/g", "h/f.pdf?x=/", "g";
    assert url == head + name;
    NameAfterLastSlash(head, name);
  }

  /** Whatever precedes the last `/`, a plain valid name after it is the file name. */
  lemma NameAfterLastSlash(head: string, name: string)
    requires head != [] && head[|head| - 1] == '/'
    requires forall i :: 0 <= i < |name| ==> IsKept(name[i])
    requires '%' !in name && '/' !in name && '?' !in name
    ensures FileNameFromUrl(head + name) == name
  {
    AfterLastAppend(head, name, '/');
    assert AfterLast(head, '/') == [];
    BeforeFirstNone(name, '?');
    assert LastSegment(head + name) == name;
    SanitizeValidName(name);
  }

  lemma EncodedHasNoSeparators(s: string)
    ensures '/' !in PercentEncode(s) && '?' !in PercentEncode(s)
  {
  }

  /** The last segment of a URL ending in an encoded name and a query is that encoded name. */
  lemma LastSegmentOfEncoded(prefix: string, fileName: string, query: string)
    requires '/' !in query
    ensures LastSegment(prefix + "/" + PercentEncode(fileName) + "?" + query) == PercentEncode(fileName)
  {
    var e := PercentEncode(fileName);
    EncodedHasNoSeparators(fileName);
    LastSegmentQuery(prefix + "/" + e, query);
    AfterLastAppend(prefix + "/", e, '/');
    assert AfterLast(prefix + "/", '/') == [];
    BeforeFirstNone(e, '?');
  }

  /**
   * End to end: a resource served under the percent-encoding of its file
   * name, with or without a query, is stored under the sanitised file name.
   */
  lemma FileNameOfEncodedName(prefix: string, fileName: string, query: string)
    requires '/' !in query
    ensures FileNameFromUrl(prefix + "/" + PercentEncode(fileName) + "?" + query) == Sanitize(fileName)
  {
    LastSegmentOfEncoded(prefix, fileName, query);
    UnquotePercentEncode(fileName);
  }
}
