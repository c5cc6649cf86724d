/**
 * Path normalisation and filename derivation of the navigation highlighter
 * (js/custom.js, lines 10-24 and 55), together with the ASCII string
 * operations they rely on.
 */
module PathNames {

  // ---------------------------------------------------------------------
  // String helpers
  // ---------------------------------------------------------------------

  /** The text before the first `c`, or all of `s` when `c` does not occur
      (JavaScript's `s.split(c)[0]`). */
  function BeforeFirst(s: string, c: char): (r: string)
    ensures r <= s
    ensures c !in r
    ensures r == s || s[|r|] == c
  {
    if s == [] then []
    else if s[0] == c then []
    else [s[0]] + BeforeFirst(s[1..], c)
  }

  /** The text after the last `c`, or all of `s` when `c` does not occur
      (JavaScript's `s.split(c).pop()`). */
  function AfterLast(s: string, c: char): (r: string)
    ensures |r| <= |s| && r == s[|s| - |r|..]
    ensures c !in r
    ensures r == s || s[|s| - |r| - 1] == c
  {
    if s == [] then []
    else if s[|s| - 1] == c then []
    else AfterLast(s[..|s| - 1], c) + [s[|s| - 1]]
  }

  predicate IsAsciiUpper(ch: char) {
    'A' <= ch <= 'Z'
  }

  /** The white-space characters of ECMAScript's `trim` that lie in ASCII:
      tab, line feed, vertical tab, form feed, carriage return and space. */
  predicate IsAsciiSpace(ch: char) {
    ch == ' ' || 9 <= ch as int <= 13
  }

  function LowerChar(ch: char): char {
    if IsAsciiUpper(ch) then (ch as int + 32) as char else ch
  }

  /** ASCII `toLowerCase`: capitals become small letters, everything else stays. */
  function LowerAscii(s: string): (r: string)
    ensures |r| == |s|
    ensures forall i :: 0 <= i < |r| ==> !IsAsciiUpper(r[i])
    ensures forall i :: 0 <= i < |s| && !IsAsciiUpper(s[i]) ==> r[i] == s[i]
    ensures forall i :: 0 <= i < |s| && IsAsciiUpper(s[i]) ==> r[i] as int == s[i] as int + 32
  {
    seq(|s|, i requires 0 <= i < |s| => LowerChar(s[i]))
  }

  /** Drops leading ASCII white space. Its properties are stated in
      TrimStartFacts rather than as postconditions, so that unfolding the
      data-page comparison stays cheap. */
  function TrimStart(s: string): string {
    if s != [] && IsAsciiSpace(s[0]) then TrimStart(s[1..]) else s
  }

  /** Drops trailing ASCII white space (properties in TrimEndFacts). */
  function TrimEnd(s: string): string {
    if s != [] && IsAsciiSpace(s[|s| - 1]) then TrimEnd(s[..|s| - 1]) else s
  }

  /** TrimStart removes a prefix made only of white space, and no more. */
  lemma {:induction false} TrimStartFacts(s: string)
    ensures |TrimStart(s)| <= |s| && TrimStart(s) == s[|s| - |TrimStart(s)|..]
    ensures forall i :: 0 <= i < |s| - |TrimStart(s)| ==> IsAsciiSpace(s[i])
    ensures TrimStart(s) == [] || !IsAsciiSpace(TrimStart(s)[0])
  {
    if s != [] && IsAsciiSpace(s[0]) {
      var tail := s[1..];
      TrimStartFacts(tail);
      var t := TrimStart(tail);
      assert TrimStart(s) == t;
      assert s[|s| - |t|..] == tail[|tail| - |t|..];
      forall i | 1 <= i < |s| - |t|
        ensures IsAsciiSpace(s[i])
      {
        assert s[i] == tail[i - 1];
      }
    }
  }

  /** TrimEnd removes a suffix made only of white space, and no more. */
  lemma {:induction false} TrimEndFacts(s: string)
    ensures TrimEnd(s) <= s
    ensures forall i :: |TrimEnd(s)| <= i < |s| ==> IsAsciiSpace(s[i])
    ensures TrimEnd(s) == [] || !IsAsciiSpace(TrimEnd(s)[|TrimEnd(s)| - 1])
  {
    if s != [] && IsAsciiSpace(s[|s| - 1]) {
      TrimEndFacts(s[..|s| - 1]);
    }
  }

  /** ASCII `trim`: the text between the leading and the trailing white space. */
  function TrimAscii(s: string): (r: string)
    ensures |r| <= |s|
    ensures r == [] || (!IsAsciiSpace(r[0]) && !IsAsciiSpace(r[|r| - 1]))
    ensures r == [] <==> forall i :: 0 <= i < |s| ==> IsAsciiSpace(s[i])
  {
    var t := TrimStart(s);
    TrimStartFacts(s);
    TrimEndFacts(t);
    assert forall i :: 0 <= i < |t| ==> t[i] == s[|s| - |t| + i];
    TrimEnd(t)
  }

  lemma LowerAsciiIdempotent(s: string)
    ensures LowerAscii(LowerAscii(s)) == LowerAscii(s)
  {
  }

  lemma LowerAsciiAppend(a: string, b: string)
    ensures LowerAscii(a + b) == LowerAscii(a) + LowerAscii(b)
  {
  }

  /** Removing leading white space from `x + y` goes into `y` only when all
      of `x` is white space. */
  lemma {:induction false} TrimStartAppend(x: string, y: string)
    ensures TrimStart(x + y) == if TrimStart(x) == [] then TrimStart(y) else TrimStart(x) + y
  {
    if x == [] {
      assert x + y == y;
    } else {
      assert (x + y)[0] == x[0];
      assert (x + y)[1..] == x[1..] + y;
      if IsAsciiSpace(x[0]) {
        TrimStartAppend(x[1..], y);
      }
    }
  }

  /** Removing trailing white space from `x + y` goes into `x` only when all
      of `y` is white space. */
  lemma {:induction false} TrimEndAppend(x: string, y: string)
    ensures TrimEnd(x + y) == if TrimEnd(y) == [] then TrimEnd(x) else x + TrimEnd(y)
  {
    if y == [] {
      assert x + y == x;
    } else {
      var n := |x + y|;
      assert (x + y)[n - 1] == y[|y| - 1];
      assert (x + y)[..n - 1] == x + y[..|y| - 1];
      if IsAsciiSpace(y[|y| - 1]) {
        TrimEndAppend(x, y[..|y| - 1]);
      }
    }
  }

  /** A string without white space at either end is its own trim. */
  lemma TrimAsciiKeepsPlain(s: string)
    requires s == [] || (!IsAsciiSpace(s[0]) && !IsAsciiSpace(s[|s| - 1]))
    ensures TrimAscii(s) == s
  {
    assert TrimStart(s) == s;
    assert TrimEnd(s) == s;
  }

  /** White space around a string does not survive trimming. */
  lemma TrimAsciiIgnoresPadding(s: string, w1: string, w2: string)
    requires forall i :: 0 <= i < |w1| ==> IsAsciiSpace(w1[i])
    requires forall i :: 0 <= i < |w2| ==> IsAsciiSpace(w2[i])
    ensures TrimAscii(w1 + s + w2) == TrimAscii(s)
  {
    TrimStartFacts(w1);
    TrimEndFacts(w2);
    assert TrimStart(w1) == [] && TrimEnd(w2) == [];
    assert w1 + s + w2 == w1 + (s + w2);
    TrimStartAppend(w1, s + w2);
    TrimStartAppend(s, w2);
    if TrimStart(s) != [] {
      TrimEndAppend(TrimStart(s), w2);
    }
  }

  // ---------------------------------------------------------------------
  // normalizePathname and the filename derivation
  // ---------------------------------------------------------------------

  /** The path with the query and the fragment cut off (line 13). */
  function StripQueryAndHash(pathname: string): (r: string)
    ensures r <= pathname
    ensures '?' !in r && '#' !in r
    ensures '?' !in pathname && '#' !in pathname ==> r == pathname
  {
    var q := BeforeFirst(pathname, '?');
    var h := BeforeFirst(q, '#');
    assert forall i :: 0 <= i < |h| ==> h[i] == q[i];
    h
  }

  /**
   * `normalizePathname`: the canonical form of a location path. An empty
   * path gives "/"; otherwise the query and fragment are cut off, one
   * trailing slash is removed unless the path is "/", and the root becomes
   * "/index.html".
   */
  function NormalizePathname(pathname: string): (r: string)
    ensures pathname == "" ==> r == "/"
    ensures pathname != "" ==> r != "/"
    ensures '?' !in r && '#' !in r
    ensures r == "/" || r == "/index.html" || r <= pathname
  {
    if pathname == "" then "/"
    else
      var p := StripQueryAndHash(pathname);
      var p' := if p != "/" && |p| > 0 && p[|p| - 1] == '/' then p[..|p| - 1] else p;
      assert p' <= p;
      if p' == "/" then "/index.html" else p'
  }

  /** The filename of a path: its last slash-separated segment, lower-cased (lines 24 and 55). */
  function FileName(path: string): (r: string)
    ensures '/' !in r
    ensures forall i :: 0 <= i < |r| ==> !IsAsciiUpper(r[i])
    ensures |r| <= |path| && r == LowerAscii(path[|path| - |r|..])
    ensures |r| == |path| || path[|path| - |r| - 1] == '/'
  {
    var seg := AfterLast(path, '/');
    LowerAsciiKeepsOut(seg, '/');
    LowerAscii(seg)
  }

  /** Lower-casing brings in no character that is not a small letter. */
  lemma LowerAsciiKeepsOut(s: string, c: char)
    requires c !in s && !('a' <= c <= 'z')
    ensures c !in LowerAscii(s)
  {
    var r := LowerAscii(s);
    forall i | 0 <= i < |r| ensures r[i] != c {
      if !IsAsciiUpper(s[i]) {
        assert r[i] == s[i];
      }
    }
  }

  // ---------------------------------------------------------------------
  // Properties of normalizePathname
  // ---------------------------------------------------------------------

  /** Cutting at the first `c` skips over a prefix that has no `c`. */
  lemma {:induction false} BeforeFirstAppend(a: string, b: string, c: char)
    requires c !in a
    ensures BeforeFirst(a + b, c) == a + BeforeFirst(b, c)
  {
    if a == [] {
      assert a + b == b;
    } else {
      var s := a + b;
      var t := a[1..] + b;
      assert s[0] == a[0] && a[0] != c;
      assert s[1..] == t;
      BeforeFirstAppend(a[1..], b, c);
      assert BeforeFirst(s, c) == [a[0]] + BeforeFirst(t, c);
      assert [a[0]] + (a[1..] + BeforeFirst(b, c)) == a + BeforeFirst(b, c);
    }
  }

  /** A trailing slash after a path without query, fragment or trailing slash
      makes no difference. */
  lemma TrailingSlashInsensitive(p: string)
    requires p != "" && '?' !in p && '#' !in p
    requires p[|p| - 1] != '/'
    ensures NormalizePathname(p + "/") == NormalizePathname(p)
  {
    var s := p + "/";
    assert '?' !in s && '#' !in s;
    assert StripQueryAndHash(s) == s;
    assert s[..|s| - 1] == p;
  }

  /** Exactly one trailing slash is removed: `p + "//"` keeps one slash. */
  lemma OneTrailingSlashRemoved(p: string)
    requires p != "" && '?' !in p && '#' !in p
    ensures NormalizePathname(p + "//") == p + "/"
  {
    var s := p + "//";
    assert '?' !in s && '#' !in s;
    assert StripQueryAndHash(s) == s;
    assert s[..|s| - 1] == p + "/";
    assert |p + "/"| > 1;
  }

  /** Normalisation of a non-empty path looks only at what is left after
      cutting off the query and the fragment. */
  lemma NormalizeByStripped(a: string, b: string)
    requires a != "" && b != "" && StripQueryAndHash(a) == StripQueryAndHash(b)
    ensures NormalizePathname(a) == NormalizePathname(b)
  {
  }

  lemma StripQuery(p: string, q: string)
    requires '?' !in p && '#' !in p
    ensures StripQueryAndHash(p + "?" + q) == p
  {
    assert p + "?" + q == p + ("?" + q);
    BeforeFirstAppend(p, "?" + q, '?');
    assert BeforeFirst("?" + q, '?') == "";
    assert BeforeFirst(p, '#') == p;
  }

  lemma StripHash(p: string, q: string)
    requires '?' !in p && '#' !in p
    ensures StripQueryAndHash(p + "#" + q) == p
  {
    var h := "#" + q;
    assert p + "#" + q == p + h;
    BeforeFirstAppend(p, h, '?');
    assert h[0] == '#' && h[1..] == q;
    var h' := "#" + BeforeFirst(q, '?');
    assert BeforeFirst(h, '?') == h';
    BeforeFirstAppend(p, h', '#');
    assert h'[0] == '#';
    assert BeforeFirst(h', '#') == "";
  }

  /** A query or a fragment after a non-empty path makes no difference. */
  lemma QueryAndHashInsensitive(p: string, q: string)
    requires p != "" && '?' !in p && '#' !in p
    ensures NormalizePathname(p + "?" + q) == NormalizePathname(p)
    ensures NormalizePathname(p + "#" + q) == NormalizePathname(p)
  {
    assert StripQueryAndHash(p) == p;
    StripQuery(p, q);
    StripHash(p, q);
    NormalizeByStripped(p + "?" + q, p);
    NormalizeByStripped(p + "#" + q, p);
  }

  /** A non-empty path without query, fragment or trailing slash is already
      in normal form; with TrailingSlashInsensitive, one trailing slash is
      simply removed. */
  lemma PlainPathUnchanged(p: string)
    requires p != "" && '?' !in p && '#' !in p && p[|p| - 1] != '/'
    ensures NormalizePathname(p) == p
  {
    assert StripQueryAndHash(p) == p;
  }

  /** The root written with one or two slashes names "/index.html"; only the
      empty path gives "/". */
  lemma RootForms()
    ensures NormalizePathname("") == "/"
    ensures NormalizePathname("/") == "/index.html"
    ensures NormalizePathname("//") == "/index.html"
  {
    assert StripQueryAndHash("/") == "/";
    assert StripQueryAndHash("//") == "//";
    assert "//"[..1] == "/";
  }

  /** The root followed by a query or a fragment names "/index.html". */
  lemma RootWithQueryOrHash(q: string)
    ensures NormalizePathname("/?" + q) == "/index.html"
    ensures NormalizePathname("/#" + q) == "/index.html"
  {
    QueryAndHashInsensitive("/", q);
    assert StripQueryAndHash("/") == "/";
    assert "/?" + q == "/" + "?" + q;
    assert "/#" + q == "/" + "#" + q;
  }

  /** Lower-casing leaves a string without capitals as it is. */
  lemma LowerAsciiOfLower(s: string)
    requires forall i :: 0 <= i < |s| ==> !IsAsciiUpper(s[i])
    ensures LowerAscii(s) == s
  {
  }

  /** The text after the last `c` of `x + [c] + y`, where `y` has no `c`, is `y`. */
  lemma {:induction false} AfterLastSeparator(x: string, y: string, c: char)
    requires c !in y
    ensures AfterLast(x + [c] + y, c) == y
  {
    var s := x + [c] + y;
    if y == [] {
      assert s[|s| - 1] == c;
    } else {
      assert s[|s| - 1] == y[|y| - 1] != c;
      assert s[..|s| - 1] == x + [c] + y[..|y| - 1];
      AfterLastSeparator(x, y[..|y| - 1], c);
      assert y[..|y| - 1] + [y[|y| - 1]] == y;
    }
  }

  /** The filename of a path is its lower-cased text after the last slash. */
  lemma FileNameAfterSlash(dir: string, name: string)
    requires '/' !in name
    ensures FileName(dir + "/" + name) == LowerAscii(name)
  {
    AfterLastSeparator(dir, name, '/');
  }

  /** A name without slashes or capitals is its own filename under any directory. */
  lemma FileNameOfPlainName(dir: string, name: string)
    requires '/' !in name
    requires forall i :: 0 <= i < |name| ==> !IsAsciiUpper(name[i])
    ensures FileName(dir + "/" + name) == name
  {
    FileNameAfterSlash(dir, name);
    LowerAsciiOfLower(name);
  }
}
