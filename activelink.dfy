/**
 * The link-selection routine of the navigation highlighter
 * (js/custom.js, lines 2-7, 23-94 and 97): clear every link's `active`
 * marker, then walk the links in document order and mark the first one that
 * passes any of four strategies.
 *
 * What the routine gets from the browser is passed in explicitly: the raw
 * `window.location.pathname`, the set of element ids in the document
 * (`document.getElementById`), and URL resolution against the page origin
 * (`new URL(href, origin).pathname`, None where the constructor throws).
 */
module ActiveLink {
  import opened Wrappers
  import opened PathNames

  /** The attributes of a navigation anchor; None is an absent attribute. */
  datatype Attrs = Attrs(dataPage: Option<string>, href: Option<string>)

  /** A navigation anchor. Its attributes do not change while the page is
      shown; `active` is the presence of the "active" CSS class. */
  class NavLink {
    const attrs: Attrs
    var active: bool

    constructor (attrs: Attrs, active: bool)
      ensures this.attrs == attrs && this.active == active
    {
      this.attrs := attrs;
      this.active := active;
    }
  }

  /** Everything one run of the routine compares a link against. */
  datatype Env = Env(
    rawPath: string,                      // window.location.pathname at the time of the run
    currentPath: string,                  // normalised path captured when the page loaded
    currentFile: string,                  // filename of currentPath
    ids: set<string>,                     // ids of the elements in the document
    resolve: string -> Option<string>)    // pathname of the href resolved against the origin

  // ---------------------------------------------------------------------
  // What the routine derives from one link (lines 42-55)
  // ---------------------------------------------------------------------

  /** The data-page attribute, read as empty when absent, lower-cased and trimmed. */
  function DataPageKey(dataPage: Option<string>): (r: string)
    ensures dataPage == None ==> r == ""
    ensures r == [] || (!IsAsciiSpace(r[0]) && !IsAsciiSpace(r[|r| - 1]))
  {
    TrimAscii(LowerAscii(if dataPage.Some? then dataPage.value else ""))
  }

  /** The href attribute, read as empty when absent. */
  function HrefText(href: Option<string>): string {
    if href.Some? then href.value else ""
  }

  /** The normalised pathname the link points at; None when its href does
      not parse as a URL. */
  function LinkPath(href: Option<string>, env: Env): (r: Option<string>)
    ensures r.None? <==> env.resolve(HrefText(href)).None?
    ensures r.Some? ==> '?' !in r.value && '#' !in r.value
  {
    match env.resolve(HrefText(href))
    case None => None
    case Some(p) => Some(NormalizePathname(p))
  }

  /** The lower-cased last segment of the link's path; "" when the path is
      missing or empty. */
  function LinkFile(linkPath: Option<string>): (r: string)
    ensures linkPath.None? ==> r == ""
    ensures '/' !in r
    ensures forall i :: 0 <= i < |r| ==> !IsAsciiUpper(r[i])
  {
    if linkPath.Some? && linkPath.value != "" then FileName(linkPath.value) else ""
  }

  // ---------------------------------------------------------------------
  // The four strategies, in the order they are tried (lines 57-92)
  // ---------------------------------------------------------------------

  /** 1) A non-blank data-page equal to the current path, the current
      filename or the raw location pathname. */
  predicate DataPageMatch(a: Attrs, env: Env) {
    var key := DataPageKey(a.dataPage);
    key != "" && (key == env.currentPath || key == env.currentFile || key == env.rawPath)
  }

  /** 2) The link's normalised pathname equals the current path. */
  predicate PathnameMatch(a: Attrs, env: Env) {
    var lp := LinkPath(a.href, env);
    lp.Some? && lp.value != "" && lp.value == env.currentPath
  }

  /** 3) The link's filename equals the current filename. */
  predicate FilenameMatch(a: Attrs, env: Env) {
    var lf := LinkFile(LinkPath(a.href, env));
    lf != "" && lf == env.currentFile
  }

  /** 4) A "#id" link whose target exists and whose own URL, when it parses,
      normalises to the current path. */
  predicate AnchorMatch(a: Attrs, env: Env) {
    var href := HrefText(a.href);
    var url := env.resolve(href);
    && |href| > 0 && href[0] == '#'
    && href[1..] != "" && href[1..] in env.ids
    && (url.None? || NormalizePathname(url.value) == env.currentPath)
  }

  predicate Matches(a: Attrs, env: Env) {
    DataPageMatch(a, env) || PathnameMatch(a, env) || FilenameMatch(a, env) || AnchorMatch(a, env)
  }

  // ---------------------------------------------------------------------
  // Reference definition of the outcome: first match in document order
  // ---------------------------------------------------------------------

  /** Which links pass some strategy, in document order. */
  function MatchVector(ps: seq<Attrs>, env: Env): (ms: seq<bool>)
    ensures |ms| == |ps|
    ensures forall i :: 0 <= i < |ps| ==> ms[i] == Matches(ps[i], env)
  {
    if ps == [] then [] else [Matches(ps[0], env)] + MatchVector(ps[1..], env)
  }

  /** The index of the first `true` at or after `k`. */
  function FirstTrueFrom(ms: seq<bool>, k: nat): (r: Option<nat>)
    requires k <= |ms|
    ensures r.Some? ==> k <= r.value < |ms| && ms[r.value]
    ensures r.Some? ==> forall j :: k <= j < r.value ==> !ms[j]
    ensures r.None? ==> forall j :: k <= j < |ms| ==> !ms[j]
    decreases |ms| - k
  {
    if k == |ms| then None
    else if ms[k] then Some(k)
    else FirstTrueFrom(ms, k + 1)
  }

  /** The index of the link the routine selects, if any. */
  function FirstMatch(ps: seq<Attrs>, env: Env): Option<nat> {
    FirstTrueFrom(MatchVector(ps, env), 0)
  }

  /** First match wins: link `i` is selected exactly when it passes a
      strategy and no earlier link does. */
  lemma FirstMatchWins(ps: seq<Attrs>, env: Env, i: nat)
    requires i < |ps|
    ensures FirstMatch(ps, env) == Some(i) <==>
              Matches(ps[i], env) && forall j :: 0 <= j < i ==> !Matches(ps[j], env)
  {
    var ms := MatchVector(ps, env);
    FirstTrueUnique(ms, i);
  }

  lemma FirstTrueUnique(ms: seq<bool>, i: nat)
    requires i < |ms|
    ensures FirstTrueFrom(ms, 0) == Some(i) <==> ms[i] && forall j :: 0 <= j < i ==> !ms[j]
  {
    var r := FirstTrueFrom(ms, 0);
    if ms[i] && forall j :: 0 <= j < i ==> !ms[j] {
      assert r != None;
      assert !(r.value < i) && !(r.value > i);
    }
  }

  /** Nothing is selected exactly when no link passes any strategy. */
  lemma NoMatchNoSelection(ps: seq<Attrs>, env: Env)
    ensures FirstMatch(ps, env) == None <==> forall j :: 0 <= j < |ps| ==> !Matches(ps[j], env)
  {
    var ms := MatchVector(ps, env);
    var r := FirstTrueFrom(ms, 0);
    if r.Some? {
      assert ms[r.value];
    }
  }

  /** The markers the routine leaves: at most one link is active, the one
      FirstMatch selects. */
  function ActiveFlags(ps: seq<Attrs>, env: Env): (flags: seq<bool>)
    ensures |flags| == |ps|
    ensures forall i, j :: 0 <= i < |ps| && 0 <= j < |ps| && flags[i] && flags[j] ==> i == j
  {
    var m := FirstMatch(ps, env);
    seq(|ps|, i requires 0 <= i < |ps| => m == Some(i))
  }

  /** A link ends active exactly when it passes a strategy and no earlier
      link does; no link ends active exactly when no link passes any. */
  lemma ActiveFlagsMeaning(ps: seq<Attrs>, env: Env)
    ensures forall i :: 0 <= i < |ps| ==>
              (ActiveFlags(ps, env)[i] <==> Matches(ps[i], env) && forall j :: 0 <= j < i ==> !Matches(ps[j], env))
    ensures (forall i :: 0 <= i < |ps| ==> !ActiveFlags(ps, env)[i]) <==>
            (forall i :: 0 <= i < |ps| ==> !Matches(ps[i], env))
  {
    forall i | 0 <= i < |ps|
      ensures ActiveFlags(ps, env)[i] <==> Matches(ps[i], env) && forall j :: 0 <= j < i ==> !Matches(ps[j], env)
    {
      FirstMatchWins(ps, env, i);
      assert ActiveFlags(ps, env)[i] == (FirstMatch(ps, env) == Some(i));
    }
    NoMatchNoSelection(ps, env);
    var m := FirstMatch(ps, env);
    if m.Some? {
      assert ActiveFlags(ps, env)[m.value];
    }
  }

  /** A later link never wins over an earlier one that passes a strategy
      (two links with the same target: the first in document order). */
  lemma EarlierMatchWins(ps: seq<Attrs>, env: Env, i: nat, k: nat)
    requires i < k < |ps| && Matches(ps[i], env)
    ensures FirstMatch(ps, env) != Some(k)
  {
    FirstMatchWins(ps, env, k);
  }

  /** Of two links, the first is marked when it passes a strategy. */
  lemma FirstOfTwoMarked(a: Attrs, b: Attrs, env: Env)
    requires Matches(a, env)
    ensures ActiveFlags([a, b], env) == [true, false]
  {
    var ps := [a, b];
    FirstMatchWins(ps, env, 0);
    var flags := ActiveFlags(ps, env);
    assert flags[0] && !flags[1];
  }

  /** A lone link is marked exactly when it passes a strategy. */
  lemma SoleLinkMarked(a: Attrs, env: Env)
    ensures ActiveFlags([a], env) == [Matches(a, env)]
  {
    var flags := ActiveFlags([a], env);
    assert flags[0] == Matches(a, env);
  }

  // ---------------------------------------------------------------------
  // Properties of the strategies
  // ---------------------------------------------------------------------

  /** An absent or blank data-page never matches by strategy 1. */
  lemma BlankDataPageNeverMatches(a: Attrs, env: Env)
    requires a.dataPage.Some? ==> forall i :: 0 <= i < |a.dataPage.value| ==> IsAsciiSpace(a.dataPage.value[i])
    ensures DataPageKey(a.dataPage) == ""
    ensures !DataPageMatch(a, env)
  {
    var s := if a.dataPage.Some? then a.dataPage.value else "";
    var l := LowerAscii(s);
    assert forall i :: 0 <= i < |l| ==> l[i] == s[i] && IsAsciiSpace(l[i]);
  }

  /** Strategy 1 compares the lower-cased, trimmed data-page, so letter case
      and surrounding white space in the attribute make no difference. */
  lemma DataPageIgnoresCaseAndSpace(s: string, w1: string, w2: string)
    requires forall i :: 0 <= i < |w1| ==> IsAsciiSpace(w1[i])
    requires forall i :: 0 <= i < |w2| ==> IsAsciiSpace(w2[i])
    ensures DataPageKey(Some(w1 + s + w2)) == DataPageKey(Some(LowerAscii(s)))
  {
    LowerAsciiIdempotent(s);
    LowerAsciiAppend(w1, s);
    LowerAsciiAppend(w1 + s, w2);
    var l1, l, l2 := LowerAscii(w1), LowerAscii(s), LowerAscii(w2);
    assert forall i :: 0 <= i < |l1| ==> l1[i] == w1[i];
    assert forall i :: 0 <= i < |l2| ==> l2[i] == w2[i];
    TrimAsciiIgnoresPadding(l, l1, l2);
  }

  /** What each strategy needs of the link: a parsable href for strategies 2
      and 3, a non-empty filename for 3, and for 4 a "#id" href naming an
      existing element whose URL is unparsable or normalises to the current
      path. */
  lemma StrategyConditions(a: Attrs, env: Env)
    ensures PathnameMatch(a, env) ==> env.resolve(HrefText(a.href)).Some?
    ensures FilenameMatch(a, env) ==> env.resolve(HrefText(a.href)).Some? && env.currentFile != ""
    ensures AnchorMatch(a, env) ==>
              var href := HrefText(a.href);
              && |href| > 1 && href[0] == '#' && href[1..] in env.ids
              && (env.resolve(href).None? || NormalizePathname(env.resolve(href).value) == env.currentPath)
  {
  }

  /** Strategy 4 only adds a match where the href does not parse or the
      current path is empty: otherwise strategy 2 already fires. */
  lemma AnchorMatchImpliesPathnameMatch(a: Attrs, env: Env)
    requires AnchorMatch(a, env)
    requires env.resolve(HrefText(a.href)).Some? && env.currentPath != ""
    ensures PathnameMatch(a, env)
  {
  }

  // ---------------------------------------------------------------------
  // The routine over the document's links
  // ---------------------------------------------------------------------

  /** The state of the DOMContentLoaded handler: the navigation links, and
      the current path and filename computed once when the page loaded
      (lines 3-5, 23-24). */
  class Marker {
    const navLinks: seq<NavLink>
    const currentPath: string
    const currentFile: string

    /** `querySelectorAll` yields each element once, and the current
        filename is derived from the current path. */
    ghost predicate Valid() {
      && (forall i, j :: 0 <= i < j < |navLinks| ==> navLinks[i] != navLinks[j])
      && currentFile == FileName(currentPath)
    }

    constructor (links: seq<NavLink>, pathname: string)
      requires forall i, j :: 0 <= i < j < |links| ==> links[i] != links[j]
      ensures Valid()
      ensures navLinks == links
      ensures currentPath == NormalizePathname(pathname)
      ensures currentFile == FileName(currentPath)
    {
      navLinks := links;
      currentPath := NormalizePathname(pathname);
      currentFile := FileName(NormalizePathname(pathname));
    }

    /** The links' attributes, in document order. */
    function Pages(): seq<Attrs> {
      seq(|navLinks|, i requires 0 <= i < |navLinks| => navLinks[i].attrs)
    }

    /** The links' markers, in document order. */
    function Flags(): seq<bool>
      reads navLinks
    {
      seq(|navLinks|, i reads navLinks requires 0 <= i < |navLinks| => navLinks[i].active)
    }

    /** What a run with the given location and document compares against. */
    function RunEnv(rawPath: string, ids: set<string>, resolve: string -> Option<string>): Env {
      Env(rawPath, currentPath, currentFile, ids, resolve)
    }

    /** `clearActive`: remove the marker from every link. */
    method ClearActive()
      modifies navLinks
      ensures forall i :: 0 <= i < |navLinks| ==> !navLinks[i].active
    {
      for i := 0 to |navLinks|
        invariant forall j :: 0 <= j < i ==> !navLinks[j].active
      {
        navLinks[i].active := false;
      }
    }

    /** `matchAndActivate`: the markers end as `ActiveFlags` says, whatever
        they were before, and nothing else about the links changes. */
    method MatchAndActivate(rawPath: string, ids: set<string>, resolve: string -> Option<string>)
      requires Valid()
      modifies navLinks
      ensures Flags() == ActiveFlags(Pages(), RunEnv(rawPath, ids, resolve))
    {
      ClearActive();
      ghost var env := RunEnv(rawPath, ids, resolve);
      ghost var ps := Pages();
      ghost var ms := MatchVector(ps, env);
      var i := 0;
      while i < |navLinks|
        invariant 0 <= i <= |navLinks|
        invariant FirstTrueFrom(ms, i) == FirstMatch(ps, env)
        invariant forall j :: 0 <= j < |navLinks| ==> !navLinks[j].active
      {
        var link := navLinks[i];
        var hit := TryStrategies(link.attrs, rawPath, ids, resolve);
        assert ps[i] == link.attrs;
        assert hit == ms[i];
        if hit {
          link.active := true;
          ActivatedOnly(i, env);
          return;
        }
        i := i + 1;
      }
      assert Flags() == ActiveFlags(ps, env);
    }

    /** The body of the loop over the links: derive what the link points
        at and try the four strategies in order (lines 42-92). Where the
        source marks the link and returns, this returns true. */
    method TryStrategies(a: Attrs, rawPath: string, ids: set<string>, resolve: string -> Option<string>)
      returns (hit: bool)
      ensures hit <==> Matches(a, RunEnv(rawPath, ids, resolve))
    {
      ghost var env := RunEnv(rawPath, ids, resolve);
      var dataPage := DataPageKey(a.dataPage);
      var href := HrefText(a.href);
      var linkUrl := resolve(href);
      var linkPath := if linkUrl.Some? then Some(NormalizePathname(linkUrl.value)) else None;
      var linkFile := LinkFile(linkPath);
      assert linkPath == LinkPath(a.href, env);

      if dataPage != "" {
        if dataPage == currentPath || dataPage == currentFile || dataPage == rawPath {
          return true;
        }
      }
      assert !DataPageMatch(a, env);

      if linkPath.Some? && linkPath.value != "" && linkPath.value == currentPath {
        return true;
      }
      assert !PathnameMatch(a, env);

      if linkFile != "" && linkFile == currentFile {
        return true;
      }
      assert !FilenameMatch(a, env);

      if |href| > 0 && href[0] == '#' {
        var hash := href[1..];
        if hash != "" && hash in ids {
          if linkUrl.None? || NormalizePathname(linkUrl.value) == currentPath {
            return true;
          }
        }
      }
      return false;
    }

    /** After link `i`, the first match, has been marked on a cleared list,
        the markers are exactly `ActiveFlags`. */
    lemma ActivatedOnly(i: nat, env: Env)
      requires Valid()
      requires i < |navLinks| && navLinks[i].active
      requires forall j :: 0 <= j < |navLinks| && j != i ==> !navLinks[j].active
      requires FirstMatch(Pages(), env) == Some(i)
      ensures Flags() == ActiveFlags(Pages(), env)
    {
      var ps := Pages();
      assert forall j :: 0 <= j < |ps| ==> Flags()[j] == ActiveFlags(ps, env)[j];
    }
  }

  /** The DOMContentLoaded handler: with no navigation links it stops;
      otherwise it captures the current path and runs the routine once
      (lines 2-7, 23-24, 97). */
  method OnContentLoaded(links: seq<NavLink>, pathname: string, ids: set<string>,
                         resolve: string -> Option<string>)
    returns (m: Marker?)
    requires forall i, j :: 0 <= i < j < |links| ==> links[i] != links[j]
    modifies links
    ensures links == [] ==> m == null
    ensures links != [] ==> m != null && fresh(m) && m.Valid() && m.navLinks == links
    ensures links != [] ==> m.currentPath == NormalizePathname(pathname)
    ensures links != [] ==> m.currentFile == FileName(m.currentPath)
    ensures links != [] ==> m.Flags() == ActiveFlags(m.Pages(), m.RunEnv(pathname, ids, resolve))
  {
    if |links| == 0 {
      return null;
    }
    m := new Marker(links, pathname);
    m.MatchAndActivate(pathname, ids, resolve);
  }
}
