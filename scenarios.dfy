/**
 * Consequences of the model in typical situations: a trailing slash on the
 * current location, a data-page override, ties, fragment links, and
 * re-running the routine.
 */
module Scenarios {
  import opened Wrappers
  import opened PathNames
  import opened ActiveLink

  /** With the location `p + "/"`, a link whose href resolves to `p` is
      marked and a second link is not, whatever it points at (on the links
      "/about" and "/contact" with the location "/about/", only "/about"). */
  lemma TrailingSlashLocationMarksLink(p: string, other: Attrs, ids: set<string>,
                                       resolve: string -> Option<string>)
    requires p != "" && '?' !in p && '#' !in p && p[|p| - 1] != '/'
    requires resolve(p) == Some(p)
    ensures var env := Env(p + "/", NormalizePathname(p + "/"),
                           FileName(NormalizePathname(p + "/")), ids, resolve);
            ActiveFlags([Attrs(None, Some(p)), other], env) == [true, false]
  {
    var env := Env(p + "/", NormalizePathname(p + "/"),
                   FileName(NormalizePathname(p + "/")), ids, resolve);
    var ps := [Attrs(None, Some(p)), other];
    TrailingSlashInsensitive(p);
    assert StripQueryAndHash(p) == p;
    assert env.currentPath == p;
    assert PathnameMatch(ps[0], env);
    FirstOfTwoMarked(ps[0], other, env);
  }

  /** The filename of the root page is "index.html". */
  lemma RootFileName()
    ensures FileName("/index.html") == "index.html"
  {
    IndexNameIsPlain();
    FileNameOfPlainName("", "index.html");
    assert "" + "/" + "index.html" == "/index.html";
  }

  lemma IndexNameIsPlain()
    ensures '/' !in "index.html"
    ensures forall i :: 0 <= i < |"index.html"| ==> !IsAsciiUpper("index.html"[i])
  {
  }

  /** A link whose data-page names the current file is marked although its
      href may point anywhere; letter case and white space around the
      attribute do not matter. */
  lemma DataPageOverridesHref(name: string, w1: string, w2: string, href: Option<string>,
                              env: Env)
    requires forall i :: 0 <= i < |w1| ==> IsAsciiSpace(w1[i])
    requires forall i :: 0 <= i < |w2| ==> IsAsciiSpace(w2[i])
    requires name != "" && !IsAsciiSpace(name[0]) && !IsAsciiSpace(name[|name| - 1])
    requires env.currentFile == LowerAscii(name)
    ensures ActiveFlags([Attrs(Some(w1 + name + w2), href)], env) == [true]
  {
    var ps := [Attrs(Some(w1 + name + w2), href)];
    DataPageIgnoresCaseAndSpace(name, w1, w2);
    var l := LowerAscii(name);
    LowerAsciiIdempotent(name);
    TrimAsciiKeepsPlain(l);
    assert DataPageKey(ps[0].dataPage) == l;
    assert DataPageMatch(ps[0], env);
    SoleLinkMarked(ps[0], env);
  }

  /** On the root page a fragment link is marked by strategy 2, because its
      URL resolves to the root, whether or not its target element exists. */
  lemma FragmentLinkMatchesOnRoot(fragment: string, ids: set<string>,
                                  resolve: string -> Option<string>)
    requires resolve("#" + fragment) == Some("/")
    ensures PathnameMatch(Attrs(None, Some("#" + fragment)),
                          Env("/", "/index.html", "index.html", ids, resolve))
  {
    assert StripQueryAndHash("/") == "/";
  }

  /** A location `dir + "/index.html"` is its own current path, its filename
      is "index.html", and it is not the root file. */
  lemma IndexPageBelowRoot(dir: string)
    requires dir != "" && '?' !in dir && '#' !in dir
    ensures var location := dir + "/index.html";
            && NormalizePathname(location) == location
            && FileName(location) == "index.html"
            && location != "/index.html"
  {
    var location := dir + "/index.html";
    IndexLocationIsPlain(dir);
    PlainPathUnchanged(location);
    IndexNameIsPlain();
    FileNameOfPlainName(dir, "index.html");
  }

  lemma IndexLocationIsPlain(dir: string)
    requires dir != "" && '?' !in dir && '#' !in dir
    ensures var location := dir + "/index.html";
            && location == dir + "/" + "index.html"
            && location != "" && location[|location| - 1] != '/'
            && '?' !in location && '#' !in location
            && location != "/index.html"
  {
    var location := dir + "/index.html";
    assert location[|location| - 1] == 'l';
    assert |location| > |"/index.html"|;
  }

  /** A fragment link resolving to the root has the path "/index.html" and
      the filename "index.html". */
  lemma RootFragmentLink(fragment: string, env: Env)
    requires env.resolve("#" + fragment) == Some("/")
    ensures LinkPath(Some("#" + fragment), env) == Some("/index.html")
    ensures LinkFile(LinkPath(Some("#" + fragment), env)) == "index.html"
  {
    assert NormalizePathname("/") == "/index.html" by {
      assert StripQueryAndHash("/") == "/";
    }
    assert LinkFile(Some("/index.html")) == "index.html" by {
      RootFileName();
    }
  }

  /** At the location `dir + "/index.html"` below the root, a fragment link
      is marked by strategy 3 although its own path "/index.html" differs
      from the current path: only the filenames are compared. */
  lemma FragmentLinkMatchesIndexElsewhere(fragment: string, dir: string,
                                          ids: set<string>, resolve: string -> Option<string>)
    requires resolve("#" + fragment) == Some("/")
    requires dir != "" && '?' !in dir && '#' !in dir
    ensures var location := dir + "/index.html";
            var currentPath := NormalizePathname(location);
            var env := Env(location, currentPath, FileName(currentPath), ids, resolve);
            && FilenameMatch(Attrs(None, Some("#" + fragment)), env)
            && LinkPath(Some("#" + fragment), env) != Some(env.currentPath)
  {
    var location := dir + "/index.html";
    IndexPageBelowRoot(dir);
    var env := Env(location, location, "index.html", ids, resolve);
    RootFragmentLink(fragment, env);
  }

  /** Of two links that both match by filename, only the first in document
      order is marked. */
  lemma TwoFilenameMatchesFirstWins(a: Attrs, b: Attrs, env: Env)
    requires FilenameMatch(a, env) && FilenameMatch(b, env)
    ensures ActiveFlags([a, b], env) == [true, false]
  {
    FirstOfTwoMarked(a, b, env);
  }

  /** A fragment link whose URL does not parse still matches by strategy 4
      when its target element exists: an unparsable href is not always a
      non-match. */
  lemma UnparsableFragmentLinkMatches(fragment: string, env: Env)
    requires fragment != "" && fragment in env.ids
    requires env.resolve("#" + fragment).None?
    ensures AnchorMatch(Attrs(None, Some("#" + fragment)), env)
  {
    var href := "#" + fragment;
    assert href[1..] == fragment;
  }

  /** A re-run after the location has moved to `p` still compares against
      the path captured at load: a lone link to `p` stays unmarked, although
      a fresh load at `p` would mark it. */
  lemma RerunKeepsLoadTimePath(p: string, loaded: string, ids: set<string>,
                               resolve: string -> Option<string>)
    requires p != "" && '?' !in p && '#' !in p && p[|p| - 1] != '/'
    requires resolve(p) == Some(p)
    requires FileName(NormalizePathname(loaded)) != FileName(p)
    ensures var a := Attrs(None, Some(p));
            var loadPath := NormalizePathname(loaded);
            && ActiveFlags([a], Env(p, loadPath, FileName(loadPath), ids, resolve)) == [false]
            && ActiveFlags([a], Env(p, NormalizePathname(p), FileName(NormalizePathname(p)), ids, resolve)) == [true]
  {
    var a := Attrs(None, Some(p));
    var loadPath := NormalizePathname(loaded);
    PlainPathUnchanged(p);
    var stale := Env(p, loadPath, FileName(loadPath), ids, resolve);
    var atP := Env(p, p, FileName(p), ids, resolve);
    assert ActiveFlags([a], stale) == [false] by {
      assert LinkPath(a.href, stale) == Some(p);
      assert !DataPageMatch(a, stale);
      assert !PathnameMatch(a, stale);
      assert !FilenameMatch(a, stale);
      assert !AnchorMatch(a, stale) by {
        assert HrefText(a.href) == p && p[0] != '#';
      }
      SoleLinkMarked(a, stale);
    }
    assert ActiveFlags([a], atP) == [true] by {
      assert LinkPath(a.href, atP) == Some(p);
      assert PathnameMatch(a, atP);
      SoleLinkMarked(a, atP);
    }
  }

  /** Running the routine twice with the same location and document leaves
      the same markers as running it once. */
  method RunTwice(m: Marker, rawPath: string, ids: set<string>, resolve: string -> Option<string>)
    returns (first: seq<bool>, second: seq<bool>)
    requires m.Valid()
    modifies m.navLinks
    ensures first == second == ActiveFlags(m.Pages(), m.RunEnv(rawPath, ids, resolve))
  {
    m.MatchAndActivate(rawPath, ids, resolve);
    first := m.Flags();
    m.MatchAndActivate(rawPath, ids, resolve);
    second := m.Flags();
  }
}
