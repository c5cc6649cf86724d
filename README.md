# Active navigation link marker — a Dafny model

The script `js/custom.js` highlights the navigation link of the page being
shown. When the document is ready, it collects the navigation anchors and
normalises the location pathname once into a *current path* and a *current
filename*. It then runs `matchAndActivate`. That routine removes the
`active` class from every link and walks the links in document order. It
marks the first link that passes one of four strategies, tried in order:

1. the `data-page` attribute equals the current path, filename or raw pathname;
2. the link's pathname equals the current path;
3. the link's filename equals the current filename;
4. a fragment link's target element exists and the link's URL lies on this page.

The model has four modules:

- `Wrappers` holds the `Option` type, used for absent attributes and for URLs that do not parse.
- `PathNames` holds `normalizePathname` and the filename derivation (lines 10-24 and 55). It also holds the ASCII string operations they use: `split(c)[0]`, `split(c).pop()`, `toLowerCase` and `trim`. Its lemmas prove:
  - for a non-empty path without `?` or `#` that does not end in `/`, one added trailing slash, an added query or an added fragment makes no difference;
  - a plain path is kept as it is, and exactly one trailing slash is removed;
  - `/`, `//`, and `/` followed by a query or a fragment name `/index.html`, while the empty path gives `/`;
  - the filename of `dir/name` is `name` lower-cased.
- `ActiveLink` holds the strategies and the routine:
  - Each link is a `NavLink` object whose `active` field is its CSS class.
  - The routine's state is a `Marker` object holding the links and the current path and filename captured at load.
  - `ClearActive` and `MatchAndActivate` are loop methods that change the links' `active` fields.
  - `MatchAndActivate` is proved to leave exactly the markers `ActiveFlags` describes. `ActiveFlags` is a reference definition: the first link in document order that passes some strategy, and no other.
  - The lemmas about `ActiveFlags` state:
    - first match wins;
    - nothing is marked exactly when nothing matches;
    - an earlier match beats a later one.
- `Scenarios` applies the model to typical situations:
  - a location with a trailing slash;
  - a `data-page` override;
  - ties;
  - fragment links;
  - running the routine twice.

The browser is turned into parameters:

- `window.location.pathname` is a string.
- `document.getElementById` is the set of ids present in the document.
- `new URL(href, window.location.origin).pathname` is a function `resolve` from the href to an optional pathname. `None` is the case where the constructor throws.

## Where the code departs from its own comments

The model follows what the code does, not what its comments say.

- **Empty path.** The comment at line 9 says the root becomes `index.html`, but an empty path normalises to `/`, not to `/index.html` (line 11; `PathNames.RootForms`). The inputs that do give `/index.html` are the following, each optionally followed by a query or a fragment, because line 13 cuts those off first (`PathNames.RootWithQueryOrHash` for `/`, `PathNames.QueryAndHashInsensitive` for the others):
  - `/` and `//` (`PathNames.RootForms`);
  - `/index.html` itself (`PathNames.PlainPathUnchanged`), and `/index.html/`, the one path that is `/index.html` once a trailing slash is cut.
- **Repeated slashes.** The comments at lines 9 and 14 speak of removing the trailing slash, but only one slash is removed (lines 15-16). For a non-empty `p` without `?` or `#`, `p + "//"` normalises to `p + "/"` (`PathNames.OneTrailingSlashRemoved`). For `p = ""`, the input `//` gives `/index.html` instead (`PathNames.RootForms`).
- **Re-runs after a click.** The comment at line 103 says the timeout lets the browser update the location first. But the comparisons use the current path and filename captured at load (lines 23-24), and only strategy 1's comparison with the raw pathname sees the new location. In the model this is `ActiveLink.Marker.MatchAndActivate`'s ensures: it compares against `RunEnv`, which takes `currentPath` and `currentFile` from the `Marker` and only the raw pathname from the run. `Scenarios.RerunKeepsLoadTimePath` states the difference: after a move to `p`, a lone link to `p` stays unmarked on a re-run, while a fresh load at `p` would mark it. `Scenarios.RunTwice` shows only that two runs with the same inputs agree.
- **Fragment links without a target.** The comments at lines 39 and 84-86 describe a fragment link as matching when the page contains its target element and "pathname is the same as link's (or both index)". Strategy 2 (line 70) does make that pathname comparison, but it comes before the strategy-4 tests and skips the element check of line 84. So on the root page a fragment link whose URL resolves to the root passes strategy 2 even when its target element is missing, and it is marked unless an earlier link passes (`Scenarios.FragmentLinkMatchesOnRoot`).

## Further consequences of the code

- **Index pages.** Strategy 3 (line 76) compares filenames only. On a page `dir + "/index.html"` below the root, a fragment link resolving to `/` therefore has the filename `index.html` and passes strategy 3, so it is marked unless an earlier link passes, although its path `/index.html` differs from the current path (`Scenarios.FragmentLinkMatchesIndexElsewhere`). This is one reading of the comment's "(or both index)": the leniency comes from strategy 3, not from the path test of line 87.
- **Strategy 4 is mostly subsumed.** Whenever the href parses and the current path is not empty, strategy 4 adds nothing that strategy 2 has not already matched (`ActiveLink.AnchorMatchImpliesPathnameMatch`).
- **Unparsable hrefs.** An href that does not parse can still match. Strategy 1 ignores the href, and line 87's `!linkUrl` lets strategy 4 accept a fragment link whose URL does not parse (`Scenarios.UnparsableFragmentLinkMatches`).

## Model

| member | source | states |
|---|---|---|
| PathNames.BeforeFirst | js/custom.js:13 | the result is the prefix of the input before the first occurrence of the separator, or the whole input when there is none |
| PathNames.AfterLast | js/custom.js:24 | the result is the suffix of the input after the last occurrence of the separator, or the whole input when there is none |
| PathNames.LowerAscii | js/custom.js:24 | lower-casing keeps the length, leaves no capital letter and changes only capitals, each to its small letter |
| PathNames.TrimStart | js/custom.js:44 | definition without a contract: leading white space dropped one character at a time; its properties are `TrimStartFacts` and `TrimStartAppend` |
| PathNames.TrimEnd | js/custom.js:44 | definition without a contract: trailing white space dropped one character at a time; its properties are `TrimEndFacts` and `TrimEndAppend` |
| PathNames.TrimStartFacts | js/custom.js:42-44 | removing leading white space removes a prefix made only of white space, and the result does not start with white space |
| PathNames.TrimEndFacts | js/custom.js:42-44 | removing trailing white space removes a suffix made only of white space, and the result does not end with white space |
| PathNames.TrimAscii | js/custom.js:42-44 | the trimmed text is no longer than the input, has no white space at either end, and is empty exactly when the input is all white space |
| PathNames.LowerAsciiIdempotent | js/custom.js:42-44 | lower-casing twice is lower-casing once |
| PathNames.LowerAsciiAppend | js/custom.js:42-44 | lower-casing works character by character across a concatenation |
| PathNames.TrimStartAppend | js/custom.js:42-44 | leading white space of a concatenation extends into the second part only when the first part is all white space |
| PathNames.TrimEndAppend | js/custom.js:42-44 | trailing white space of a concatenation extends into the first part only when the second part is all white space |
| PathNames.TrimAsciiKeepsPlain | js/custom.js:42-44 | trimming leaves text without white space at its ends unchanged |
| PathNames.TrimAsciiIgnoresPadding | js/custom.js:42-44 | white space added around a text does not change its trim |
| PathNames.StripQueryAndHash | js/custom.js:13 | the result is a prefix of the path with no `?` or `#`, and a path without either is kept whole |
| PathNames.NormalizePathname | js/custom.js:10-20 | the empty path gives `/`; any other path never gives `/`; the result has no query or fragment and is the root file or a prefix of the input |
| PathNames.FileName | js/custom.js:24 | the filename contains no slash and no capital, and is the lower-cased segment of the path after its last slash (the whole path when it has none) |
| PathNames.LowerAsciiKeepsOut | js/custom.js:24 | lower-casing introduces no character other than a small letter, so a filename never gains a slash |
| PathNames.BeforeFirstAppend | js/custom.js:13 | cutting at the first separator passes over a leading part that has no separator |
| PathNames.TrailingSlashInsensitive | js/custom.js:14-16 | a path and the same path with one trailing slash normalise alike |
| PathNames.OneTrailingSlashRemoved | js/custom.js:14-16 | of two trailing slashes, exactly one is removed |
| PathNames.NormalizeByStripped | js/custom.js:11-19 | two non-empty paths that agree once query and fragment are cut off normalise alike |
| PathNames.StripQuery | js/custom.js:13 | a query after a plain path is cut off completely |
| PathNames.StripHash | js/custom.js:13 | a fragment after a plain path is cut off completely, together with any `?` inside it |
| PathNames.QueryAndHashInsensitive | js/custom.js:13 | appending a query or a fragment to a non-empty plain path does not change its normal form |
| PathNames.PlainPathUnchanged | js/custom.js:13-19 | a non-empty path without query, fragment or trailing slash normalises to itself |
| PathNames.RootForms | js/custom.js:11-18 | `/` and `//` normalise to `/index.html`, while the empty path gives `/` |
| PathNames.RootWithQueryOrHash | js/custom.js:13-18 | the root followed by any query or fragment normalises to `/index.html` |
| PathNames.LowerAsciiOfLower | js/custom.js:24 | lower-casing leaves text without capitals unchanged |
| PathNames.AfterLastSeparator | js/custom.js:24 | the last segment of `x + "/" + y`, where `y` has no slash, is `y` |
| PathNames.FileNameAfterSlash | js/custom.js:24 | the filename of `dir + "/" + name`, where `name` has no slash, is `name` lower-cased |
| PathNames.FileNameOfPlainName | js/custom.js:24 | a name with no slash or capital is its own filename under any directory |
| ActiveLink.DataPageKey | js/custom.js:42-44 | an absent data-page gives the empty key, and a key never has white space at its ends |
| ActiveLink.LinkPath | js/custom.js:47-54 | the link has a path exactly when its href resolves, and that path has no query or fragment |
| ActiveLink.LinkFile | js/custom.js:55 | a link without a path has the empty filename; a filename has no slash and no capital |
| ActiveLink.HrefText | js/custom.js:45 | definition without a contract: an absent href reads as the empty string |
| ActiveLink.DataPageMatch | js/custom.js:57-67 | definition without a contract: strategy 1, a non-empty key equal to the current path, the current filename or the raw pathname; `TryStrategies` and `BlankDataPageNeverMatches` are stated against it |
| ActiveLink.PathnameMatch | js/custom.js:69-73 | definition without a contract: strategy 2, a non-empty link path equal to the current path; `StrategyConditions` and `TryStrategies` are stated against it |
| ActiveLink.FilenameMatch | js/custom.js:75-79 | definition without a contract: strategy 3, a non-empty link filename equal to the current filename; `StrategyConditions` and `TryStrategies` are stated against it |
| ActiveLink.AnchorMatch | js/custom.js:81-92 | definition without a contract: strategy 4, a `#id` href with non-empty id naming an existing element whose URL does not parse or normalises to the current path; `StrategyConditions` and `AnchorMatchImpliesPathnameMatch` are stated against it |
| ActiveLink.Matches | js/custom.js:35-40 | definition without a contract: a link passes when any of the four strategies holds |
| ActiveLink.MatchVector | js/custom.js:41-92 | built link by link; entry `i` is proved to tell whether link `i` passes some strategy |
| ActiveLink.FirstTrueFrom | js/custom.js:41-93 | the result is the first true position at or after the start, with every position before it false, or none when all are false |
| ActiveLink.FirstMatchWins | js/custom.js:35-41 | link `i` is selected exactly when it passes a strategy and no earlier link does |
| ActiveLink.FirstTrueUnique | js/custom.js:41-93 | the first true position is the one position that is true and has only false positions before it |
| ActiveLink.FirstMatch | js/custom.js:40-41 | definition without a contract: the first link in document order that passes, if any; its meaning is `FirstMatchWins` and `NoMatchNoSelection` |
| ActiveLink.NoMatchNoSelection | js/custom.js:41-93 | nothing is selected exactly when no link passes any strategy |
| ActiveLink.ActiveFlags | js/custom.js:32-94 | there is one marker per link, and at most one link is marked |
| ActiveLink.ActiveFlagsMeaning | js/custom.js:32-94 | a link ends marked exactly when it passes a strategy and no earlier link does; no link is marked exactly when none passes |
| ActiveLink.EarlierMatchWins | js/custom.js:41-93 | a link that passes a strategy prevents every later link from being selected |
| ActiveLink.FirstOfTwoMarked | js/custom.js:41-93 | of two links, a first link that passes a strategy is marked and the second is not |
| ActiveLink.SoleLinkMarked | js/custom.js:41-93 | a lone link is marked exactly when it passes a strategy |
| ActiveLink.BlankDataPageNeverMatches | js/custom.js:42-44 | an absent data-page, or one of only white space, gives the empty key and never matches by strategy 1 |
| ActiveLink.DataPageIgnoresCaseAndSpace | js/custom.js:42-44 | letter case and surrounding white space in a data-page do not change what it is compared as |
| ActiveLink.StrategyConditions | js/custom.js:69-92 | strategies 2 and 3 need an href that resolves, 3 also a non-empty current filename, and 4 a `#id` href naming an existing element whose URL does not parse or lies on the current path |
| ActiveLink.AnchorMatchImpliesPathnameMatch | js/custom.js:69-90 | when the href resolves and the current path is not empty, a strategy-4 match is already a strategy-2 match |
| ActiveLink.NavLink.constructor | js/custom.js:3-5 | a navigation anchor with the given attributes and marker |
| ActiveLink.Marker.Valid | js/custom.js:3-5 | definition without a contract: the collected links are distinct elements, and the current filename is the filename of the current path (lines 23-24) |
| ActiveLink.Marker.constructor | js/custom.js:3-5 | the handler keeps the links it was given and captures the normalised location path and its filename |
| ActiveLink.Marker.RunEnv | js/custom.js:23-24 | definition without a contract: a run compares against the current path and filename captured at load, and against its own raw pathname, document and URL resolution |
| ActiveLink.Marker.ClearActive | js/custom.js:27-29 | afterwards no link is marked |
| ActiveLink.Marker.MatchAndActivate | js/custom.js:32-94 | afterwards the markers are exactly `ActiveFlags` for the links and this run, whatever they were before |
| ActiveLink.Marker.TryStrategies | js/custom.js:42-92 | the ordered tests on one link succeed exactly when the link passes some strategy |
| ActiveLink.Marker.ActivatedOnly | js/custom.js:64-90 | marking only the first matching link, on a cleared list, yields exactly `ActiveFlags` |
| ActiveLink.OnContentLoaded | js/custom.js:2-7 | with no links nothing is set up; otherwise a handler is created for the links, capturing the normalised location and its filename, and the first run leaves the markers `ActiveFlags` describes |
| Scenarios.TrailingSlashLocationMarksLink | js/custom.js:69-73 | at location `p + "/"`, a link to `p` is marked and a second link is not |
| Scenarios.RootFileName | js/custom.js:18-24 | the filename of the root page is `index.html` |
| Scenarios.DataPageOverridesHref | js/custom.js:57-66 | a link whose data-page names the current file, in any letter case and with any surrounding white space, is marked wherever its href points |
| Scenarios.FragmentLinkMatchesOnRoot | js/custom.js:69-73 | on the root page, a fragment link resolving to the root passes strategy 2, whatever ids the document has, so it is marked unless an earlier link passes |
| Scenarios.IndexPageBelowRoot | js/custom.js:10-24 | the location `dir + "/index.html"`, for a non-empty `dir` without `?` or `#`, is its own current path, has the filename `index.html`, and is not the root file |
| Scenarios.RootFragmentLink | js/custom.js:47-55 | a fragment link whose URL resolves to `/` has the path `/index.html` and the filename `index.html` |
| Scenarios.FragmentLinkMatchesIndexElsewhere | js/custom.js:75-79 | at the location `dir + "/index.html"`, with its current path and filename derived as at load, a fragment link resolving to `/` matches by strategy 3 although its path differs from the current path |
| Scenarios.TwoFilenameMatchesFirstWins | js/custom.js:75-79 | of two links that both match by filename, only the first is marked |
| Scenarios.UnparsableFragmentLinkMatches | js/custom.js:81-90 | a fragment link whose URL does not parse matches by strategy 4 when its target element exists |
| Scenarios.RerunKeepsLoadTimePath | js/custom.js:23-24 | after the location moves to `p`, a re-run compares against the path captured at load, so a lone link to `p` stays unmarked, while a fresh load at `p` marks it |
| Scenarios.RunTwice | js/custom.js:99-104 | running the routine a second time with the same location and document leaves the same markers as the first run |

## Left out

- Event wiring is not modelled: the `DOMContentLoaded` listener, the click listeners and the 50 ms `setTimeout` (lines 2 and 101-106). A re-run is a second call of `MatchAndActivate` (`Scenarios.RunTwice`).
- The DOM is reduced to values:
  - `querySelectorAll` becomes a given sequence of distinct `NavLink` objects;
  - `getAttribute` becomes optional strings, fixed per link (`NavLink.attrs` is a constant). The source reads the attributes again on every run (lines 42 and 45), so a change to them between runs is not modelled;
  - `classList.add`/`remove` of `active` sets a boolean field;
  - `getElementById` becomes a set of ids.
- The URL parser and `window.location.origin` are not modelled: resolution is the parameter `resolve`. The model therefore does not know what pathnames real URLs have. Because the base is the origin (line 49), a fragment-only href such as `#x` resolves to the pathname `/` on every page. The fragment scenarios take this as a requirement on `resolve`.
- Unicode is not modelled. `toLowerCase` and `trim` act on ASCII only: capitals A-Z, and the white space tab, line feed, vertical tab, form feed, carriage return and space. A Dafny `char` is a Unicode scalar value and cannot hold a lone surrogate, whereas JavaScript strings are UTF-16 code units. This makes no difference here, because only ASCII characters are ever inspected.
- The `undefined` argument of `normalizePathname` is not modelled. Every call site passes a string, and the empty string takes the same branch (line 11).
- Exceptions are not modelled apart from the one from `new URL`, which is `None` from `resolve`.
