/**
 `src/git_ops.rs`: confinement of the repo name, the git command line, and redaction of the
 cap-URL and the token marker from everything git prints.
 */
module GitOps {
  import opened Types
  import opened Text
  import opened Creds

  // ----- repo confinement

  datatype Component = RootDir | CurDir | ParentDir | Normal(name: string)

  /** The pieces between slashes, empty ones included. */
  function SplitSlash(s: string): (parts: seq<string>)
    ensures |parts| > 0
    ensures forall p :: p in parts ==> '/' !in p
  {
    if s == "" then [""]
    else
      var rest := SplitSlash(s[1..]);
      if s[0] == '/' then [""] + rest else [[s[0]] + rest[0]] + rest[1..]
  }

  /** One piece as a path component; `.` survives only at the start of a relative path. */
  function PartComponents(part: string, first: bool): seq<Component> {
    if part == "" then []
    else if part == "." then (if first then [CurDir] else [])
    else if part == ".." then [ParentDir]
    else [Normal(part)]
  }

  function PartsComponents(parts: seq<string>, first: bool): seq<Component> {
    if parts == [] then []
    else PartComponents(parts[0], first) + PartsComponents(parts[1..], false)
  }

  /** `Path::components` on Unix: repeated slashes and inner `.` collapse. */
  function Components(path: string): seq<Component> {
    if path != "" && path[0] == '/' then [RootDir] + PartsComponents(SplitSlash(path), false)
    else PartsComponents(SplitSlash(path), true)
  }

  function SafeRepo(repo: string): Result<()> {
    if repo == "" then Err(CodeError(Invalid, "repo is required"))
    else
      var comps := Components(repo);
      if |comps| == 1 && comps[0].Normal? && comps[0].name == repo then Ok(())
      else Err(CodeError(Forbidden, "invalid repo"))
  }

  /** `Path::join`. */
  function JoinPath(root: string, path: string): string {
    if path != "" && path[0] == '/' then path
    else if root == "" || root[|root| - 1] == '/' then root + path
    else root + "/" + path
  }

  lemma SplitSlashSingle(s: string)
    requires '/' !in s
    ensures SplitSlash(s) == [s]
  {
    if s != "" {
      assert forall c :: c in s[1..] ==> c in s;
      SplitSlashSingle(s[1..]);
      assert [s[0]] + s[1..] == s;
    }
  }

  lemma NormalNamesHaveNoSlash(parts: seq<string>, first: bool, k: nat)
    requires forall p :: p in parts ==> '/' !in p
    requires k < |PartsComponents(parts, first)| && PartsComponents(parts, first)[k].Normal?
    ensures '/' !in PartsComponents(parts, first)[k].name
  {
    var here := PartComponents(parts[0], first);
    if k >= |here| {
      NormalNamesHaveNoSlash(parts[1..], false, k - |here|);
    }
  }

  /** The component test accepts exactly the plain one-segment names. */
  lemma SafeRepoExact(repo: string)
    ensures SafeRepo(repo).Ok? <==> repo != "" && '/' !in repo && repo != "." && repo != ".."
    ensures SafeRepo(repo).Err? ==> (SafeRepo(repo).error.code == Invalid <==> repo == "")
  {
    if SafeRepo(repo).Ok? {
      var comps := Components(repo);
      var rooted := repo[0] == '/';
      if !rooted {
        NormalNamesHaveNoSlash(SplitSlash(repo), true, 0);
        assert PartsComponents(SplitSlash(repo), true)[0].name == repo;
        if repo == "." || repo == ".." { SplitSlashSingle(repo); }
      }
    } else if '/' !in repo {
      SplitSlashSingle(repo);
      if repo != "" {
        assert repo[0] in repo;
        assert PartsComponents([repo], true) == PartComponents(repo, true);
      }
    }
  }

  /** A character put in front: a slash opens a piece, any other joins the first one. */
  function Prepend(c: char, parts: seq<string>): seq<string>
    requires parts != []
  {
    if c == '/' then [""] + parts else [[c] + parts[0]] + parts[1..]
  }

  lemma PrependAppend(c: char, parts: seq<string>, b: string)
    requires parts != []
    ensures Prepend(c, parts + [b]) == Prepend(c, parts) + [b]
  {
    assert (parts + [b])[0] == parts[0] && (parts + [b])[1..] == parts[1..] + [b];
  }

  lemma SplitSlashCons(s: string)
    requires s != ""
    ensures SplitSlash(s) == Prepend(s[0], SplitSlash(s[1..]))
  {
  }

  lemma {:induction false} SplitSlashAppend(a: string, b: string)
    requires '/' !in b
    ensures SplitSlash(a + "/" + b) == SplitSlash(a) + [b]
  {
    var s := a + "/" + b;
    if a == "" {
      assert s[1..] == b;
      SplitSlashSingle(b);
    } else {
      assert s[0] == a[0] && s[1..] == a[1..] + "/" + b;
      hide SplitSlash, Prepend;
      SplitSlashCons(s);
      SplitSlashCons(a);
      SplitSlashAppend(a[1..], b);
      PrependAppend(a[0], SplitSlash(a[1..]), b);
    }
  }

  lemma PartsComponentsAppend(parts: seq<string>, first: bool, b: string)
    requires b != "" && b != "." && b != ".."
    ensures PartsComponents(parts + [b], first) == PartsComponents(parts, first) + [Normal(b)]
  {
    if parts != [] {
      assert (parts + [b])[1..] == parts[1..] + [b];
      PartsComponentsAppend(parts[1..], false, b);
    }
  }

  lemma SplitSlashTrailing(a: string)
    requires a != "" && a[|a| - 1] == '/'
    ensures SplitSlash(a) == SplitSlash(a[..|a| - 1]) + [""]
  {
    hide SplitSlash;
    var base := a[..|a| - 1];
    assert a == base + "/" + "";
    SplitSlashAppend(base, "");
  }

  lemma PartsComponentsEmpty(parts: seq<string>, first: bool)
    requires parts != []
    ensures PartsComponents(parts + [""], first) == PartsComponents(parts, first)
  {
    assert (parts + [""])[1..] == parts[1..] + [""];
    if |parts| > 1 {
      PartsComponentsEmpty(parts[1..], false);
    } else {
      assert PartsComponents([""], false) == [];
    }
  }

  /** `root` without its final slash, if it has one. */
  function Base(root: string): string {
    if root != "" && root[|root| - 1] == '/' then root[..|root| - 1] else root
  }

  lemma JoinIsAppend(root: string, repo: string)
    requires root != "" && repo != "" && repo[0] != '/'
    ensures JoinPath(root, repo) == Base(root) + "/" + repo
    ensures JoinPath(root, repo) != "" && JoinPath(root, repo)[0] == root[0]
  {
  }

  lemma BaseParts(root: string, first: bool)
    requires root != ""
    ensures PartsComponents(SplitSlash(Base(root)), first) == PartsComponents(SplitSlash(root), first)
  {
    if root != Base(root) {
      SplitSlashTrailing(root);
      PartsComponentsEmpty(SplitSlash(Base(root)), first);
    }
  }

  /** The working copy of an accepted repo lies directly below the projects root, whatever it is. */
  lemma WorkingCopyIsDirectChild(root: string, repo: string)
    requires SafeRepo(repo).Ok?
    ensures Components(JoinPath(root, repo)) == Components(root) + [Normal(repo)]
  {
    SafeRepoExact(repo);
    assert repo[0] in repo;
    if root == "" {
      assert JoinPath(root, repo) == repo;
      SplitSlashSingle(repo);
    } else {
      var first := root[0] != '/';
      hide SafeRepo, JoinPath, SplitSlash, PartsComponents, Base;
      JoinIsAppend(root, repo);
      BaseParts(root, first);
      SplitSlashAppend(Base(root), repo);
      PartsComponentsAppend(SplitSlash(Base(root)), first, repo);
    }
  }

  lemma DistinctReposDistinctDirectories(root: string, r1: string, r2: string)
    requires SafeRepo(r1).Ok? && SafeRepo(r2).Ok? && r1 != r2
    ensures JoinPath(root, r1) != JoinPath(root, r2)
    ensures Components(JoinPath(root, r1)) != Components(JoinPath(root, r2))
  {
    WorkingCopyIsDirectChild(root, r1);
    WorkingCopyIsDirectChild(root, r2);
    var c := Components(root);
    assert (c + [Normal(r1)])[|c|] != (c + [Normal(r2)])[|c|];
  }

  // ----- redaction

  const MARKER := "x-access-token"
  const REMOTE_MASK := "[remote]"
  const MARKER_MASK := "[redacted]"

  function Sanitize(s: string, capUrl: Option<string>): string {
    var out := match capUrl case None => s case Some(url) => Replace(s, url, REMOTE_MASK);
    Replace(out, MARKER, MARKER_MASK)
  }

  /** Laid over `r` with an offset of `d`, `p` disagrees with it somewhere in the overlap. */
  ghost predicate ClashAt(p: string, r: string, d: int) {
    exists j :: 0 <= j < |p| && 0 <= d + j < |r| && p[j] != r[d + j]
  }

  /** No occurrence of `p` can share a character with a copy of `r`. */
  ghost predicate Clashes(p: string, r: string) {
    forall d :: -|p| < d < |r| ==> ClashAt(p, r, d)
  }

  lemma ClashStopsMatch(a: string, r: string, b: string, p: string, i: nat)
    requires Clashes(p, r) && |a| < i + |p| && i < |a| + |r|
    ensures !MatchesAt(a + r + b, p, i)
  {
    var s := a + r + b;
    assert ClashAt(p, r, i - |a|);
    var j :| 0 <= j < |p| && 0 <= i - |a| + j < |r| && p[j] != r[i - |a| + j];
    if i + |p| <= |s| {
      assert s[i..i + |p|][j] == r[i - |a| + j];
    }
  }

  lemma SplitOccurrence(a: string, r: string, b: string, p: string)
    requires p != "" && r != "" && Clashes(p, r) && Contains(a + r + b, p)
    ensures Contains(a, p) || Contains(b, p)
  {
    var s := a + r + b;
    var i: nat :| MatchesAt(s, p, i);
    if |a| < i + |p| && i < |a| + |r| { ClashStopsMatch(a, r, b, p, i); }
    if i + |p| <= |a| {
      assert a[i..i + |p|] == s[i..i + |p|];
      assert MatchesAt(a, p, i);
    } else {
      var d := |a| + |r|;
      assert s[d..] == b;
      MatchesAtDrop(s, p, d, i - d);
    }
  }

  /**
   What survives a replacement was there before, inside one gap between matches; so the pattern
   itself never survives.
   */
  lemma {:induction false} ReplaceCreatesNothing(s: string, pat: string, rep: string, p: string)
    requires pat != "" && rep != "" && p != "" && Clashes(p, rep)
    requires Contains(Replace(s, pat, rep), p)
    ensures Contains(s, p) && p != pat
    decreases |s|
  {
    match Position(s, pat)
    case None =>
    case Some(k) =>
      var rest := s[k + |pat|..];
      assert s == s[..k] + pat + rest;
      SplitOccurrence(s[..k], rep, Replace(rest, pat, rep), p);
      if Contains(s[..k], p) {
        var i: nat :| MatchesAt(s[..k], p, i);
        assert s[i..i + |p|] == s[..k][i..i + |p|];
        assert MatchesAt(s, p, i);
      } else {
        ReplaceCreatesNothing(rest, pat, rep, p);
        ContainsSub(s[..k] + pat, rest, "", p);
        assert s[..k] + pat + rest + "" == s;
      }
  }

  lemma ReplaceAbsent(s: string, pat: string, rep: string)
    requires pat != "" && !Contains(s, pat)
    ensures Replace(s, pat, rep) == s
  {
  }

  /** Without brackets only a match wholly inside the word of the mask is left to exclude. */
  lemma BracketFreeClashes(p: string, mask: string)
    requires p != "" && '[' !in p && ']' !in p
    requires |mask| >= 2 && mask[0] == '[' && mask[|mask| - 1] == ']' && !Contains(mask, p)
    ensures Clashes(p, mask)
  {
    forall d | -|p| < d < |mask| ensures ClashAt(p, mask, d) {
      if d <= 0 {
        assert p[-d] in p && p[-d] != mask[d + -d];
      } else if |mask| <= d + |p| {
        assert p[|mask| - 1 - d] in p && p[|mask| - 1 - d] != mask[d + (|mask| - 1 - d)];
      } else {
        assert !MatchesAt(mask, p, d);
        var j :| 0 <= j < |p| && p[j] != mask[d..d + |p|][j];
        assert p[j] != mask[d + j];
      }
    }
  }

  /**
   Bracketed IPv6 hosts are covered too: it is enough that each `[` is followed by a character
   other than `r` and that the first character does not occur in the mask after its `[`.
   */
  lemma BracketedHostClashes(p: string, mask: string)
    requires |mask| >= 2 && mask[0] == '[' && mask[1] == 'r'
    requires p != "" && p[0] !in mask[1..]
    requires forall i :: 0 <= i < |p| && p[i] == '[' ==> i + 1 < |p| && p[i + 1] != 'r'
    ensures Clashes(p, mask)
  {
    forall d | -|p| < d < |mask| ensures ClashAt(p, mask, d) {
      if d > 0 {
        assert mask[d] == mask[1..][d - 1];
        assert p[0] != mask[d + 0];
      } else if p[-d] == '[' {
        assert p[-d + 1] != mask[d + (-d + 1)];
      } else {
        assert p[-d] != mask[d + -d];
      }
    }
  }

  /** A pattern no mask can help to spell: the simple test, met by real cap-URLs. */
  ghost predicate Unforgeable(url: string) {
    url != "" && Clashes(url, REMOTE_MASK) && Clashes(url, MARKER_MASK)
  }

  /** What `p`, laid over a mask with an offset of `d`, has before the mask. */
  function Before(p: string, d: int): string
    requires -|p| < d
  {
    if d < 0 then p[..-d] else ""
  }

  /** And behind a mask of length `n`. */
  function After(p: string, n: nat, d: int): string
    requires d < n
  {
    if n - d < |p| then p[n - d..] else ""
  }

  /**
   At offset `d` the mask of the URL itself fits into it, and the text in front of the mask does
   not start an earlier match that would use it up.
   */
  ghost predicate SpellsAt(url: string, mask: string, d: int) {
    && -|url| < d < |mask| && !ClashAt(url, mask, d)
    && Position(Before(url, d) + url, url) == Some(|Before(url, d)|)
  }

  /** The exact test: one of the masks helps to spell `url`, and is emitted when it would. */
  ghost predicate Forgeable(url: string) {
    || (exists d :: SpellsAt(url, REMOTE_MASK, d))
    || (!Clashes(url, MARKER_MASK) && !Contains(MARKER, url))
  }

  lemma UnforgeableIsNotForgeable(url: string)
    requires Unforgeable(url)
    ensures !Forgeable(url)
  {
    hide Position;
  }

  lemma MarkerClashes()
    ensures Clashes(MARKER, MARKER_MASK)
  {
    assert !Contains(MARKER_MASK, MARKER);
    BracketFreeClashes(MARKER, MARKER_MASK);
  }

  /** The cap-URL `http://{host}:8788/git/{cap}` is unforgeable for IPv4, named and IPv6 hosts. */
  lemma HttpUrlIsUnforgeable(remote: string)
    requires "http" <= remote
    requires forall i :: 0 <= i < |remote| && remote[i] == '[' ==> i + 1 < |remote| && remote[i + 1] != 'r'
    ensures Unforgeable(remote)
  {
    BracketedHostClashes(remote, REMOTE_MASK);
    BracketedHostClashes(remote, MARKER_MASK);
  }

  lemma ColonUrlIsUnforgeable(remote: string)
    requires ':' in remote && '[' !in remote && ']' !in remote
    ensures Unforgeable(remote)
  {
    forall mask | mask == REMOTE_MASK || mask == MARKER_MASK ensures !Contains(mask, remote) {
      var k :| 0 <= k < |remote| && remote[k] == ':';
      forall i: nat ensures !MatchesAt(mask, remote, i) {
        if i + |remote| <= |mask| {
          assert mask[i..i + |remote|][k] == mask[i + k] != ':';
        }
      }
    }
    BracketFreeClashes(remote, REMOTE_MASK);
    BracketFreeClashes(remote, MARKER_MASK);
  }

  function TrimEndSlashes(s: string): (r: string)
    ensures r <= s && (r != "" ==> r[|r| - 1] != '/')
    ensures r == s <==> s == "" || s[|s| - 1] != '/'
  {
    if s != "" && s[|s| - 1] == '/' then TrimEndSlashes(s[..|s| - 1]) else s
  }

  /** The token marker never survives, whatever git prints and whatever the cap-URL is. */
  lemma MarkerNeverSurvives(s: string, capUrl: Option<string>)
    ensures !Contains(Sanitize(s, capUrl), MARKER)
  {
    MarkerClashes();
    var out := match capUrl case None => s case Some(url) => Replace(s, url, REMOTE_MASK);
    if Contains(Replace(out, MARKER, MARKER_MASK), MARKER) {
      ReplaceCreatesNothing(out, MARKER, MARKER_MASK, MARKER);
    }
  }

  lemma UrlNeverSurvives(s: string, url: string)
    requires Unforgeable(url)
    ensures !Contains(Sanitize(s, Some(url)), url)
  {
    var out := Replace(s, url, REMOTE_MASK);
    if Contains(Sanitize(s, Some(url)), url) {
      ReplaceCreatesNothing(out, MARKER, MARKER_MASK, url);
      ReplaceCreatesNothing(s, url, REMOTE_MASK, url);
    }
  }

  // Which stored URLs survive redaction at all.

  /** Where mask and pattern agree, the pattern is spelled by its own ends around the mask. */
  lemma Overlay(p: string, r: string, d: int)
    requires -|p| < d < |r| && !ClashAt(p, r, d)
    ensures Contains(Before(p, d) + r + After(p, |r|, d), p)
  {
    var s := Before(p, d) + r + After(p, |r|, d);
    var i: nat := if d < 0 then 0 else d;
    forall t | 0 <= t < |p| ensures i + t < |s| && s[i + t] == p[t] {
      if 0 <= d + t < |r| { assert p[t] == r[d + t]; }
    }
    assert s[i..i + |p|] == p;
    assert MatchesAt(s, p, i);
  }

  lemma ShorterContainsNot(s: string, p: string)
    requires |s| < |p|
    ensures !Contains(s, p)
  {
  }

  lemma ReplaceOnce(a: string, pat: string, b: string, rep: string)
    requires pat != "" && Position(a + pat, pat) == Some(|a|) && !Contains(b, pat)
    ensures Replace(a + pat + b, pat, rep) == a + rep + b
  {
    PositionStable(a + pat, b, pat);
    ReplaceAbsent(b, pat, rep);
    hide Position, Contains;
    ThreeParts(a, pat, b);
  }

  lemma HalvesContainNot(a: string, b: string, p: string)
    requires !Contains(a + b, p)
    ensures !Contains(a, p) && !Contains(b, p)
  {
    assert a + b + "" == a + b;
    if Contains(a, p) { ContainsPart(a, b, p); }
    if Contains(b, p) { ContainsSub(a, b, "", p); }
  }

  lemma PartsHaveNoMarker(url: string, n: nat, d: int)
    requires !Contains(url, MARKER) && -|url| < d < n
    ensures !Contains(Before(url, d), MARKER) && !Contains(After(url, n, d), MARKER)
  {
    var i, j := |Before(url, d)|, |url| - |After(url, n, d)|;
    assert Before(url, d) == url[..i] && After(url, n, d) == url[j..];
    hide *;
    assert url[..i] + url[i..] == url == url[..j] + url[j..];
    HalvesContainNot(url[..i], url[i..], MARKER);
    HalvesContainNot(url[..j], url[j..], MARKER);
  }

  lemma RemoteMaskHasNoMarker()
    ensures Clashes(MARKER, REMOTE_MASK)
  {
    assert !Contains(REMOTE_MASK, MARKER);
    BracketFreeClashes(MARKER, REMOTE_MASK);
  }

  /** Output that redaction of the URL itself turns into the URL again. */
  lemma RemoteMaskSpells(url: string, d: int)
    requires url != "" && SpellsAt(url, REMOTE_MASK, d) && !Contains(url, MARKER)
    ensures Contains(Sanitize(Before(url, d) + url + After(url, |REMOTE_MASK|, d), Some(url)), url)
  {
    var a, b := Before(url, d), After(url, |REMOTE_MASK|, d);
    Overlay(url, REMOTE_MASK, d);
    PartsHaveNoMarker(url, |REMOTE_MASK|, d);
    ShorterContainsNot(b, url);
    RemoteMaskHasNoMarker();
    hide Contains, Clashes, ClashAt, Before, After, Replace, Position;
    ReplaceOnce(a, url, b, REMOTE_MASK);
    if Contains(a + REMOTE_MASK + b, MARKER) { SplitOccurrence(a, REMOTE_MASK, b, MARKER); }
    ReplaceAbsent(a + REMOTE_MASK + b, MARKER, MARKER_MASK);
  }

  lemma NoUrlAroundMarker(url: string, d: int)
    requires -|url| < d < |MARKER_MASK| && !ClashAt(url, MARKER_MASK, d) && !Contains(MARKER, url)
    ensures !Contains(Before(url, d) + MARKER + After(url, |MARKER_MASK|, d), url)
  {
    var a, b := Before(url, d), After(url, |MARKER_MASK|, d);
    var s := a + MARKER + b;
    if d > 0 && d + |url| < 10 {
      assert s == MARKER;
    } else {
      // The bracket that the URL shares with the mask has no place in the marker.
      var t := if d <= 0 then -d else 9 - d;
      assert url[t] == MARKER_MASK[d + t] && url[t] in "[]";
      forall i: nat ensures !MatchesAt(s, url, i) {
        if i + |url| <= |s| {
          assert |a| <= i + t < |a| + 14;
          assert s[i + t] == MARKER[i + t - |a|];
          NoMatchAt(s, url, i, t);
        }
      }
    }
  }

  /** A pattern whose first character does not recur cannot overlap itself. */
  lemma StartsHere(a: string, pat: string)
    requires pat != "" && forall j :: 0 < j < |pat| ==> pat[j] != pat[0]
    requires !Contains(a, pat)
    ensures Position(a + pat, pat) == Some(|a|)
  {
    var s := a + pat;
    assert MatchesAt(s, pat, |a|);
    forall i: nat | i < |a| ensures !MatchesAt(s, pat, i) {
      if i + |pat| <= |a| {
        assert !MatchesAt(a, pat, i);
        assert s[i..i + |pat|] == a[i..i + |pat|];
      } else {
        NoMatchAt(s, pat, i, |a| - i);
      }
    }
  }

  /** Output whose marker, once masked, completes the URL. */
  lemma MarkerMaskSpells(url: string, d: int)
    requires url != "" && -|url| < d < |MARKER_MASK| && !ClashAt(url, MARKER_MASK, d)
    requires !Contains(MARKER, url) && !Contains(url, MARKER)
    ensures Contains(Sanitize(Before(url, d) + MARKER + After(url, |MARKER_MASK|, d), Some(url)), url)
  {
    var a, b := Before(url, d), After(url, |MARKER_MASK|, d);
    Overlay(url, MARKER_MASK, d);
    PartsHaveNoMarker(url, |MARKER_MASK|, d);
    NoUrlAroundMarker(url, d);
    assert forall j :: 0 < j < |MARKER| ==> MARKER[j] != MARKER[0];
    hide Contains, ClashAt, Before, After, Replace, Position;
    StartsHere(a, MARKER);
    ReplaceAbsent(a + MARKER + b, url, REMOTE_MASK);
    ReplaceOnce(a, MARKER, b, MARKER_MASK);
  }

  lemma OverlapAgrees(front: string, mask: string, tail: string, url: string, i: nat, d: int)
    requires MatchesAt(front + mask + tail, url, i) && d == i - |front| && -|url| < d < |mask|
    ensures !ClashAt(url, mask, d)
    ensures |Before(url, d)| <= |front| && Before(url, d) == front[|front| - |Before(url, d)|..]
  {
    var out := front + mask + tail;
    forall j | 0 <= j < |url| ensures url[j] == out[i + j] {
      assert out[i..i + |url|][j] == out[i + j];
    }
    forall j | 0 <= j < |url| && 0 <= d + j < |mask| ensures url[j] == mask[d + j] {
      assert out[i + j] == url[j];
    }
  }

  lemma LeftmostFromSuffix(s: string, url: string, k: nat, a: string)
    requires Position(s, url) == Some(k) && |a| <= k && a == s[..k][k - |a|..]
    ensures Position(a + url, url) == Some(|a|)
  {
    hide Position;
    var d := k - |a|;
    assert MatchesAt(s, url, k);
    assert a + url == s[d..k + |url|];
    forall j: nat | j <= |a| ensures MatchesAt(a + url, url, j) <==> MatchesAt(s, url, d + j) {
      SliceOfSlice(s, d, k + |url|, j, j + |url|);
    }
    PositionIs(a + url, url, |a|);
  }

  /** A match that overlaps the first mask of a replacement is one the exact test knows of. */
  lemma OverlapSpells(s: string, url: string, mask: string, k: nat, tail: string, i: nat, d: int)
    requires Position(s, url) == Some(k) && d == i - k && -|url| < d < |mask|
    requires MatchesAt(s[..k] + mask + tail, url, i)
    ensures SpellsAt(url, mask, d)
  {
    var front := s[..k];
    hide *;
    OverlapAgrees(front, mask, tail, url, i, d);
    var a := Before(url, d);
    LeftmostFromSuffix(s, url, k, a);
    SpellsAtBy(url, mask, d, a);
  }

  lemma SpellsAtBy(url: string, mask: string, d: int, a: string)
    requires -|url| < d < |mask| && !ClashAt(url, mask, d)
    requires a == Before(url, d) && Position(a + url, url) == Some(|a|)
    ensures SpellsAt(url, mask, d)
  {
    hide Before, ClashAt, Position;
  }

  lemma NoneBefore(s: string, pat: string, k: nat, i: nat)
    requires Position(s, pat) == Some(k) && MatchesAt(s, pat, i)
    ensures k <= i
  {
  }

  lemma OccursIn(s: string, pat: string, i: nat)
    requires MatchesAt(s, pat, i)
    ensures Contains(s, pat)
  {
  }

  lemma NotInFront(s: string, out: string, url: string, k: nat, i: nat)
    requires url != "" && Position(s, url) == Some(k) && MatchesAt(out, url, i)
    requires k <= |s| && k <= |out| && out[..k] == s[..k]
    ensures k < i + |url|
  {
    hide *;
    if i + |url| <= k {
      PrefixMatches(s, out, k, url, i);
      NoneBefore(s, url, k, i);
    }
  }

  lemma OccursBehind(out: string, n: nat, url: string, i: nat)
    requires n <= i && n <= |out| && MatchesAt(out, url, i)
    ensures Contains(out[n..], url)
  {
    hide *;
    MatchesAtDrop(out, url, n, i - n);
    OccursIn(out[n..], url, i - n);
  }

  lemma MatchRegions(s: string, url: string, mask: string, k: nat, tail: string, i: nat)
    requires url != "" && Position(s, url) == Some(k) && k <= |s| && MatchesAt(s[..k] + mask + tail, url, i)
    ensures Contains(tail, url) || (-|url| < i - k < |mask| && SpellsAt(url, mask, i - k))
  {
    hide *;
    ThreeParts(s[..k], mask, tail);
    NotInFront(s, s[..k] + mask + tail, url, k, i);
    if i < k + |mask| {
      OverlapSpells(s, url, mask, k, tail, i, i - k);
    } else {
      OccursBehind(s[..k] + mask + tail, k + |mask|, url, i);
    }
  }

  lemma FirstMaskSpells(s: string, url: string, mask: string, k: nat, tail: string)
    requires url != "" && Position(s, url) == Some(k) && Contains(s[..k] + mask + tail, url)
    ensures Contains(tail, url) || exists d :: SpellsAt(url, mask, d)
  {
    var front := s[..k];
    hide Position, MatchesAt, SpellsAt;
    assert k <= |s|;
    var i: nat :| MatchesAt(front + mask + tail, url, i);
    hide Contains;
    MatchRegions(s, url, mask, k, tail, i);
  }

  lemma ReplaceAtFirst(s: string, url: string, mask: string, k: nat, p: string)
    requires url != "" && Position(s, url) == Some(k) && Contains(Replace(s, url, mask), p)
    ensures k + |url| <= |s| && Contains(s[..k] + mask + Replace(s[k + |url|..], url, mask), p)
  {
    hide Contains, Position;
  }

  /** The first pass puts the URL back together only where the exact test says so. */
  lemma {:induction false} ReplaceSpellsOnlyAt(s: string, url: string, mask: string)
    requires url != "" && Contains(Replace(s, url, mask), url)
    ensures exists d :: SpellsAt(url, mask, d)
    decreases |s|
  {
    hide SpellsAt, Replace, Position, Contains;
    if Position(s, url).Some? {
      var k := Position(s, url).value;
      ReplaceAtFirst(s, url, mask, k, url);
      var rest := s[k + |url|..];
      FirstMaskSpells(s, url, mask, k, Replace(rest, url, mask));
      if Contains(Replace(rest, url, mask), url) { ReplaceSpellsOnlyAt(rest, url, mask); }
    } else {
      NothingReplaced(s, url, mask);
    }
  }

  lemma NothingReplaced(s: string, pat: string, rep: string)
    requires pat != "" && Position(s, pat) == None
    ensures Replace(s, pat, rep) == s && !Contains(s, pat)
  {
  }

  lemma NotForgeableNeverSurvives(s: string, url: string)
    requires url != "" && !Forgeable(url)
    ensures !Contains(Sanitize(s, Some(url)), url)
  {
    hide Replace, Position, ClashAt;
    var out := Replace(s, url, REMOTE_MASK);
    if Contains(out, url) { ReplaceSpellsOnlyAt(s, url, REMOTE_MASK); }
    if Clashes(url, MARKER_MASK) {
      if Contains(Sanitize(s, Some(url)), url) { ReplaceCreatesNothing(out, MARKER, MARKER_MASK, url); }
    } else {
      if Contains(out, MARKER) { ContainsTransitive(out, MARKER, url); }
      ReplaceAbsent(out, MARKER, MARKER_MASK);
    }
  }

  lemma MarkerUrlNeverSurvives(s: string, capUrl: Option<string>, url: string)
    requires Contains(url, MARKER)
    ensures !Contains(Sanitize(s, capUrl), url)
  {
    hide *;
    MarkerNeverSurvives(s, capUrl);
    if Contains(Sanitize(s, capUrl), url) { ContainsTransitive(Sanitize(s, capUrl), url, MARKER); }
  }

  lemma ForgeableSurvives(url: string) returns (s: string)
    requires url != "" && Forgeable(url) && !Contains(url, MARKER)
    ensures Contains(Sanitize(s, Some(url)), url)
  {
    hide Sanitize, Contains, ClashAt, Position;
    if d :| SpellsAt(url, REMOTE_MASK, d) {
      s := Before(url, d) + url + After(url, |REMOTE_MASK|, d);
      RemoteMaskSpells(url, d);
    } else {
      var d :| -|url| < d < |MARKER_MASK| && !ClashAt(url, MARKER_MASK, d);
      s := Before(url, d) + MARKER + After(url, |MARKER_MASK|, d);
      MarkerMaskSpells(url, d);
    }
  }

  /** The stored URL is absent from every sanitized text exactly when no mask can spell it. */
  lemma UrlHiddenExactly(url: string)
    requires url != ""
    ensures (forall s :: !Contains(Sanitize(s, Some(url)), url)) <==> Contains(url, MARKER) || !Forgeable(url)
  {
    hide *;
    if Contains(url, MARKER) {
      forall s ensures !Contains(Sanitize(s, Some(url)), url) { MarkerUrlNeverSurvives(s, Some(url), url); }
    } else if !Forgeable(url) {
      forall s ensures !Contains(Sanitize(s, Some(url)), url) { NotForgeableNeverSurvives(s, url); }
    } else {
      var s := ForgeableSurvives(url);
    }
  }

  /** The shortest input on which redaction itself shows the URL: `e` is a piece of its own mask. */
  lemma MaskShowsShortUrl()
    ensures Forgeable("e") && Contains(Sanitize("e", Some("e")), "e")
  {
    var url := "e";
    assert REMOTE_MASK[2] == 'e';
    assert !ClashAt(url, REMOTE_MASK, 2);
    assert Before(url, 2) == "" && After(url, 8, 2) == "" && "" + url == url && "" + url + "" == url;
    assert url[0..0 + 1] == url && MatchesAt(url, url, 0);
    PositionIs(url, url, 0);
    ShorterContainsNot(url, MARKER);
    hide ClashAt, Before, After, Position, MatchesAt, Contains, Sanitize;
    RemoteMaskSpells(url, 2);
  }

  /** What a caller can check about the stored cap-URL: git's remote is what `sanitize` looks for. */
  ghost predicate Hideable(url: string)
    requires url != ""
  {
    Contains(TrimEndSlashes(url), MARKER) || (url[|url| - 1] != '/' && !Forgeable(url))
  }

  /**
   `sanitize` searches for the cap-URL as stored, git is given the URL without trailing slashes.
   The remote stays out of every output exactly when the two agree and no mask can spell it, or
   when the remote contains the marker and is broken up by the second pass.
   */
  lemma RemoteHiddenExactly(url: string)
    requires url != ""
    ensures (forall s :: !Contains(Sanitize(s, Some(url)), TrimEndSlashes(url))) <==> Hideable(url)
  {
    var remote := TrimEndSlashes(url);
    hide Contains, Sanitize, Forgeable;
    if Contains(remote, MARKER) {
      forall s ensures !Contains(Sanitize(s, Some(url)), remote) { MarkerUrlNeverSurvives(s, Some(url), remote); }
    } else if remote == url {
      UrlHiddenExactly(url);
    } else {
      ShorterContainsNot(remote, url);
      SanitizeKeepsCleanText(remote, Some(url));
      ContainsSelf(remote);
      assert Contains(Sanitize(remote, Some(url)), remote);
    }
  }

  lemma SanitizeKeepsCleanText(s: string, capUrl: Option<string>)
    requires !Contains(s, MARKER)
    requires capUrl.Some? ==> capUrl.value != "" && !Contains(s, capUrl.value)
    ensures Sanitize(s, capUrl) == s
  {
  }

  lemma ReplaceChanges(s: string, pat: string, rep: string)
    requires pat != "" && pat != rep && Contains(s, pat)
    ensures Replace(s, pat, rep) != s
  {
    var pieces := ReplaceSwapsSeparators(s, pat, rep);
    assert pieces[0] in pieces;
    hide Replace, Contains;
    JoinTellsSeparators(pieces, pat, rep);
  }

  lemma {:induction false} JoinGrows(pieces: seq<string>, sep: string, plain: string)
    requires pieces != [] && |plain| == 0
    ensures |Join(pieces, sep)| == |Join(pieces, plain)| + (|pieces| - 1) * |sep|
  {
    if |pieces| > 1 { JoinGrows(pieces[1..], sep, plain); }
  }

  lemma JoinTellsSeparators(pieces: seq<string>, sep1: string, sep2: string)
    requires |pieces| > 1 && sep1 != sep2
    ensures Join(pieces, sep1) != Join(pieces, sep2)
  {
    var n, rest := |pieces| - 1, pieces[1..];
    JoinGrows(pieces, sep1, "");
    JoinGrows(pieces, sep2, "");
    var j1, j2 := Join(pieces, sep1), Join(pieces, sep2);
    if |sep1| == |sep2| {
      var k := |pieces[0]|;
      assert j1 == pieces[0] + sep1 + Join(rest, sep1) && j2 == pieces[0] + sep2 + Join(rest, sep2);
      assert j1[k..k + |sep1|] == sep1 && j2[k..k + |sep1|] == sep2;
    } else {
      assert n * |sep1| != n * |sep2| by { Scales(n, |sep1|, |sep2|); }
    }
  }

  lemma Scales(n: nat, x: nat, y: nat)
    requires n > 0 && x != y
    ensures n * x != n * y
  {
    if x < y { assert n * (y - x) > 0; } else { assert n * (x - y) > 0; }
  }

  lemma SanitizeTwice(s: string, url: string)
    requires url != ""
    ensures var t := Sanitize(s, Some(url));
            Sanitize(t, Some(url)) == t <==> !Contains(t, url) || url == REMOTE_MASK
  {
    var t := Sanitize(s, Some(url));
    MarkerNeverSurvives(s, Some(url));
    RemoteMaskHasNoMarker();
    hide Contains, Replace, Clashes;
    var again := Replace(t, url, REMOTE_MASK);
    if Contains(again, MARKER) { ReplaceCreatesNothing(t, url, REMOTE_MASK, MARKER); }
    ReplaceAbsent(again, MARKER, MARKER_MASK);
    assert Sanitize(t, Some(url)) == again;
    if !Contains(t, url) {
      ReplaceAbsent(t, url, REMOTE_MASK);
    } else if url != REMOTE_MASK {
      ReplaceChanges(t, url, REMOTE_MASK);
    } else {
      ReplaceBySame(t, url);
    }
  }

  lemma {:induction false} ReplaceBySame(s: string, pat: string)
    requires pat != ""
    ensures Replace(s, pat, pat) == s
    decreases |s|
  {
    match Position(s, pat)
    case None =>
    case Some(k) =>
      MatchRejoins(s, pat, k);
      hide Position, MatchesAt;
      ReplaceBySame(s[k + |pat|..], pat);
  }

  lemma MarkerPassTwice(s: string)
    ensures Sanitize(Sanitize(s, None), None) == Sanitize(s, None)
  {
    MarkerNeverSurvives(s, None);
    hide Contains, Replace;
    ReplaceAbsent(Sanitize(s, None), MARKER, MARKER_MASK);
  }

  /** Sanitizing twice is sanitizing once, for all texts, exactly for the URLs that stay hidden. */
  lemma SanitizeIdempotentExactly(capUrl: Option<string>)
    requires capUrl.Some? ==> capUrl.value != ""
    ensures (forall s :: Sanitize(Sanitize(s, capUrl), capUrl) == Sanitize(s, capUrl))
            <==> capUrl.None? || Contains(capUrl.value, MARKER) || !Forgeable(capUrl.value)
                 || capUrl.value == REMOTE_MASK
  {
    hide Contains, Sanitize, Forgeable;
    match capUrl
    case None =>
      forall s ensures Sanitize(Sanitize(s, None), None) == Sanitize(s, None) { MarkerPassTwice(s); }
    case Some(url) =>
      UrlHiddenExactly(url);
      forall s
        ensures Sanitize(Sanitize(s, capUrl), capUrl) == Sanitize(s, capUrl)
                <==> !Contains(Sanitize(s, capUrl), url) || url == REMOTE_MASK
      {
        SanitizeTwice(s, url);
      }
  }

  // ----- run_git_op

  datatype GitOp = Push | Fetch | Clone
  datatype GitOpReq = GitOpReq(repo: string, op: GitOp, gitRef: Option<string>)
  datatype GitOpResult = GitOpResult(commitSha: Option<string>, output: string)

  /** What running git may do: fail to start, or exit with any status and any output. */
  datatype GitRun = SpawnFailed(reason: string) | Exited(success: bool, stdout: string, stderr: string)

  datatype Command = Command(args: seq<string>, cwd: string)

  function OpName(op: GitOp): string {
    match op case Push => "Push" case Fetch => "Fetch" case Clone => "Clone"
  }

  function Remote(creds: Creds, repo: string): string {
    match creds.GitCapUrl(repo) case Some(url) => TrimEndSlashes(url) case None => "origin"
  }

  function GitCommand(creds: Creds, root: string, req: GitOpReq): Command {
    var work := JoinPath(root, req.repo);
    var remote := Remote(creds, req.repo);
    var refArg := if req.gitRef.Some? then [req.gitRef.value] else [];
    match req.op
    case Push => Command(["push", remote] + refArg, work)
    case Fetch => Command(["fetch", remote] + refArg, work)
    case Clone => Command(["clone", remote, work], root)
  }

  function FailurePrefix(op: GitOp): string {
    "git " + OpName(op) + " failed: "
  }

  /** The result, and the commands that were handed to git. */
  function RunGitOp(creds: Creds, root: string, req: GitOpReq,
                    git: Command -> GitRun, headSha: string -> Option<string>): (Result<GitOpResult>, seq<Command>)
  {
    match SafeRepo(req.repo)
    case Err(e) => (Err(e), [])
    case Ok(_) =>
      var command := GitCommand(creds, root, req);
      var sha := headSha(JoinPath(root, req.repo));
      (FinishGitOp(req.op, creds.GitCapUrl(req.repo), git(command), sha), [command])
  }

  function FinishGitOp(op: GitOp, capUrl: Option<string>, run: GitRun, sha: Option<string>): Result<GitOpResult> {
    match run
    case SpawnFailed(reason) => Err(CodeError(Internal, "git spawn: " + reason))
    case Exited(success, stdout, stderr) =>
      var sanitized := Sanitize(stdout + stderr, capUrl);
      if !success then Err(CodeError(Internal, FailurePrefix(op) + sanitized))
      else Ok(GitOpResult(sha, sanitized))
  }

  /** The text the caller gets to see. */
  function Reported(r: Result<GitOpResult>): string {
    match r case Ok(res) => res.output case Err(e) => e.message
  }

  /** `f` ends in a proper, non-empty beginning of `p`. */
  ghost predicate EndsInStartOf(f: string, p: string) {
    exists n :: 0 < n < |p| && n <= |f| && f[|f| - n..] == p[..n]
  }

  /** A concatenation contains what its parts contain, and what the join spells. */
  lemma NoMatchAcross(f: string, s: string, p: string)
    ensures Contains(f + s, p) ==> Contains(f, p) || Contains(s, p) || EndsInStartOf(f, p)
  {
    if Contains(f + s, p) {
      var i: nat :| MatchesAt(f + s, p, i);
      if i + |p| <= |f| {
        PrefixMatches(f, f + s, |f|, p, i);
      } else if |f| <= i {
        MatchesAtDrop(f + s, p, |f|, i - |f|);
        assert (f + s)[|f|..] == s;
      } else {
        JoinSpells(f, s, p, i);
      }
    }
  }

  lemma JoinSpells(f: string, s: string, p: string, i: nat)
    requires MatchesAt(f + s, p, i) && i < |f| < i + |p|
    ensures EndsInStartOf(f, p)
  {
    var n := |f| - i;
    assert f[|f| - n..] == (f + s)[i..i + |p|][..n];
  }

  lemma OverlapCompletes(f: string, p: string, n: nat)
    requires n <= |p| && n <= |f| && f[|f| - n..] == p[..n]
    ensures Contains(f + p[n..], p)
  {
    var i := |f| - n;
    assert f + p[n..] == f[..i] + p + "" by {
      assert f == f[..i] + p[..n] && p == p[..n] + p[n..];
    }
    ContainsSelf(p);
    ContainsSub(f[..i], p, "", p);
  }

  lemma PrefixEndsInNoMarkerStart(op: GitOp)
    ensures !EndsInStartOf(FailurePrefix(op), MARKER)
  {
    var f := FailurePrefix(op);
    forall n | 0 < n < |MARKER| && n <= |f| ensures f[|f| - n..] != MARKER[..n] {
      assert f[|f| - 1] == ' ' && f[|f| - n..][n - 1] == f[|f| - 1];
    }
  }

  lemma PrefixHasNoMarker(op: GitOp)
    ensures !Contains(FailurePrefix(op), MARKER)
  {
    forall i: nat ensures !MatchesAt(FailurePrefix(op), MARKER, i) {
      if i + |MARKER| <= |FailurePrefix(op)| {
        assert FailurePrefix(op)[i] != 'x';
        NoMatchAt(FailurePrefix(op), MARKER, i, 0);
      }
    }
  }

  /** Nothing a finished git run reports, on success or failure, contains the token marker. */
  lemma ReportNeverShowsMarker(op: GitOp, capUrl: Option<string>, run: GitRun, sha: Option<string>)
    requires run.Exited?
    ensures !Contains(Reported(FinishGitOp(op, capUrl, run, sha)), MARKER)
  {
    hide Contains, Sanitize, FailurePrefix, EndsInStartOf;
    var out := run.stdout + run.stderr;
    MarkerNeverSurvives(out, capUrl);
    PrefixHasNoMarker(op);
    PrefixEndsInNoMarkerStart(op);
    NoMatchAcross(FailurePrefix(op), Sanitize(out, capUrl), MARKER);
  }

  ghost predicate ReportShows(op: GitOp, url: string, run: GitRun) {
    Contains(Reported(FinishGitOp(op, Some(url), run, None)), TrimEndSlashes(url))
  }

  /** No end of the fixed prefix helps to spell `p`, and none of its pieces is `p`. */
  ghost predicate ClearOfPrefix(op: GitOp, p: string) {
    !Contains(FailurePrefix(op), p) && !EndsInStartOf(FailurePrefix(op), p)
  }

  /** What a caller can check about the stored cap-URL before running git. */
  ghost predicate Reportable(op: GitOp, url: string)
    requires url != ""
  {
    Contains(TrimEndSlashes(url), MARKER)
    || (url[|url| - 1] != '/' && !Forgeable(url) && ClearOfPrefix(op, url))
  }

  lemma ReportHidesRemote(op: GitOp, url: string, run: GitRun)
    requires url != "" && run.Exited? && Reportable(op, url)
    ensures !ReportShows(op, url, run)
  {
    hide Contains, Sanitize, FailurePrefix, Forgeable, EndsInStartOf;
    var remote := TrimEndSlashes(url);
    var out := run.stdout + run.stderr;
    if Contains(remote, MARKER) {
      ReportNeverShowsMarker(op, Some(url), run, None);
      var report := Reported(FinishGitOp(op, Some(url), run, None));
      if Contains(report, remote) { ContainsTransitive(report, remote, MARKER); }
    } else {
      NotForgeableNeverSurvives(out, url);
      NoMatchAcross(FailurePrefix(op), Sanitize(out, Some(url)), url);
    }
  }

  /** The rest of the URL, printed by a failing git, passes redaction and completes the prefix. */
  lemma OverlapIsReported(op: GitOp, url: string, n: nat)
    requires 0 < n < |url| && n <= |FailurePrefix(op)| && FailurePrefix(op)[|FailurePrefix(op)| - n..] == url[..n]
    requires url[|url| - 1] != '/' && !Contains(url, MARKER)
    ensures ReportShows(op, url, Exited(false, url[n..], ""))
  {
    hide *;
    FailureReport(op, url, url[n..]);
    RestPassesRedaction(url, n);
    OverlapCompletes(FailurePrefix(op), url, n);
  }

  lemma FailureReport(op: GitOp, url: string, out: string)
    requires url != "" && url[|url| - 1] != '/'
    ensures ReportShows(op, url, Exited(false, out, ""))
            <==> Contains(FailurePrefix(op) + Sanitize(out, Some(url)), url)
  {
    assert TrimEndSlashes(url) == url;
    hide Contains, Sanitize, FailurePrefix, TrimEndSlashes;
    assert out + "" == out;
  }

  lemma RestPassesRedaction(url: string, n: nat)
    requires 0 < n <= |url| && !Contains(url, MARKER)
    ensures Sanitize(url[n..], Some(url)) == url[n..]
  {
    assert url[..n] + url[n..] == url;
    HalvesContainNot(url[..n], url[n..], MARKER);
    ShorterContainsNot(url[n..], url);
    hide Contains, Sanitize;
    SanitizeKeepsCleanText(url[n..], Some(url));
  }

  lemma OutputIsReported(op: GitOp, url: string) returns (run: GitRun)
    requires url != "" && !Hideable(url)
    ensures run.Exited? && ReportShows(op, url, run)
  {
    RemoteHiddenExactly(url);
    hide Contains, Sanitize, Hideable, TrimEndSlashes;
    var s :| Contains(Sanitize(s, Some(url)), TrimEndSlashes(url));
    run := Exited(true, s, "");
    assert s + "" == s;
  }

  lemma PrefixIsReported(op: GitOp, url: string)
    requires Contains(FailurePrefix(op), TrimEndSlashes(url))
    ensures ReportShows(op, url, Exited(false, "", ""))
  {
    hide Contains, Sanitize, FailurePrefix, TrimEndSlashes;
    ContainsPart(FailurePrefix(op), Sanitize("" + "", Some(url)), TrimEndSlashes(url));
  }

  /**
   The remote git was given stays out of every report of every finished run exactly when the
   stored cap-URL is `Reportable`: no trailing slash, no mask spells it, and the fixed failure
   prefix neither contains it nor ends in a beginning of it; or the remote contains the marker.
   */
  lemma ReportHidesRemoteExactly(op: GitOp, url: string)
    requires url != ""
    ensures (forall run: GitRun | run.Exited? :: !ReportShows(op, url, run)) <==> Reportable(op, url)
  {
    hide Contains, Sanitize, FailurePrefix, Forgeable, EndsInStartOf, ReportShows;
    if Reportable(op, url) {
      forall run: GitRun | run.Exited? ensures !ReportShows(op, url, run) {
        ReportHidesRemote(op, url, run);
      }
    } else if !Hideable(url) {
      var run := OutputIsReported(op, url);
    } else if Contains(FailurePrefix(op), url) {
      PrefixIsReported(op, url);
      assert Exited(false, "", "").Exited?;
    } else {
      OverlapShows(op, url);
    }
  }

  lemma OverlapShows(op: GitOp, url: string)
    requires url != "" && url[|url| - 1] != '/'
    requires EndsInStartOf(FailurePrefix(op), url) && !Contains(url, MARKER)
    ensures exists run: GitRun :: run.Exited? && ReportShows(op, url, run)
  {
    hide *;
    var n := OverlapLength(FailurePrefix(op), url);
    OverlapIsReported(op, url, n);
    assert Exited(false, url[n..], "").Exited?;
  }

  lemma OverlapLength(f: string, p: string) returns (n: nat)
    requires EndsInStartOf(f, p)
    ensures 0 < n < |p| && n <= |f| && f[|f| - n..] == p[..n]
  {
    n :| 0 < n < |p| && n <= |f| && f[|f| - n..] == p[..n];
  }

  /** A loadable URL that no mask can spell and that every failed push reports all the same. */
  lemma ColonIsReported()
    ensures Unforgeable(":") && ReportShows(Push, ":", Exited(false, "", ""))
  {
    assert ":"[0] == ':';
    ColonUrlIsUnforgeable(":");
    var f := FailurePrefix(Push);
    assert f[15..16] == ":";
    assert MatchesAt(f, ":", 15);
    assert TrimEndSlashes(":") == ":";
    hide *;
    PrefixIsReported(Push, ":");
  }

  /** And one that only the join of prefix and output spells. */
  lemma JoinIsReported()
    ensures Unforgeable("failed: x") && ReportShows(Push, "failed: x", Exited(false, "x", ""))
  {
    var url := "failed: x";
    assert url[6] == ':' && url[8] == 'x';
    ColonUrlIsUnforgeable(url);
    var f := FailurePrefix(Push);
    assert |f| == 17 && f[9..] == "failed: " == url[..8];
    assert url[8..] == "x";
    ShorterContainsNot(url, MARKER);
    assert |url| == 9;
    hide *;
    OverlapIsReported(Push, url, 8);
  }

  lemma HttpClearOfPrefix(op: GitOp, url: string)
    requires "http" <= url
    ensures ClearOfPrefix(op, url)
  {
    var f := FailurePrefix(op);
    assert |f| <= 18 && forall i :: 0 <= i < |f| - 1 && f[i] == 'h' ==> f[i + 1] != 't';
    assert f[|f| - 1] != 'h';
    assert url[0] == 'h' && url[1] == 't';
    forall i: nat ensures !MatchesAt(f, url, i) {
      if i + |url| <= |f| {
        assert f[i..i + |url|][0] == f[i] && f[i..i + |url|][1] == f[i + 1];
      }
    }
    forall n | 0 < n < |url| && n <= |f| ensures f[|f| - n..] != url[..n] {
      assert f[|f| - n..][0] == f[|f| - n];
      if n > 1 { assert f[|f| - n..][1] == f[|f| - n + 1]; }
    }
  }

  /**
   `run_git_op` end to end: with a stored `http…` cap-URL without trailing slash, git gets exactly
   that URL and no finished run of any accepted request reports it.
   */
  lemma HttpCapUrlIsNeverReported(creds: Creds, root: string, req: GitOpReq, url: string,
                                  git: Command -> GitRun, headSha: string -> Option<string>)
    requires SafeRepo(req.repo).Ok? && creds.GitCapUrl(req.repo) == Some(url)
    requires "http" <= url && url[|url| - 1] != '/'
    requires forall i :: 0 <= i < |url| && url[i] == '[' ==> i + 1 < |url| && url[i + 1] != 'r'
    requires git(GitCommand(creds, root, req)).Exited?
    ensures GitCommand(creds, root, req).args[1] == url
    ensures !Contains(Reported(RunGitOp(creds, root, req, git, headSha).0), url)
    ensures !Contains(Reported(RunGitOp(creds, root, req, git, headSha).0), MARKER)
  {
    var run := git(GitCommand(creds, root, req));
    var sha := headSha(JoinPath(root, req.repo));
    GitGetsStoredUrl(creds, root, req, url);
    hide GitCommand, JoinPath, SafeRepo, Contains;
    FinishHidesHttpUrl(req.op, url, run, sha);
    ReportNeverShowsMarker(req.op, Some(url), run, sha);
  }

  lemma GitGetsStoredUrl(creds: Creds, root: string, req: GitOpReq, url: string)
    requires creds.GitCapUrl(req.repo) == Some(url) && url != "" && url[|url| - 1] != '/'
    ensures |GitCommand(creds, root, req).args| >= 2 && GitCommand(creds, root, req).args[1] == url
  {
    hide JoinPath;
  }

  lemma FinishHidesHttpUrl(op: GitOp, url: string, run: GitRun, sha: Option<string>)
    requires "http" <= url && url[|url| - 1] != '/' && run.Exited?
    requires forall i :: 0 <= i < |url| && url[i] == '[' ==> i + 1 < |url| && url[i + 1] != 'r'
    ensures !Contains(Reported(FinishGitOp(op, Some(url), run, sha)), url)
  {
    HttpUrlIsUnforgeable(url);
    assert TrimEndSlashes(url) == url;
    hide Contains, Sanitize, FailurePrefix, Unforgeable, TrimEndSlashes, Forgeable, ClearOfPrefix;
    HttpClearOfPrefix(op, url);
    UnforgeableIsNotForgeable(url);
    ReportHidesRemote(op, url, run);
  }

  // ----- run_git_op, without looking inside

  /** A single path segment. */
  predicate PlainName(repo: string) {
    repo != "" && '/' !in repo && repo != "." && repo != ".."
  }

  /** For any other name git is not started, whatever it would have done. */
  lemma OtherNamesAreRefused(creds: Creds, root: string, req: GitOpReq,
                             git: Command -> GitRun, headSha: string -> Option<string>)
    requires !PlainName(req.repo)
    ensures var (r, started) := RunGitOp(creds, root, req, git, headSha);
            started == [] && r.Err? && r.error.code == if req.repo == "" then Invalid else Forbidden
  {
    SafeRepoExact(req.repo);
    hide Components;
  }

  /** `dir` is the directory named `repo` right below `root`. */
  ghost predicate WorksIn(root: string, repo: string, dir: string) {
    Components(dir) == Components(root) + [Normal(repo)]
  }

  /** `remote` is `url` less all its trailing slashes. */
  ghost predicate LessSlashes(url: string, remote: string) {
    && remote <= url && (remote != "" ==> remote[|remote| - 1] != '/')
    && forall i :: |remote| <= i < |url| ==> url[i] == '/'
  }

  /** `remote` is the stored cap-URL less its trailing slashes, or `origin` when none is held. */
  ghost predicate IsRemote(creds: Creds, repo: string, remote: string) {
    if repo in creds.gitCaps then LessSlashes(creds.gitCaps[repo], remote)
    else remote == "origin"
  }

  /** The command line a request stands for. */
  ghost predicate IsCommand(creds: Creds, root: string, req: GitOpReq, c: Command) {
    && |c.args| >= 2 && IsRemote(creds, req.repo, c.args[1])
    && match req.op
       case Clone => c.args[0] == "clone" && |c.args| == 3 && WorksIn(root, req.repo, c.args[2]) && c.cwd == root
       case _ =>
         && c.args[0] == (if req.op.Push? then "push" else "fetch")
         && c.args[2..] == (if req.gitRef.Some? then [req.gitRef.value] else [])
         && WorksIn(root, req.repo, c.cwd)
  }

  lemma TrimmedSlashes(s: string)
    ensures forall i :: |TrimEndSlashes(s)| <= i < |s| ==> s[i] == '/'
  {
    if s != "" && s[|s| - 1] == '/' { TrimmedSlashes(s[..|s| - 1]); }
  }

  lemma RemoteIsRemote(creds: Creds, repo: string)
    ensures IsRemote(creds, repo, Remote(creds, repo))
  {
    if repo in creds.gitCaps { TrimmedSlashes(creds.gitCaps[repo]); }
    hide TrimEndSlashes;
  }

  lemma CommandIsRight(creds: Creds, root: string, req: GitOpReq)
    requires WorksIn(root, req.repo, JoinPath(root, req.repo))
    ensures IsCommand(creds, root, req, GitCommand(creds, root, req))
  {
    RemoteIsRemote(creds, req.repo);
    hide WorksIn, JoinPath, Remote, IsRemote;
    var c := GitCommand(creds, root, req);
    match req.op
    case Clone => assert c.args == ["clone", Remote(creds, req.repo), JoinPath(root, req.repo)];
    case Push => assert c.args[2..] == if req.gitRef.Some? then [req.gitRef.value] else [];
    case Fetch => assert c.args[2..] == if req.gitRef.Some? then [req.gitRef.value] else [];
  }

  /** For a plain name exactly one command is started, the one the request stands for. */
  lemma PlainNamesRunGit(creds: Creds, root: string, req: GitOpReq,
                         git: Command -> GitRun, headSha: string -> Option<string>)
    requires PlainName(req.repo)
    ensures var (r, started) := RunGitOp(creds, root, req, git, headSha);
            |started| == 1 && IsCommand(creds, root, req, started[0])
  {
    SafeRepoExact(req.repo);
    WorkingCopyIsDirectChild(root, req.repo);
    hide Components, JoinPath, SafeRepo, GitCommand, FinishGitOp, IsCommand;
    CommandIsRight(creds, root, req);
  }

  /** Output that holds neither the marker nor the stored URL. */
  ghost predicate CleanFor(creds: Creds, repo: string, s: string) {
    !Contains(s, MARKER) && (repo in creds.gitCaps ==> creds.gitCaps[repo] != "" && !Contains(s, creds.gitCaps[repo]))
  }

  function FailureText(op: GitOp): string {
    match op
    case Push => "git Push failed: "
    case Fetch => "git Fetch failed: "
    case Clone => "git Clone failed: "
  }

  lemma FailurePrefixIsText(op: GitOp)
    ensures FailurePrefix(op) == FailureText(op)
  {
    assert "git " + "Push" + " failed: " == "git Push failed: ";
    assert "git " + "Fetch" + " failed: " == "git Fetch failed: ";
    assert "git " + "Clone" + " failed: " == "git Clone failed: ";
  }

  lemma FinishDecides(op: GitOp, capUrl: Option<string>, run: GitRun, sha: Option<string>)
    ensures var r := FinishGitOp(op, capUrl, run, sha);
            && (r.Ok? <==> run.Exited? && run.success)
            && (r.Ok? ==> r.value.commitSha == sha)
            && (r.Err? ==> r.error.code == Internal)
            && (run.SpawnFailed? ==> Reported(r) == "git spawn: " + run.reason)
            && (run.Exited? && Sanitize(run.stdout + run.stderr, capUrl) == run.stdout + run.stderr ==>
                  Reported(r) == (if run.success then "" else FailureText(op)) + (run.stdout + run.stderr))
  {
    FailurePrefixIsText(op);
    hide Sanitize, FailurePrefix, FailureText;
    if run.Exited? { assert "" + (run.stdout + run.stderr) == run.stdout + run.stderr; }
  }

  lemma RunGitOpStarts(creds: Creds, root: string, req: GitOpReq,
                       git: Command -> GitRun, headSha: string -> Option<string>)
    requires PlainName(req.repo)
    ensures var c := GitCommand(creds, root, req);
            RunGitOp(creds, root, req, git, headSha)
            == (FinishGitOp(req.op, creds.GitCapUrl(req.repo), git(c), headSha(JoinPath(root, req.repo))), [c])
    ensures if req.op.Clone? then GitCommand(creds, root, req).args[2..] == [JoinPath(root, req.repo)]
            else GitCommand(creds, root, req).cwd == JoinPath(root, req.repo)
  {
    SafeRepoExact(req.repo);
    hide Components, JoinPath, FinishGitOp;
  }

  /**
   What a started git makes of the result: success exactly when it exits with success, with the sha
   of the working copy; clean output is passed on as it is, stdout before stderr.
   */
  lemma GitDecidesResult(creds: Creds, root: string, req: GitOpReq,
                         git: Command -> GitRun, headSha: string -> Option<string>) returns (dir: string)
    requires PlainName(req.repo)
    ensures WorksIn(root, req.repo, dir)
    ensures var (r, started) := RunGitOp(creds, root, req, git, headSha);
            && |started| == 1
            && (if req.op.Clone? then |started[0].args| >= 2 && started[0].args[2..] == [dir] else started[0].cwd == dir)
            && var run := git(started[0]);
            && (r.Ok? <==> run.Exited? && run.success)
            && (r.Ok? ==> r.value.commitSha == headSha(dir))
            && (r.Err? ==> r.error.code == Internal)
            && (run.SpawnFailed? ==> Reported(r) == "git spawn: " + run.reason)
            && (run.Exited? && CleanFor(creds, req.repo, run.stdout + run.stderr) ==>
                  Reported(r) == (if run.success then "" else FailureText(req.op)) + (run.stdout + run.stderr))
  {
    SafeRepoExact(req.repo);
    WorkingCopyIsDirectChild(root, req.repo);
    dir := JoinPath(root, req.repo);
    RunGitOpStarts(creds, root, req, git, headSha);
    PlainNamesRunGit(creds, root, req, git, headSha);
    var run := git(GitCommand(creds, root, req));
    hide RunGitOp, Components, JoinPath, SafeRepo, GitCommand, Contains, Sanitize, FinishGitOp, Reported, FailureText;
    FinishDecides(req.op, creds.GitCapUrl(req.repo), run, headSha(dir));
    if run.Exited? && CleanFor(creds, req.repo, run.stdout + run.stderr) {
      SanitizeKeepsCleanText(run.stdout + run.stderr, creds.GitCapUrl(req.repo));
    }
  }

  /** The trailing-slash gap on a concrete cap-URL: the remote passes through untouched. */
  lemma TrailingSlashLeaks()
    ensures var url := "http://h/git/C/";
            Contains(Sanitize("http://h/git/C", Some(url)), TrimEndSlashes(url))
  {
    var url := "http://h/git/C/";
    var remote := "http://h/git/C";
    assert url[..|url| - 1] == remote;
    assert TrimEndSlashes(url) == remote;
    assert !Contains(remote, url);
    forall i: nat ensures !MatchesAt(remote, MARKER, i) {
      if i + |MARKER| <= |remote| { assert remote[i..i + |MARKER|][0] == remote[0]; }
    }
    assert !Contains(remote, MARKER);
    SanitizeKeepsCleanText(remote, Some(url));
    ContainsSelf(remote);
  }
}
