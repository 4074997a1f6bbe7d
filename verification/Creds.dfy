/** Credential custody, `src/creds.rs`: load, the accessors, the sorted name list and scrub. */
module Creds {
  import opened Types
  import opened Text
  import opened CapsDir

  datatype ForgeOwnerCreds = ForgeOwnerCreds(ownerUser: string, ownerPassword: string, adminToken: string)

  /** A clone of the held credentials, as every operation takes one. */
  datatype Creds = Creds(gitCaps: map<string, string>,
                         forgeAdminToken: Option<string>,
                         forgeOwner: Option<ForgeOwnerCreds>)
  {
    function GitCapUrl(repo: string): Option<string> {
      if repo in gitCaps then Some(gitCaps[repo]) else None
    }
  }

  const EMPTY := Creds(map[], None, None)

  /** The JSON reader for the owner blob. */
  type OwnerParser = string -> Option<ForgeOwnerCreds>

  // ----- what a load sees

  ghost function UrlRepos(dir: Dir, listed: set<string>): set<string> {
    set name | name in listed && IsUrlName(name) && NonBlank(dir, name).Some? :: RepoOf(name)
  }

  lemma UrlReposMember(dir: Dir, listed: set<string>, repo: string)
    ensures repo in UrlRepos(dir, listed)
            <==> repo + URL_SUFFIX in listed && NonBlank(dir, repo + URL_SUFFIX).Some?
  {
    var name := repo + URL_SUFFIX;
    assert IsUrlName(name) && RepoOf(name) == repo;
    if repo in UrlRepos(dir, listed) {
      var n :| n in listed && IsUrlName(n) && NonBlank(dir, n).Some? && RepoOf(n) == repo;
      assert n == RepoOf(n) + URL_SUFFIX;
    }
  }

  ghost function LoadedCaps(dir: Dir, listed: set<string>): map<string, string> {
    map repo | repo in UrlRepos(dir, listed) :: Trim(UrlText(dir, repo))
  }

  function UrlText(dir: Dir, repo: string): string {
    var name := repo + URL_SUFFIX;
    if name in dir && dir[name].Some? then dir[name].value else ""
  }

  function LoadedAdmin(raw: Option<string>, parse: OwnerParser): (Option<string>, Option<ForgeOwnerCreds>) {
    match raw
    case None => (None, None)
    case Some(s) =>
      match parse(s)
      case Some(owner) => (Some(owner.adminToken), Some(owner))
      case None => (Some(s), None)
  }

  /** The credentials a broker start obtains from the directory, given the names its scan yields. */
  ghost function Loaded(dir: Dir, listed: set<string>, parse: OwnerParser): Creds {
    var (token, owner) := LoadedAdmin(NonBlank(dir, FORGE_ADMIN_FILE), parse);
    Creds(LoadedCaps(dir, listed), token, owner)
  }

  // ----- the name list

  predicate Less(a: string, b: string) {
    if b == "" then false
    else if a == "" then true
    else a[0] < b[0] || (a[0] == b[0] && Less(a[1..], b[1..]))
  }

  /** The lexicographic order: at the first difference, or with the shorter text in front. */
  lemma {:induction false} LessExactly(a: string, b: string)
    ensures Less(a, b) <==> exists k :: 0 <= k <= |a| && k < |b| && a[..k] == b[..k] && (k == |a| || a[k] < b[k])
  {
    if a == "" || b == "" {
      if b != "" { assert a[..0] == b[..0]; }
    } else {
      LessExactly(a[1..], b[1..]);
      if a[0] < b[0] { assert a[..0] == b[..0]; }
      if a[0] == b[0] && Less(a[1..], b[1..]) {
        var k :| 0 <= k <= |a[1..]| && k < |b[1..]| && a[1..][..k] == b[1..][..k] && (k == |a[1..]| || a[1..][k] < b[1..][k]);
        assert a[..k + 1] == [a[0]] + a[1..][..k] && b[..k + 1] == [b[0]] + b[1..][..k];
      }
      if k :| 0 <= k <= |a| && k < |b| && a[..k] == b[..k] && (k == |a| || a[k] < b[k]) {
        if k > 0 {
          assert a[..k][0] == b[..k][0];
          assert a[1..][..k - 1] == a[..k][1..] == b[..k][1..] == b[1..][..k - 1];
        }
      }
    }
  }

  lemma {:induction false} LessTotal(a: string, b: string)
    ensures Less(a, b) || a == b || Less(b, a)
    ensures !(Less(a, b) && Less(b, a)) && !Less(a, a)
  {
    if a != "" && b != "" {
      assert a == [a[0]] + a[1..] && b == [b[0]] + b[1..];
      LessTotal(a[1..], b[1..]);
      LessTotal(a[1..], a[1..]);
    } else if a != "" {
      LessTotal(a[1..], a[1..]);
    }
  }

  lemma {:induction false} LessTransitive(a: string, b: string, c: string)
    requires Less(a, b) && Less(b, c)
    ensures Less(a, c)
  {
    if a != "" && a[0] == b[0] == c[0] { LessTransitive(a[1..], b[1..], c[1..]); }
  }

  ghost predicate StrictlySorted(names: seq<string>) {
    forall i, j :: 0 <= i < j < |names| ==> Less(names[i], names[j])
  }

  /** Insertion into a sorted list. */
  method InsertName(names: seq<string>, name: string) returns (r: seq<string>)
    requires StrictlySorted(names) && name !in names
    ensures StrictlySorted(r) && NamesOf(r) == NamesOf(names) + {name}
  {
    var k := 0;
    while k < |names| && Less(names[k], name)
      invariant 0 <= k <= |names|
      invariant forall i :: 0 <= i < k ==> Less(names[i], name)
    {
      k := k + 1;
    }
    r := names[..k] + [name] + names[k..];
    forall j | k <= j < |names| ensures Less(name, names[j]) {
      LessTotal(names[k], name);
      if k < j { LessTransitive(name, names[k], names[j]); }
    }
    assert names == names[..k] + names[k..];
  }

  ghost function GitNames(repos: set<string>): set<string> {
    set repo | repo in repos :: "git:" + repo
  }

  ghost function CapNameSet(creds: Creds): set<string> {
    GitNames(creds.gitCaps.Keys)
    + (if creds.forgeAdminToken.Some? then {"forge"} else {})
  }

  /** Sorted, duplicate-free, and these very names: that pins the list down completely. */
  ghost predicate IsNameList(names: seq<string>, creds: Creds) {
    StrictlySorted(names) && NamesOf(names) == CapNameSet(creds)
  }

  lemma NoNamesNoList(names: seq<string>)
    ensures NamesOf(names) == {} ==> names == []
  {
    if names != [] { assert names[0] in NamesOf(names); }
  }

  lemma {:induction false} SortedListIsUnique(a: seq<string>, b: seq<string>)
    requires StrictlySorted(a) && StrictlySorted(b) && NamesOf(a) == NamesOf(b)
    ensures a == b
  {
    if a == [] {
      NoNamesNoList(b);
    } else {
      assert a[0] in NamesOf(b) && b != [];
      assert b[0] in NamesOf(a);
      var i :| 0 <= i < |b| && b[i] == a[0];
      var j :| 0 <= j < |a| && a[j] == b[0];
      LessTotal(a[0], b[0]);
      assert a[0] == b[0];
      NamesOfTail(a);
      NamesOfTail(b);
      SortedListIsUnique(a[1..], b[1..]);
      assert a == [a[0]] + a[1..] && b == [b[0]] + b[1..];
    }
  }

  lemma NamesOfTail(a: seq<string>)
    requires a != [] && StrictlySorted(a)
    ensures StrictlySorted(a[1..]) && NamesOf(a[1..]) == NamesOf(a) - {a[0]}
  {
    assert a == [a[0]] + a[1..];
    LessTotal(a[0], a[0]);
    forall name | name in a[1..] ensures name != a[0] {
      var i :| 0 <= i < |a[1..]| && a[1..][i] == name;
      assert Less(a[0], a[i + 1]);
    }
  }

  lemma GitNameIsNew(names: seq<string>, repos: set<string>, repo: string)
    requires NamesOf(names) == GitNames(repos) && repo !in repos
    ensures "git:" + repo !in names
  {
    forall other | other in repos ensures "git:" + other != "git:" + repo {
      assert ("git:" + other)[4..] == other && ("git:" + repo)[4..] == repo;
    }
    assert "git:" + repo !in NamesOf(names);
  }

  lemma ForgeIsNew(names: seq<string>, repos: set<string>)
    requires NamesOf(names) == GitNames(repos)
    ensures "forge" !in names
  {
    forall repo | repo in repos ensures "git:" + repo != "forge" {
      assert ("git:" + repo)[0] == 'g' && "forge"[0] == 'f';
    }
    assert "forge" !in NamesOf(names);
  }

  // ----- the shared cell

  class CredCell {
    var gitCaps: map<string, string>
    var forgeAdminToken: Option<string>
    var forgeOwner: Option<ForgeOwnerCreds>

    /** `lock().clone()`. */
    function Snapshot(): Creds
      reads this
    {
      Creds(gitCaps, forgeAdminToken, forgeOwner)
    }

    /** `Creds::load`: the scan order leaves no trace in the result. */
    constructor Load(dir: Dir, listing: seq<string>, parse: OwnerParser)
      ensures Snapshot() == Loaded(dir, NamesOf(listing), parse)
    {
      var caps: map<string, string> := map[];
      for i := 0 to |listing|
        invariant caps == LoadedCaps(dir, NamesOf(listing[..i]))
      {
        NamesOfNext(listing, i);
        var name := listing[i];
        LoadedCapsNext(dir, NamesOf(listing[..i]), name);
        if IsUrlName(name) && NonBlank(dir, name).Some? {
          caps := caps[RepoOf(name) := NonBlank(dir, name).value];
        }
      }
      assert listing[..|listing|] == listing;
      gitCaps := caps;
      var (token, owner) := LoadedAdmin(NonBlank(dir, FORGE_ADMIN_FILE), parse);
      forgeAdminToken, forgeOwner := token, owner;
    }

    /** `scrub`: nothing is held afterwards. */
    method Scrub()
      modifies this
      ensures Snapshot() == EMPTY
    {
      gitCaps := map[];
      forgeAdminToken := None;
      forgeOwner := None;
    }

    /** `cap_names`: keys come out of the hash map in any order, the list is the same. */
    method CapNames() returns (names: seq<string>)
      ensures IsNameList(names, Snapshot())
    {
      names := [];
      var todo := gitCaps.Keys;
      ghost var done: set<string> := {};
      while todo != {}
        invariant todo + done == gitCaps.Keys && todo !! done
        invariant StrictlySorted(names)
        invariant NamesOf(names) == GitNames(done)
      {
        var repo :| repo in todo;
        GitNameIsNew(names, done, repo);
        names := InsertName(names, "git:" + repo);
        todo, done := todo - {repo}, done + {repo};
      }
      if forgeAdminToken.Some? {
        ForgeIsNew(names, done);
        names := InsertName(names, "forge");
      }
    }
  }

  lemma UrlReposNext(dir: Dir, listed: set<string>, name: string)
    ensures UrlRepos(dir, listed + {name})
            == UrlRepos(dir, listed)
               + (if IsUrlName(name) && NonBlank(dir, name).Some? then {RepoOf(name)} else {})
  {
    hide NonBlank;
  }

  lemma UrlTextOf(dir: Dir, name: string)
    requires IsUrlName(name) && NonBlank(dir, name).Some?
    ensures Trim(UrlText(dir, RepoOf(name))) == NonBlank(dir, name).value
  {
    hide Trim;
    assert name == RepoOf(name) + URL_SUFFIX;
  }

  lemma LoadedCapsNext(dir: Dir, listed: set<string>, name: string)
    ensures LoadedCaps(dir, listed + {name})
            == if IsUrlName(name) && NonBlank(dir, name).Some?
               then LoadedCaps(dir, listed)[RepoOf(name) := NonBlank(dir, name).value]
               else LoadedCaps(dir, listed)
  {
    hide UrlRepos, UrlText, Trim, NonBlank, IsUrlName;
    UrlReposNext(dir, listed, name);
    if IsUrlName(name) && NonBlank(dir, name).Some? { UrlTextOf(dir, name); }
  }

  // ----- what the list tells

  /**
   The list is `git:<repo>` for each non-blank `<repo>.url` and `forge` for a non-blank admin
   file: directories that agree on which files are non-blank, and whose scans agree on those, give
   the same list, so no byte of any value and no blank file shows in it.
   */
  lemma NamesRevealNoValues(d1: Dir, d2: Dir, listed1: set<string>, listed2: set<string>,
                            p1: OwnerParser, p2: OwnerParser, names1: seq<string>, names2: seq<string>)
    requires forall name :: NonBlank(d1, name).Some? <==> NonBlank(d2, name).Some?
    requires forall name :: NonBlank(d1, name).Some? ==> (name in listed1 <==> name in listed2)
    requires IsNameList(names1, Loaded(d1, listed1, p1)) && IsNameList(names2, Loaded(d2, listed2, p2))
    ensures names1 == names2
  {
    SameRepos(d1, d2, listed1, listed2);
    hide NonBlank, UrlRepos, StrictlySorted, GitNames, Trim;
    assert LoadedCaps(d1, listed1).Keys == LoadedCaps(d2, listed2).Keys;
    assert CapNameSet(Loaded(d1, listed1, p1)) == CapNameSet(Loaded(d2, listed2, p2));
    SortedListIsUnique(names1, names2);
  }

  lemma SameRepos(d1: Dir, d2: Dir, listed1: set<string>, listed2: set<string>)
    requires forall name :: NonBlank(d1, name).Some? <==> NonBlank(d2, name).Some?
    requires forall name :: NonBlank(d1, name).Some? ==> (name in listed1 <==> name in listed2)
    ensures UrlRepos(d1, listed1) == UrlRepos(d2, listed2)
  {
    hide NonBlank;
  }

  lemma LoadedNamesExactly(dir: Dir, listed: set<string>, parse: OwnerParser)
    ensures forall repo :: "git:" + repo in CapNameSet(Loaded(dir, listed, parse))
                           <==> repo + URL_SUFFIX in listed && NonBlank(dir, repo + URL_SUFFIX).Some?
    ensures "forge" in CapNameSet(Loaded(dir, listed, parse)) <==> NonBlank(dir, FORGE_ADMIN_FILE).Some?
  {
    var creds := Loaded(dir, listed, parse);
    forall repo
      ensures "git:" + repo in CapNameSet(creds)
              <==> repo + URL_SUFFIX in listed && NonBlank(dir, repo + URL_SUFFIX).Some?
    {
      UrlReposMember(dir, listed, repo);
      GitNameInjective(creds, repo);
    }
    ForgeIsNoGitName(creds);
  }

  lemma GitNameInjective(creds: Creds, repo: string)
    ensures "git:" + repo in CapNameSet(creds) <==> repo in creds.gitCaps
  {
    assert ("git:" + repo)[4..] == repo;
    assert ("git:" + repo)[0] == 'g' && "forge"[0] == 'f';
    if "git:" + repo in CapNameSet(creds) {
      var other :| other in creds.gitCaps && "git:" + repo == "git:" + other;
      assert ("git:" + other)[4..] == other;
    }
  }

  lemma ForgeIsNoGitName(creds: Creds)
    ensures "forge" in CapNameSet(creds) <==> creds.forgeAdminToken.Some?
  {
    forall repo | repo in creds.gitCaps ensures "git:" + repo != "forge" {
      assert ("git:" + repo)[0] == 'g' && "forge"[0] == 'f';
    }
  }

  /** A start on a directory without credential files holds nothing. */
  lemma LoadNeedsCredFiles(dir: Dir, listed: set<string>, parse: OwnerParser)
    requires CredFiles(dir) == {}
    ensures Loaded(dir, listed, parse) == EMPTY
  {
    forall name | IsCredFile(name) ensures NonBlank(dir, name) == None {
      assert name in dir ==> name in CredFiles(dir);
    }
    assert UrlRepos(dir, listed) == {};
    assert IsCredFile(FORGE_ADMIN_FILE);
  }

  /** Every stored cap-URL is trimmed and non-empty. */
  lemma LoadedUrlsAreTrimmed(dir: Dir, listed: set<string>, parse: OwnerParser, repo: string)
    requires repo in Loaded(dir, listed, parse).gitCaps
    ensures var url := Loaded(dir, listed, parse).gitCaps[repo];
            url != "" && Trimmed(url) && NonBlank(dir, repo + URL_SUFFIX) == Some(url)
  {
    UrlReposMember(dir, listed, repo);
  }
}
