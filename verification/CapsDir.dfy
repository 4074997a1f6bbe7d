/**
 The caps directory `/run/tabbify/caps`: which files count as credentials, the fresh read of the
 authorized-keys cap, and the file half of the pre-snapshot scrub (`src/http_ctrl.rs`).
 */
module CapsDir {
  import opened Types
  import opened Text

  /** File name to contents; `None` stands for a file that cannot be read as text. */
  type Dir = map<string, Option<string>>

  const AUTHKEYS_CAP_FILE := "authkeys.cap"
  const FORGE_ADMIN_FILE := "forge-admin.token"
  const URL_SUFFIX := ".url"

  predicate IsUrlName(name: string) {
    |name| >= 4 && name[|name| - 4..] == URL_SUFFIX
  }

  function RepoOf(name: string): string
    requires IsUrlName(name)
  {
    name[..|name| - 4]
  }

  predicate IsCredFile(name: string) {
    IsUrlName(name) || name == AUTHKEYS_CAP_FILE || name == FORGE_ADMIN_FILE
  }

  lemma FixedNamesAreNoUrls()
    ensures !IsUrlName(AUTHKEYS_CAP_FILE) && !IsUrlName(FORGE_ADMIN_FILE)
    ensures AUTHKEYS_CAP_FILE != FORGE_ADMIN_FILE
  {
    assert AUTHKEYS_CAP_FILE[8..][1] == 'c' && URL_SUFFIX[1] == 'u';
    assert FORGE_ADMIN_FILE[13..][1] == 'k';
    assert |AUTHKEYS_CAP_FILE| != |FORGE_ADMIN_FILE|;
  }

  ghost function CredFiles(dir: Dir): set<string> {
    set name | name in dir && IsCredFile(name)
  }

  /** The trimmed contents of a readable, non-blank file. */
  function NonBlank(dir: Dir, name: string): (r: Option<string>)
    ensures r.Some? ==> name in dir && Trimmed(r.value) && r.value != ""
  {
    if name in dir && dir[name].Some? && Trim(dir[name].value) != "" then Some(Trim(dir[name].value)) else None
  }

  function ReadAuthkeysCap(dir: Dir): Option<string> {
    NonBlank(dir, AUTHKEYS_CAP_FILE)
  }

  /** The names one scrub removes: listed cap-URLs and the two fixed names, where unlinking works. */
  ghost function Removed(dir: Dir, listed: set<string>, deletable: string -> bool): set<string> {
    set name | name in dir && deletable(name) && IsCredFile(name) && (IsUrlName(name) ==> name in listed)
  }

  ghost function RemovedUrls(dir: Dir, listed: set<string>, deletable: string -> bool): set<string> {
    set name | name in dir && deletable(name) && IsUrlName(name) && name in listed
  }

  ghost function RemovedIf(dir: Dir, name: string, deletable: string -> bool): set<string> {
    if name in dir && deletable(name) then {name} else {}
  }

  lemma RemovedUrlsNext(dir: Dir, listed: set<string>, name: string, deletable: string -> bool)
    ensures RemovedUrls(dir, listed + {name}, deletable)
            == RemovedUrls(dir, listed, deletable) + (if IsUrlName(name) then RemovedIf(dir, name, deletable) else {})
  {
    hide IsUrlName;
  }

  lemma RemovedParts(dir: Dir, listed: set<string>, deletable: string -> bool)
    ensures var urls := RemovedUrls(dir, listed, deletable);
            var cap, admin := RemovedIf(dir, AUTHKEYS_CAP_FILE, deletable), RemovedIf(dir, FORGE_ADMIN_FILE, deletable);
            Removed(dir, listed, deletable) == urls + cap + admin && urls !! cap !! admin
  {
    FixedNamesAreNoUrls();
    hide IsUrlName;
  }

  ghost function NamesOf(listing: seq<string>): set<string> {
    set name | name in listing
  }

  lemma NamesOfNext(listing: seq<string>, i: nat)
    requires i < |listing|
    ensures NamesOf(listing[..i + 1]) == NamesOf(listing[..i]) + {listing[i]}
  {
    assert listing[..i + 1] == listing[..i] + [listing[i]];
  }

  class CapFiles {
    var files: Dir

    /** `remove_file(..).is_ok()`, counted. */
    method Remove(name: string, deletable: string -> bool, count: nat) returns (removed: nat)
      modifies this
      ensures files == old(files) - RemovedIf(old(files), name, deletable)
      ensures removed == count + |RemovedIf(old(files), name, deletable)|
    {
      removed := count;
      if name in files && deletable(name) {
        files := files - {name};
        removed := removed + 1;
      }
    }

    /**
     `remove_cred_files`: exactly the removable credential files go, each counted once, whatever
     the listing order and whichever removals fail.
     */
    method RemoveCredFiles(listing: seq<string>, deletable: string -> bool) returns (removed: nat)
      modifies this
      ensures files == old(files) - Removed(old(files), NamesOf(listing), deletable)
      ensures removed == |Removed(old(files), NamesOf(listing), deletable)|
    {
      hide IsUrlName, Removed, NamesOf;
      removed := 0;
      ghost var dir := files;
      RemovedUrlsNone(dir, deletable);
      assert listing[..0] == [];
      for i := 0 to |listing|
        invariant files == dir - RemovedUrls(dir, NamesOf(listing[..i]), deletable)
        invariant removed == |RemovedUrls(dir, NamesOf(listing[..i]), deletable)|
      {
        NamesOfNext(listing, i);
        RemovedUrlsNext(dir, NamesOf(listing[..i]), listing[i], deletable);
        if IsUrlName(listing[i]) {
          RemovedTwice(dir, RemovedUrls(dir, NamesOf(listing[..i]), deletable), listing[i], deletable);
          removed := Remove(listing[i], deletable, removed);
        }
      }
      assert listing[..|listing|] == listing;
      ghost var urls := RemovedUrls(dir, NamesOf(listing), deletable);
      RemovedParts(dir, NamesOf(listing), deletable);
      RemovedTwice(dir, urls, AUTHKEYS_CAP_FILE, deletable);
      removed := Remove(AUTHKEYS_CAP_FILE, deletable, removed);
      RemovedTwice(dir, urls + RemovedIf(dir, AUTHKEYS_CAP_FILE, deletable), FORGE_ADMIN_FILE, deletable);
      removed := Remove(FORGE_ADMIN_FILE, deletable, removed);
    }
  }

  lemma RemovedUrlsNone(dir: Dir, deletable: string -> bool)
    ensures NamesOf([]) == {} && RemovedUrls(dir, {}, deletable) == {}
  {
  }

  /** Removing one more name after the names in `gone`. */
  lemma RemovedTwice(dir: Dir, gone: set<string>, name: string, deletable: string -> bool)
    ensures var next := RemovedIf(dir - gone, name, deletable);
            && (dir - gone) - next == dir - (gone + RemovedIf(dir, name, deletable))
            && |gone| + |next| == |gone + next|
            && (name in gone ==> next == {})
            && (name !in gone ==> next == RemovedIf(dir, name, deletable))
  {
    var next := RemovedIf(dir - gone, name, deletable);
    assert gone !! next;
    assert |gone + next| == |gone| + |next|;
  }

  /** When every removal works, nothing credential-shaped is left and a second scrub finds nothing. */
  lemma CompleteRemovalLeavesNothing(dir: Dir, listed: set<string>, deletable: string -> bool)
    requires forall name :: name in dir && IsCredFile(name) ==> deletable(name) && name in listed
    ensures var rest := dir - Removed(dir, listed, deletable);
            && CredFiles(rest) == {}
            && (forall again: set<string> :: Removed(rest, again, deletable) == {})
            && (forall name :: name in rest <==> name in dir && !IsCredFile(name))
  {
  }

  /** The authorized-keys cap depends on the credential files alone. */
  lemma CapNeedsCredFile(dir: Dir)
    ensures CredFiles(dir) == {} ==> ReadAuthkeysCap(dir) == None
  {
    if AUTHKEYS_CAP_FILE in dir { assert AUTHKEYS_CAP_FILE in CredFiles(dir); }
  }
}
