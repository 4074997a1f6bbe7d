/** `src/authorized_keys.rs`: validate, look for a duplicate, append one line. */
module AuthorizedKeys {
  import opened Types
  import opened Text

  predicate HasKnownAlgorithm(key: string) {
    "ssh-ed25519 " <= key || "ssh-rsa " <= key || "ecdsa-sha2-" <= key || "sk-ssh-" <= key || "sk-ecdsa-" <= key
  }

  /** The trimmed key, when it is a single line of a recognised type. */
  function Validate(pubkey: string): (r: Result<string>)
    ensures r.Ok? ==> r.value == Trim(pubkey) && OneLine(r.value)
    ensures r.Err? ==> r.error.code == Invalid
  {
    var key := Trim(pubkey);
    if key == "" || '\n' in key || '\r' in key then Err(CodeError(Invalid, "key must be one line"))
    else if !HasKnownAlgorithm(key) then Err(CodeError(Invalid, "unrecognised key type"))
    else Ok(key)
  }

  ghost predicate OneLine(key: string) {
    key != "" && Trimmed(key) && '\n' !in key && '\r' !in key
  }

  function TrimAll(lines: seq<string>): (r: seq<string>)
    ensures |r| == |lines|
  {
    seq(|lines|, i requires 0 <= i < |lines| => Trim(lines[i]))
  }

  /** What the duplicate scan compares against. */
  function KeysIn(content: string): seq<string> {
    TrimAll(Lines(content))
  }

  /** One call on a readable, writable file: the result and the new content. */
  function AddTo(content: string, pubkey: string): (Result<()>, string) {
    match Validate(pubkey)
    case Err(e) => (Err(e), content)
    case Ok(key) => (Ok(()), if key in KeysIn(content) then content else content + key + "\n")
  }

  // ----- the file

  /** How far the append gets. */
  datatype IoFault = NoFault | MkdirFails | OpenFails | AppendFails

  class KeyFile {
    /** `None` until the first append creates the file. */
    var content: Option<string>

    function Text(): string
      reads this
    {
      match content case Some(c) => c case None => ""
    }

    /** An unreadable file counts as empty in the duplicate scan, and is appended to all the same. */
    method AddSshKeyTo(pubkey: string, readable: bool, fault: IoFault) returns (r: Result<()>)
      modifies this
      ensures readable && fault == NoFault ==> (r, Text()) == AddTo(old(Text()), pubkey)
      ensures var seen := KeysIn(if readable then old(Text()) else "");
              match Validate(pubkey)
              case Err(e) => r == Err(e) && content == old(content)
              case Ok(key) =>
                if key in seen then r == Ok(()) && content == old(content)
                else if fault == NoFault then r == Ok(()) && content == Some(old(Text()) + key + "\n")
                else r.Err? && r.error.code == Internal && content == old(content)
    {
      var key := Trim(pubkey);
      if key == "" || '\n' in key || '\r' in key {
        return Err(CodeError(Invalid, "key must be one line"));
      }
      if !HasKnownAlgorithm(key) {
        return Err(CodeError(Invalid, "unrecognised key type"));
      }
      hide Trim, KeysIn, HasKnownAlgorithm;
      var existing := if readable then Text() else "";
      if key in KeysIn(existing) { return Ok(()); }
      if fault == MkdirFails { return Err(CodeError(Internal, "mkdir")); }
      if fault == OpenFails { return Err(CodeError(Internal, "open")); }
      if fault == AppendFails { return Err(CodeError(Internal, "append")); }
      content := Some(Text() + key + "\n");
      return Ok(());
    }
  }

  // ----- one append

  lemma LinesOfAppended(key: string)
    requires '\n' !in key && '\r' !in key
    ensures Lines(key + "\n") == [key]
  {
    LinesCons(key, "");
    assert key + "\n" + "" == key + "\n";
    if key != "" { assert key[|key| - 1] in key; }
  }

  /** On a newline-terminated file the appended key is a line of its own. */
  lemma AppendAddsLine(content: string, key: string)
    requires NewlineTerminated(content) && OneLine(key)
    ensures Lines(content + (key + "\n")) == Lines(content) + [key]
  {
    hide Lines;
    LinesConcat(content, key + "\n");
    LinesOfAppended(key);
  }

  /** On any other file it is glued to the last line: the number of lines does not grow. */
  lemma {:induction false} AppendGluesLine(content: string, key: string)
    requires !NewlineTerminated(content) && OneLine(key)
    ensures |Lines(content + (key + "\n"))| == |Lines(content)|
    decreases |content|
  {
    PositionOfNewline(content);
    match Position(content, "\n")
    case None =>
      hide Lines;
      LinesSingle(content);
      LinesCons(content + key, "");
      assert content + (key + "\n") == content + key + "\n" + "";
      NoLines();
    case Some(k) =>
      hide Lines, Position, OneLine;
      var rest := content[k + 1..];
      assert content[|content| - 1] == rest[|rest| - 1];
      AppendGluesLine(rest, key);
      LinesSplitAt(content, k);
      LinesSplitBefore(content, key + "\n", k);
  }

  /** The append works as intended exactly on empty and newline-terminated files. */
  lemma AppendIsALineExactly(content: string, key: string)
    requires OneLine(key)
    ensures Lines(content + (key + "\n")) == Lines(content) + [key] <==> NewlineTerminated(content)
  {
    hide Lines;
    if NewlineTerminated(content) { AppendAddsLine(content, key); } else { AppendGluesLine(content, key); }
  }

  lemma KeysAfterAppend(content: string, key: string)
    requires NewlineTerminated(content) && OneLine(key)
    ensures KeysIn(content + key + "\n") == KeysIn(content) + [key]
    ensures NewlineTerminated(content + key + "\n")
  {
    AppendAddsLine(content, key);
    assert content + key + "\n" == content + (key + "\n");
    TrimOfTrimmed(key);
    hide Lines, Trim;
  }

  // ----- any sequence of calls

  function RunAdds(content: string, requests: seq<string>): string
    decreases |requests|
  {
    if requests == [] then content else RunAdds(AddTo(content, requests[0]).1, requests[1..])
  }

  /** The valid keys among the requests, trimmed, in order. */
  function ValidKeys(requests: seq<string>): seq<string> {
    if requests == [] then []
    else
      match Validate(requests[0])
      case Err(_) => ValidKeys(requests[1..])
      case Ok(key) => [key] + ValidKeys(requests[1..])
  }

  /** First occurrences of the items not known before. */
  function FirstSeen<T(==)>(known: seq<T>, items: seq<T>): seq<T>
    decreases |items|
  {
    if items == [] then []
    else if items[0] in known then FirstSeen(known, items[1..])
    else [items[0]] + FirstSeen(known + [items[0]], items[1..])
  }

  /** The keys a history of requests adds to a file that already holds `known`. */
  function Accepted(known: seq<string>, requests: seq<string>): seq<string> {
    FirstSeen(known, ValidKeys(requests))
  }

  function OnePerLine(keys: seq<string>): string {
    if keys == [] then "" else keys[0] + "\n" + OnePerLine(keys[1..])
  }

  lemma FirstSeenNew<T>(known: seq<T>, x: T, items: seq<T>)
    requires x !in known
    ensures FirstSeen(known, [x] + items) == [x] + FirstSeen(known + [x], items)
  {
    assert ([x] + items)[1..] == items;
  }

  lemma FirstSeenKnown<T>(known: seq<T>, x: T, items: seq<T>)
    requires x in known
    ensures FirstSeen(known, [x] + items) == FirstSeen(known, items)
  {
    assert ([x] + items)[1..] == items;
  }

  lemma OneMoreLine(content: string, key: string, later: seq<string>)
    ensures content + key + "\n" + OnePerLine(later) == content + OnePerLine([key] + later)
  {
    assert ([key] + later)[1..] == later;
    Regroup(content, key, "\n", OnePerLine(later));
    assert content + key + "\n" + OnePerLine(later) == content + (key + "\n" + OnePerLine(later));
  }

  ghost predicate FileIs(content: string, added: seq<string>, result: string) {
    && result == content + OnePerLine(added)
    && KeysIn(result) == KeysIn(content) + added
    && NewlineTerminated(result)
  }

  lemma FileIsAfterAppend(content: string, key: string, later: seq<string>, result: string)
    requires NewlineTerminated(content) && OneLine(key)
    requires FileIs(content + key + "\n", later, result)
    ensures FileIs(content, [key] + later, result)
  {
    hide KeysIn, OnePerLine, OneLine, NewlineTerminated;
    KeysAfterAppend(content, key);
    OneMoreLine(content, key, later);
    AppendGroups(KeysIn(content), key, later);
  }

  /** The file is its initial content followed by the accepted keys, one per line, in order. */
  lemma {:induction false} FileIsInitialPlusAccepted(content: string, requests: seq<string>)
    requires NewlineTerminated(content)
    ensures FileIs(content, Accepted(KeysIn(content), requests), RunAdds(content, requests))
    decreases |requests|
  {
    hide KeysIn, Validate, OneLine;
    if requests == [] {
      assert content + "" == content;
    } else {
      var rest := requests[1..];
      match Validate(requests[0])
      case Err(_) => FileIsInitialPlusAccepted(content, rest);
      case Ok(key) =>
        if key in KeysIn(content) {
          FirstSeenKnown(KeysIn(content), key, ValidKeys(rest));
          hide FirstSeen, FileIs;
          FileIsInitialPlusAccepted(content, rest);
        } else {
          FirstSeenNew(KeysIn(content), key, ValidKeys(rest));
          KeysAfterAppend(content, key);
          hide FirstSeen, FileIs;
          FileIsInitialPlusAccepted(content + key + "\n", rest);
          FileIsAfterAppend(content, key, Accepted(KeysIn(content) + [key], rest), RunAdds(content, requests));
        }
    }
  }

  ghost predicate DuplicateFree<T>(items: seq<T>) {
    forall i, j :: 0 <= i < j < |items| ==> items[i] != items[j]
  }

  lemma {:induction false} FirstSeenKeepsSet<T>(known: seq<T>, items: seq<T>)
    ensures DuplicateFree(known) ==> DuplicateFree(known + FirstSeen(known, items))
    ensures forall x :: x in items ==> x in known + FirstSeen(known, items)
    decreases |items|
  {
    if items == [] {
      assert known + [] == known;
    } else if items[0] in known {
      FirstSeenKeepsSet(known, items[1..]);
    } else {
      FirstSeenKeepsSet(known + [items[0]], items[1..]);
      var later := FirstSeen(known + [items[0]], items[1..]);
      assert known + [items[0]] + later == known + ([items[0]] + later);
    }
  }

  lemma {:induction false} ValidKeyIsListed(requests: seq<string>, i: nat) returns (j: nat)
    requires i < |requests| && Validate(requests[i]).Ok?
    ensures j < |ValidKeys(requests)| && ValidKeys(requests)[j] == Validate(requests[i]).value
  {
    hide Validate, OneLine, Trim;
    if i == 0 {
      j := 0;
    } else {
      j := ValidKeyIsListed(requests[1..], i - 1);
      if Validate(requests[0]).Ok? { j := j + 1; }
    }
  }

  /** No run introduces a duplicate, and every valid request ends up in the file. */
  lemma RunKeepsFileSound(content: string, requests: seq<string>)
    requires NewlineTerminated(content)
    ensures DuplicateFree(KeysIn(content)) ==> DuplicateFree(KeysIn(RunAdds(content, requests)))
    ensures forall i :: 0 <= i < |requests| && Validate(requests[i]).Ok?
                        ==> Validate(requests[i]).value in KeysIn(RunAdds(content, requests))
  {
    hide KeysIn, Validate, RunAdds, NewlineTerminated;
    FileIsInitialPlusAccepted(content, requests);
    FirstSeenKeepsSet(KeysIn(content), ValidKeys(requests));
    forall i | 0 <= i < |requests| && Validate(requests[i]).Ok?
      ensures Validate(requests[i]).value in KeysIn(RunAdds(content, requests))
    {
      var j := ValidKeyIsListed(requests, i);
    }
  }

  // ----- which keys get in

  /** A single line that begins like an OpenSSH public key. */
  predicate KeyLine(line: string) {
    && '\n' !in line && '\r' !in line
    && ("ssh-ed25519 " <= line || "ssh-rsa " <= line || "ecdsa-sha2-" <= line
        || "sk-ssh-" <= line || "sk-ecdsa-" <= line)
  }

  /** A call on a working file is refused exactly when its trimmed text is no key line, and as `Invalid`. */
  lemma AddAnswersExactly(content: string, pubkey: string)
    ensures AddTo(content, pubkey).0.Ok? <==> KeyLine(Trim(pubkey))
    ensures AddTo(content, pubkey).0.Err? ==> AddTo(content, pubkey).0.error.code == Invalid
    ensures Validate(pubkey).Ok? ==> Validate(pubkey).value == Trim(pubkey)
  {
    hide Trim, KeysIn;
  }

  lemma {:induction false} ValidKeysExactly(requests: seq<string>, key: string)
    ensures key in ValidKeys(requests)
            <==> KeyLine(key) && exists i :: 0 <= i < |requests| && Trim(requests[i]) == key
  {
    if requests != [] {
      ValidKeysExactly(requests[1..], key);
      AddAnswersExactly("", requests[0]);
      hide Validate, KeyLine, Trim;
      if i :| 0 <= i < |requests| && Trim(requests[i]) == key {
        if i > 0 { assert Trim(requests[1..][i - 1]) == key; }
      }
      if i :| 0 <= i < |requests[1..]| && Trim(requests[1..][i]) == key {
        assert Trim(requests[i + 1]) == key;
      }
    }
  }

  lemma {:induction false} FirstSeenExactly<T>(known: seq<T>, items: seq<T>, x: T)
    ensures x in FirstSeen(known, items) <==> x in items && x !in known
    decreases |items|
  {
    if items != [] {
      FirstSeenExactly(if items[0] in known then known else known + [items[0]], items[1..], x);
    }
  }

  /**
   A run adds key lines only, behind those the file had; and a text that the file did not hold is
   in it afterwards exactly when it is a key line and some request trims to it.
   */
  lemma RunAddsKeyLinesExactly(content: string, requests: seq<string>)
    requires NewlineTerminated(content)
    ensures var had, has := KeysIn(content), KeysIn(RunAdds(content, requests));
            && had <= has
            && (forall i :: |had| <= i < |has| ==> KeyLine(has[i]))
            && forall key :: key !in had ==>
                 (key in has <==> KeyLine(key) && exists i :: 0 <= i < |requests| && Trim(requests[i]) == key)
  {
    hide KeysIn, KeyLine, Trim, RunAdds, ValidKeys, FirstSeen;
    FileIsInitialPlusAccepted(content, requests);
    var had := KeysIn(content);
    forall key
      ensures key in Accepted(had, requests)
              <==> key !in had && KeyLine(key) && exists i :: 0 <= i < |requests| && Trim(requests[i]) == key
    {
      FirstSeenExactly(had, ValidKeys(requests), key);
      ValidKeysExactly(requests, key);
    }
  }

  // ----- repeating a call

  lemma LastOfConcat(a: string, b: string)
    ensures b != "" ==> (a + b)[|a + b| - 1] == b[|b| - 1]
  {
  }

  lemma OnlyBlankIsTrimmed(w: string, key: string)
    requires key != "" && Trimmed(key) && Trim(w + key) == key
    ensures Blank(w)
  {
    var s := w + key;
    var w1, w2 := TrimDecomposes(s);
    LastOfConcat(w1 + key, w2);
    LastOfConcat(w, key);
    assert w2 == "";
    assert w == s[..|w|] == w1;
  }

  lemma BlankPrefix(w: string, key: string)
    requires key != "" && Trimmed(key)
    ensures Trim(w + key) == key <==> Blank(w)
  {
    hide Trim, Trimmed, Blank;
    if Blank(w) { BlankBefore(w, key); }
    if Trim(w + key) == key { OnlyBlankIsTrimmed(w, key); }
  }

  lemma KeysOfConcat(front: string, more: string)
    requires NewlineTerminated(front)
    ensures KeysIn(front + more) == KeysIn(front) + KeysIn(more)
  {
    LinesConcat(front, more);
    hide Lines, Trim;
    TrimAllConcat(Lines(front), Lines(more));
  }

  lemma TrimAllConcat(a: seq<string>, b: seq<string>)
    ensures TrimAll(a + b) == TrimAll(a) + TrimAll(b)
  {
    hide Trim;
  }

  lemma KeyAfterUnfinished(tail: string, key: string)
    requires '\n' !in tail && OneLine(key)
    ensures KeysIn(tail + key + "\n") == [Trim(tail + key)]
  {
    LinesCons(tail + key, "");
    NoLines();
    assert tail + key + "\n" + "" == tail + key + "\n";
    assert key[|key| - 1] in key;
    assert StripCr(tail + key) == tail + key;
    hide Lines, Trim, StripCr;
  }

  /** After an append the key is found again exactly when it was there or began on a fresh line. */
  lemma FoundAgain(content: string, key: string)
    requires OneLine(key)
    ensures key in KeysIn(content + key + "\n") <==> key in KeysIn(content[..|content| - |Tail(content)|]) || Blank(Tail(content))
  {
    var tail := Tail(content);
    var front := content[..|content| - |tail|];
    hide KeysIn, Blank, Trim;
    assert content == front + tail;
    Regroup(front, tail, key, "\n");
    assert content + key + "\n" == front + (tail + key + "\n");
    KeysOfConcat(front, tail + key + "\n");
    KeyAfterUnfinished(tail, key);
    BlankPrefix(tail, key);
  }

  lemma FrontKeysAreKeys(content: string, key: string)
    requires key in KeysIn(content[..|content| - |Tail(content)|])
    ensures key in KeysIn(content)
  {
    var tail := Tail(content);
    var front := content[..|content| - |tail|];
    hide KeysIn;
    assert content == front + tail;
    KeysOfConcat(front, tail);
  }

  lemma FoundAgainExactly(content: string, key: string)
    requires OneLine(key) && key !in KeysIn(content)
    ensures key in KeysIn(content + key + "\n") <==> Blank(Tail(content))
  {
    hide *;
    FoundAgain(content, key);
    if key in KeysIn(content[..|content| - |Tail(content)|]) { FrontKeysAreKeys(content, key); }
  }

  lemma AppendChanges(content: string, key: string)
    ensures content + key + "\n" != content
  {
    assert |content + key + "\n"| > |content|;
  }

  /**
   Repeating a call leaves the file byte-identical exactly when the call was refused, the key was
   there already, or nothing but white space stood on the unfinished last line; in particular on
   every newline-terminated file.
   */
  lemma RepeatedAddChangesNothingExactly(content: string, pubkey: string)
    ensures var next := AddTo(content, pubkey).1;
            AddTo(next, pubkey) == (AddTo(content, pubkey).0, next)
            <==> Validate(pubkey).Err? || Trim(pubkey) in KeysIn(content) || Blank(Tail(content))
    ensures NewlineTerminated(content) ==> Blank(Tail(content))
  {
    hide KeysIn, Trim, Validate, Blank, OneLine;
    if Validate(pubkey).Ok? {
      var key := Validate(pubkey).value;
      assert key == Trim(pubkey);
      if key !in KeysIn(content) {
        FoundAgainExactly(content, key);
        AppendChanges(content + key + "\n", key);
      }
    }
    NothingBlank(content);
  }

  lemma NothingBlank(content: string)
    ensures NewlineTerminated(content) ==> Blank(Tail(content))
  {
  }
}
