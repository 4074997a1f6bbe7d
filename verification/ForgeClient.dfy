/**
 `ensure_scoped_token` of `src/forge/client.rs`: list, delete by name, mint. The forge keeps at
 most one token per name and refuses to mint a name that exists.
 */
module ForgeClient {
  /** The forge's token store: name to secret. */
  type Tokens = map<string, string>

  /** An unreadable list counts as an empty one. */
  datatype ListReply = Unreachable | Refused | Listed(names: seq<string>)

  /** How the mint request fares when the forge has no objection of its own. */
  datatype MintReply = Minted | Declined | ReplyLost

  /** One call: its three exchanges, and the secret the forge would generate. */
  datatype Call = Call(name: string, list: ListReply, deleteWorks: bool, mint: MintReply, secret: string)

  datatype MintError = ListFailed | MintRefused | SecretMissing

  datatype MintResult = Secret(value: string) | Failed(why: MintError)

  /** What the client makes of a mint the forge carried out: an empty secret does not count. */
  function MintReading(reply: MintReply, secret: string): MintResult {
    if reply.Minted? && secret != "" then Secret(secret) else Failed(SecretMissing)
  }

  function Ensure(tokens: Tokens, call: Call): (MintResult, Tokens) {
    if call.list.Unreachable? then (Failed(ListFailed), tokens)
    else
      var found := call.list.Listed? && call.name in call.list.names;
      var left := if found && call.deleteWorks then tokens - {call.name} else tokens;
      if call.name in left || call.mint.Declined? then (Failed(MintRefused), left)
      else (MintReading(call.mint, call.secret), left[call.name := call.secret])
  }

  class ForgeServer {
    var tokens: Tokens

    method Delete(name: string, works: bool)
      modifies this
      ensures tokens == if works then old(tokens) - {name} else old(tokens)
    {
      if works { tokens := tokens - {name}; }
    }

    method Mint(name: string, reply: MintReply, secret: string) returns (r: MintResult)
      modifies this
      ensures name in old(tokens) || reply.Declined? ==> r == Failed(MintRefused) && tokens == old(tokens)
      ensures name !in old(tokens) && !reply.Declined? ==>
                r == MintReading(reply, secret)
                && tokens == old(tokens)[name := secret]
    {
      if name in tokens || reply.Declined? { return Failed(MintRefused); }
      tokens := tokens[name := secret];
      r := if reply.Minted? && secret != "" then Secret(secret) else Failed(SecretMissing);
    }

    method EnsureScopedToken(call: Call) returns (r: MintResult)
      modifies this
      ensures (r, tokens) == Ensure(old(tokens), call)
    {
      if call.list.Unreachable? { return Failed(ListFailed); }
      if call.list.Listed? && call.name in call.list.names {
        Delete(call.name, call.deleteWorks);
      }
      r := Mint(call.name, call.mint, call.secret);
    }
  }

  /**
   One call, whatever fails: it succeeds exactly when the list was reachable, the mint returned a
   secret and no token of that name stood in the way; success leaves exactly the returned secret under
   the name, and no outcome touches another name.
   */
  lemma EnsureExactly(tokens: Tokens, call: Call)
    ensures var (r, left) := Ensure(tokens, call);
            && (r.Secret? <==> !call.list.Unreachable? && call.mint.Minted? && call.secret != ""
                               && (call.name in tokens ==> call.list.Listed? && call.name in call.list.names && call.deleteWorks))
            && (r.Secret? ==> r.value == call.secret && left == tokens[call.name := r.value])
            && left - {call.name} == tokens - {call.name}
  {
  }

  function RunCalls(tokens: Tokens, calls: seq<Call>): Tokens
    decreases |calls|
  {
    if calls == [] then tokens else RunCalls(Ensure(tokens, calls[0]).1, calls[1..])
  }

  ghost predicate AllSucceed(tokens: Tokens, calls: seq<Call>)
    decreases |calls|
  {
    calls == [] || (Ensure(tokens, calls[0]).0.Secret? && AllSucceed(Ensure(tokens, calls[0]).1, calls[1..]))
  }

  /** For each requested name, the secret of the last call for it. */
  function LastMinted(calls: seq<Call>): Tokens {
    if calls == [] then map[]
    else
      var last := calls[|calls| - 1];
      LastMinted(calls[..|calls| - 1])[last.name := last.secret]
  }

  lemma {:induction false} LastMintedCons(first: Call, rest: seq<Call>)
    ensures LastMinted([first] + rest) == map[first.name := first.secret] + LastMinted(rest)
  {
    var calls := [first] + rest;
    if rest != [] {
      assert calls[..|calls| - 1] == [first] + rest[..|rest| - 1];
      LastMintedCons(first, rest[..|rest| - 1]);
    }
  }

  lemma OverlayGroups<K, V>(m: map<K, V>, k: K, v: V, n: map<K, V>)
    ensures m[k := v] + n == m + (map[k := v] + n)
  {
  }

  /**
   Minting does not accumulate: after any run of successful calls each requested name holds one
   token, the one returned last, and every other name is as before.
   */
  lemma {:induction false} MintingDoesNotAccumulate(tokens: Tokens, calls: seq<Call>)
    requires AllSucceed(tokens, calls)
    ensures RunCalls(tokens, calls) == tokens + LastMinted(calls)
    decreases |calls|
  {
    if calls == [] {
      assert tokens + map[] == tokens;
    } else {
      var next := Ensure(tokens, calls[0]).1;
      EnsureExactly(tokens, calls[0]);
      MintingDoesNotAccumulate(next, calls[1..]);
      assert calls == [calls[0]] + calls[1..];
      LastMintedCons(calls[0], calls[1..]);
      hide LastMinted, Ensure;
      OverlayGroups(tokens, calls[0].name, calls[0].secret, LastMinted(calls[1..]));
    }
  }

  /** Failed calls included, a name nobody asked for is never touched. */
  lemma {:induction false} OtherNamesUntouched(tokens: Tokens, calls: seq<Call>, name: string)
    requires forall c :: c in calls ==> c.name != name
    ensures name in RunCalls(tokens, calls) <==> name in tokens
    ensures name in tokens ==> RunCalls(tokens, calls)[name] == tokens[name]
    decreases |calls|
  {
    if calls != [] {
      EnsureExactly(tokens, calls[0]);
      assert calls[0] in calls;
      OtherNamesUntouched(Ensure(tokens, calls[0]).1, calls[1..], name);
    }
  }
}
