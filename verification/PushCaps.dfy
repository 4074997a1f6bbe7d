/** `register_forge_push_cap` of `src/forge/handler.rs`: same tenant, mint, register. */
module PushCaps {
  import opened Types
  import opened Text
  import opened ForgeClient
  import opened GitSession

  function EnsureSameTenant(org: string, repo: string): Result<string> {
    match SplitOnce(repo, "/")
    case None => Ok(repo)
    case Some((prefix, name)) =>
      if prefix == org then Ok(name)
      else Err(CodeError(Forbidden, "forge repo resolves under another org — cross-tenant access forbidden"))
  }

  /** Accepted are the bare names and the names under the caller's own org, and nothing else. */
  lemma SameTenantExactly(org: string, repo: string, name: string)
    ensures EnsureSameTenant(org, repo) == Ok(name)
            <==> (repo == name && '/' !in repo) || ('/' !in org && repo == org + "/" + name)
    ensures EnsureSameTenant(org, repo).Err? ==> EnsureSameTenant(org, repo).error.code == Forbidden
  {
    if '/' !in repo {
      SplitOnceCharNone(repo, '/');
      assert (org + "/" + name)[|org|] == '/';
    } else {
      SplitOnceCharSome(repo, '/');
      if '/' !in org && repo == org + "/" + name { SplitOnceChar(org, '/', name); }
    }
  }

  function TokenName(org: string, repo: string): string {
    "broker-push-" + org + "-" + repo
  }

  lemma TokenNamesAreDistinct(org: string, r1: string, r2: string)
    ensures TokenName(org, r1) == TokenName(org, r2) <==> r1 == r2
  {
    var d := |"broker-push-" + org + "-"|;
    assert TokenName(org, r1)[d..] == r1 && TokenName(org, r2)[d..] == r2;
  }

  /** What the forge and the clock contribute to one registration. */
  datatype Mint = Mint(list: ListReply, deleteWorks: bool, reply: MintReply, secret: string)

  function CallFor(org: string, repo: string, m: Mint): Call {
    Call(TokenName(org, repo), m.list, m.deleteWorks, m.reply, m.secret)
  }

  /** One call: its arguments, and `cap`, which stands for the generated cap-key. */
  datatype Registration = Registration(repo: string, cloneUrl: string, m: Mint, cap: string, now: int)

  /** What the calls of one org act on: the forge's token store and the session history. */
  datatype World = World(tokens: Tokens, history: seq<SessionEvent>)

  function RegisterPushCap(org: string, w: World, g: Registration): (Result<string>, World) {
    match EnsureSameTenant(org, g.repo)
    case Err(e) => (Err(e), w)
    case Ok(name) =>
      var (minted, tokens) := Ensure(w.tokens, CallFor(org, name, g.m));
      match minted
      case Failed(_) => (Err(CodeError(Internal, "forge")), w.(tokens := tokens))
      case Secret(token) =>
        (Ok(g.cap), World(tokens, w.history + [Registered(g.cap, PushEntry(g.cloneUrl, token, g.now))]))
  }

  method RegisterForgePushCap(sessions: GitSessions, server: ForgeServer, org: string, g: Registration)
    returns (r: Result<string>)
    requires sessions.Valid()
    modifies sessions, server
    ensures sessions.Valid()
    ensures (r, World(server.tokens, sessions.history))
            == RegisterPushCap(org, World(old(server.tokens), old(sessions.history)), g)
    ensures EnsureSameTenant(org, g.repo).Err? ==>
              r == Err(EnsureSameTenant(org, g.repo).error) && server.tokens == old(server.tokens)
    ensures r.Err? ==> sessions.history == old(sessions.history)
    ensures r.Ok? ==> r.value == g.cap
                      && sessions.history == old(sessions.history)
                                             + [Registered(g.cap, PushEntry(g.cloneUrl, g.m.secret, g.now))]
  {
    hide SplitOnce;
    var tenant := EnsureSameTenant(org, g.repo);
    if tenant.Err? { return Err(tenant.error); }
    var minted := server.EnsureScopedToken(CallFor(org, tenant.value, g.m));
    match minted {
      case Failed(_) => return Err(CodeError(Internal, "forge"));
      case Secret(token) =>
        sessions.Register(g.cap, PushEntry(g.cloneUrl, token, g.now));
        return Ok(g.cap);
    }
  }

  /**
   When a call succeeds, in the caller's terms: the repo is one of the org's own, the list is
   reachable, the mint gives a secret, and a token that is there is listed and gets deleted.
   */
  lemma RegistrationSucceedsExactly(org: string, w: World, g: Registration, repo: string)
    requires EnsureSameTenant(org, g.repo) == Ok(repo)
    ensures var name := TokenName(org, repo);
            var (r, next) := RegisterPushCap(org, w, g);
            && (r.Ok? <==> !g.m.list.Unreachable? && g.m.reply.Minted? && g.m.secret != ""
                           && (name in w.tokens ==> g.m.list.Listed? && name in g.m.list.names && g.m.deleteWorks))
            && (r.Ok? ==> r.value == g.cap && name in next.tokens && next.tokens[name] == g.m.secret)
            && (r.Err? ==> r.error.code == Internal && next.history == w.history)
  {
    hide EnsureSameTenant, TokenName, Ensure, PushEntry;
    EnsureExactly(w.tokens, CallFor(org, repo, g.m));
  }

  function PushEntry(cloneUrl: string, token: string, now: int): Entry {
    Entry(cloneUrl, token, now + FORGE_PUSH_CAP_TTL)
  }

  /** A registered push cap resolves to its URL and secret up to and including the TTL, not beyond. */
  lemma PushCapLivesForTtl(before: seq<SessionEvent>, later: seq<SessionEvent>, cap: string,
                           cloneUrl: string, token: string, now: int, t: int)
    requires Untouched(later, cap)
    ensures Resolve(before + [Registered(cap, PushEntry(cloneUrl, token, now))] + later, cap, t)
            == if t <= now + 3600 then Some((cloneUrl, token)) else None
  {
    CurrentAfter(before, Registered(cap, PushEntry(cloneUrl, token, now)), later, cap);
  }

  // ----- any sequence of calls in one org

  function RunRegistrations(org: string, w: World, gs: seq<Registration>): World {
    if gs == [] then w
    else RegisterPushCap(org, RunRegistrations(org, w, gs[..|gs| - 1]), gs[|gs| - 1]).1
  }

  ghost predicate Succeeds(org: string, w: World, gs: seq<Registration>, i: nat)
    requires i < |gs|
  {
    RegisterPushCap(org, RunRegistrations(org, w, gs[..i]), gs[i]).0.Ok?
  }

  /** A call for the repo of `tenant` that finds the token of that name listed and gets it deleted. */
  predicate Displaces(org: string, g: Registration, tenant: Result<string>) {
    && EnsureSameTenant(org, g.repo) == tenant && tenant.Ok?
    && g.m.list.Listed? && TokenName(org, tenant.value) in g.m.list.names && g.m.deleteWorks
  }

  /** No later call for the repo of call `i` does. */
  ghost predicate Undisplaced(org: string, gs: seq<Registration>, i: nat)
    requires i < |gs|
  {
    forall j | i < j < |gs| :: !Displaces(org, gs[j], EnsureSameTenant(org, gs[i].repo))
  }

  /** The secret of call `i` comes from no other call and was not in use before. */
  ghost predicate FreshSecret(tokens: Tokens, gs: seq<Registration>, i: nat)
    requires i < |gs|
  {
    Gone(tokens, gs[i].m.secret) && forall j :: 0 <= j < |gs| && j != i ==> gs[j].m.secret != gs[i].m.secret
  }

  ghost predicate Gone(tokens: Tokens, secret: string) {
    forall name :: name in tokens ==> tokens[name] != secret
  }

  /** `secret` is live, under `name` alone. */
  ghost predicate Held(tokens: Tokens, name: string, secret: string) {
    name in tokens && tokens[name] == secret
    && forall other :: other in tokens && other != name ==> tokens[other] != secret
  }

  lemma EnsureOnSecret(tokens: Tokens, call: Call, name: string, secret: string)
    requires call.secret != secret
    ensures var left := Ensure(tokens, call).1;
            && (Gone(tokens, secret) ==> Gone(left, secret))
            && (Held(tokens, name, secret) ==>
                  if call.name == name && call.list.Listed? && name in call.list.names && call.deleteWorks
                  then Gone(left, secret) else Held(left, name, secret))
  {
  }

  lemma {:induction false} NeverMinted(org: string, w: World, gs: seq<Registration>, secret: string)
    requires Gone(w.tokens, secret) && forall g :: g in gs ==> g.m.secret != secret
    ensures Gone(RunRegistrations(org, w, gs).tokens, secret)
  {
    if gs != [] {
      var n := |gs| - 1;
      NeverMinted(org, w, gs[..n], secret);
      var before := RunRegistrations(org, w, gs[..n]).tokens;
      assert gs[n] in gs;
      hide Ensure, Gone, EnsureSameTenant;
      match EnsureSameTenant(org, gs[n].repo)
      case Err(_) =>
      case Ok(name) => EnsureOnSecret(before, CallFor(org, name, gs[n].m), "", secret);
    }
  }

  /** A successful call leaves its own secret under its token name, and nowhere else. */
  lemma SuccessHolds(org: string, w: World, g: Registration)
    requires RegisterPushCap(org, w, g).0.Ok? && Gone(w.tokens, g.m.secret)
    ensures EnsureSameTenant(org, g.repo).Ok?
    ensures var name := TokenName(org, EnsureSameTenant(org, g.repo).value);
            && RegisterPushCap(org, w, g).1
               == World(w.tokens[name := g.m.secret],
                        w.history + [Registered(g.cap, PushEntry(g.cloneUrl, g.m.secret, g.now))])
            && Held(w.tokens[name := g.m.secret], name, g.m.secret)
            && (name in w.tokens ==> Displaces(org, g, EnsureSameTenant(org, g.repo)))
  {
    hide EnsureSameTenant, TokenName;
    EnsureExactly(w.tokens, CallFor(org, EnsureSameTenant(org, g.repo).value, g.m));
  }

  /** One more call, of another secret and another cap. */
  lemma OneMoreCall(org: string, w: World, g: Registration, repo: string, secret: string, cap: string)
    requires g.m.secret != secret && g.cap != cap
    ensures var name := TokenName(org, repo);
            var next := RegisterPushCap(org, w, g).1;
            && Current(next.history, cap) == Current(w.history, cap)
            && (Gone(w.tokens, secret) ==> Gone(next.tokens, secret))
            && (Held(w.tokens, name, secret) ==>
                  if Displaces(org, g, Ok(repo)) then Gone(next.tokens, secret)
                  else Held(next.tokens, name, secret))
  {
    hide EnsureSameTenant, Ensure, Gone, Held, TokenName;
    match EnsureSameTenant(org, g.repo)
    case Err(_) =>
    case Ok(other) =>
      TokenNamesAreDistinct(org, other, repo);
      EnsureOnSecret(w.tokens, CallFor(org, other, g.m), TokenName(org, repo), secret);
      var h := RegisterPushCap(org, w, g).1.history;
      if h != w.history { assert h[..|h| - 1] == w.history; }
  }

  /** What a successful call `g` for `repo` has left in the world. */
  ghost predicate Left(org: string, w: World, g: Registration, repo: string, undisplaced: bool) {
    && Current(w.history, g.cap) == Some(PushEntry(g.cloneUrl, g.m.secret, g.now))
    && (if undisplaced then Held(w.tokens, TokenName(org, repo), g.m.secret) else Gone(w.tokens, g.m.secret))
  }

  lemma LeftAfterOneMore(org: string, w: World, g: Registration, repo: string, undisplaced: bool, next: Registration)
    requires Left(org, w, g, repo, undisplaced) && next.m.secret != g.m.secret && next.cap != g.cap
    ensures Left(org, RegisterPushCap(org, w, next).1, g, repo,
                 undisplaced && !Displaces(org, next, Ok(repo)))
  {
    hide Current, Held, Gone, TokenName, RegisterPushCap, Displaces, PushEntry;
    OneMoreCall(org, w, next, repo, g.m.secret, g.cap);
  }

  /** What call `i` has left behind by the end of the run. */
  ghost predicate Stands(org: string, w: World, gs: seq<Registration>, i: nat)
    requires i < |gs| && EnsureSameTenant(org, gs[i].repo).Ok?
  {
    Left(org, RunRegistrations(org, w, gs), gs[i], EnsureSameTenant(org, gs[i].repo).value,
         Undisplaced(org, gs, i))
  }

  lemma LastStands(org: string, w: World, gs: seq<Registration>, i: nat)
    requires i == |gs| - 1 && FreshSecret(w.tokens, gs, i) && Succeeds(org, w, gs, i)
    ensures EnsureSameTenant(org, gs[i].repo).Ok? && Stands(org, w, gs, i)
  {
    hide EnsureSameTenant, Ensure, Gone, Held, TokenName, Displaces;
    var before := RunRegistrations(org, w, gs[..i]);
    NeverMinted(org, w, gs[..i], gs[i].m.secret);
    SuccessHolds(org, before, gs[i]);
    var h := before.history + [Registered(gs[i].cap, PushEntry(gs[i].cloneUrl, gs[i].m.secret, gs[i].now))];
    assert h[..|h| - 1] == before.history;
  }

  lemma UndisplacedNext(org: string, gs: seq<Registration>, i: nat)
    requires i < |gs| - 1
    ensures var n := |gs| - 1;
            Undisplaced(org, gs, i)
            <==> Undisplaced(org, gs[..n], i) && !Displaces(org, gs[n], EnsureSameTenant(org, gs[i].repo))
  {
    hide EnsureSameTenant, Displaces;
    var front := gs[..|gs| - 1];
    if Undisplaced(org, front, i) {
      forall j | i < j < |front| ensures !Displaces(org, gs[j], EnsureSameTenant(org, gs[i].repo)) {
        assert front[j] == gs[j];
      }
    }
  }

  lemma FrontSucceeds(org: string, w: World, gs: seq<Registration>, i: nat)
    requires i < |gs| - 1 && FreshSecret(w.tokens, gs, i) && Succeeds(org, w, gs, i)
    ensures FreshSecret(w.tokens, gs[..|gs| - 1], i) && Succeeds(org, w, gs[..|gs| - 1], i)
    ensures gs[|gs| - 1].m.secret != gs[i].m.secret
  {
    hide RunRegistrations, RegisterPushCap, Gone;
    assert gs[..|gs| - 1][..i] == gs[..i];
  }

  lemma {:induction false} AfterSuccess(org: string, w: World, gs: seq<Registration>, i: nat)
    requires i < |gs| && FreshSecret(w.tokens, gs, i) && Succeeds(org, w, gs, i)
    requires forall j :: i < j < |gs| ==> gs[j].cap != gs[i].cap
    ensures EnsureSameTenant(org, gs[i].repo).Ok? && Stands(org, w, gs, i)
  {
    hide *;
    if i == |gs| - 1 {
      LastStands(org, w, gs, i);
    } else {
      FrontSucceeds(org, w, gs, i);
      AfterSuccess(org, w, gs[..|gs| - 1], i);
      StandsOneMore(org, w, gs, i);
    }
  }

  lemma StandsOneMore(org: string, w: World, gs: seq<Registration>, i: nat)
    requires i < |gs| - 1 && EnsureSameTenant(org, gs[i].repo).Ok? && Stands(org, w, gs[..|gs| - 1], i)
    requires gs[|gs| - 1].m.secret != gs[i].m.secret && gs[|gs| - 1].cap != gs[i].cap
    ensures Stands(org, w, gs, i)
  {
    hide EnsureSameTenant, Left, Displaces, Undisplaced, RegisterPushCap, RunRegistrations;
    var g, front := gs[|gs| - 1], gs[..|gs| - 1];
    var before := RunRegistrations(org, w, front);
    RunLast(org, w, gs);
    UndisplacedNext(org, gs, i);
    LeftAfterOneMore(org, before, gs[i], EnsureSameTenant(org, gs[i].repo).value, Undisplaced(org, front, i), g);
  }

  lemma RunLast(org: string, w: World, gs: seq<Registration>)
    requires gs != []
    ensures RunRegistrations(org, w, gs)
            == RegisterPushCap(org, RunRegistrations(org, w, gs[..|gs| - 1]), gs[|gs| - 1]).1
  {
    hide RegisterPushCap;
  }

  lemma HeldIsLive(tokens: Tokens, name: string, secret: string)
    ensures Held(tokens, name, secret) ==> secret in tokens.Values
    ensures Gone(tokens, secret) ==> secret !in tokens.Values
  {
    if Held(tokens, name, secret) { assert tokens[name] in tokens.Values; }
  }

  /**
   After any run of calls, failed and cross-tenant ones included, the cap of a successful call
   resolves to its clone URL and secret until it expires; the forge honours that secret exactly
   if no later call for the same repo found its token listed and got it deleted.
   */
  lemma SessionIsLiveExactly(org: string, w: World, gs: seq<Registration>, i: nat, t: int)
    requires i < |gs| && FreshSecret(w.tokens, gs, i) && Succeeds(org, w, gs, i)
    requires forall j :: i < j < |gs| ==> gs[j].cap != gs[i].cap
    requires t <= gs[i].now + FORGE_PUSH_CAP_TTL
    ensures var end := RunRegistrations(org, w, gs);
            && Resolve(end.history, gs[i].cap, t) == Some((gs[i].cloneUrl, gs[i].m.secret))
            && (gs[i].m.secret in end.tokens.Values <==> Undisplaced(org, gs, i))
  {
    hide RunRegistrations, EnsureSameTenant, TokenName, Gone, Held, Undisplaced, Succeeds, Current;
    AfterSuccess(org, w, gs, i);
    HeldIsLive(RunRegistrations(org, w, gs).tokens, TokenName(org, EnsureSameTenant(org, gs[i].repo).value), gs[i].m.secret);
  }

  /**
   A failing call leaves every session as it is, and kills the token of its repo all the same
   exactly when the delete went through and the mint behind it gave no secret.
   */
  lemma FailedCallKillsTokenExactly(org: string, w: World, g: Registration, repo: string, secret: string)
    requires EnsureSameTenant(org, g.repo) == Ok(repo) && g.m.secret != secret
    requires Held(w.tokens, TokenName(org, repo), secret)
    ensures var (r, next) := RegisterPushCap(org, w, g);
            && (r.Err? ==> next.history == w.history)
            && (r.Err? && Gone(next.tokens, secret)
                <==> Displaces(org, g, Ok(repo)) && !MintReading(g.m.reply, g.m.secret).Secret?)
            && (!Gone(next.tokens, secret) ==> r.Err? && next == w)
  {
    hide EnsureSameTenant, TokenName;
  }

  /** On a concrete call: the session still resolves, to a secret that the forge no longer knows. */
  lemma DeclinedMintKillsToken()
    ensures var name := TokenName("o", "r");
            var entry := PushEntry("u", "old", 0);
            var w := World(map[name := "old"], [Registered("c", entry)]);
            var g := Registration("r", "u", Mint(Listed([name]), true, Declined, "new"), "d", 1);
            var (r, next) := RegisterPushCap("o", w, g);
            && r.Err? && Resolve(next.history, "c", 1) == Some(("u", "old")) && "old" !in next.tokens.Values
  {
    var name := TokenName("o", "r");
    SplitOnceCharNone("r", '/');
    assert EnsureSameTenant("o", "r") == Ok("r");
    hide TokenName, EnsureSameTenant;
    assert map[name := "old"] - {name} == map[];
    assert [Registered("c", PushEntry("u", "old", 0))][..0] == [];
  }

  /** `i` is the newest call for its repo, however the calls spell the repo. */
  ghost predicate Newest(org: string, gs: seq<Registration>, i: nat)
    requires i < |gs|
  {
    forall j :: i < j < |gs| ==> EnsureSameTenant(org, gs[j].repo) != EnsureSameTenant(org, gs[i].repo)
  }

  /** A later success for the repo of an undisplaced session displaces it. */
  lemma SuccessDisplaces(org: string, w: World, gs: seq<Registration>, i: nat, j: nat)
    requires i < j < |gs| && FreshSecret(w.tokens, gs, i) && Succeeds(org, w, gs, i)
    requires FreshSecret(w.tokens, gs, j) && Succeeds(org, w, gs, j)
    requires forall j :: i < j < |gs| ==> gs[j].cap != gs[i].cap
    requires EnsureSameTenant(org, gs[j].repo) == EnsureSameTenant(org, gs[i].repo)
    ensures !Undisplaced(org, gs, i)
  {
    var front := gs[..j];
    hide RunRegistrations, RegisterPushCap, EnsureSameTenant, Gone, TokenName, Displaces, Current;
    FrontIsFresh(org, w, gs, i, j);
    AfterSuccess(org, w, front, i);
    NeverMinted(org, w, front, gs[j].m.secret);
    SuccessHolds(org, RunRegistrations(org, w, front), gs[j]);
    UndisplacedFront(org, gs, i, j);
  }

  lemma UndisplacedFront(org: string, gs: seq<Registration>, i: nat, j: nat)
    requires i < j < |gs|
    ensures Undisplaced(org, gs, i)
            ==> Undisplaced(org, gs[..j], i) && !Displaces(org, gs[j], EnsureSameTenant(org, gs[i].repo))
  {
    hide EnsureSameTenant, Displaces;
  }

  lemma FrontIsFresh(org: string, w: World, gs: seq<Registration>, i: nat, j: nat)
    requires i < j < |gs| && FreshSecret(w.tokens, gs, i) && Succeeds(org, w, gs, i)
    ensures FreshSecret(w.tokens, gs[..j], i) && Succeeds(org, w, gs[..j], i)
  {
    hide RunRegistrations, RegisterPushCap, Gone;
    assert gs[..j][..i] == gs[..i];
  }

  /**
   So among the sessions of an org exactly the newest one of each repo holds a live token: repos
   never displace each other, and each re-registration retires its predecessor.
   */
  lemma NewestSessionAloneIsLive(org: string, w: World, gs: seq<Registration>, i: nat, t: int)
    requires i < |gs| && forall j :: i <= j < |gs| ==> FreshSecret(w.tokens, gs, j) && Succeeds(org, w, gs, j)
    requires forall j :: i < j < |gs| ==> gs[j].cap != gs[i].cap
    requires t <= gs[i].now + FORGE_PUSH_CAP_TTL
    ensures var end := RunRegistrations(org, w, gs);
            && Resolve(end.history, gs[i].cap, t) == Some((gs[i].cloneUrl, gs[i].m.secret))
            && (gs[i].m.secret in end.tokens.Values <==> Newest(org, gs, i))
  {
    SessionIsLiveExactly(org, w, gs, i, t);
    hide RunRegistrations, EnsureSameTenant, FreshSecret, Succeeds, Resolve, TokenName;
    if j :| i < j < |gs| && EnsureSameTenant(org, gs[j].repo) == EnsureSameTenant(org, gs[i].repo) {
      SuccessDisplaces(org, w, gs, i, j);
    }
  }
}
