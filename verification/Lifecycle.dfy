/**
 The credential life cycle as a transition system over both listeners (`src/dispatch.rs`,
 `src/http_ctrl.rs`, `src/main.rs`): one shared credential cell, cap files on disk, operations
 that clone the cell before they run, and HTTP handlers whose separate effects interleave with
 everything else. An event that does not apply in a state leaves it unchanged.
 */
module Lifecycle {
  import opened Types
  import opened CapsDir
  import opened Creds
  import opened Text
  import opened GitOps
  import opened HttpFrame
  import opened HttpConn
  import opened HttpCtrl
  import opened AuthorizedKeys

  /** An HTTP scrub after it cleared the cell: about to list, then unlinking what it listed. */
  datatype Scrub = Listing | Removing(todo: set<string>)

  datatype State = State(
    dir: Dir,                     // the caps directory
    ram: Creds,                   // the cell shared by both listeners
    booted: Creds,                // what the last start loaded
    ops: map<nat, Creds>,         // clones held by operations in flight
    scrubs: map<nat, Scrub>,      // HTTP scrubs in flight, by connection
    appends: map<nat, string>,    // authorized keys not yet appended, by connection
    keys: string                  // the authorized_keys file
  )

  datatype Event =
    | Restart(missed: set<string>)                       // boot; the scan may miss entries
    | ListCaps
    | BeginOp(op: nat)
    | EndOp(op: nat)
    | SocketScrub
    | SocketAddKey(pubkey: string)
    | Frame(conn: nat, raw: string)                      // a request is parsed and decided on
    | AppendKey(conn: nat, ok: bool)
    | ScrubList(conn: nat, missed: set<string>)
    | ScrubRemove(conn: nat, name: string, ok: bool)
    | ScrubReply(conn: nat)
    | SupervisorWrite(name: string, text: Option<string>)

  /** The JSON readers of unseen libraries. */
  datatype Libs = Libs(body: string -> JsonBody, owner: OwnerParser)

  ghost function Boot(dir: Dir, missed: set<string>, keys: string, libs: Libs): State {
    var creds := Loaded(dir, dir.Keys - missed, libs.owner);
    State(dir, creds, creds, map[], map[], map[], keys)
  }

  predicate IsScrubPost(raw: string) {
    var req := Parse(raw);
    req.Some? && req.value.path == PRE_SNAPSHOT_SCRUB_PATH && req.value.httpMethod == "POST"
  }

  /** Routing: the scrub path first, everything else to the add-key handler with a fresh cap. */
  ghost function Route(dir: Dir, raw: string, libs: Libs): Decision {
    match Parse(raw)
    case None => Reject(HttpOutcome(400, "malformed request"))
    case Some(req) =>
      if req.path == PRE_SNAPSHOT_SCRUB_PATH then
        Reject(if req.httpMethod == "POST" then HttpOutcome(200, "ok") else HttpOutcome(405, "method not allowed"))
      else DecideAddKey(ReadAuthkeysCap(dir), req, libs.body)
  }

  /** What the client is told, given what the privileged append would say to each key. */
  ghost function Answer(dir: Dir, raw: string, addKey: string -> Result<()>, libs: Libs): HttpOutcome {
    match Route(dir, raw, libs)
    case Reject(outcome) => outcome
    case Append(key) => AppendOutcome(addKey(key))
  }

  ghost function OnFrame(s: State, conn: nat, raw: string, libs: Libs): State {
    if IsScrubPost(raw) then s.(ram := EMPTY, scrubs := s.scrubs[conn := Listing])
    else
      match Route(s.dir, raw, libs)
      case Reject(_) => s
      case Append(key) => s.(appends := s.appends[conn := key])
  }

  ghost function Next(s: State, e: Event, libs: Libs): State {
    match e
    case Restart(missed) => Boot(s.dir, missed, s.keys, libs)
    case ListCaps => s
    case BeginOp(op) => s.(ops := s.ops[op := s.ram])
    case EndOp(op) => s.(ops := s.ops - {op})
    case SocketScrub => s.(ram := EMPTY)
    case SocketAddKey(pubkey) => s.(keys := AddTo(s.keys, pubkey).1)
    case Frame(conn, raw) => OnFrame(s, conn, raw, libs)
    case AppendKey(conn, ok) =>
      if conn in s.appends
      then s.(keys := if ok then AddTo(s.keys, s.appends[conn]).1 else s.keys, appends := s.appends - {conn})
      else s
    case ScrubList(conn, missed) =>
      if conn in s.scrubs && s.scrubs[conn].Listing?
      then s.(scrubs := s.scrubs[conn := Removing(CredFiles(s.dir) - missed + {AUTHKEYS_CAP_FILE, FORGE_ADMIN_FILE})])
      else s
    case ScrubRemove(conn, name, ok) =>
      if conn in s.scrubs && s.scrubs[conn].Removing? && name in s.scrubs[conn].todo
      then s.(dir := if ok then s.dir - {name} else s.dir,
              scrubs := s.scrubs[conn := Removing(s.scrubs[conn].todo - {name})])
      else s
    case ScrubReply(conn) =>
      if conn in s.scrubs && s.scrubs[conn] == Removing({}) then s.(scrubs := s.scrubs - {conn}) else s
    case SupervisorWrite(name, text) => s.(dir := s.dir[name := text])
  }

  ghost function Run(s: State, es: seq<Event>, libs: Libs): State
    decreases |es|
  {
    if es == [] then s else Run(Next(s, es[0], libs), es[1..], libs)
  }

  lemma {:induction false} RunAppend(s: State, a: seq<Event>, b: seq<Event>, libs: Libs)
    ensures Run(s, a + b, libs) == Run(Run(s, a, libs), b, libs)
    decreases |a|
  {
    hide Next;
    if a == [] {
      assert a + b == b;
    } else {
      assert (a + b)[1..] == a[1..] + b;
      RunAppend(Next(s, a[0], libs), a[1..], b, libs);
    }
  }

  lemma RunOne(s: State, e: Event, libs: Libs)
    ensures Run(s, [e], libs) == Next(s, e, libs)
  {
    hide Next;
    assert [e][1..] == [];
    assert Run(Next(s, e, libs), [], libs) == Next(s, e, libs);
  }

  lemma RunTwo(s: State, e: Event, f: Event, libs: Libs)
    ensures Run(s, [e, f], libs) == Next(Next(s, e, libs), f, libs)
  {
    hide Next;
    assert [e] + [f] == [e, f];
    RunAppend(s, [e], [f], libs);
    RunOne(s, e, libs);
    RunOne(Next(s, e, libs), f, libs);
  }

  lemma RunAround(s: State, before: seq<Event>, e: Event, after: seq<Event>, libs: Libs)
    ensures Run(s, before + ([e] + after), libs) == Run(Next(Run(s, before, libs), e, libs), after, libs)
  {
    hide *;
    var mid := Run(s, before, libs);
    RunAppend(s, before, [e] + after, libs);
    RunAppend(mid, [e], after, libs);
    RunOne(mid, e, libs);
  }

  // ----- custody: every credential comes from the last start

  ghost predicate Custody(s: State) {
    && s.ram in {s.booted, EMPTY}
    && forall op :: op in s.ops ==> s.ops[op] in {s.booted, EMPTY}
  }

  lemma CustodyStep(s: State, e: Event, libs: Libs)
    requires Custody(s)
    ensures Custody(Next(s, e, libs))
    ensures !e.Restart? ==> Next(s, e, libs).booted == s.booted
  {
    hide IsScrubPost, Route, AddTo, CredFiles, Loaded;
  }

  /** On every interleaving, the cell and every clone hold what the last start loaded, or nothing. */
  lemma {:induction false} CustodyAlways(s: State, es: seq<Event>, libs: Libs)
    requires Custody(s)
    ensures Custody(Run(s, es, libs))
    ensures (forall e :: e in es ==> !e.Restart?) ==> Run(s, es, libs).booted == s.booted
    decreases |es|
  {
    if es != [] {
      CustodyStep(s, es[0], libs);
      hide Next, Custody;
      CustodyAlways(Next(s, es[0], libs), es[1..], libs);
    }
  }

  /** So from every start: what is held anywhere was read by the last start of the run. */
  lemma CustodyFromStart(dir: Dir, missed: set<string>, keys: string, es: seq<Event>, libs: Libs)
    ensures var t := Run(Boot(dir, missed, keys, libs), es, libs);
            && Custody(t)
            && ((forall e :: e in es ==> !e.Restart?) ==> t.booted == Loaded(dir, dir.Keys - missed, libs.owner))
  {
    hide Loaded, Run;
    CustodyAlways(Boot(dir, missed, keys, libs), es, libs);
  }

  // ----- any scrub is final until a restart

  lemma EmptyCellStep(s: State, e: Event, libs: Libs)
    requires s.ram == EMPTY && !e.Restart?
    ensures var t := Next(s, e, libs);
            && t.ram == EMPTY
            && forall op :: op in t.ops ==>
                 t.ops[op] == EMPTY || (op in s.ops && t.ops[op] == s.ops[op] && e != EndOp(op))
  {
    hide IsScrubPost, Route, AddTo, CredFiles;
  }

  /**
   From a cleared cell, and whatever the supervisor writes meanwhile, no later operation obtains a
   credential before a restart; the only copies left belong to operations already in flight that
   have not ended.
   */
  lemma {:induction false} ScrubIsFinal(s: State, es: seq<Event>, libs: Libs)
    requires s.ram == EMPTY && forall e :: e in es ==> !e.Restart?
    ensures var t := Run(s, es, libs);
            && t.ram == EMPTY
            && forall op :: op in t.ops ==>
                 t.ops[op] == EMPTY || (op in s.ops && t.ops[op] == s.ops[op] && EndOp(op) !in es)
    decreases |es|
  {
    if es != [] {
      EmptyCellStep(s, es[0], libs);
      hide Next;
      ScrubIsFinal(Next(s, es[0], libs), es[1..], libs);
      assert es == [es[0]] + es[1..];
    }
  }

  /** A scrub through the socket, or the request of one over HTTP. */
  ghost predicate IsScrub(e: Event) {
    e.SocketScrub? || (e.Frame? && IsScrubPost(e.raw))
  }

  /** Either kind clears the cell at once, and for good until a restart; clones drain with their operations. */
  lemma AnyScrubIsFinal(s: State, before: seq<Event>, scrub: Event, after: seq<Event>, libs: Libs)
    requires IsScrub(scrub) && forall e :: e in after ==> !e.Restart?
    ensures var t := Run(s, before + ([scrub] + after), libs);
            var held := Run(s, before, libs).ops;
            && t.ram == EMPTY
            && (forall op :: op in t.ops ==>
                  t.ops[op] == EMPTY || (op in held && t.ops[op] == held[op] && EndOp(op) !in after))
  {
    var mid := Run(s, before, libs);
    ScrubClears(mid, scrub, libs);
    hide *;
    RunAround(s, before, scrub, after, libs);
    ScrubIsFinal(Next(mid, scrub, libs), after, libs);
  }

  lemma ScrubClears(s: State, scrub: Event, libs: Libs)
    requires IsScrub(scrub)
    ensures Next(s, scrub, libs).ram == EMPTY && Next(s, scrub, libs).ops == s.ops
  {
    hide IsScrubPost, Route;
  }

  /** After the operations in flight have drained no copy remains anywhere. */
  lemma DrainedHoldsNothing(s: State, es: seq<Event>, libs: Libs)
    requires s.ram == EMPTY && forall e :: e in es ==> !e.Restart?
    requires forall op :: op in s.ops ==> EndOp(op) in es
    ensures var t := Run(s, es, libs);
            t.ram == EMPTY && forall op :: op in t.ops ==> t.ops[op] == EMPTY
  {
    hide Run;
    ScrubIsFinal(s, es, libs);
  }

  /**
   So an operation begun after a scrub hands git the repo's own `origin`, never a cap-URL: it is
   not refused, contrary to the comment at `src/http_ctrl.rs:49`.
   */
  lemma OpAfterScrubUsesOrigin(s: State, es: seq<Event>, op: nat, root: string, req: GitOpReq, libs: Libs)
    requires s.ram == EMPTY && forall e :: e in es ==> !e.Restart?
    requires op !in s.ops && op in Run(s, es, libs).ops
    ensures GitCommand(Run(s, es, libs).ops[op], root, req).args[1] == "origin"
  {
    hide Run;
    ScrubIsFinal(s, es, libs);
  }

  /** `forge_context`: what the list, pull-request and file-link operations ask of their clone first. */
  function ForgeContext(configured: bool, creds: Creds): Result<ForgeOwnerCreds> {
    if !configured then Err(CodeError(NeedsCredential, "forge not configured"))
    else
      match creds.forgeOwner
      case None => Err(CodeError(NeedsCredential, "forge not provisioned"))
      case Some(owner) => Ok(owner)
  }

  /** What provisioning asks of its clone: the admin token is enough. */
  function ProvisionToken(configured: bool, creds: Creds): Result<string> {
    if !configured then Err(CodeError(NeedsCredential, "forge not configured"))
    else
      match creds.forgeAdminToken
      case None => Err(CodeError(NeedsCredential, "forge not provisioned"))
      case Some(token) => Ok(token)
  }

  /** Forge operations begun after a scrub are refused, provisioning included. */
  lemma ForgeOpAfterScrubNeedsCredential(s: State, es: seq<Event>, op: nat, configured: bool, libs: Libs)
    requires s.ram == EMPTY && forall e :: e in es ==> !e.Restart?
    requires op !in s.ops && op in Run(s, es, libs).ops
    ensures var creds := Run(s, es, libs).ops[op];
            && ForgeContext(configured, creds).Err? && ForgeContext(configured, creds).error.code == NeedsCredential
            && ProvisionToken(configured, creds).Err? && ProvisionToken(configured, creds).error.code == NeedsCredential
  {
    hide Run;
    ScrubIsFinal(s, es, libs);
  }

  // ----- the HTTP scrub, from first clearing to reply

  /** What may happen around connection `c` while its scrub runs to success. */
  ghost predicate Quiet(e: Event, c: nat) {
    match e
    case Restart(_) => false
    case SupervisorWrite(name, _) => !IsCredFile(name)
    case ScrubList(conn, missed) => conn == c ==> missed == {}
    case ScrubRemove(conn, _, ok) => conn == c ==> ok
    case _ => true
  }

  /** Every credential file still on disk is on the scrub's own list. */
  ghost predicate ScrubProgress(s: State, c: nat) {
    && s.ram == EMPTY
    && (c !in s.scrubs ==> CredFiles(s.dir) == {})
    && (c in s.scrubs && s.scrubs[c].Removing? ==> CredFiles(s.dir) <= s.scrubs[c].todo)
  }

  lemma CredFilesShrink(dir: Dir, name: string)
    ensures CredFiles(dir - {name}) == CredFiles(dir) - {name}
  {
    hide IsCredFile;
  }

  lemma CredFilesIgnoreOthers(dir: Dir, name: string, text: Option<string>)
    requires !IsCredFile(name)
    ensures CredFiles(dir[name := text]) == CredFiles(dir)
  {
    hide IsCredFile;
  }

  lemma ScrubProgressStep(s: State, e: Event, c: nat, libs: Libs)
    requires ScrubProgress(s, c) && Quiet(e, c)
    ensures ScrubProgress(Next(s, e, libs), c)
  {
    hide IsScrubPost, Route, AddTo, CredFiles, IsCredFile;
    match e
    case ScrubRemove(conn, name, ok) => CredFilesShrink(s.dir, name);
    case SupervisorWrite(name, text) => CredFilesIgnoreOthers(s.dir, name, text);
    case _ =>
  }

  lemma {:induction false} ScrubProgressRun(s: State, es: seq<Event>, c: nat, libs: Libs)
    requires ScrubProgress(s, c) && forall e :: e in es ==> Quiet(e, c)
    ensures ScrubProgress(Run(s, es, libs), c)
    decreases |es|
  {
    if es != [] {
      assert Quiet(es[0], c);
      ScrubProgressStep(s, es[0], c, libs);
      hide Next, ScrubProgress, Quiet;
      ScrubProgressRun(Next(s, es[0], libs), es[1..], c, libs);
    }
  }

  /** The broker holds nothing, in memory and on disk. */
  ghost predicate Scrubbed(s: State) {
    s.ram == EMPTY && CredFiles(s.dir) == {}
  }

  /**
   A scrub request that has been answered, with its listing complete and its removals working, has
   left nothing, whatever both listeners did in between and however the steps interleaved.
   */
  lemma AnsweredScrubLeavesNothing(s: State, c: nat, raw: string, es: seq<Event>, libs: Libs)
    requires IsScrubPost(raw) && forall e :: e in es ==> Quiet(e, c)
    requires c !in Run(Next(s, Frame(c, raw), libs), es, libs).scrubs
    ensures Scrubbed(Run(Next(s, Frame(c, raw), libs), es, libs))
  {
    hide IsScrubPost, Run, Quiet, CredFiles;
    ScrubProgressRun(Next(s, Frame(c, raw), libs), es, c, libs);
  }

  // ----- life after the scrub

  ghost predicate NoCredWrite(e: Event) {
    e.SupervisorWrite? ==> !IsCredFile(e.name)
  }

  lemma ScrubbedStep(s: State, e: Event, libs: Libs)
    requires Scrubbed(s) && NoCredWrite(e)
    ensures Scrubbed(Next(s, e, libs))
    ensures Next(s, e, libs).appends.Keys <= s.appends.Keys
    ensures s.appends == map[] && !e.SocketAddKey? ==> Next(s, e, libs).keys == s.keys
  {
    CapNeedsCredFile(s.dir);
    hide IsScrubPost, AddTo, CredFiles, IsCredFile, Loaded, ReadAuthkeysCap, DecideAddKey, Parse;
    match e
    case Restart(missed) => LoadNeedsCredFiles(s.dir, s.dir.Keys - missed, libs.owner);
    case ScrubRemove(conn, name, ok) => CredFilesShrink(s.dir, name);
    case SupervisorWrite(name, text) => CredFilesIgnoreOthers(s.dir, name, text);
    case Frame(conn, raw) =>
      if Parse(raw).Some? { NoCapNoAppend(Parse(raw).value, libs.body); }
    case _ =>
  }

  /**
   Until the supervisor writes a credential file, and across restarts, nothing comes back: no
   credential is held or loaded, and no HTTP request reaches the key file any more.
   */
  lemma {:induction false} ScrubbedStays(s: State, es: seq<Event>, libs: Libs)
    requires Scrubbed(s) && forall e :: e in es ==> NoCredWrite(e)
    ensures Scrubbed(Run(s, es, libs))
    ensures s.appends == map[] && (forall e :: e in es ==> !e.SocketAddKey?) ==> Run(s, es, libs).keys == s.keys
    decreases |es|
  {
    if es != [] {
      assert NoCredWrite(es[0]);
      ScrubbedStep(s, es[0], libs);
      var t := Next(s, es[0], libs);
      assert s.appends == map[] ==> t.appends.Keys == {};
      assert t.appends.Keys == {} ==> t.appends == map[];
      hide Next, Scrubbed, NoCredWrite;
      ScrubbedStays(t, es[1..], libs);
    }
  }

  lemma EmptyNameList(names: seq<string>)
    ensures IsNameList(names, EMPTY) <==> names == []
  {
    NoNamesNoList(names);
    assert CapNameSet(EMPTY) == {};
    assert NamesOf([]) == {};
  }

  ghost predicate IsAddKeyPost(raw: string) {
    Parse(raw).Some? && Parse(raw).value.path == AUTH_KEYS_PATH && Parse(raw).value.httpMethod == "POST"
  }

  lemma AddKeyPostIs401(dir: Dir, raw: string, libs: Libs)
    requires CredFiles(dir) == {} && IsAddKeyPost(raw)
    ensures Route(dir, raw, libs) == Reject(HttpOutcome(401, "unauthorized"))
  {
    CapNeedsCredFile(dir);
    assert |PRE_SNAPSHOT_SCRUB_PATH| != |AUTH_KEYS_PATH|;
    hide Parse, CredFiles, ReadAuthkeysCap;
  }

  /** What every client of a scrubbed broker observes, now and after a restart. */
  lemma ScrubbedObservations(s: State, libs: Libs)
    requires Scrubbed(s)
    ensures forall names :: IsNameList(names, s.ram) <==> names == []
    ensures forall repo :: s.ram.GitCapUrl(repo) == None
    ensures forall raw :: IsAddKeyPost(raw) ==> Route(s.dir, raw, libs) == Reject(HttpOutcome(401, "unauthorized"))
    ensures forall missed, keys :: Boot(s.dir, missed, keys, libs).ram == EMPTY
  {
    hide CredFiles, Route, IsAddKeyPost, IsNameList, Loaded;
    forall names ensures IsNameList(names, s.ram) <==> names == [] { EmptyNameList(names); }
    forall raw | IsAddKeyPost(raw) ensures Route(s.dir, raw, libs) == Reject(HttpOutcome(401, "unauthorized")) {
      AddKeyPostIs401(s.dir, raw, libs);
    }
    forall missed, keys ensures Boot(s.dir, missed, keys, libs).ram == EMPTY {
      LoadNeedsCredFiles(s.dir, s.dir.Keys - missed, libs.owner);
    }
  }

  /**
   The whole story as one run: a scrub request, anything quiet until it is answered, then anything
   at all but a supervisor write of a credential file, restarts included.
   */
  lemma ScrubbedForGood(s: State, c: nat, raw: string, during: seq<Event>, after: seq<Event>, libs: Libs)
    requires IsScrubPost(raw)
    requires forall e :: e in during ==> Quiet(e, c)
    requires c !in Run(s, [Frame(c, raw)] + during, libs).scrubs
    requires forall e :: e in after ==> NoCredWrite(e)
    ensures Scrubbed(Run(s, [Frame(c, raw)] + during + after, libs))
  {
    hide IsScrubPost, Quiet, NoCredWrite, Next, Scrubbed;
    assert ([Frame(c, raw)] + during)[1..] == during;
    var answered := Run(s, [Frame(c, raw)] + during, libs);
    assert answered == Run(Next(s, Frame(c, raw), libs), during, libs);
    AnsweredScrubLeavesNothing(s, c, raw, during, libs);
    RunAppend(s, [Frame(c, raw)] + during, after, libs);
    ScrubbedStays(answered, after, libs);
  }

  // ----- the agent cannot add a key

  /** Every cap the directory ever holds during a run is among `caps`. */
  ghost predicate CapsAmong(dir: Dir, caps: set<string>) {
    ReadAuthkeysCap(dir).Some? ==> ReadAuthkeysCap(dir).value in caps
  }

  /** The socket is closed to the caller, and its frames carry no token that matches a cap. */
  ghost predicate Guess(e: Event, caps: set<string>) {
    match e
    case SocketAddKey(_) => false
    case SupervisorWrite(name, text) => CapsAmong(map[name := text], caps)
    case Frame(_, raw) =>
      Parse(raw).Some? ==> forall cap :: cap in caps ==> !Authorized(Some(cap), Parse(raw).value.authorization)
    case _ => true
  }

  lemma GuessStep(s: State, e: Event, caps: set<string>, libs: Libs)
    requires s.appends == map[] && CapsAmong(s.dir, caps) && Guess(e, caps)
    ensures var t := Next(s, e, libs);
            t.appends == map[] && t.keys == s.keys && CapsAmong(t.dir, caps)
  {
    hide IsScrubPost, AddTo, CredFiles, Loaded, Authorized, Parse, Trim;
    if e.Frame? && Parse(e.raw).Some? {
      var held := ReadAuthkeysCap(s.dir);
      if held.Some? {
        assert held == Some(held.value);
      } else {
        NoCapNoAppend(Parse(e.raw).value, libs.body);
      }
    }
  }

  /**
   On every interleaving, restarts and cap rotations included, HTTP requests whose token matches
   none of the caps in use, or that carry no token, never change the authorized_keys file.
   */
  lemma {:induction false} GuessesNeverAddKeys(s: State, es: seq<Event>, caps: set<string>, libs: Libs)
    requires s.appends == map[] && CapsAmong(s.dir, caps)
    requires forall e :: e in es ==> Guess(e, caps)
    ensures Run(s, es, libs).keys == s.keys
    decreases |es|
  {
    if es != [] {
      assert Guess(es[0], caps);
      GuessStep(s, es[0], caps, libs);
      hide Next, Guess, CapsAmong;
      GuessesNeverAddKeys(Next(s, es[0], libs), es[1..], caps, libs);
    }
  }

  // ----- one connection, as the listener runs it

  function UrlNames(listing: seq<string>): (names: seq<string>)
    ensures forall name :: name in names <==> name in listing && IsUrlName(name)
  {
    if listing == [] then []
    else (if IsUrlName(listing[0]) then [listing[0]] else []) + UrlNames(listing[1..])
  }

  /** The order in which `remove_cred_files` unlinks. */
  function RemovalOrder(listing: seq<string>): seq<string> {
    UrlNames(listing) + [AUTHKEYS_CAP_FILE, FORGE_ADMIN_FILE]
  }

  function Unlinks(c: nat, names: seq<string>, deletable: string -> bool): seq<Event> {
    if names == [] then []
    else [ScrubRemove(c, names[0], deletable(names[0]))] + Unlinks(c, names[1..], deletable)
  }

  /** The steps one request takes when its connection runs undisturbed. */
  ghost function FrameEvents(c: nat, raw: string, dir: Dir, listing: seq<string>, deletable: string -> bool,
                             addKey: string -> Result<()>, libs: Libs): seq<Event>
  {
    if IsScrubPost(raw) then
      [Frame(c, raw), ScrubList(c, CredFiles(dir) - NamesOf(listing))]
      + Unlinks(c, RemovalOrder(listing), deletable) + [ScrubReply(c)]
    else
      match Route(dir, raw, libs)
      case Reject(_) => [Frame(c, raw)]
      case Append(key) => [Frame(c, raw), AppendKey(c, addKey(key).Ok?)]
  }

  function KeysAfter(keys: string, appended: Option<string>, addKey: string -> Result<()>): string {
    if appended.Some? && addKey(appended.value).Ok? then AddTo(keys, appended.value).1 else keys
  }

  ghost function Unlinked(todo: set<string>, names: seq<string>, deletable: string -> bool): set<string> {
    set name | name in todo && name in names && deletable(name)
  }

  lemma {:induction false} UnlinksRun(s: State, c: nat, names: seq<string>, deletable: string -> bool, libs: Libs)
    requires c in s.scrubs && s.scrubs[c].Removing?
    ensures Run(s, Unlinks(c, names, deletable), libs)
            == s.(dir := s.dir - Unlinked(s.scrubs[c].todo, names, deletable),
                  scrubs := s.scrubs[c := Removing(s.scrubs[c].todo - NamesOf(names))])
    decreases |names|
  {
    var todo := s.scrubs[c].todo;
    if names == [] {
      assert NamesOf(names) == {} && todo - {} == todo;
      assert Unlinked(todo, names, deletable) == {} && s.dir - {} == s.dir;
      assert s.scrubs[c := s.scrubs[c]] == s.scrubs;
    } else {
      var es := Unlinks(c, names, deletable);
      var t := Next(s, es[0], libs);
      assert es[1..] == Unlinks(c, names[1..], deletable);
      UnlinkOne(s, c, names, deletable, libs);
      hide Next, NamesOf, Unlinked;
      UnlinksRun(t, c, names[1..], deletable, libs);
    }
  }

  lemma UnlinkOne(s: State, c: nat, names: seq<string>, deletable: string -> bool, libs: Libs)
    requires names != [] && c in s.scrubs && s.scrubs[c].Removing?
    ensures var todo := s.scrubs[c].todo;
            var t := Next(s, ScrubRemove(c, names[0], deletable(names[0])), libs);
            && c in t.scrubs && t.scrubs[c].Removing?
            && t == s.(dir := t.dir, scrubs := t.scrubs)
            && t.dir - Unlinked(t.scrubs[c].todo, names[1..], deletable) == s.dir - Unlinked(todo, names, deletable)
            && t.scrubs[c := Removing(t.scrubs[c].todo - NamesOf(names[1..]))]
               == s.scrubs[c := Removing(todo - NamesOf(names))]
  {
    var todo := s.scrubs[c].todo;
    var rest := todo - {names[0]};
    assert names == [names[0]] + names[1..];
    assert NamesOf(names) == {names[0]} + NamesOf(names[1..]);
    assert rest - NamesOf(names[1..]) == todo - NamesOf(names);
    if names[0] !in todo { assert rest == todo; }
  }

  lemma RemovalIsComplete(dir: Dir, listing: seq<string>, deletable: string -> bool)
    ensures var todo := CredFiles(dir) - (CredFiles(dir) - NamesOf(listing)) + {AUTHKEYS_CAP_FILE, FORGE_ADMIN_FILE};
            && todo - NamesOf(RemovalOrder(listing)) == {}
            && dir - Unlinked(todo, RemovalOrder(listing), deletable) == dir - Removed(dir, NamesOf(listing), deletable)
  {
    FixedNamesAreNoUrls();
    hide IsUrlName;
  }

  /** What the scrub of a connection that runs undisturbed has listed. */
  ghost function ScrubListed(s: State, c: nat, listing: seq<string>): State {
    var todo := CredFiles(s.dir) - (CredFiles(s.dir) - NamesOf(listing)) + {AUTHKEYS_CAP_FILE, FORGE_ADMIN_FILE};
    s.(ram := EMPTY, scrubs := s.scrubs[c := Removing(todo)])
  }

  lemma ScrubStarts(s: State, c: nat, raw: string, listing: seq<string>, libs: Libs)
    requires IsScrubPost(raw)
    ensures Run(s, [Frame(c, raw), ScrubList(c, CredFiles(s.dir) - NamesOf(listing))], libs)
            == ScrubListed(s, c, listing)
  {
    hide IsScrubPost, CredFiles, NamesOf, Run;
    RunTwo(s, Frame(c, raw), ScrubList(c, CredFiles(s.dir) - NamesOf(listing)), libs);
    var cleared := Next(s, Frame(c, raw), libs);
    assert cleared == s.(ram := EMPTY, scrubs := s.scrubs[c := Listing]);
    assert forall todo :: cleared.scrubs[c := Removing(todo)] == s.scrubs[c := Removing(todo)];
  }

  lemma ScrubUnlinks(s: State, c: nat, listing: seq<string>, deletable: string -> bool, libs: Libs)
    ensures Run(ScrubListed(s, c, listing), Unlinks(c, RemovalOrder(listing), deletable), libs)
            == s.(ram := EMPTY, dir := s.dir - Removed(s.dir, NamesOf(listing), deletable),
                  scrubs := s.scrubs[c := Removing({})])
  {
    RemovalIsComplete(s.dir, listing, deletable);
    hide CredFiles, NamesOf, Removed, Unlinked, RemovalOrder, Unlinks, Run;
    UnlinksRun(ScrubListed(s, c, listing), c, RemovalOrder(listing), deletable, libs);
  }

  /** Clearing the cell and removing the files in one go is a run of the transition system. */
  lemma ScrubIsRun(s: State, c: nat, raw: string, listing: seq<string>, deletable: string -> bool,
                   addKey: string -> Result<()>, libs: Libs)
    requires IsScrubPost(raw) && c !in s.scrubs
    ensures Run(s, FrameEvents(c, raw, s.dir, listing, deletable, addKey, libs), libs)
            == s.(ram := EMPTY, dir := s.dir - Removed(s.dir, NamesOf(listing), deletable))
  {
    var start := [Frame(c, raw), ScrubList(c, CredFiles(s.dir) - NamesOf(listing))];
    var unlinks := Unlinks(c, RemovalOrder(listing), deletable);
    hide IsScrubPost, CredFiles, NamesOf, Removed, RemovalOrder, Unlinks, Run, ScrubListed;
    ScrubStarts(s, c, raw, listing, libs);
    ScrubUnlinks(s, c, listing, deletable, libs);
    RunAppend(s, start, unlinks, libs);
    RunAppend(s, start + unlinks, [ScrubReply(c)], libs);
    RunOne(Run(s, start + unlinks, libs), ScrubReply(c), libs);
    assert s.scrubs[c := Removing({})] - {c} == s.scrubs;
  }

  /** So is every other request, its append included. */
  lemma RequestIsRun(s: State, c: nat, raw: string, listing: seq<string>, deletable: string -> bool,
                     addKey: string -> Result<()>, appended: Option<string>, libs: Libs)
    requires !IsScrubPost(raw) && c !in s.appends
    requires appended == match Route(s.dir, raw, libs) case Reject(_) => None case Append(key) => Some(key)
    ensures Run(s, FrameEvents(c, raw, s.dir, listing, deletable, addKey, libs), libs)
            == s.(keys := KeysAfter(s.keys, appended, addKey))
  {
    hide IsScrubPost, Route, AddTo, Run;
    match Route(s.dir, raw, libs)
    case Reject(_) => RunOne(s, Frame(c, raw), libs);
    case Append(key) =>
      RunTwo(s, Frame(c, raw), AppendKey(c, addKey(key).Ok?), libs);
      assert s.appends[c := key] - {c} == s.appends;
  }

  /**
   Parse, route and handle one request against the shared cell and the cap files. Whatever state
   `s` of the transition system the call starts from, it ends in the state that the undisturbed
   steps of connection `conn` lead to.
   */
  method HandleFrame(raw: string, cell: CredCell, caps: CapFiles, listing: seq<string>, deletable: string -> bool,
                     addKey: string -> Result<()>, libs: Libs, ghost s: State, ghost conn: nat)
    returns (outcome: HttpOutcome, appended: Option<string>)
    requires s.ram == cell.Snapshot() && s.dir == caps.files && conn !in s.scrubs && conn !in s.appends
    modifies cell, caps
    ensures Run(s, FrameEvents(conn, raw, s.dir, listing, deletable, addKey, libs), libs)
            == s.(ram := cell.Snapshot(), dir := caps.files, keys := KeysAfter(s.keys, appended, addKey))
    ensures outcome == Answer(s.dir, raw, addKey, libs)
    ensures match Route(s.dir, raw, libs)
            case Reject(_) => appended == None
            case Append(key) => appended == Some(key)
  {
    hide Parse, Removed, NamesOf, DecideAddKey, ReadAuthkeysCap, FrameEvents, KeysAfter, Run;
    if IsScrubPost(raw) {
      ScrubIsRun(s, conn, raw, listing, deletable, addKey, libs);
    } else {
      var append := match Route(s.dir, raw, libs) case Reject(_) => None case Append(key) => Some(key);
      RequestIsRun(s, conn, raw, listing, deletable, addKey, append, libs);
    }
    assert KeysAfter(s.keys, None, addKey) == s.keys by { NothingAppended(s.keys, addKey); }
    var req := ParseRequest(raw);
    if req.None? {
      return HttpOutcome(400, "malformed request"), None;
    }
    if req.value.path == PRE_SNAPSHOT_SCRUB_PATH {
      outcome := HandleScrub(cell, caps, req.value, listing, deletable);
      return outcome, None;
    }
    var held := ReadAuthkeysCap(caps.files);
    outcome, appended := HandleAddKey(held, req.value, libs.body, addKey);
  }

  lemma NothingAppended(keys: string, addKey: string -> Result<()>)
    ensures KeysAfter(keys, None, addKey) == keys
  {
  }

  /** `handle_conn`: a read that is aborted or never ends is not answered and takes no step. */
  method HandleConn(peer: Reads, late: Timer, cell: CredCell, caps: CapFiles, listing: seq<string>,
                    deletable: string -> bool, addKey: string -> Result<()>, libs: Libs,
                    ghost s: State, ghost conn: nat)
    returns (response: Option<string>, outcome: HttpOutcome, appended: Option<string>)
    requires s.ram == cell.Snapshot() && s.dir == caps.files && conn !in s.scrubs && conn !in s.appends
    modifies cell, caps
    ensures var r := ReadFrom(peer, late, 0, "");
            var after := s.(ram := cell.Snapshot(), dir := caps.files, keys := KeysAfter(s.keys, appended, addKey));
            match r
            case Aborted(_) | Waiting(_) => response == None && appended == None && after == s
            case Complete(buf, _, _) =>
              && response == Some(RenderResponse(outcome))
              && after == Run(s, FrameEvents(conn, buf, s.dir, listing, deletable, addKey, libs), libs)
              && outcome == Answer(s.dir, buf, addKey, libs)
              && match Route(s.dir, buf, libs)
                 case Reject(_) => appended == None
                 case Append(key) => appended == Some(key)
  {
    hide IsScrubPost, Route, Answer, ReadFrom, RenderResponse, Removed, FrameEvents, Run;
    var r := ReadRequest(peer, late);
    if !r.Complete? { return None, HttpOutcome(0, ""), None; }
    outcome, appended := HandleFrame(r.buf, cell, caps, listing, deletable, addKey, libs, s, conn);
    response := Some(RenderResponse(outcome));
  }

  // ----- what the broker is there for: serving credentials

  /** `dir` has a readable file `name` whose trimmed, non-empty content is `text`. */
  ghost predicate HoldsText(dir: Dir, name: string, text: string) {
    name in dir && dir[name].Some? && Trim(dir[name].value) == text && text != ""
  }

  lemma HoldsTextIsNonBlank(dir: Dir, name: string)
    ensures forall text :: HoldsText(dir, name, text) <==> NonBlank(dir, name) == Some(text)
  {
    hide Trim;
  }

  /** The admin file in either form reaches the operations that need it. */
  lemma AdminFileIsServed(dir: Dir, missed: set<string>, keys: string, libs: Libs, text: string)
    requires HoldsText(dir, "forge-admin.token", text)
    ensures var creds := Boot(dir, missed, keys, libs).ram;
            match libs.owner(text)
            case Some(owner) =>
              ForgeContext(true, creds) == Ok(owner) && ProvisionToken(true, creds) == Ok(owner.adminToken)
            case None =>
              && ForgeContext(true, creds).Err? && ForgeContext(true, creds).error.code == NeedsCredential
              && ProvisionToken(true, creds) == Ok(text)
  {
    HoldsTextIsNonBlank(dir, FORGE_ADMIN_FILE);
    hide NonBlank, LoadedCaps, Trim;
  }

  /** Without it, or with a blank one, they are refused. */
  lemma NoAdminFileIsRefused(dir: Dir, missed: set<string>, keys: string, libs: Libs, configured: bool)
    requires forall text :: !HoldsText(dir, "forge-admin.token", text)
    ensures var creds := Boot(dir, missed, keys, libs).ram;
            && ForgeContext(configured, creds).Err? && ForgeContext(configured, creds).error.code == NeedsCredential
            && ProvisionToken(configured, creds).Err? && ProvisionToken(configured, creds).error.code == NeedsCredential
  {
    HoldsTextIsNonBlank(dir, FORGE_ADMIN_FILE);
    hide NonBlank, LoadedCaps, Trim;
  }

  /** Neither a restart nor a scrub through either listener. */
  ghost predicate Undisturbed(e: Event) {
    match e
    case Restart(_) | SocketScrub => false
    case Frame(_, raw) => !IsScrubPost(raw)
    case _ => true
  }

  lemma UndisturbedStep(s: State, e: Event, libs: Libs)
    requires Undisturbed(e)
    ensures Next(s, e, libs).ram == s.ram
    ensures forall op :: op in s.ops && e != EndOp(op) ==>
              op in Next(s, e, libs).ops && Next(s, e, libs).ops[op] in {s.ops[op], s.ram}
  {
    hide IsScrubPost, Route, AddTo, CredFiles;
  }

  /** Undisturbed, the cell keeps what it holds, and so does an operation that has its clone. */
  lemma {:induction false} UndisturbedRun(s: State, es: seq<Event>, libs: Libs)
    requires forall e :: e in es ==> Undisturbed(e)
    ensures Run(s, es, libs).ram == s.ram
    ensures forall op :: op in s.ops && s.ops[op] == s.ram && EndOp(op) !in es ==>
              op in Run(s, es, libs).ops && Run(s, es, libs).ops[op] == s.ram
    decreases |es|
  {
    if es != [] {
      assert Undisturbed(es[0]);
      UndisturbedStep(s, es[0], libs);
      hide Next, Undisturbed;
      UndisturbedRun(Next(s, es[0], libs), es[1..], libs);
      assert es == [es[0]] + es[1..];
    }
  }

  /** Every operation begun in an undisturbed run and not ended holds what the cell held at its start. */
  lemma BegunOpHoldsCell(s: State, before: seq<Event>, op: nat, after: seq<Event>, libs: Libs)
    requires forall e :: e in before + after ==> Undisturbed(e)
    requires EndOp(op) !in after
    ensures var t := Run(s, before + ([BeginOp(op)] + after), libs);
            t.ram == s.ram && op in t.ops && t.ops[op] == s.ram
  {
    assert forall e :: e in before ==> e in before + after;
    assert forall e :: e in after ==> e in before + after;
    var mid := Run(s, before, libs);
    var begun := Next(mid, BeginOp(op), libs);
    assert begun == mid.(ops := mid.ops[op := mid.ram]);
    hide *;
    UndisturbedRun(s, before, libs);
    RunAround(s, before, BeginOp(op), after, libs);
    UndisturbedRun(begun, after, libs);
  }

  /**
   What a start reads from `<repo>.url` is what git gets: for every operation on that repo begun in
   an undisturbed run from that start and not yet ended.
   */
  lemma StoredUrlIsServed(dir: Dir, missed: set<string>, keys: string, libs: Libs, text: string,
                          before: seq<Event>, op: nat, after: seq<Event>,
                          root: string, req: GitOpReq, git: Command -> GitRun, headSha: string -> Option<string>)
    requires PlainName(req.repo) && HoldsText(dir, req.repo + ".url", text) && req.repo + ".url" !in missed
    requires (forall e :: e in before + after ==> Undisturbed(e)) && EndOp(op) !in after
    ensures var t := Run(Boot(dir, missed, keys, libs), before + ([BeginOp(op)] + after), libs);
            && op in t.ops
            && var started := RunGitOp(t.ops[op], root, req, git, headSha).1;
               |started| == 1 && |started[0].args| >= 2 && LessSlashes(text, started[0].args[1])
  {
    var s := Boot(dir, missed, keys, libs);
    BegunOpHoldsCell(s, before, op, after, libs);
    LoadedUrlIsText(dir, missed, req.repo, text, libs);
    hide Run, Undisturbed, Loaded, RunGitOp, PlainName, HoldsText, WorksIn;
    PlainNamesRunGit(s.ram, root, req, git, headSha);
  }

  lemma LoadedUrlIsText(dir: Dir, missed: set<string>, repo: string, text: string, libs: Libs)
    requires HoldsText(dir, repo + ".url", text) && repo + ".url" !in missed
    ensures var caps := Loaded(dir, dir.Keys - missed, libs.owner).gitCaps;
            repo in caps && caps[repo] == text
  {
    HoldsTextIsNonBlank(dir, repo + URL_SUFFIX);
    UrlReposMember(dir, dir.Keys - missed, repo);
    hide Trim, UrlRepos, LoadedAdmin;
  }

  /** The event neither writes nor unlinks the file. */
  ghost predicate Spares(e: Event, name: string) {
    match e
    case SupervisorWrite(other, _) => other != name
    case ScrubRemove(_, other, _) => other != name
    case _ => true
  }

  lemma {:induction false} FileStays(s: State, es: seq<Event>, name: string, libs: Libs)
    requires name in s.dir && forall e :: e in es ==> Spares(e, name)
    ensures name in Run(s, es, libs).dir && Run(s, es, libs).dir[name] == s.dir[name]
    decreases |es|
  {
    if es != [] {
      assert Spares(es[0], name);
      SparedStep(s, es[0], name, libs);
      hide Next, Spares;
      FileStays(Next(s, es[0], libs), es[1..], name, libs);
    }
  }

  lemma SparedStep(s: State, e: Event, name: string, libs: Libs)
    requires name in s.dir && Spares(e, name)
    ensures name in Next(s, e, libs).dir && Next(s, e, libs).dir[name] == s.dir[name]
  {
    hide IsScrubPost, Route, AddTo, CredFiles, Loaded;
  }

  lemma WrittenIsHeld(s: State, name: string, raw: string, quiet: seq<Event>, libs: Libs)
    requires Trim(raw) != "" && forall e :: e in quiet ==> Spares(e, name)
    ensures HoldsText(Run(s, [SupervisorWrite(name, Some(raw))] + quiet, libs).dir, name, Trim(raw))
  {
    var write := SupervisorWrite(name, Some(raw));
    hide Trim, Run, Spares;
    RunAppend(s, [write], quiet, libs);
    RunOne(s, write, libs);
    FileStays(Next(s, write, libs), quiet, name, libs);
  }

  lemma RestartBoots(s: State, missed: set<string>, es: seq<Event>, libs: Libs)
    ensures Run(s, [Restart(missed)] + es, libs) == Run(Boot(s.dir, missed, s.keys, libs), es, libs)
  {
    hide Run, Boot;
    RunAppend(s, [Restart(missed)], es, libs);
    RunOne(s, Restart(missed), libs);
  }

  /**
   From the supervisor's pen to git: a cap-URL written by the supervisor and left in place until a
   restart is the remote of every operation on that repo begun undisturbed after the restart.
   */
  lemma WrittenUrlIsServed(s: State, raw: string, quiet: seq<Event>, missed: set<string>,
                           before: seq<Event>, op: nat, after: seq<Event>, libs: Libs,
                           root: string, req: GitOpReq, git: Command -> GitRun, headSha: string -> Option<string>)
    requires PlainName(req.repo) && Trim(raw) != "" && req.repo + ".url" !in missed
    requires forall e :: e in quiet ==> Spares(e, req.repo + ".url")
    requires (forall e :: e in before + after ==> Undisturbed(e)) && EndOp(op) !in after
    ensures var written := Run(s, [SupervisorWrite(req.repo + ".url", Some(raw))] + quiet, libs);
            var t := Run(written, [Restart(missed)] + (before + ([BeginOp(op)] + after)), libs);
            && op in t.ops
            && var started := RunGitOp(t.ops[op], root, req, git, headSha).1;
               |started| == 1 && |started[0].args| >= 2 && LessSlashes(Trim(raw), started[0].args[1])
  {
    var name := req.repo + ".url";
    var write := SupervisorWrite(name, Some(raw));
    var w := Run(s, [write] + quiet, libs);
    var rest := before + ([BeginOp(op)] + after);
    WrittenIsHeld(s, name, raw, quiet, libs);
    RestartBoots(w, missed, rest, libs);
    hide *;
    StoredUrlIsServed(w.dir, missed, w.keys, libs, Trim(raw), before, op, after, root, req, git, headSha);
  }

  // ----- what the broker is there for: adding keys

  lemma KeysStep(s: State, e: Event, libs: Libs)
    requires NewlineTerminated(s.keys)
    ensures var t := Next(s, e, libs);
            && NewlineTerminated(t.keys) && KeysIn(s.keys) <= KeysIn(t.keys)
            && forall i :: |KeysIn(s.keys)| <= i < |KeysIn(t.keys)| ==> KeyLine(KeysIn(t.keys)[i])
  {
    hide IsScrubPost, Route, AddTo, CredFiles, Loaded, KeysIn, KeyLine, NewlineTerminated;
    match e
    case SocketAddKey(pubkey) => AddKeepsKeys(s.keys, pubkey);
    case AppendKey(conn, ok) => if conn in s.appends { AddKeepsKeys(s.keys, s.appends[conn]); }
    case _ =>
  }

  lemma AddKeepsKeys(content: string, pubkey: string)
    requires NewlineTerminated(content)
    ensures var next := AddTo(content, pubkey).1;
            && NewlineTerminated(next) && KeysIn(content) <= KeysIn(next)
            && (forall i :: |KeysIn(content)| <= i < |KeysIn(next)| ==> KeyLine(KeysIn(next)[i]))
            && (KeyLine(Trim(pubkey)) ==> Trim(pubkey) in KeysIn(next))
  {
    var requests := [pubkey];
    assert requests[1..] == [] && RunAdds(content, requests) == AddTo(content, pubkey).1 by {
      hide AddTo;
      assert RunAdds(AddTo(content, pubkey).1, []) == AddTo(content, pubkey).1;
    }
    hide KeysIn, KeyLine, Trim, AddTo, RunAdds;
    FileIsInitialPlusAccepted(content, requests);
    RunAddsKeyLinesExactly(content, requests);
    assert Trim(requests[0]) == Trim(pubkey);
  }

  /** On every interleaving no key is lost, and what is added are key lines. */
  lemma {:induction false} KeysOnlyGrow(s: State, es: seq<Event>, libs: Libs)
    requires NewlineTerminated(s.keys)
    ensures var t := Run(s, es, libs);
            && NewlineTerminated(t.keys) && KeysIn(s.keys) <= KeysIn(t.keys)
            && forall i :: |KeysIn(s.keys)| <= i < |KeysIn(t.keys)| ==> KeyLine(KeysIn(t.keys)[i])
    decreases |es|
  {
    if es != [] {
      KeysStep(s, es[0], libs);
      hide Next, KeysIn, KeyLine, NewlineTerminated;
      KeysOnlyGrow(Next(s, es[0], libs), es[1..], libs);
    }
  }

  lemma SocketStep(s: State, pubkey: string, libs: Libs)
    requires NewlineTerminated(s.keys) && KeyLine(Trim(pubkey))
    ensures var t := Next(s, SocketAddKey(pubkey), libs);
            NewlineTerminated(t.keys) && Trim(pubkey) in KeysIn(t.keys)
  {
    hide KeysIn, AddTo, KeyLine, Trim, NewlineTerminated;
    AddKeepsKeys(s.keys, pubkey);
  }

  /** A key added through the socket is in the file from then on. */
  lemma SocketKeyIsAdded(s: State, before: seq<Event>, pubkey: string, after: seq<Event>, libs: Libs)
    requires NewlineTerminated(s.keys) && KeyLine(Trim(pubkey))
    ensures Trim(pubkey) in KeysIn(Run(s, before + ([SocketAddKey(pubkey)] + after), libs).keys)
  {
    hide *;
    KeysOnlyGrow(s, before, libs);
    var mid := Run(s, before, libs);
    SocketStep(mid, pubkey, libs);
    RunAround(s, before, SocketAddKey(pubkey), after, libs);
    KeysOnlyGrow(Next(mid, SocketAddKey(pubkey), libs), after, libs);
  }

  /** A well-formed POST to the add-key route. */
  ghost predicate AddKeyRequest(r: Request) {
    r.WellFormed() && r.httpMethod == "POST" && r.path == "/v1/authorized-keys"
  }

  lemma AddKeyRequestParses(r: Request)
    requires AddKeyRequest(r)
    ensures Parse(r.Render())
            == Some(ParsedRequest("POST", AUTH_KEYS_PATH, CarriedAuthorization(r.headers), r.body))
    ensures !IsScrubPost(r.Render())
  {
    ParseInvertsRender(r);
    assert |PRE_SNAPSHOT_SCRUB_PATH| != |AUTH_KEYS_PATH|;
    hide Parse, CarriedAuthorization;
  }

  /** The cap in the file accepts the token. */
  ghost predicate CapAccepts(dir: Dir, token: string) {
    exists held :: HoldsText(dir, "authkeys.cap", held) && Accepts(held, Trim(token))
  }

  lemma FrameIsAuthorizedExactly(dir: Dir, r: Request, b: Bearer)
    requires AddKeyRequest(r) && b.In(r)
    ensures Authorized(ReadAuthkeysCap(dir), CarriedAuthorization(r.headers)) <==> CapAccepts(dir, b.token)
  {
    HoldsTextIsNonBlank(dir, AUTHKEYS_CAP_FILE);
    ParseInvertsRender(r);
    var held := ReadAuthkeysCap(dir);
    hide NonBlank, Parse, Authorized, Accepts, CarriedAuthorization, HoldsText, Trim;
    if held.Some? {
      assert HoldsText(dir, "authkeys.cap", held.value);
      HeldIsNotEmpty(dir, held.value);
      FrameAuthorizedExactly(r, b, held.value);
      assert held == Some(held.value);
    } else {
      NothingHeldAuthorizes(CarriedAuthorization(r.headers));
    }
  }

  lemma HeldIsNotEmpty(dir: Dir, held: string)
    requires HoldsText(dir, "authkeys.cap", held)
    ensures held != ""
  {
  }

  lemma NothingHeldAuthorizes(authorization: Option<string>)
    ensures !Authorized(None, authorization)
  {
    hide BearerToken;
  }

  /**
   The purpose of the endpoint, from frame text to key file: an accepted token and a named key make
   the append run with that very key, and the client hears how it went.
   */
  lemma AuthorizedKeyIsAppended(s: State, c: nat, r: Request, b: Bearer, key: string, listing: seq<string>,
                                deletable: string -> bool, addKey: string -> Result<()>, libs: Libs)
    requires AddKeyRequest(r) && b.In(r) && CapAccepts(s.dir, b.token)
    requires GivesKey(libs.body(Trim(r.body)), key) && c !in s.appends
    ensures var t := Run(s, FrameEvents(c, r.Render(), s.dir, listing, deletable, addKey, libs), libs);
            var answer := Answer(s.dir, r.Render(), addKey, libs);
            match addKey(key)
            case Ok(_) =>
              && answer == HttpOutcome(200, "ok") && t == s.(keys := AddTo(s.keys, key).1)
              && (NewlineTerminated(s.keys) && KeyLine(Trim(key)) ==> Trim(key) in KeysIn(t.keys))
            case Err(e) => answer == HttpOutcome(if e.code == Invalid then 400 else 500, e.message) && t == s
  {
    AddKeyRequestParses(r);
    FrameIsAuthorizedExactly(s.dir, r, b);
    RouteAppends(s.dir, r, key, libs);
    RequestIsRun(s, c, r.Render(), listing, deletable, addKey, Some(key), libs);
    if NewlineTerminated(s.keys) { AddKeepsKeys(s.keys, key); }
    hide Run, FrameEvents, Route, AddTo, KeysIn, KeyLine, Trim, NewlineTerminated, Parse;
  }

  lemma RouteDecides(dir: Dir, r: Request, libs: Libs)
    requires AddKeyRequest(r)
    ensures var req := ParsedRequest("POST", AUTH_KEYS_PATH, CarriedAuthorization(r.headers), r.body);
            Route(dir, r.Render(), libs) == DecideAddKey(ReadAuthkeysCap(dir), req, libs.body)
  {
    AddKeyRequestParses(r);
    assert |PRE_SNAPSHOT_SCRUB_PATH| != |AUTH_KEYS_PATH|;
    hide Parse, DecideAddKey, ReadAuthkeysCap, CarriedAuthorization;
  }

  lemma RouteAppends(dir: Dir, r: Request, key: string, libs: Libs)
    requires AddKeyRequest(r) && Authorized(ReadAuthkeysCap(dir), CarriedAuthorization(r.headers))
    requires GivesKey(libs.body(Trim(r.body)), key)
    ensures Route(dir, r.Render(), libs) == Append(key)
  {
    RouteDecides(dir, r, libs);
    var req := ParsedRequest("POST", AUTH_KEYS_PATH, CarriedAuthorization(r.headers), r.body);
    hide *;
    AuthorizedDecision(ReadAuthkeysCap(dir), req, libs.body);
  }

  /** Neither a restart nor the connection's own next step. */
  ghost predicate LeavesPending(e: Event, c: nat) {
    match e
    case Restart(_) => false
    case Frame(conn, _) => conn != c
    case AppendKey(conn, _) => conn != c
    case _ => true
  }

  lemma PendingStep(s: State, e: Event, c: nat, libs: Libs)
    requires c in s.appends && LeavesPending(e, c)
    ensures c in Next(s, e, libs).appends && Next(s, e, libs).appends[c] == s.appends[c]
  {
    hide IsScrubPost, Route, AddTo, CredFiles, Loaded;
  }

  lemma {:induction false} PendingStays(s: State, es: seq<Event>, c: nat, libs: Libs)
    requires c in s.appends && forall e :: e in es ==> LeavesPending(e, c)
    ensures c in Run(s, es, libs).appends && Run(s, es, libs).appends[c] == s.appends[c]
    decreases |es|
  {
    if es != [] {
      assert LeavesPending(es[0], c);
      PendingStep(s, es[0], c, libs);
      hide Next, LeavesPending;
      PendingStays(Next(s, es[0], libs), es[1..], c, libs);
    }
  }

  lemma AppendStep(s: State, c: nat, key: string, libs: Libs)
    requires c in s.appends && s.appends[c] == key && NewlineTerminated(s.keys) && KeyLine(Trim(key))
    ensures var t := Next(s, AppendKey(c, true), libs);
            NewlineTerminated(t.keys) && Trim(key) in KeysIn(t.keys)
  {
    hide KeysIn, AddTo, KeyLine, Trim, NewlineTerminated;
    AddKeepsKeys(s.keys, key);
  }

  lemma FrameStep(s: State, c: nat, raw: string, key: string, libs: Libs)
    requires !IsScrubPost(raw) && Route(s.dir, raw, libs) == Append(key)
    ensures Next(s, Frame(c, raw), libs) == s.(appends := s.appends[c := key])
  {
    hide IsScrubPost, Route;
  }

  lemma AuthorizedFrameIsPending(s: State, c: nat, r: Request, b: Bearer, key: string, libs: Libs)
    requires AddKeyRequest(r) && b.In(r) && CapAccepts(s.dir, b.token) && GivesKey(libs.body(Trim(r.body)), key)
    ensures Next(s, Frame(c, r.Render()), libs) == s.(appends := s.appends[c := key])
  {
    hide *;
    AddKeyRequestParses(r);
    FrameIsAuthorizedExactly(s.dir, r, b);
    RouteAppends(s.dir, r, key, libs);
    FrameStep(s, c, r.Render(), key, libs);
  }

  /**
   On every interleaving: once the request is decided on, and whatever both listeners do before and
   after the append, scrubs and cap rotations included, the key ends up in the file and stays there.
   */
  lemma AuthorizedKeyReachesFile(s: State, c: nat, r: Request, b: Bearer, key: string,
                                 before: seq<Event>, after: seq<Event>, libs: Libs)
    requires AddKeyRequest(r) && b.In(r) && CapAccepts(s.dir, b.token) && GivesKey(libs.body(Trim(r.body)), key)
    requires NewlineTerminated(s.keys) && KeyLine(Trim(key)) && forall e :: e in before ==> LeavesPending(e, c)
    ensures var es := before + ([AppendKey(c, true)] + after);
            Trim(key) in KeysIn(Run(s, [Frame(c, r.Render())] + es, libs).keys)
  {
    var decided := Next(s, Frame(c, r.Render()), libs);
    var mid := Run(decided, before, libs);
    hide *;
    AuthorizedFrameIsPending(s, c, r, b, key, libs);
    assert decided.appends[c] == key && decided.keys == s.keys;
    RunAppend(s, [Frame(c, r.Render())], before + ([AppendKey(c, true)] + after), libs);
    RunOne(s, Frame(c, r.Render()), libs);
    KeysOnlyGrow(decided, before, libs);
    PendingStays(decided, before, c, libs);
    AppendStep(mid, c, key, libs);
    RunAround(decided, before, AppendKey(c, true), after, libs);
    KeysOnlyGrow(Next(mid, AppendKey(c, true), libs), after, libs);
  }

  /** A rejected frame leaves everything as it was. */
  lemma RejectedChangesNothing(s: State, c: nat, raw: string, listing: seq<string>, deletable: string -> bool,
                               addKey: string -> Result<()>, libs: Libs)
    requires !IsScrubPost(raw) && Route(s.dir, raw, libs).Reject?
    ensures Run(s, FrameEvents(c, raw, s.dir, listing, deletable, addKey, libs), libs) == s
  {
    hide IsScrubPost, Route, Run;
    RunOne(s, Frame(c, raw), libs);
  }

  /** With an accepted token but no key named in the body: 400, and nothing changes. */
  lemma BodyWithoutKeyIs400(s: State, c: nat, r: Request, b: Bearer, listing: seq<string>,
                            deletable: string -> bool, addKey: string -> Result<()>, libs: Libs)
    requires AddKeyRequest(r) && b.In(r) && CapAccepts(s.dir, b.token)
    requires forall key :: !GivesKey(libs.body(Trim(r.body)), key)
    ensures Answer(s.dir, r.Render(), addKey, libs)
            == HttpOutcome(400, if libs.body(Trim(r.body)).BadJson? then "bad json body" else "missing public_key")
    ensures Run(s, FrameEvents(c, r.Render(), s.dir, listing, deletable, addKey, libs), libs) == s
  {
    AddKeyRequestParses(r);
    FrameIsAuthorizedExactly(s.dir, r, b);
    RouteDecides(s.dir, r, libs);
    var req := ParsedRequest("POST", AUTH_KEYS_PATH, CarriedAuthorization(r.headers), r.body);
    AuthorizedDecision(ReadAuthkeysCap(s.dir), req, libs.body);
    hide Parse, Authorized, ReadAuthkeysCap, Trim, CarriedAuthorization, Run, FrameEvents, IsScrubPost, CapAccepts,
         DecideAddKey, Route, GivesKey;
    RejectedChangesNothing(s, c, r.Render(), listing, deletable, addKey, libs);
  }

  /** With any other token: 401, and nothing changes. */
  lemma OtherTokensAre401(s: State, c: nat, r: Request, b: Bearer, listing: seq<string>,
                          deletable: string -> bool, addKey: string -> Result<()>, libs: Libs)
    requires AddKeyRequest(r) && b.In(r) && !CapAccepts(s.dir, b.token)
    ensures Answer(s.dir, r.Render(), addKey, libs) == HttpOutcome(401, "unauthorized")
    ensures Run(s, FrameEvents(c, r.Render(), s.dir, listing, deletable, addKey, libs), libs) == s
  {
    FrameIsAuthorizedExactly(s.dir, r, b);
    UnauthorizedIs401(s, c, r, listing, deletable, addKey, libs);
  }

  lemma UnauthorizedIs401(s: State, c: nat, r: Request, listing: seq<string>,
                          deletable: string -> bool, addKey: string -> Result<()>, libs: Libs)
    requires AddKeyRequest(r) && !Authorized(ReadAuthkeysCap(s.dir), CarriedAuthorization(r.headers))
    ensures Answer(s.dir, r.Render(), addKey, libs) == HttpOutcome(401, "unauthorized")
    ensures Run(s, FrameEvents(c, r.Render(), s.dir, listing, deletable, addKey, libs), libs) == s
  {
    AddKeyRequestParses(r);
    RouteDecides(s.dir, r, libs);
    var req := ParsedRequest("POST", AUTH_KEYS_PATH, CarriedAuthorization(r.headers), r.body);
    UnauthorizedDecision(ReadAuthkeysCap(s.dir), req, libs.body);
    hide Parse, Authorized, ReadAuthkeysCap, CarriedAuthorization, Run, FrameEvents, IsScrubPost, DecideAddKey, Route;
    RejectedChangesNothing(s, c, r.Render(), listing, deletable, addKey, libs);
  }

  /** Without an Authorization header likewise. */
  lemma AnonymousIs401(s: State, c: nat, r: Request, listing: seq<string>,
                       deletable: string -> bool, addKey: string -> Result<()>, libs: Libs)
    requires AddKeyRequest(r) && forall h :: h in r.headers ==> !EqIgnoreCase(Trim(h.name), "authorization")
    ensures Answer(s.dir, r.Render(), addKey, libs) == HttpOutcome(401, "unauthorized")
    ensures Run(s, FrameEvents(c, r.Render(), s.dir, listing, deletable, addKey, libs), libs) == s
  {
    NothingCarried(r.headers);
    assert !Authorized(ReadAuthkeysCap(s.dir), None);
    UnauthorizedIs401(s, c, r, listing, deletable, addKey, libs);
  }

  lemma {:induction false} NothingCarried(hs: seq<Header>)
    requires forall h :: h in hs ==> !EqIgnoreCase(Trim(h.name), "authorization")
    ensures CarriedAuthorization(hs) == None
  {
    hide EqIgnoreCase, Trim;
    if hs != [] {
      assert hs[|hs| - 1] in hs;
      NothingCarried(hs[..|hs| - 1]);
    }
  }

  /** Every other route, for any well-formed request: the status, and who may change anything. */
  lemma OtherRoutes(s: State, c: nat, r: Request, listing: seq<string>,
                    deletable: string -> bool, addKey: string -> Result<()>, libs: Libs)
    requires r.WellFormed() && !AddKeyRequest(r)
    ensures Answer(s.dir, r.Render(), addKey, libs)
            == if r.path == "/v1/pre-snapshot-scrub" && r.httpMethod == "POST" then HttpOutcome(200, "ok")
               else if r.path == "/v1/pre-snapshot-scrub" || r.path == "/v1/authorized-keys"
               then HttpOutcome(405, "method not allowed")
               else HttpOutcome(404, "not found")
    ensures IsScrubPost(r.Render()) <==> r.path == "/v1/pre-snapshot-scrub" && r.httpMethod == "POST"
    ensures !IsScrubPost(r.Render()) ==>
              Run(s, FrameEvents(c, r.Render(), s.dir, listing, deletable, addKey, libs), libs) == s
  {
    ParseInvertsRender(r);
    assert |PRE_SNAPSHOT_SCRUB_PATH| != |AUTH_KEYS_PATH|;
    hide Parse, Authorized, ReadAuthkeysCap, Trim, CarriedAuthorization, Run, FrameEvents;
    if !IsScrubPost(r.Render()) { RejectedChangesNothing(s, c, r.Render(), listing, deletable, addKey, libs); }
  }

  /** A frame whose first line has fewer than two words: 400, and nothing changes. */
  lemma MalformedIs400(s: State, c: nat, raw: string, listing: seq<string>,
                       deletable: string -> bool, addKey: string -> Result<()>, libs: Libs)
    requires |Words(FirstLine(SplitHead(raw).0))| < 2
    ensures Answer(s.dir, raw, addKey, libs) == HttpOutcome(400, "malformed request")
    ensures Run(s, FrameEvents(c, raw, s.dir, listing, deletable, addKey, libs), libs) == s
  {
    ParseFailsExactly(raw);
    hide Parse, Run, FrameEvents;
    RejectedChangesNothing(s, c, raw, listing, deletable, addKey, libs);
  }
}
