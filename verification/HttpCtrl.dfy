/**
 The handlers of `src/http_ctrl.rs`: bearer authorization, the add-key decision and the response
 printer. The JSON reader and the privileged append are parameters.
 */
module HttpCtrl {
  import opened Types
  import opened Text
  import opened CapsDir
  import opened ConstantTime
  import opened Creds
  import opened HttpConn
  import opened HttpFrame

  const AUTH_KEYS_PATH := "/v1/authorized-keys"
  const PRE_SNAPSHOT_SCRUB_PATH := "/v1/pre-snapshot-scrub"

  datatype HttpOutcome = HttpOutcome(status: nat, body: string)

  // ----- the add-key handler

  /** A JSON body reduced to the two members the handler looks at. */
  datatype JsonValue = Str(text: string) | OtherValue
  datatype JsonBody = BadJson | Members(publicKey: Option<JsonValue>, pubkey: Option<JsonValue>)

  /** `public_key` shadows `pubkey` even when it is not a string. */
  function KeyOf(body: JsonBody): string
    requires body.Members?
  {
    match if body.publicKey.Some? then body.publicKey else body.pubkey
    case Some(Str(text)) => text
    case _ => ""
  }

  ghost predicate Authorized(held: Option<string>, authorization: Option<string>) {
    var token := BearerToken(authorization);
    held.Some? && token.Some? && SameToken(held.value, token.value)
  }

  /** What the handler settles on before the privileged append runs. */
  datatype Decision = Reject(outcome: HttpOutcome) | Append(key: string)

  ghost function DecideAddKey(held: Option<string>, req: ParsedRequest, json: string -> JsonBody): Decision {
    if req.path != AUTH_KEYS_PATH then Reject(HttpOutcome(404, "not found"))
    else if req.httpMethod != "POST" then Reject(HttpOutcome(405, "method not allowed"))
    else if !Authorized(held, req.authorization) then Reject(HttpOutcome(401, "unauthorized"))
    else
      match json(Trim(req.body))
      case BadJson => Reject(HttpOutcome(400, "bad json body"))
      case Members(_, _) =>
        var key := KeyOf(json(Trim(req.body)));
        if key == "" then Reject(HttpOutcome(400, "missing public_key")) else Append(key)
  }

  /** The body names a key: `public_key`, or `pubkey` in its absence, as a non-empty string. */
  predicate GivesKey(json: JsonBody, key: string) {
    && json.Members? && key != ""
    && (json.publicKey == Some(Str(key)) || (json.publicKey == None && json.pubkey == Some(Str(key))))
  }

  lemma AuthorizedDecision(held: Option<string>, req: ParsedRequest, json: string -> JsonBody)
    requires req.path == AUTH_KEYS_PATH && req.httpMethod == "POST" && Authorized(held, req.authorization)
    ensures forall key :: GivesKey(json(Trim(req.body)), key) ==> DecideAddKey(held, req, json) == Append(key)
    ensures (forall key :: !GivesKey(json(Trim(req.body)), key)) ==>
              DecideAddKey(held, req, json)
              == Reject(HttpOutcome(400, if json(Trim(req.body)).BadJson? then "bad json body" else "missing public_key"))
    ensures DecideAddKey(held, req, json) != Reject(HttpOutcome(401, "unauthorized"))
  {
    hide Authorized, Trim;
    var body := json(Trim(req.body));
    if body.Members? { assert KeyOf(body) != "" ==> GivesKey(body, KeyOf(body)); }
  }

  lemma UnauthorizedDecision(held: Option<string>, req: ParsedRequest, json: string -> JsonBody)
    requires req.path == AUTH_KEYS_PATH && req.httpMethod == "POST" && !Authorized(held, req.authorization)
    ensures DecideAddKey(held, req, json) == Reject(HttpOutcome(401, "unauthorized"))
  {
    hide Authorized, Trim;
  }

  function AppendOutcome(r: Result<()>): HttpOutcome {
    match r
    case Ok(_) => HttpOutcome(200, "ok")
    case Err(e) => HttpOutcome(if e.code == Invalid then 400 else 500, e.message)
  }

  /** `appended` records whether, and with which key, the privileged operation was called. */
  method HandleAddKey(held: Option<string>, req: ParsedRequest, json: string -> JsonBody,
                      addKey: string -> Result<()>)
    returns (outcome: HttpOutcome, appended: Option<string>)
    ensures match DecideAddKey(held, req, json)
            case Reject(o) => outcome == o && appended == None
            case Append(key) => outcome == AppendOutcome(addKey(key)) && appended == Some(key)
  {
    hide BearerToken, FoldedEqual, Trim;
    if req.path != AUTH_KEYS_PATH { return HttpOutcome(404, "not found"), None; }
    if req.httpMethod != "POST" { return HttpOutcome(405, "method not allowed"), None; }
    var presented := BearerToken(req.authorization);
    var authorized := false;
    if held.Some? && presented.Some? {
      ghost var rounds;
      authorized, rounds := ConstantTimeEq(Bytes(held.value), Bytes(presented.value));
    }
    if !authorized { return HttpOutcome(401, "unauthorized"), None; }
    var parsed := json(Trim(req.body));
    if parsed.BadJson? { return HttpOutcome(400, "bad json body"), None; }
    var key := KeyOf(parsed);
    if key == "" { return HttpOutcome(400, "missing public_key"), None; }
    var r := addKey(key);
    return AppendOutcome(r), Some(key);
  }

  // ----- the scrub handler

  function ScrubOutcome(req: ParsedRequest): HttpOutcome {
    if req.path != PRE_SNAPSHOT_SCRUB_PATH then HttpOutcome(404, "not found")
    else if req.httpMethod != "POST" then HttpOutcome(405, "method not allowed")
    else HttpOutcome(200, "ok")
  }

  /** Clears the shared cell, then the cap files; any other request leaves both alone. */
  method HandleScrub(cell: CredCell, caps: CapFiles, req: ParsedRequest,
                     listing: seq<string>, deletable: string -> bool)
    returns (outcome: HttpOutcome)
    modifies cell, caps
    ensures outcome == ScrubOutcome(req)
    ensures outcome.status == 200 ==>
              cell.Snapshot() == EMPTY
              && caps.files == old(caps.files) - Removed(old(caps.files), NamesOf(listing), deletable)
    ensures outcome.status != 200 ==> cell.Snapshot() == old(cell.Snapshot()) && caps.files == old(caps.files)
  {
    hide Removed, NamesOf;
    if req.path != PRE_SNAPSHOT_SCRUB_PATH { return HttpOutcome(404, "not found"); }
    if req.httpMethod != "POST" { return HttpOutcome(405, "method not allowed"); }
    cell.Scrub();
    var removed := caps.RemoveCredFiles(listing, deletable);
    return HttpOutcome(200, "ok");
  }

  // ----- authorization, from frame text to decision

  lemma {:induction false} CarriedAfter(front: seq<Header>, back: seq<Header>)
    ensures CarriedAuthorization(front + back)
            == if CarriedAuthorization(back).Some? then CarriedAuthorization(back) else CarriedAuthorization(front)
  {
    hide EqIgnoreCase, Trim;
    var hs := front + back;
    if back == [] {
      assert hs == front;
    } else {
      assert hs[|hs| - 1] == back[|back| - 1];
      assert hs[..|hs| - 1] == front + back[..|back| - 1];
      CarriedAfter(front, back[..|back| - 1]);
    }
  }

  lemma LastAuthorizationHeader(before: seq<Header>, h: Header, after: seq<Header>)
    requires EqIgnoreCase(Trim(h.name), "authorization")
    requires CarriedAuthorization(after) == None
    ensures CarriedAuthorization(before + [h] + after) == Some(Trim(h.value))
  {
    CarriedAfter(before + [h], after);
    CarriedAfter(before, [h]);
    assert [h][0] == h;
  }

  /** All tokens that `held` accepts: itself, and nothing but NUL paddings of it or by it. */
  ghost predicate Accepts(held: string, token: string) {
    token != "" && (PaddedTo(held, token) || PaddedTo(token, held))
  }

  /** The pair is outside that family. */
  predicate Comparable(held: string, token: string) {
    |held| == |token| || -256 < |held| - |token| < 256
    || (|held| < |token| && token[|token| - 1] != '\0') || (|token| < |held| && held[|held| - 1] != '\0')
  }

  lemma AcceptsWhenComparable(held: string, token: string)
    requires held != "" && Comparable(held, token)
    ensures Accepts(held, token) <==> held == token
  {
    FoldedEqualIsEqual(Bytes(held), Bytes(token));
    BytesInjective(held, token);
    hide FoldedEqual;
    SameTokenExactly(held, token);
  }

  lemma BearerTokenIgnoresTrim(value: string)
    ensures BearerToken(Some(Trim(value))) == BearerToken(Some(value))
  {
    hide Trim, AfterScheme;
    TrimOfTrimmed(Trim(value));
  }

  /**
   A bearer token as the last Authorization header of a request carries it: any case of header name
   and scheme, any white space around value and token, any other headers around it.
   */
  datatype Bearer = Bearer(before: seq<Header>, header: Header, after: seq<Header>,
                           w1: string, scheme: string, token: string, w2: string)
  {
    ghost predicate In(r: Request) {
      && r.headers == before + [header] + after
      && EqIgnoreCase(Trim(header.name), "authorization") && CarriedAuthorization(after) == None
      && header.value == w1 + (scheme + " " + token) + w2
      && Blank(w1) && Blank(w2) && EqIgnoreCase(scheme, "bearer")
    }
  }

  /**
   End to end from frame text, for any body. The frame is authorized exactly when the held cap
   accepts its trimmed token, which is equality for all pairs outside the NUL paddings.
   */
  lemma FrameAuthorizedExactly(r: Request, b: Bearer, held: string)
    requires r.WellFormed() && b.In(r) && held != ""
    ensures Parse(r.Render()).Some?
    ensures Authorized(Some(held), Parse(r.Render()).value.authorization) <==> Accepts(held, Trim(b.token))
    ensures Comparable(held, Trim(b.token)) ==> (Accepts(held, Trim(b.token)) <==> Trim(b.token) == held)
  {
    ParseInvertsRender(r);
    hide Parse, EqIgnoreCase, Trim, BearerToken, FoldedEqual, PaddedTo, CarriedAuthorization, Comparable;
    LastAuthorizationHeader(b.before, b.header, b.after);
    BearerTokenIgnoresTrim(b.header.value);
    BearerTokenOf(b.w1, b.scheme, b.token, b.w2);
    SameTokenExactly(held, Trim(b.token));
    if Comparable(held, Trim(b.token)) { AcceptsWhenComparable(held, Trim(b.token)); }
  }

  /**
   The same behind the read loop: on every schedule that is answered, however the frame is cut into
   reads and wherever the timer fires, only the body may be cut. Method and path are those that were
   sent, and the request is authorized exactly when the held cap accepts the trimmed token.
   */
  lemma SentFrameAuthorizedExactly(r: Request, b: Bearer, held: string, peer: Reads, late: Timer, k: nat)
    requires r.WellFormed() && b.In(r) && held != ""
    requires Sends(peer, k, r.Render()) && Answered(peer, late)
    ensures var req := Parse(ReadFrom(peer, late, 0, "").buf);
            && req.Some?
            && req.value.httpMethod == r.httpMethod && req.value.path == r.path && req.value.body <= r.body
            && (Authorized(Some(held), req.value.authorization) <==> Accepts(held, Trim(b.token)))
  {
    hide *;
    RenderedSurvivesTimers(r, peer, late, k);
    ParseInvertsRender(r);
    FrameAuthorizedExactly(r, b, held);
  }

  /** The status of an add-key POST frame says no more about the cap than that. */
  lemma AddKeyFrameIs401Exactly(r: Request, b: Bearer, held: string, json: string -> JsonBody)
    requires r.WellFormed() && b.In(r) && held != ""
    requires r.httpMethod == "POST" && r.path == AUTH_KEYS_PATH
    ensures Parse(r.Render()).Some?
    ensures DecideAddKey(Some(held), Parse(r.Render()).value, json) == Reject(HttpOutcome(401, "unauthorized"))
            <==> !Accepts(held, Trim(b.token))
  {
    ParseInvertsRender(r);
    FrameAuthorizedExactly(r, b, held);
    hide Parse, Trim, Authorized, Accepts, Comparable, DecideAddKey, CarriedAuthorization;
    var req := Parse(r.Render()).value;
    if Authorized(Some(held), req.authorization) {
      AuthorizedDecision(Some(held), req, json);
    } else {
      UnauthorizedDecision(Some(held), req, json);
    }
  }

  /** Without a held cap no frame at all reaches the append. */
  lemma NoCapNoAppend(req: ParsedRequest, json: string -> JsonBody)
    ensures DecideAddKey(None, req, json).Reject?
    ensures req.path == AUTH_KEYS_PATH && req.httpMethod == "POST"
            ==> DecideAddKey(None, req, json).outcome.status == 401
  {
  }

  // ----- the response printer

  function Digit(d: nat): char
    requires d < 10
  {
    '0' + d as char
  }

  function Decimal(n: nat): string {
    if n < 10 then [Digit(n)] else Decimal(n / 10) + [Digit(n % 10)]
  }

  function DigitValue(c: char): nat { if '0' <= c <= '9' then c as nat - '0' as nat else 0 }

  function DecimalValue(s: string): nat {
    if s == "" then 0 else 10 * DecimalValue(s[..|s| - 1]) + DigitValue(s[|s| - 1])
  }

  lemma {:induction false} DecimalIsInverted(n: nat)
    ensures Solid(Decimal(n)) && DecimalValue(Decimal(n)) == n
  {
    if n < 10 {
      assert [Digit(n)][..0] == "";
    } else {
      DecimalIsInverted(n / 10);
      var front := Decimal(n / 10);
      assert (front + [Digit(n % 10)])[..|front|] == front;
    }
  }

  function Reason(status: nat): (r: string)
    ensures PlainLine(r)
  {
    match status
    case 200 => "OK"
    case 400 => "Bad Request"
    case 401 => "Unauthorized"
    case 404 => "Not Found"
    case 405 => "Method Not Allowed"
    case _ => "Internal Server Error"
  }

  function RenderResponse(o: HttpOutcome): string {
    "HTTP/1.1" + " " + (Decimal(o.status) + " " + Reason(o.status))
    + "\r\n" + "content-type: text/plain"
    + "\r\n" + ("content-length" + ":" + (" " + Decimal(|o.body|)))
    + "\r\n" + "connection: close"
    + "\r\n\r\n" + o.body
  }

  function ResponseLines(o: HttpOutcome): seq<string> {
    [ "HTTP/1.1" + " " + (Decimal(o.status) + " " + Reason(o.status)),
      "content-type: text/plain",
      "content-length" + ":" + (" " + Decimal(|o.body|)),
      "connection: close" ]
  }

  lemma FourLines(a: string, b: string, c: string, d: string, body: string)
    ensures RenderFrame([a, b, c, d], body)
            == a + "\r\n" + b + "\r\n" + c + "\r\n" + d + "\r\n\r\n" + body
  {
    assert [a, b, c, d][1..] == [b, c, d] && [b, c, d][1..] == [c, d] && [c, d][1..] == [d];
    assert JoinCrlf([c, d]) == c + CRLF + d;
    assert JoinCrlf([b, c, d]) == b + CRLF + (c + CRLF + d);
    assert JoinCrlf([a, b, c, d]) == a + CRLF + (b + CRLF + (c + CRLF + d));
  }

  lemma DecimalIsPlain(n: nat)
    ensures '\r' !in Decimal(n) && '\n' !in Decimal(n)
  {
    DecimalIsInverted(n);
    SolidHasNoLineEnd(Decimal(n));
  }

  lemma PlainConcat(a: string, b: string)
    requires PlainLine(a) && '\r' !in b && '\n' !in b
    ensures PlainLine(a + b)
  {
  }

  lemma FixedLinesArePlain()
    ensures PlainLine("content-type: text/plain")
  {
  }

  lemma StatusLineIsPlain(status: nat)
    ensures PlainLine("HTTP/1.1" + " " + (Decimal(status) + " " + Reason(status)))
  {
    DecimalIsPlain(status);
    hide Decimal, Reason;
    PlainConcat(Decimal(status) + " ", Reason(status));
    PlainConcat("HTTP/1.1" + " ", Decimal(status) + " " + Reason(status));
  }

  lemma LengthLineIsPlain(n: nat)
    ensures PlainLine("content-length" + ":" + (" " + Decimal(n)))
  {
    DecimalIsPlain(n);
    hide Decimal;
    PlainConcat("content-length" + ":", " " + Decimal(n));
  }

  lemma ResponseLinesArePlain(o: HttpOutcome)
    ensures forall l :: l in ResponseLines(o) ==> PlainLine(l)
  {
    assert PlainLine("connection: close");
    hide PlainLine, Decimal, Reason;
    FixedLinesArePlain();
    StatusLineIsPlain(o.status);
    LengthLineIsPlain(|o.body|);
  }

  lemma StatusReadsBack(status: nat)
    ensures var words := Words("HTTP/1.1" + " " + (Decimal(status) + " " + Reason(status)));
            |words| >= 2 && DecimalValue(words[1]) == status
  {
    DecimalIsInverted(status);
    hide Decimal, Reason, Words, DecimalValue;
    WordThenSpace("HTTP/1.1", Decimal(status) + " " + Reason(status));
    WordThenSpace(Decimal(status), Reason(status));
  }

  lemma ContentLengthReadsBack(n: nat)
    ensures SplitOnce("content-length" + ":" + (" " + Decimal(n)), ":") == Some(("content-length", " " + Decimal(n)))
    ensures DecimalValue(Trim(" " + Decimal(n))) == n
  {
    DecimalIsInverted(n);
    hide Decimal, DecimalValue, SplitOnce, Trim;
    SplitOnceChar("content-length", ':', " " + Decimal(n));
    TrimIsCore(" ", Decimal(n), "");
    assert " " + Decimal(n) + "" == " " + Decimal(n);
  }

  /** The reason phrases of RFC 9110 section 15 for the statuses in use. */
  lemma ReasonIsStandard(status: nat)
    ensures status == 200 ==> Reason(status) == "OK"
    ensures status == 400 ==> Reason(status) == "Bad Request"
    ensures status == 401 ==> Reason(status) == "Unauthorized"
    ensures status == 404 ==> Reason(status) == "Not Found"
    ensures status == 405 ==> Reason(status) == "Method Not Allowed"
    ensures status == 500 ==> Reason(status) == "Internal Server Error"
  {
  }

  /**
   A client that reads the response back recovers the status, a content length that is the length
   of the body, and the body itself, whatever the body contains.
   */
  lemma ResponseReadsBack(o: HttpOutcome)
    ensures var (head, body) := SplitHead(RenderResponse(o));
            var lines := Lines(head);
            && body == o.body
            && |lines| == 4
            && lines[0] == "HTTP/1.1" + " " + (Decimal(o.status) + " " + Reason(o.status))
            && lines[1] == "content-type: text/plain" && lines[3] == "connection: close"
            && |Words(lines[0])| >= 2 && DecimalValue(Words(lines[0])[1]) == o.status
            && SplitOnce(lines[2], ":").Some?
            && SplitOnce(lines[2], ":").value.0 == "content-length"
            && DecimalValue(Trim(SplitOnce(lines[2], ":").value.1)) == |o.body|
  {
    var lines := ResponseLines(o);
    hide Decimal, DecimalValue, SplitOnce, SplitHead, Lines, Words, Trim, Reason, RenderFrame;
    FourLines(lines[0], lines[1], lines[2], lines[3], o.body);
    ResponseLinesArePlain(o);
    FrameSplits(lines, o.body);
    LinesOfJoin(lines);
    ContentLengthReadsBack(|o.body|);
    StatusReadsBack(o.status);
  }
}
