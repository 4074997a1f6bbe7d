/**
 The bounded read loop of `handle_conn` in `src/http_ctrl.rs`. The peer and the clock are a
 schedule: what each successive read returns, and whether the 50 ms timer of a nested read fires
 before the next read is ready. A peer that stays open without sending is part of it.
 */
module HttpConn {
  import opened Types
  import opened Text
  import opened HttpFrame

  const MAX_REQUEST_BYTES: nat := 16 * 1024
  const CHUNK_BYTES: nat := 1024

  /** A read that delivers bytes fills between one byte and the whole chunk buffer. */
  type Chunk = s: string | 1 <= |s| <= CHUNK_BYTES witness "x"

  /** `Silent`: nothing arrives any more, and the peer does not close. */
  datatype ReadEvent = Data(bytes: Chunk) | Eof | Failed | Silent

  datatype Exit = AtEof | AtCap | TimedOut

  /**
   How the loop ends: with a buffer, by a failed read, or not at all, waiting for a silent peer in
   the read that has no timer. `count` is the number of reads that delivered.
   */
  datatype ReadOutcome = Complete(buf: string, count: nat, why: Exit) | Aborted(count: nat) | Waiting(count: nat)

  type Reads = nat -> ReadEvent
  type Timer = nat -> bool

  function ReadFrom(peer: Reads, late: Timer, n: nat, buf: string): ReadOutcome
    requires |buf| < MAX_REQUEST_BYTES
    decreases MAX_REQUEST_BYTES - |buf|
  {
    match peer(n)
    case Failed => Aborted(n)
    case Silent => Waiting(n)
    case Eof => Complete(buf, n, AtEof)
    case Data(bytes) =>
      var buf1 := buf + bytes;
      if |buf1| >= MAX_REQUEST_BYTES then Complete(buf1, n + 1, AtCap)
      else if FindBodyBoundary(buf1).None? then ReadFrom(peer, late, n + 1, buf1)
      else if late(n + 1) then Complete(buf1, n + 1, TimedOut)
      else
        match peer(n + 1)
        case Silent => Complete(buf1, n + 1, TimedOut)
        case Failed => Aborted(n + 1)
        case Eof => Complete(buf1, n + 1, AtEof)
        case Data(more) =>
          var buf2 := buf1 + more;
          if |buf2| >= MAX_REQUEST_BYTES then Complete(buf2, n + 2, AtCap)
          else ReadFrom(peer, late, n + 2, buf2)
  }

  method ReadRequest(peer: Reads, late: Timer) returns (outcome: ReadOutcome)
    ensures outcome == ReadFrom(peer, late, 0, "")
  {
    var buf, n := "", 0;
    while true
      invariant |buf| < MAX_REQUEST_BYTES
      invariant ReadFrom(peer, late, n, buf) == ReadFrom(peer, late, 0, "")
      decreases MAX_REQUEST_BYTES - |buf|
    {
      match peer(n) {
        case Failed => return Aborted(n);
        case Silent => return Waiting(n);
        case Eof => return Complete(buf, n, AtEof);
        case Data(bytes) =>
          var before := buf;
          buf := buf + bytes;
          if |buf| >= MAX_REQUEST_BYTES { return Complete(buf, n + 1, AtCap); }
          if FindBodyBoundary(buf).Some? {
            if late(n + 1) { return Complete(buf, n + 1, TimedOut); }
            match peer(n + 1) {
              case Silent => return Complete(buf, n + 1, TimedOut);
              case Failed => return Aborted(n + 1);
              case Eof => return Complete(buf, n + 1, AtEof);
              case Data(more) =>
                buf := buf + more;
                if |buf| >= MAX_REQUEST_BYTES { return Complete(buf, n + 2, AtCap); }
                n := n + 2;
            }
          } else {
            n := n + 1;
          }
      }
    }
  }

  // ----- what the peer sent

  ghost predicate Delivering(peer: Reads, n: nat) {
    forall i: nat :: i < n ==> peer(i).Data?
  }

  ghost function Delivered(peer: Reads, n: nat): string
    requires Delivering(peer, n)
  {
    if n == 0 then "" else Delivered(peer, n - 1) + peer(n - 1).bytes
  }

  /** Everything a caller learns from the way the loop ended. */
  ghost predicate Accounted(peer: Reads, late: Timer, r: ReadOutcome) {
    && Delivering(peer, r.count)
    && match r
       case Aborted(k) => peer(k).Failed? && |Delivered(peer, k)| < MAX_REQUEST_BYTES
       case Waiting(k) => peer(k).Silent? && |Delivered(peer, k)| < MAX_REQUEST_BYTES
       case Complete(buf, k, why) =>
         && buf == Delivered(peer, k)
         && match why
            case AtEof => peer(k).Eof? && |buf| < MAX_REQUEST_BYTES
            case AtCap => MAX_REQUEST_BYTES <= |buf| <= MAX_REQUEST_BYTES + CHUNK_BYTES - 1
            case TimedOut => (late(k) || peer(k).Silent?) && |buf| < MAX_REQUEST_BYTES && FindBodyBoundary(buf).Some?
  }

  /**
   On every schedule the buffer is exactly what was delivered, it overshoots the cap by less than
   one chunk, and short of the cap the loop gives up without a boundary only at end of file.
   */
  lemma {:induction false} EveryExitIsAccounted(peer: Reads, late: Timer, n: nat, buf: string)
    requires |buf| < MAX_REQUEST_BYTES
    requires Delivering(peer, n) && buf == Delivered(peer, n)
    ensures Accounted(peer, late, ReadFrom(peer, late, n, buf))
    decreases MAX_REQUEST_BYTES - |buf|
  {
    hide FindBodyBoundary;
    if peer(n).Data? {
      var buf1 := buf + peer(n).bytes;
      assert Delivered(peer, n + 1) == buf1;
      if |buf1| < MAX_REQUEST_BYTES {
        if FindBodyBoundary(buf1).None? {
          EveryExitIsAccounted(peer, late, n + 1, buf1);
        } else if !late(n + 1) && peer(n + 1).Data? {
          var buf2 := buf1 + peer(n + 1).bytes;
          assert Delivered(peer, n + 2) == buf2;
          if |buf2| < MAX_REQUEST_BYTES { EveryExitIsAccounted(peer, late, n + 2, buf2); }
        }
      }
    }
  }

  lemma {:induction false} DeliveredGrows(peer: Reads, m: nat, n: nat)
    requires Delivering(peer, n) && m <= n
    ensures Delivered(peer, m) <= Delivered(peer, n)
    ensures m < n ==> |Delivered(peer, m)| < |Delivered(peer, n)|
  {
    if m < n { DeliveredGrows(peer, m, n - 1); }
  }

  /** A peer that sends `text`, below the cap, in `k` reads and then no more. */
  ghost predicate Sends(peer: Reads, k: nat, text: string) {
    Delivering(peer, k) && !peer(k).Data? && Delivered(peer, k) == text && |text| < MAX_REQUEST_BYTES
  }

  /** A complete stream: the peer closes behind the text. */
  ghost predicate Streams(peer: Reads, k: nat, text: string) {
    Sends(peer, k, text) && peer(k).Eof?
  }

  /** The loop comes to an end and what was read gets an answer. */
  ghost predicate Answered(peer: Reads, late: Timer) {
    ReadFrom(peer, late, 0, "").Complete?
  }

  lemma StreamIsReadAsPrefix(peer: Reads, late: Timer, k: nat, text: string)
    requires Sends(peer, k, text)
    ensures peer(k).Eof? ==> Answered(peer, late)
    ensures var r := ReadFrom(peer, late, 0, "");
            r.Complete? ==> r.buf <= text && (r.buf != text ==> r.why == TimedOut && FindBodyBoundary(r.buf).Some?)
  {
    var r := ReadFrom(peer, late, 0, "");
    EveryExitIsAccounted(peer, late, 0, "");
    hide ReadFrom, FindBodyBoundary;
    assert r.count <= k;
    DeliveredGrows(peer, r.count, k);
    if r.count < k { assert peer(r.count).Data?; }
  }

  /** What was read settles the end of the head: no bytes still to come can move it. */
  ghost predicate HeadIsRead(buf: string, text: string) {
    buf == text || Contains(buf, CRLF2) || !Contains(text, CRLF2)
  }

  lemma CutAfterBoundary(peer: Reads, late: Timer, k: nat, text: string) returns (buf: string, ext: string)
    requires Sends(peer, k, text) && Answered(peer, late)
    ensures buf == ReadFrom(peer, late, 0, "").buf
    ensures buf + ext == text
    ensures buf == text || Contains(buf, CRLF2) || Contains(buf, LF2)
  {
    StreamIsReadAsPrefix(peer, late, k, text);
    buf := ReadFrom(peer, late, 0, "").buf;
    hide *;
    ext := text[|buf|..];
    if buf != text { BoundaryIsContained(buf); }
  }

  lemma BoundaryIsContained(buf: string)
    requires FindBodyBoundary(buf).Some?
    ensures Contains(buf, CRLF2) || Contains(buf, LF2)
  {
  }

  /**
   When the end of the head was read, a timer costs nothing but the rest of the body: the parsed
   request is that of the whole stream otherwise.
   */
  lemma TimersOnlyShortenTheBody(peer: Reads, late: Timer, k: nat, text: string)
    requires Sends(peer, k, text) && Answered(peer, late)
    ensures var r := ReadFrom(peer, late, 0, "");
            && r.buf <= text
            && (HeadIsRead(r.buf, text) ==>
                  match Parse(r.buf)
                  case None => Parse(text) == None
                  case Some(req) => Parse(text) == Some(req.(body := req.body + text[|r.buf|..])))
  {
    hide ReadFrom, Parse, Contains, Sends;
    var buf, ext := CutAfterBoundary(peer, late, k, text);
    assert text[|buf|..] == ext;
    if HeadIsRead(buf, text) && buf != text { LaterBytesOnlyExtendBody(buf, ext); }
    if buf == text && Parse(buf).Some? { assert Parse(buf).value.body + ext == Parse(buf).value.body; }
  }

  /** That condition is exact: without it the head grows. */
  lemma TimerKeepsHeadExactly(peer: Reads, late: Timer, k: nat, text: string)
    requires Sends(peer, k, text) && Answered(peer, late)
    ensures var r := ReadFrom(peer, late, 0, "");
            SplitHead(r.buf).0 == SplitHead(text).0 <==> HeadIsRead(r.buf, text)
  {
    hide ReadFrom, SplitHead, Contains, Sends;
    var buf, ext := CutAfterBoundary(peer, late, k, text);
    if HeadIsRead(buf, text) {
      if buf != text { SplitExtends(buf, ext); }
    } else {
      var more := LateCrlfExtendsHead(buf, ext);
      assert |SplitHead(text).0| == |SplitHead(buf).0| + 2 + |more|;
    }
  }

  /**
   Whatever the timers do, method and path are those of the whole stream, and the authorization
   too unless a later one stands in the part of the head that was missed.
   */
  lemma TimerHidesOnlyLateAuthorization(peer: Reads, late: Timer, k: nat, text: string) returns (missed: string)
    requires Sends(peer, k, text) && Answered(peer, late)
    ensures var r := ReadFrom(peer, late, 0, "");
            && SplitHead(text).0 == SplitHead(r.buf).0 + missed
            && match Parse(r.buf)
               case None => Parse(text) == None
               case Some(req) =>
                 var last := LastAuthorization(Lines(missed));
                 && Parse(text).Some?
                 && Parse(text).value.httpMethod == req.httpMethod && Parse(text).value.path == req.path
                 && Parse(text).value.authorization == if last.Some? then last else req.authorization
  {
    hide *;
    var buf, ext := CutAfterBoundary(peer, late, k, text);
    TimersOnlyShortenTheBody(peer, late, k, text);
    TimerKeepsHeadExactly(peer, late, k, text);
    NoLateLines();
    missed := "";
    assert SplitHead(buf).0 + missed == SplitHead(buf).0;
    if !HeadIsRead(buf, text) {
      HeadNotRead(buf, text);
      var more := LateCrlfExtendsHead(buf, ext);
      missed := LF2 + more;
      assert SplitHead(buf).0 + LF2 + more == SplitHead(buf).0 + missed;
      ParseIsParseHead(buf);
      ParseIsParseHead(text);
      ParseHeadContinues(SplitHead(buf).0, more, SplitHead(buf).1, SplitHead(text).1);
      LateLines(more);
    }
  }

  lemma HeadNotRead(buf: string, text: string)
    requires !HeadIsRead(buf, text)
    ensures buf != text && !Contains(buf, CRLF2) && Contains(text, CRLF2)
  {
  }

  lemma ParseIsParseHead(raw: string)
    ensures Parse(raw) == ParseHead(SplitHead(raw).0, SplitHead(raw).1)
  {
  }

  lemma NoLateLines()
    ensures LastAuthorization(Lines("")) == None
  {
    NoLines();
  }

  lemma LinesOfLate(more: string)
    ensures Lines(LF2 + more) == ["", ""] + Lines(more)
  {
    TwoNewlines("", more);
    assert "" + LF2 == LF2;
    EmptyHasNoCr();
    hide *;
    LinesCons("", "\n" + more);
    LinesCons("", more);
    AppendGroups([""], "", Lines(more));
    assert [""] + [""] == ["", ""];
  }

  lemma LateLines(more: string)
    ensures LastAuthorization(Lines(LF2 + more)) == LastAuthorization(Lines(more))
  {
    hide *;
    LinesOfLate(more);
    BlankLineSaysNothing();
    TwoLines("");
    LastAuthorizationConcat(["", ""], Lines(more));
  }

  // ----- which requests the timer cannot touch

  /** A bare-LF boundary stands in front of the first CRLF one. */
  predicate EarlyBareLf(text: string) {
    var lf, crlf := Position(text, LF2), Position(text, CRLF2);
    lf.Some? && crlf.Some? && lf.value < crlf.value
  }

  lemma CutBeforeCrlf(buf: string, ext: string)
    requires !Contains(buf, CRLF2) && Contains(buf, LF2) && Contains(buf + ext, CRLF2)
    ensures EarlyBareLf(buf + ext)
  {
    PositionStable(buf, ext, LF2);
    var p, q := Position(buf, LF2).value, Position(buf + ext, CRLF2).value;
    CrlfIsBehind(buf, ext, p, q);
  }

  lemma SafeTextIsRead(peer: Reads, late: Timer, k: nat, text: string)
    requires Sends(peer, k, text) && Answered(peer, late) && !EarlyBareLf(text)
    ensures HeadIsRead(ReadFrom(peer, late, 0, "").buf, text)
  {
    hide ReadFrom, EarlyBareLf, Contains, Sends;
    var buf, ext := CutAfterBoundary(peer, late, k, text);
    if !HeadIsRead(buf, text) { CutBeforeCrlf(buf, ext); }
  }

  /** A peer that sends one byte at a time and closes. */
  function ByteByByte(text: string): Reads {
    (n: nat) => if n < |text| then Data([text[n]]) else Eof
  }

  lemma {:induction false} BytesDelivered(text: string, n: nat)
    requires n <= |text|
    ensures Delivering(ByteByByte(text), n) && Delivered(ByteByByte(text), n) == text[..n]
  {
    if n > 0 {
      BytesDelivered(text, n - 1);
      assert text[..n] == text[..n - 1] + [text[n - 1]];
    }
  }

  lemma BoundaryOfPrefix(text: string, n: nat)
    requires EarlyBareLf(text) && n <= Position(text, LF2).value + 2 && n <= |text|
    ensures FindBodyBoundary(text[..n]).Some? <==> n == Position(text, LF2).value + 2
  {
    var p, q := Position(text, LF2).value, Position(text, CRLF2).value;
    var buf := text[..n];
    hide Position;
    forall i: nat ensures !MatchesAt(buf, CRLF2, i) {
      if i + 4 <= n { PrefixMatches(buf, text, n, CRLF2, i); }
    }
    forall i: nat ensures MatchesAt(buf, LF2, i) <==> i == p && n == p + 2 {
      if i + 2 <= n { PrefixMatches(buf, text, n, LF2, i); }
    }
    if n == p + 2 { assert MatchesAt(buf, LF2, p); }
  }

  lemma {:induction false} CutAtBareLf(text: string, n: nat)
    requires EarlyBareLf(text) && |text| < MAX_REQUEST_BYTES && n < Position(text, LF2).value + 2
    ensures var cut := Position(text, LF2).value + 2;
            cut <= |text| && ReadFrom(ByteByByte(text), _ => true, n, text[..n]) == Complete(text[..cut], cut, TimedOut)
    decreases |text| - n
  {
    var cut := Position(text, LF2).value + 2;
    assert MatchesAt(text, LF2, cut - 2);
    BoundaryOfPrefix(text, n + 1);
    assert text[..n] + [text[n]] == text[..n + 1];
    hide FindBodyBoundary, Position;
    if n + 1 < cut { CutAtBareLf(text, n + 1); }
  }

  /** Sent byte by byte with the timer always firing, such a text loses part of its head. */
  lemma UnsafeTextIsCut(text: string) returns (peer: Reads, late: Timer)
    requires |text| < MAX_REQUEST_BYTES && EarlyBareLf(text)
    ensures Streams(peer, |text|, text) && Answered(peer, late)
    ensures SplitHead(ReadFrom(peer, late, 0, "").buf).0 != SplitHead(text).0
  {
    peer, late := ByteByByte(text), _ => true;
    BytesDelivered(text, |text|);
    assert text[..|text|] == text && text[..0] == "";
    CutAtBareLf(text, 0);
    var cut := Position(text, LF2).value + 2;
    var buf := text[..cut];
    BoundaryOfPrefix(text, cut);
    CutHasNoCrlf(text, cut);
    hide ReadFrom, SplitHead, Position;
    assert Answered(peer, late);
    TimerKeepsHeadExactly(peer, late, |text|, text);
  }

  lemma CutHasNoCrlf(text: string, n: nat)
    requires EarlyBareLf(text) && n == Position(text, LF2).value + 2 && n <= |text|
    ensures !HeadIsRead(text[..n], text)
  {
    var q := Position(text, CRLF2).value;
    assert MatchesAt(text, CRLF2, q);
    hide Position;
    forall i: nat ensures !MatchesAt(text[..n], CRLF2, i) {
      if i + 4 <= n { PrefixMatches(text[..n], text, n, CRLF2, i); }
    }
    assert |text[..n]| < |text|;
  }

  ghost predicate HeadKept(peer: Reads, late: Timer, k: nat, text: string) {
    Sends(peer, k, text) && Answered(peer, late)
    ==> SplitHead(ReadFrom(peer, late, 0, "").buf).0 == SplitHead(text).0
  }

  /**
   What a client can check before it sends: no schedule and no timer costs a text any of its head
   exactly if no bare-LF boundary stands in front of its first CRLF one.
   */
  lemma TimerSafeExactly(text: string)
    requires |text| < MAX_REQUEST_BYTES
    ensures (forall peer: Reads, late: Timer, k: nat :: HeadKept(peer, late, k, text)) <==> !EarlyBareLf(text)
  {
    hide EarlyBareLf, ReadFrom, SplitHead, Sends, Answered;
    if EarlyBareLf(text) {
      var peer, late := UnsafeTextIsCut(text);
      StreamsSends(peer, |text|, text);
      assert !HeadKept(peer, late, |text|, text);
    } else {
      forall peer: Reads, late: Timer, k: nat ensures HeadKept(peer, late, k, text) {
        if Sends(peer, k, text) && Answered(peer, late) {
          SafeTextIsRead(peer, late, k, text);
          TimerKeepsHeadExactly(peer, late, k, text);
        }
      }
    }
  }

  lemma StreamsSends(peer: Reads, k: nat, text: string)
    requires Streams(peer, k, text)
    ensures Sends(peer, k, text)
  {
  }

  lemma {:induction false} JoinHasNoLf2(lines: seq<string>)
    requires forall l :: l in lines ==> PlainLine(l)
    ensures var j := JoinCrlf(lines);
            && (j != "" ==> j[0] != '\n')
            && forall i :: 0 <= i < |j| - 1 ==> !(j[i] == '\n' && j[i + 1] == '\n')
  {
    if lines != [] {
      assert PlainLine(lines[0]);
      assert lines[0][0] in lines[0];
      assert forall i :: 0 <= i < |lines[0]| ==> lines[0][i] in lines[0];
      if |lines| > 1 { JoinHasNoLf2(lines[1..]); }
    }
  }

  /** Well-formed requests are safe, whatever their body holds. */
  lemma RenderedIsSafe(r: Request)
    requires r.WellFormed()
    ensures !EarlyBareLf(r.Render())
  {
    var lines := [r.Line()] + HeaderLines(r.headers);
    FrameLinesArePlain(r);
    hide PlainLine, JoinCrlf, SplitOnce, Position;
    FrameSplits(lines, r.body);
    JoinHasNoLf2(lines);
    SplitOnceAtPosition(r.Render(), CRLF2);
    var j := JoinCrlf(lines);
    forall p: nat | p < |j| ensures !MatchesAt(r.Render(), LF2, p) {
      NoMatchAt(r.Render(), LF2, p, if j[p] == '\n' then 1 else 0);
    }
  }

  /**
   On every schedule that is answered, timers included, a rendered request is parsed with its
   method, path and last Authorization value; only its body may be cut.
   */
  lemma RenderedSurvivesTimers(r: Request, peer: Reads, late: Timer, k: nat)
    requires r.WellFormed() && Sends(peer, k, r.Render()) && Answered(peer, late)
    ensures var req := Parse(ReadFrom(peer, late, 0, "").buf);
            && req.Some?
            && req.value.httpMethod == r.httpMethod && req.value.path == r.path
            && req.value.authorization == CarriedAuthorization(r.headers)
            && req.value.body <= r.body
  {
    hide *;
    RenderedIsSafe(r);
    SafeTextIsRead(peer, late, k, r.Render());
    TimersOnlyShortenTheBody(peer, late, k, r.Render());
    ParseInvertsRender(r);
  }

  // ----- peers that stay open

  lemma BoundaryPersists(buf: string, ext: string)
    requires FindBodyBoundary(buf).Some?
    ensures FindBodyBoundary(buf + ext).Some?
  {
    if Position(buf, CRLF2).Some? { PositionStable(buf, ext, CRLF2); } else { PositionStable(buf, ext, LF2); }
  }

  /** After `b` reads, and not before, the buffer holds a boundary. */
  ghost predicate FirstBoundary(peer: Reads, b: nat) {
    && Delivering(peer, b) && FindBodyBoundary(Delivered(peer, b)).Some?
    && forall i: nat :: i < b ==> FindBodyBoundary(Delivered(peer, i)).None?
  }

  /** From nested read `m` on, every second read is nested: one of them meets the timer or the silence. */
  ghost predicate NestedStops(late: Timer, m: nat, k: nat)
    decreases k - m
  {
    m <= k && (late(m) || m == k || NestedStops(late, m + 2, k))
  }

  lemma {:induction false} StopsBehindBoundary(peer: Reads, late: Timer, k: nat, n: nat)
    requires Delivering(peer, k) && peer(k).Silent? && |Delivered(peer, k)| < MAX_REQUEST_BYTES && n <= k
    requires |Delivered(peer, n)| < MAX_REQUEST_BYTES && FindBodyBoundary(Delivered(peer, n)).Some?
    ensures ReadFrom(peer, late, n, Delivered(peer, n)).Complete? <==> NestedStops(late, n + 1, k)
    decreases k - n
  {
    hide FindBodyBoundary;
    if n < k {
      DeliveredGrows(peer, n + 1, k);
      BoundaryPersists(Delivered(peer, n), peer(n).bytes);
      if n + 1 < k && !late(n + 1) {
        DeliveredGrows(peer, n + 2, k);
        BoundaryPersists(Delivered(peer, n + 1), peer(n + 1).bytes);
        StopsBehindBoundary(peer, late, k, n + 2);
      }
    }
  }

  lemma {:induction false} StopsBeforeBoundary(peer: Reads, late: Timer, k: nat, b: nat, n: nat)
    requires Delivering(peer, k) && peer(k).Silent? && |Delivered(peer, k)| < MAX_REQUEST_BYTES
    requires FirstBoundary(peer, b) && n < b <= k && |Delivered(peer, n)| < MAX_REQUEST_BYTES
    ensures ReadFrom(peer, late, n, Delivered(peer, n)).Complete? <==> NestedStops(late, b, k)
    decreases b - n
  {
    hide FindBodyBoundary;
    DeliveredGrows(peer, n + 1, k);
    if n + 1 < b {
      StopsBeforeBoundary(peer, late, k, b, n + 1);
    } else if b < k && !late(b) {
      DeliveredGrows(peer, b + 1, k);
      BoundaryPersists(Delivered(peer, b), peer(b).bytes);
      StopsBehindBoundary(peer, late, k, b + 1);
    }
  }

  /** Read `i` is one of the nested reads `m`, `m + 2`, ... and meets the timer or the silence. */
  ghost predicate StopsAt(late: Timer, m: nat, k: nat, i: nat) {
    m <= i <= k && (i - m) % 2 == 0 && (late(i) || i == k)
  }

  lemma {:induction false} NestedStopsAt(late: Timer, m: nat, k: nat)
    ensures NestedStops(late, m, k) <==> exists i: nat :: StopsAt(late, m, k, i)
    decreases k - m
  {
    if m <= k {
      NestedStopsAt(late, m + 2, k);
      forall i: nat
        ensures StopsAt(late, m, k, i) <==> (i == m && (late(m) || m == k)) || StopsAt(late, m + 2, k, i)
      {
        if i > m { assert (i - m) % 2 == (i - (m + 2)) % 2; }
      }
      assert late(m) || m == k ==> StopsAt(late, m, k, m);
      if NestedStops(late, m + 2, k) {
        var i: nat :| StopsAt(late, m + 2, k, i);
        assert StopsAt(late, m, k, i);
      }
    }
  }

  lemma AnsweredBehindBoundary(peer: Reads, late: Timer, k: nat, text: string, b: nat)
    requires Sends(peer, k, text) && peer(k).Silent? && FirstBoundary(peer, b) && b <= k
    ensures Answered(peer, late) <==> exists i: nat :: StopsAt(late, b, k, i)
  {
    NoBoundaryInNothing();
    assert Delivered(peer, 0) == "";
    assert b > 0;
    hide ReadFrom, FindBodyBoundary, NestedStops, StopsAt;
    StopsBeforeBoundary(peer, late, k, b, 0);
    NestedStopsAt(late, b, k);
  }

  lemma {:induction false} LeastBoundary(peer: Reads, n: nat) returns (b: nat)
    requires Delivering(peer, n) && FindBodyBoundary(Delivered(peer, n)).Some?
    ensures b <= n && FirstBoundary(peer, b)
  {
    hide FindBodyBoundary, Delivered;
    if i: nat :| i < n && FindBodyBoundary(Delivered(peer, i)).Some? {
      b := LeastBoundary(peer, i);
    } else {
      b := n;
    }
  }

  /** The read that first completes a boundary, or one an even number of reads later, is followed by a pause. */
  ghost predicate PausesInTime(peer: Reads, late: Timer, k: nat) {
    exists b: nat, i: nat :: FirstBoundary(peer, b) && StopsAt(late, b, k, i)
  }

  /**
   A peer that sends its request in `k` reads and stays open gets an answer exactly if it pauses in
   time: the 50 ms timer runs in every second read only, and the others wait for ever.
   */
  lemma SilentPeerAnsweredExactly(peer: Reads, late: Timer, k: nat, text: string)
    requires Sends(peer, k, text) && peer(k).Silent?
    ensures Answered(peer, late) <==> PausesInTime(peer, late, k)
  {
    var r := ReadFrom(peer, late, 0, "");
    EveryExitIsAccounted(peer, late, 0, "");
    hide ReadFrom, FindBodyBoundary, FirstBoundary;
    if Answered(peer, late) {
      assert r.count <= k;
      DeliveredGrows(peer, r.count, k);
      var b := LeastBoundary(peer, r.count);
      AnsweredBehindBoundary(peer, late, k, text, b);
    }
    if b: nat, i: nat :| FirstBoundary(peer, b) && StopsAt(late, b, k, i) {
      AnsweredBehindBoundary(peer, late, k, text, b);
    }
  }

  lemma NoBoundaryInNothing()
    ensures FindBodyBoundary("").None?
  {
  }

  /** So a head and a body that arrive as two pieces without a pause are never answered. */
  lemma TwoPiecesThenSilenceHang(first: Chunk, second: Chunk, late: Timer)
    requires FindBodyBoundary(first).Some? && !late(1)
    ensures ReadFrom(TwoReads(first, second, Silent), late, 0, "") == Waiting(2)
  {
    hide FindBodyBoundary;
    assert "" + first == first;
    assert |first + second| < MAX_REQUEST_BYTES;
  }

  lemma UntimedStreamIsRead(peer: Reads, late: Timer, k: nat, text: string)
    requires Streams(peer, k, text) && forall i :: !late(i)
    ensures Answered(peer, late) && ReadFrom(peer, late, 0, "").buf == text
  {
    StreamIsReadAsPrefix(peer, late, k, text);
    EveryExitIsAccounted(peer, late, 0, "");
    hide ReadFrom, FindBodyBoundary, Delivered;
  }

  /** Without a fired timer every way of cutting a stream into reads gives the same parsed request. */
  lemma ChunkingIndependence(peer1: Reads, late1: Timer, k1: nat, peer2: Reads, late2: Timer, k2: nat, text: string)
    requires Streams(peer1, k1, text) && Streams(peer2, k2, text)
    requires (forall i :: !late1(i)) && (forall i :: !late2(i))
    ensures var r1, r2 := ReadFrom(peer1, late1, 0, ""), ReadFrom(peer2, late2, 0, "");
            r1.Complete? && r2.Complete? && r1.buf == r2.buf == text && Parse(r1.buf) == Parse(r2.buf)
  {
    hide ReadFrom, Parse, Streams;
    UntimedStreamIsRead(peer1, late1, k1, text);
    UntimedStreamIsRead(peer2, late2, k2, text);
  }

  lemma BareLfSplit(line: string)
    requires '\r' !in line && '\n' !in line
    ensures SplitHead(line + LF2) == (line, "") && FindBodyBoundary(line + LF2).Some?
  {
    var buf := line + LF2;
    SplitOnceAtPosition(buf, CRLF2);
    forall i: nat ensures !MatchesAt(buf, CRLF2, i) {
      if i + 4 <= |buf| { assert buf[i..i + 4][0] == buf[i] && buf[i] in buf; }
    }
    assert buf == line + LF2 + "";
    forall i: nat | i < |line| ensures !MatchesAt(line + LF2 + "", LF2, i) {
      assert (line + LF2 + "")[i..i + 2][0] == line[i];
    }
    SplitOnceUnique(line, LF2, "");
    FinderAgreesWithSplitter(buf);
  }

  lemma MixedSplit(line: string, header: string)
    requires '\r' !in line && '\r' !in header
    ensures SplitHead(line + LF2 + (header + CRLF2)) == (line + LF2 + header, "")
  {
    var head := line + LF2 + header;
    assert line + LF2 + (header + CRLF2) == head + CRLF2 + "";
    SplitAtLastLine(head, "");
  }

  /** A peer that sends two pieces, and then closes, fails or stays silent. */
  function TwoReads(first: Chunk, second: Chunk, end: ReadEvent): Reads {
    (n: nat) => if n == 0 then Data(first) else if n == 1 then Data(second) else end
  }

  lemma TwoReadsStream(first: Chunk, second: Chunk)
    ensures Streams(TwoReads(first, second, Eof), 2, first + second)
  {
    var peer := TwoReads(first, second, Eof);
    assert Delivered(peer, 1) == "" + first == first;
    assert Delivered(peer, 2) == Delivered(peer, 1) + second;
  }

  lemma TimerCutsTwoReads(first: Chunk, second: Chunk, late: Timer)
    requires FindBodyBoundary(first).Some? && late(1)
    ensures ReadFrom(TwoReads(first, second, Eof), late, 0, "") == Complete(first, 1, TimedOut)
  {
    hide FindBodyBoundary;
    assert "" + first == first;
  }

  lemma OneLineHead(line: string)
    requires PlainLine(line) && |Words(line)| >= 2
    ensures ParseHead(line, "") == Some(ParsedRequest(Words(line)[0], Words(line)[1], None, ""))
  {
    LinesSingle(line);
    hide Lines, Words;
  }

  lemma OneLateHeader(header: string)
    requires PlainLine(header)
    ensures LastAuthorization(Lines(header)) == AuthorizationOf(header)
  {
    LinesSingle(header);
    hide *;
    LastAuthorizationOfOne(header);
  }

  lemma MixedFrame(line: string, header: string)
    requires PlainLine(line) && |Words(line)| >= 2
    requires PlainLine(header) && AuthorizationOf(header).Some?
    ensures var req := ParsedRequest(Words(line)[0], Words(line)[1], None, "");
            && Parse(line + LF2) == Some(req)
            && Parse(line + LF2 + (header + CRLF2)) == Some(req.(authorization := AuthorizationOf(header)))
  {
    PlainHasNoCr(line);
    PlainHasNoCr(header);
    hide *;
    BareLfSplit(line);
    MixedSplit(line, header);
    OneLineHead(line);
    OneLateHeader(header);
    ParseHeadContinues(line, header, "", "");
    ParseIsParseHead(line + LF2);
    ParseIsParseHead(line + LF2 + (header + CRLF2));
  }

  /**
   And a timer does change the head, on every stream of this shape: a request line closed by a
   bare-LF boundary, then an Authorization header closed by a CRLF one, with the timer fired in
   between. The loop answers a request without authorization.
   */
  lemma TimerAtBareLfChangesHead(line: string, header: string, first: Chunk, second: Chunk, late: Timer)
    requires PlainLine(line) && |Words(line)| >= 2 && first == line + LF2
    requires PlainLine(header) && AuthorizationOf(header).Some? && second == header + CRLF2
    requires late(1)
    ensures var req := ParsedRequest(Words(line)[0], Words(line)[1], None, "");
            && Streams(TwoReads(first, second, Eof), 2, first + second)
            && ReadFrom(TwoReads(first, second, Eof), late, 0, "") == Complete(first, 1, TimedOut)
            && Parse(first) == Some(req)
            && Parse(first + second) == Some(req.(authorization := AuthorizationOf(header)))
  {
    PlainHasNoCr(line);
    hide *;
    TwoReadsStream(first, second);
    BareLfSplit(line);
    TimerCutsTwoReads(first, second, late);
    MixedFrame(line, header);
  }

  lemma PlainHasNoCr(line: string)
    requires PlainLine(line)
    ensures '\r' !in line && '\n' !in line
  {
  }
}
