/**
 The frame layer of `src/http_ctrl.rs`: the boundary finder, the request parser and the bearer
 extractor, with the message format of RFC 9112 sections 2.1 and 3 to invert them against.
 */
module HttpFrame {
  import opened Types
  import opened Text

  const CRLF := "\r\n"
  const CRLF2 := "\r\n\r\n"
  const LF2 := "\n\n"

  // ----- the two boundary finders

  /** Index just past the head/body blank line, CRLF first, bare LF otherwise. */
  function FindBodyBoundary(buf: string): Option<nat> {
    match Position(buf, CRLF2)
    case Some(p) => Some(p + 4)
    case None =>
      match Position(buf, LF2)
      case Some(p) => Some(p + 2)
      case None => None
  }

  /** The splitter inside `parse_request`, written against `split_once`. */
  function SplitHead(raw: string): (string, string) {
    match SplitOnce(raw, CRLF2)
    case Some(hb) => hb
    case None =>
      match SplitOnce(raw, LF2)
      case Some(hb) => hb
      case None => (raw, "")
  }

  /** Finder and splitter cut every buffer at the same place, mixed line ends included. */
  lemma FinderAgreesWithSplitter(buf: string)
    ensures match FindBodyBoundary(buf)
            case Some(p) => p <= |buf| && SplitHead(buf).1 == buf[p..]
                            && (SplitHead(buf).0 + CRLF2 == buf[..p] || SplitHead(buf).0 + LF2 == buf[..p])
            case None => SplitHead(buf) == (buf, "")
    ensures FindBodyBoundary(buf).Some? <==> SplitOnce(buf, CRLF2).Some? || SplitOnce(buf, LF2).Some?
  {
    SplitOnceAtPosition(buf, CRLF2);
    SplitOnceAtPosition(buf, LF2);
  }

  /** A CRLF boundary, once found, stays where it is however the buffer grows. */
  lemma CrlfBoundaryIsStable(buf: string, ext: string)
    requires Contains(buf, CRLF2)
    ensures FindBodyBoundary(buf + ext) == FindBodyBoundary(buf) != None
  {
    PositionStable(buf, ext, CRLF2);
  }

  lemma BoundariesDoNotEndTogether(s: string, i: nat)
    requires MatchesAt(s, LF2, i + 2)
    ensures !MatchesAt(s, CRLF2, i)
  {
    assert s[i + 2..i + 4][0] == s[i + 2] == s[i..i + 4][2];
  }

  /** A bare-LF boundary stays exactly as long as no CRLF boundary shows up, at any index. */
  lemma LfBoundaryIsStableExactly(buf: string, ext: string)
    requires !Contains(buf, CRLF2) && Contains(buf, LF2)
    ensures FindBodyBoundary(buf + ext) == FindBodyBoundary(buf) <==> !Contains(buf + ext, CRLF2)
  {
    PositionStable(buf, ext, LF2);
    var p := Position(buf, LF2).value;
    if p >= 2 { BoundariesDoNotEndTogether(buf + ext, p - 2); }
  }

  // ----- parse_request

  datatype ParsedRequest = ParsedRequest(httpMethod: string, path: string,
                                         authorization: Option<string>, body: string)

  /** The trimmed value of an `Authorization` header line. */
  function AuthorizationOf(line: string): Option<string> {
    match SplitOnce(line, ":")
    case None => None
    case Some((name, value)) =>
      if EqIgnoreCase(Trim(name), "authorization") then Some(Trim(value)) else None
  }

  /** The last `Authorization` header wins. */
  function LastAuthorization(lines: seq<string>): Option<string> {
    if lines == [] then None
    else
      var last := AuthorizationOf(lines[|lines| - 1]);
      if last.Some? then last else LastAuthorization(lines[..|lines| - 1])
  }

  function ParseHead(head: string, body: string): Option<ParsedRequest> {
    var lines := Lines(head);
    if lines == [] then None
    else
      var parts := Words(lines[0]);
      if |parts| < 2 then None
      else Some(ParsedRequest(parts[0], parts[1], LastAuthorization(lines[1..]), body))
  }

  function Parse(raw: string): Option<ParsedRequest> {
    var (head, body) := SplitHead(raw);
    ParseHead(head, body)
  }

  method ParseRequest(raw: string) returns (req: Option<ParsedRequest>)
    ensures req == Parse(raw)
  {
    hide SplitHead, SplitOnce, Lines, Words, Trim, EqIgnoreCase;
    var (head, body) := SplitHead(raw);
    var lines := Lines(head);
    if lines == [] { return None; }
    var parts := Words(lines[0]);
    if |parts| < 2 { return None; }
    var authorization: Option<string> := None;
    for i := 1 to |lines|
      invariant authorization == LastAuthorization(lines[1..i])
    {
      assert lines[1..i + 1][..i - 1] == lines[1..i];
      match SplitOnce(lines[i], ":") {
        case Some((name, value)) =>
          if EqIgnoreCase(Trim(name), "authorization") {
            authorization := Some(Trim(value));
          }
        case None =>
      }
    }
    assert lines[1..|lines|] == lines[1..];
    return Some(ParsedRequest(parts[0], parts[1], authorization, body));
  }

  /** The text up to the first LF. */
  function FirstLine(s: string): string {
    if s == "" || s[0] == '\n' then "" else [s[0]] + FirstLine(s[1..])
  }

  lemma {:induction false} FirstLineEnds(s: string)
    ensures var l := FirstLine(s); l <= s && '\n' !in l && (l != s ==> s[|l|] == '\n')
  {
    if s != "" && s[0] != '\n' { FirstLineEnds(s[1..]); }
  }

  lemma FirstOfLines(head: string)
    ensures head == "" <==> Lines(head) == []
    ensures head != "" ==> Lines(head)[0] == FirstLine(head) || Lines(head)[0] == StripCr(FirstLine(head))
  {
    var l := FirstLine(head);
    FirstLineEnds(head);
    NoLines();
    hide Lines, FirstLine, StripCr;
    if l != head {
      var rest := head[|l| + 1..];
      assert head == l + "\n" + rest;
      LinesCons(l, rest);
    } else if head != "" {
      LinesSingle(head);
    }
  }

  /** A frame is malformed exactly when the first line of its head has fewer than two words. */
  lemma ParseFailsExactly(raw: string)
    ensures Parse(raw) == None <==> |Words(FirstLine(SplitHead(raw).0))| < 2
  {
    var head := SplitHead(raw).0;
    FirstOfLines(head);
    StripCrShowsNowhere(FirstLine(head));
    BlankLineSaysNothing();
    hide Words, FirstLine, SplitHead, Lines, StripCr, LastAuthorization;
    if head == "" { NothingFirst(); }
  }

  lemma NothingFirst()
    ensures FirstLine("") == ""
  {
  }

  // ----- the message format

  datatype Header = Header(name: string, value: string)

  function HeaderLine(h: Header): string { h.name + ":" + h.value }

  function HeaderLines(hs: seq<Header>): (ls: seq<string>)
    ensures |ls| == |hs| && forall i :: 0 <= i < |hs| ==> ls[i] == HeaderLine(hs[i])
  {
    seq(|hs|, i requires 0 <= i < |hs| => HeaderLine(hs[i]))
  }

  function JoinCrlf(lines: seq<string>): string {
    if lines == [] then ""
    else if |lines| == 1 then lines[0]
    else lines[0] + CRLF + JoinCrlf(lines[1..])
  }

  function RenderFrame(lines: seq<string>, body: string): string {
    JoinCrlf(lines) + CRLF2 + body
  }

  ghost predicate PlainLine(line: string) {
    line != "" && '\r' !in line && '\n' !in line
  }

  /** A line that holds no CR or LF and is not the last one hides no boundary. */
  lemma SplitPastLine(line: string, rest: string)
    requires '\r' !in line && rest != "" && rest[0] != '\r'
    requires SplitOnce(rest, CRLF2).Some?
    ensures SplitOnce(line + CRLF + rest, CRLF2)
            == Some((line + CRLF + SplitOnce(rest, CRLF2).value.0, SplitOnce(rest, CRLF2).value.1))
  {
    SplitOnceAtPosition(rest, CRLF2);
    hide SplitOnce, Position, MatchesAt;
    var (a, b) := SplitOnce(rest, CRLF2).value;
    var s := line + CRLF + rest;
    var d := |line| + 2;
    assert s[d..] == rest;
    forall i: nat | i < d + |a| ensures !MatchesAt(s, CRLF2, i) {
      if i < |line| {
        assert line[i] in line;
        NoMatchAt(s, CRLF2, i, 0);
      } else if i < d {
        NoMatchAt(s, CRLF2, i, if i == |line| then 2 else 0);
      } else {
        MatchesAtDrop(s, CRLF2, d, i - d);
      }
    }
    assert s == line + CRLF + a + CRLF2 + b;
    SplitOnceUnique(line + CRLF + a, CRLF2, b);
  }

  lemma {:induction false} SplitAtLastLine(line: string, body: string)
    requires '\r' !in line
    ensures SplitOnce(line + CRLF2 + body, CRLF2) == Some((line, body))
  {
    forall i: nat | i < |line| ensures !MatchesAt(line + CRLF2 + body, CRLF2, i) {
      assert line[i] in line;
      NoMatchAt(line + CRLF2 + body, CRLF2, i, 0);
    }
    SplitOnceUnique(line, CRLF2, body);
  }

  /** Whatever the body holds, a rendered frame splits back into its lines and its body. */
  lemma {:induction false} FrameSplits(lines: seq<string>, body: string)
    requires lines != [] && forall l :: l in lines ==> PlainLine(l)
    ensures SplitOnce(RenderFrame(lines, body), CRLF2) == Some((JoinCrlf(lines), body))
    ensures SplitHead(RenderFrame(lines, body)) == (JoinCrlf(lines), body)
  {
    hide SplitOnce;
    assert PlainLine(lines[0]);
    if |lines| == 1 {
      SplitAtLastLine(lines[0], body);
    } else {
      var rest := RenderFrame(lines[1..], body);
      FrameSplits(lines[1..], body);
      assert PlainLine(lines[1]) && lines[1..][0] == lines[1];
      assert lines[1][0] in lines[1];
      assert rest[0] == lines[1][0];
      assert RenderFrame(lines, body) == lines[0] + CRLF + rest;
      hide PlainLine;
      SplitPastLine(lines[0], rest);
    }
  }

  lemma {:induction false} LinesOfJoin(lines: seq<string>)
    requires forall l :: l in lines ==> PlainLine(l)
    ensures Lines(JoinCrlf(lines)) == lines
  {
    if lines == [] {
    } else {
      assert PlainLine(lines[0]);
      if |lines| == 1 {
        LinesSingle(lines[0]);
      } else {
        LinesOfJoin(lines[1..]);
        var line := lines[0] + "\r";
        assert JoinCrlf(lines) == line + "\n" + JoinCrlf(lines[1..]);
        LinesCons(line, JoinCrlf(lines[1..]));
        assert StripCr(line) == lines[0];
      }
    }
  }

  // ----- requests

  /** A request as a client means it. */
  datatype Request = Request(httpMethod: string, path: string, version: string,
                             headers: seq<Header>, body: string)
  {
    ghost predicate WellFormed() {
      && Solid(httpMethod) && Solid(path) && Solid(version)
      && forall h :: h in headers ==> WellFormedHeader(h)
    }

    function Line(): string { httpMethod + " " + path + " " + version }

    function Render(): string { RenderFrame([Line()] + HeaderLines(headers), body) }
  }

  ghost predicate WellFormedHeader(h: Header) {
    ':' !in h.name && '\r' !in HeaderLine(h) && '\n' !in HeaderLine(h)
  }

  /** The Authorization value a request carries: that of its last such header. */
  function CarriedAuthorization(hs: seq<Header>): Option<string> {
    if hs == [] then None
    else
      var h := hs[|hs| - 1];
      if EqIgnoreCase(Trim(h.name), "authorization") then Some(Trim(h.value))
      else CarriedAuthorization(hs[..|hs| - 1])
  }

  lemma {:induction false} LastAuthorizationIsCarried(hs: seq<Header>)
    requires forall h :: h in hs ==> WellFormedHeader(h)
    ensures LastAuthorization(HeaderLines(hs)) == CarriedAuthorization(hs)
  {
    if hs != [] {
      var h := hs[|hs| - 1];
      assert h in hs;
      SplitOnceChar(h.name, ':', h.value);
      assert HeaderLines(hs)[..|hs| - 1] == HeaderLines(hs[..|hs| - 1]);
      LastAuthorizationIsCarried(hs[..|hs| - 1]);
    }
  }

  lemma SolidHasNoLineEnd(w: string)
    requires Solid(w)
    ensures '\r' !in w && '\n' !in w
  {
  }

  lemma WordThenSpace(w: string, s: string)
    requires Solid(w)
    ensures Words(w + " " + s) == [w] + Words(s)
  {
    assert w + " " + s == w + (" " + s);
    WordsCons(w, " " + s);
    WordsSkipSpace(s);
  }

  lemma SingleWord(w: string)
    requires Solid(w)
    ensures Words(w) == [w]
  {
    WordsCons(w, "");
    assert w + "" == w;
  }

  lemma RequestLineWords(m: string, p: string, v: string)
    requires Solid(m) && Solid(p) && Solid(v)
    ensures Words(m + " " + p + " " + v) == [m, p, v]
  {
    hide Words;
    Regroup(m, " ", p + " ", v);
    Regroup(m, " ", p, " ");
    WordThenSpace(m, p + " " + v);
    WordThenSpace(p, v);
    SingleWord(v);
  }

  lemma FrameLinesArePlain(r: Request)
    requires r.WellFormed()
    ensures forall l :: l in [r.Line()] + HeaderLines(r.headers) ==> PlainLine(l)
  {
    SolidHasNoLineEnd(r.httpMethod);
    SolidHasNoLineEnd(r.path);
    SolidHasNoLineEnd(r.version);
    assert PlainLine(r.Line());
    forall l | l in HeaderLines(r.headers) ensures PlainLine(l) {
      var i :| 0 <= i < |r.headers| && l == HeaderLine(r.headers[i]);
      assert WellFormedHeader(r.headers[i]);
    }
  }

  /** Parsing inverts rendering, for every well-formed request and every body. */
  lemma ParseInvertsRender(r: Request)
    requires r.WellFormed()
    ensures Parse(r.Render())
            == Some(ParsedRequest(r.httpMethod, r.path, CarriedAuthorization(r.headers), r.body))
  {
    var lines := [r.Line()] + HeaderLines(r.headers);
    FrameLinesArePlain(r);
    FrameSplits(lines, r.body);
    LinesOfJoin(lines);
    RequestLineWords(r.httpMethod, r.path, r.version);
    assert lines[1..] == HeaderLines(r.headers);
    LastAuthorizationIsCarried(r.headers);
  }

  // ----- frames that are still growing

  /** More bytes cannot move the end of the head any more. */
  ghost predicate HeadIsFixed(buf: string, ext: string) {
    Contains(buf, CRLF2) || (Contains(buf, LF2) && !Contains(buf + ext, CRLF2))
  }

  lemma SplitExtendsAt(buf: string, ext: string, sep: string)
    requires Contains(buf, sep)
    ensures SplitOnce(buf, sep).Some?
    ensures SplitOnce(buf + ext, sep)
            == Some((SplitOnce(buf, sep).value.0, SplitOnce(buf, sep).value.1 + ext))
  {
    assert Position(buf, sep).Some?;
    PositionStable(buf, ext, sep);
    hide SplitOnce, Position, MatchesAt, Contains;
    var k := Position(buf, sep).value;
    SplitOnceCuts(buf, sep, k);
    SplitOnceCuts(buf + ext, sep, k);
    TakeDropConcat(buf, ext, k, k + |sep|);
  }

  lemma TakeDropConcat(a: string, b: string, i: nat, j: nat)
    requires i <= |a| && j <= |a|
    ensures (a + b)[..i] == a[..i] && (a + b)[j..] == a[j..] + b
  {
  }

  lemma NotSplit(buf: string, sep: string)
    requires !Contains(buf, sep)
    ensures SplitOnce(buf, sep) == None
  {
    SplitOnceAtPosition(buf, sep);
  }

  lemma SplitExtends(buf: string, ext: string)
    requires HeadIsFixed(buf, ext)
    ensures SplitHead(buf + ext) == (SplitHead(buf).0, SplitHead(buf).1 + ext)
  {
    if Contains(buf, CRLF2) {
      SplitExtendsAt(buf, ext, CRLF2);
    } else {
      NotSplit(buf, CRLF2);
      NotSplit(buf + ext, CRLF2);
      SplitExtendsAt(buf, ext, LF2);
    }
  }

  /** With the end of the head fixed, later bytes only ever lengthen the body. */
  lemma LaterBytesOnlyExtendBody(buf: string, ext: string)
    requires HeadIsFixed(buf, ext)
    ensures match Parse(buf)
            case None => Parse(buf + ext) == None
            case Some(req) => Parse(buf + ext) == Some(req.(body := req.body + ext))
  {
    SplitExtends(buf, ext);
  }

  /** A CRLF boundary that shows up behind a bare-LF one turns what lies between into head. */
  lemma LateCrlfExtendsHead(buf: string, ext: string) returns (more: string)
    requires !Contains(buf, CRLF2) && Contains(buf, LF2) && Contains(buf + ext, CRLF2)
    ensures SplitHead(buf + ext).0 == SplitHead(buf).0 + LF2 + more
  {
    var text := buf + ext;
    NotSplit(buf, CRLF2);
    assert Position(buf, LF2).Some? && Position(text, CRLF2).Some?;
    var p, q := Position(buf, LF2).value, Position(text, CRLF2).value;
    CrlfIsBehind(buf, ext, p, q);
    hide SplitOnce, Position, MatchesAt, Contains;
    SplitOnceCuts(buf, LF2, p);
    SplitOnceCuts(text, CRLF2, q);
    more := text[p + 2..q];
    TakeDropConcat(buf, ext, p, 0);
    Splice(text, p, q);
  }

  lemma Splice(text: string, p: nat, q: nat)
    requires p + 2 <= q <= |text| && text[p..p + 2] == LF2
    ensures text[..q] == text[..p] + LF2 + text[p + 2..q]
  {
    assert text[..q] == text[..p] + text[p..p + 2] + text[p + 2..q];
  }

  lemma CrlfIsBehind(buf: string, ext: string, p: nat, q: nat)
    requires !Contains(buf, CRLF2) && MatchesAt(buf, LF2, p) && MatchesAt(buf + ext, CRLF2, q)
    ensures q >= p + 2 && (buf + ext)[p..p + 2] == LF2
  {
    var text := buf + ext;
    if q + 4 <= |buf| {
      assert buf[q..q + 4] == text[q..q + 4];
      assert MatchesAt(buf, CRLF2, q);
    }
    assert buf[p..p + 2] == text[p..p + 2];
    assert buf[p..p + 2][0] == text[p] && buf[p..p + 2][1] == text[p + 1];
    assert text[q..q + 4][0] == text[q] && text[q..q + 4][2] == text[q + 2];
  }

  lemma {:induction false} LastAuthorizationConcat(a: seq<string>, b: seq<string>)
    ensures LastAuthorization(a + b)
            == if LastAuthorization(b).Some? then LastAuthorization(b) else LastAuthorization(a)
  {
    hide AuthorizationOf;
    var all := a + b;
    if b == [] {
      assert all == a;
    } else {
      assert all[|all| - 1] == b[|b| - 1];
      assert all[..|all| - 1] == a + b[..|b| - 1];
      LastAuthorizationConcat(a, b[..|b| - 1]);
    }
  }

  lemma AuthorizationOfSplit(name: string, value: string)
    requires ':' !in name
    ensures AuthorizationOf(name + ":" + value)
            == if EqIgnoreCase(Trim(name), "authorization") then Some(Trim(value)) else None
  {
    SplitOnceChar(name, ':', value);
    hide Trim, EqIgnoreCase, SplitOnce;
  }

  lemma AuthorizationIgnoresCr(line: string)
    ensures AuthorizationOf(line + "\r") == AuthorizationOf(line)
  {
    if ':' in line {
      SplitOnceCharSome(line, ':');
      var (name, value) := SplitOnce(line, ":").value;
      hide Trim, EqIgnoreCase, SplitOnce, AuthorizationOf;
      assert line + "\r" == name + ":" + (value + "\r");
      AuthorizationOfSplit(name, value);
      AuthorizationOfSplit(name, value + "\r");
      TrimIgnoresBlanks("", value, "\r");
      assert "" + value + "\r" == value + "\r";
    } else {
      SplitOnceCharNone(line, ':');
      SplitOnceCharNone(line + "\r", ':');
      hide SplitOnce;
    }
  }

  lemma StripCrShowsNowhere(line: string)
    ensures AuthorizationOf(StripCr(line)) == AuthorizationOf(line)
    ensures Words(StripCr(line)) == Words(line)
  {
    var kept := StripCr(line);
    assert line == kept || line == kept + "\r";
    hide *;
    AuthorizationIgnoresCr(kept);
    WordsIgnoreCr(kept);
  }

  lemma BlankLineSaysNothing()
    ensures AuthorizationOf("") == None && Words("") == []
  {
    SplitOnceCharNone("", ':');
  }

  lemma LastAuthorizationOfOne(line: string)
    ensures LastAuthorization([line]) == AuthorizationOf(line)
  {
    hide AuthorizationOf;
    assert [line][..0] == [];
    assert LastAuthorization([]) == None;
  }

  lemma TwoLines(line: string)
    ensures LastAuthorization([line, ""]) == AuthorizationOf(line)
  {
    hide *;
    BlankLineSaysNothing();
    LastAuthorizationOfOne(line);
    LastAuthorizationOfOne("");
    LastAuthorizationConcat([line], [""]);
    assert [line] + [""] == [line, ""];
  }

  /** What a head says, by its lines before the last line end and by its unfinished last line. */
  lemma LinesOfLonger(head: string, more: string) returns (front: seq<string>, tail: string)
    ensures Lines(head) == front + (if tail == "" then [] else [tail])
    ensures Lines(head + LF2 + more) == front + ([StripCr(tail), ""] + Lines(more))
  {
    hide *;
    EmptyHasNoCr();
    tail := Tail(head);
    var start := head[..|head| - |tail|];
    front := Lines(start);
    assert start + tail == head;
    LinesOfUnfinished(start, tail);
    LinesOfFinished(start, tail, "\n" + more);
    LinesCons("", more);
    TwoNewlines(head, more);
    assert [StripCr(tail)] + ([""] + Lines(more)) == [StripCr(tail), ""] + Lines(more);
  }

  lemma TwoNewlines(head: string, more: string)
    ensures head + LF2 + more == head + "\n" + ("\n" + more)
    ensures "" + "\n" + more == "\n" + more
  {
  }

  lemma EmptyHasNoCr()
    ensures StripCr("") == ""
  {
  }

  /** Lines added behind a head never change method or path, and only a later header the rest. */
  lemma ParseHeadContinues(head: string, more: string, body1: string, body2: string)
    ensures match ParseHead(head, body1)
            case None => ParseHead(head + LF2 + more, body2) == None
            case Some(req) =>
              var late := LastAuthorization(Lines(more));
              ParseHead(head + LF2 + more, body2)
              == Some(req.(authorization := if late.Some? then late else req.authorization, body := body2))
  {
    var front, tail := LinesOfLonger(head, more);
    hide Lines, AuthorizationOf, Words, StripCr, LastAuthorization;
    var lines, longer := Lines(head), Lines(head + LF2 + more);
    var last := if tail == "" then [] else [tail];
    StripCrShowsNowhere(tail);
    BlankLineSaysNothing();
    if front == [] {
      assert longer[0] == StripCr(tail);
      assert longer[1..] == [""] + Lines(more);
      LastAuthorizationConcat([""], Lines(more));
      NoLateHeader(tail);
      if tail != "" { assert lines[0] == tail && lines[1..] == []; }
    } else {
      assert lines[0] == longer[0] == front[0];
      assert lines[1..] == front[1..] + last;
      assert longer[1..] == front[1..] + ([StripCr(tail), ""] + Lines(more));
      LastAuthorizationConcat(front[1..], last);
      LastAuthorizationConcat(front[1..], [StripCr(tail), ""] + Lines(more));
      LastAuthorizationConcat([StripCr(tail), ""], Lines(more));
      TwoLines(StripCr(tail));
      LastAuthorizationOfOne(tail);
      NoLateHeader(tail);
    }
  }

  lemma NoLateHeader(tail: string)
    ensures LastAuthorization([]) == None && LastAuthorization([""]) == None
    ensures tail == "" ==> AuthorizationOf(tail) == None
  {
    LastAuthorizationOfOne("");
    BlankLineSaysNothing();
  }

  // ----- bearer tokens, RFC 6750 section 2.1

  function StripPrefix(s: string, prefix: string): Option<string> {
    if prefix <= s then Some(s[|prefix|..]) else None
  }

  /** What follows the scheme: by exact prefix first, then by a case-insensitive comparison. */
  function AfterScheme(raw: string): Option<string> {
    match StripPrefix(raw, "Bearer ")
    case Some(rest) => Some(rest)
    case None =>
      match SplitOnce(raw, " ")
      case None => None
      case Some((scheme, rest)) => if EqIgnoreCase(scheme, "bearer") then Some(rest) else None
  }

  function BearerToken(authorization: Option<string>): Option<string> {
    match authorization
    case None => None
    case Some(value) =>
      match AfterScheme(Trim(value))
      case None => None
      case Some(rest) => if Trim(rest) == "" then None else Some(Trim(rest))
  }

  lemma BearerSchemeIsSolid(scheme: string)
    requires EqIgnoreCase(scheme, "bearer")
    ensures |scheme| == 6 && Solid(scheme) && ' ' !in scheme
  {
    forall i | 0 <= i < |scheme| ensures !IsWhitespace(scheme[i]) && scheme[i] != ' ' {
      assert Lower(scheme[i]) == Lower("bearer"[i]);
    }
  }

  /** Both ways of stripping the scheme agree, so its letter case never matters. */
  lemma SchemeIsStripped(scheme: string, rest: string)
    requires EqIgnoreCase(scheme, "bearer")
    ensures AfterScheme(scheme + " " + rest) == Some(rest)
  {
    var s := scheme + " " + rest;
    BearerSchemeIsSolid(scheme);
    SplitOnceChar(scheme, ' ', rest);
    assert s[7..] == rest;
  }

  lemma BareSchemeCarriesNothing(scheme: string)
    requires EqIgnoreCase(scheme, "bearer")
    ensures AfterScheme(scheme) == None
  {
    BearerSchemeIsSolid(scheme);
    SplitOnceCharNone(scheme, ' ');
  }

  lemma RestIsKept(scheme: string, b1: string, core: string, b2: string)
    requires Solid(scheme) && Blank(b2) && core != "" && Trimmed(core)
    ensures Trim(scheme + " " + (b1 + core + b2)) == scheme + " " + (b1 + core)
  {
    hide Trim;
    var raw := scheme + " " + (b1 + core);
    assert raw[|raw| - 1] == core[|core| - 1];
    assert scheme + " " + (b1 + core + b2) == "" + raw + b2;
    TrimIsCore("", raw, b2);
  }

  lemma TrimAfterScheme(scheme: string, token: string) returns (rest: string)
    requires EqIgnoreCase(scheme, "bearer") && Trim(token) != ""
    ensures Trim(scheme + " " + token) == scheme + " " + rest && Trim(rest) == Trim(token)
  {
    BearerSchemeIsSolid(scheme);
    var b1, b2 := TrimDecomposes(token);
    hide Trim, EqIgnoreCase;
    var core := Trim(token);
    rest := b1 + core;
    RestIsKept(scheme, b1, core, b2);
    BlankBefore(b1, core);
  }

  lemma TrimAfterSchemeBlank(scheme: string, token: string)
    requires EqIgnoreCase(scheme, "bearer") && Trim(token) == ""
    ensures Trim(scheme + " " + token) == scheme
  {
    var b1, b2 := TrimDecomposes(token);
    BearerSchemeIsSolid(scheme);
    assert scheme + " " + token == "" + scheme + (" " + token);
    TrimIsCore("", scheme, " " + token);
  }

  /**
   Any letter case of the scheme, any white space around the value and around the token: the
   extractor yields the trimmed token, and nothing at all when that is blank.
   */
  lemma BearerTokenOf(w1: string, scheme: string, token: string, w2: string)
    requires Blank(w1) && Blank(w2) && EqIgnoreCase(scheme, "bearer")
    ensures BearerToken(Some(w1 + (scheme + " " + token) + w2))
            == if Trim(token) == "" then None else Some(Trim(token))
  {
    hide Trim, AfterScheme, EqIgnoreCase;
    TrimIgnoresBlanks(w1, scheme + " " + token, w2);
    if Trim(token) == "" {
      TrimAfterSchemeBlank(scheme, token);
      BareSchemeCarriesNothing(scheme);
    } else {
      var rest := TrimAfterScheme(scheme, token);
      SchemeIsStripped(scheme, rest);
    }
  }

  /** A value of any other scheme, or without a space, carries no token. */
  lemma OtherSchemesCarryNoToken(value: string)
    requires match SplitOnce(Trim(value), " ")
             case None => true
             case Some((scheme, _)) => !EqIgnoreCase(scheme, "bearer")
    ensures BearerToken(Some(value)) == None
  {
    var raw := Trim(value);
    hide Trim;
    if "Bearer " <= raw {
      BearerPrefixSplits(raw);
      hide SplitOnce;
    }
  }

  lemma BearerPrefixSplits(raw: string)
    requires "Bearer " <= raw
    ensures SplitOnce(raw, " ") == Some(("Bearer", raw[7..])) && EqIgnoreCase("Bearer", "bearer")
  {
    hide SplitOnce;
    assert raw == "Bearer" + [' '] + raw[7..];
    SplitOnceChar("Bearer", ' ', raw[7..]);
  }
}
