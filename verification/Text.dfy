/**
 The string primitives the broker leans on: trimming, leftmost search, splitting at the first
 separator, lines, words and `replace`. Text is modelled as its bytes, one `char` per byte.
 */
module Text {
  import opened Types

  // ----- regrouping

  lemma Regroup(a: string, b: string, c: string, d: string)
    ensures a + b + (c + d) == a + b + c + d == a + (b + c + d)
  {
    assert a + b + (c + d) == a + b + c + d;
    assert a + b + c + d == a + (b + c + d);
  }

  lemma Nest(a: string, b: string, c: string, d: string, e: string)
    ensures a + (b + c + d) + e == (a + b) + c + (d + e)
  {
  }

  lemma AppendGroups<T>(a: seq<T>, x: T, b: seq<T>)
    ensures a + [x] + b == a + ([x] + b)
  {
  }

  // ----- whitespace

  /** ASCII white space: space, and tab to carriage return. */
  predicate IsWhitespace(c: char) {
    c == ' ' || '\t' <= c <= '\r'
  }

  /** The six white-space characters of ASCII, by code. */
  lemma WhitespaceExactly(c: char)
    ensures IsWhitespace(c) <==> c as nat in {0x20, 0x09, 0x0A, 0x0B, 0x0C, 0x0D}
  {
    assert ' ' as nat == 0x20 && '\t' as nat == 0x09 && '\r' as nat == 0x0D;
  }

  ghost predicate Blank(s: string) {
    forall i :: 0 <= i < |s| ==> IsWhitespace(s[i])
  }

  ghost predicate Trimmed(s: string) {
    s != "" ==> !IsWhitespace(s[0]) && !IsWhitespace(s[|s| - 1])
  }

  /** The end of the run of white space that starts at `i`. */
  function BlankRun(s: string, i: nat): (j: nat)
    requires i <= |s|
    ensures i <= j <= |s| && (j < |s| ==> !IsWhitespace(s[j]))
    ensures forall k :: i <= k < j ==> IsWhitespace(s[k])
    decreases |s| - i
  {
    if i < |s| && IsWhitespace(s[i]) then BlankRun(s, i + 1) else i
  }

  /** The start of the run of white space that ends before `n`. */
  function BlankTail(s: string, n: nat): (j: nat)
    requires n <= |s|
    ensures j <= n && (j > 0 ==> !IsWhitespace(s[j - 1]))
    ensures forall k :: j <= k < n ==> IsWhitespace(s[k])
  {
    if n > 0 && IsWhitespace(s[n - 1]) then BlankTail(s, n - 1) else n
  }

  function TrimStart(s: string): (r: string)
    ensures |r| <= |s| && r == s[|s| - |r|..] && Blank(s[..|s| - |r|])
    ensures r != "" ==> !IsWhitespace(r[0])
  {
    s[BlankRun(s, 0)..]
  }

  function TrimEnd(s: string): (r: string)
    ensures |r| <= |s| && r == s[..|r|] && Blank(s[|r|..])
    ensures r != "" ==> !IsWhitespace(r[|r| - 1])
  {
    s[..BlankTail(s, |s|)]
  }

  function Trim(s: string): (r: string)
    ensures Trimmed(r)
  {
    TrimEnd(TrimStart(s))
  }

  lemma TrimStartSkips(w: string, s: string)
    requires Blank(w) && (s != "" ==> !IsWhitespace(s[0]))
    ensures TrimStart(w + s) == s
  {
    hide BlankRun, IsWhitespace;
    var j := BlankRun(w + s, 0);
    assert forall k :: 0 <= k < |w| ==> (w + s)[k] == w[k];
    assert s != "" ==> (w + s)[|w|] == s[0];
  }

  lemma TrimEndSkips(s: string, w: string)
    requires Blank(w) && (s != "" ==> !IsWhitespace(s[|s| - 1]))
    ensures TrimEnd(s + w) == s
  {
    hide BlankTail, IsWhitespace;
    var j := BlankTail(s + w, |s + w|);
    assert forall k :: |s| <= k < |s + w| ==> (s + w)[k] == w[k - |s|];
    assert s != "" ==> (s + w)[|s| - 1] == s[|s| - 1];
  }

  /** `Trim` is the unique way of writing a text as blank, trimmed core, blank. */
  lemma TrimIsCore(w1: string, core: string, w2: string)
    requires Blank(w1) && Blank(w2) && Trimmed(core)
    ensures Trim(w1 + core + w2) == core
  {
    if core == "" {
      assert w1 + core + w2 == (w1 + w2) + "";
      TrimStartSkips(w1 + w2, "");
    } else {
      assert w1 + core + w2 == w1 + (core + w2);
      TrimStartSkips(w1, core + w2);
      TrimEndSkips(core, w2);
    }
  }

  lemma TrimDecomposes(s: string) returns (w1: string, w2: string)
    ensures Blank(w1) && Blank(w2) && s == w1 + Trim(s) + w2
  {
    hide TrimStart, TrimEnd;
    var t := TrimStart(s);
    w1 := s[..|s| - |t|];
    w2 := t[|TrimEnd(t)|..];
  }

  lemma TrimOfTrimmed(s: string)
    requires Trimmed(s)
    ensures Trim(s) == s
  {
    TrimIsCore("", s, "");
    assert "" + s + "" == s;
  }

  lemma BlankBefore(b1: string, core: string)
    requires Blank(b1) && Trimmed(core)
    ensures Trim(b1 + core) == core
  {
    TrimIsCore(b1, core, "");
    assert b1 + core + "" == b1 + core;
  }

  lemma TrimIgnoresBlanks(w1: string, s: string, w2: string)
    requires Blank(w1) && Blank(w2)
    ensures Trim(w1 + s + w2) == Trim(s)
  {
    var b1, b2 := TrimDecomposes(s);
    hide Trim;
    var core := Trim(s);
    BlankConcat(w1, b1);
    BlankConcat(b2, w2);
    Nest(w1, b1, core, b2, w2);
    TrimIsCore(w1 + b1, core, b2 + w2);
  }

  lemma BlankConcat(a: string, b: string)
    requires Blank(a) && Blank(b)
    ensures Blank(a + b)
  {
  }

  // ----- leftmost search

  predicate MatchesAt(s: string, pat: string, i: nat) {
    i + |pat| <= |s| && s[i..i + |pat|] == pat
  }

  ghost predicate Contains(s: string, pat: string) {
    exists i: nat :: MatchesAt(s, pat, i)
  }

  /** `windows(|pat|).position(..)` from index `i` on: the leftmost match. */
  function Position(s: string, pat: string, i: nat := 0): (r: Option<nat>)
    ensures r.Some? ==> i <= r.value && MatchesAt(s, pat, r.value)
    ensures r.Some? ==> forall j: nat :: i <= j < r.value ==> !MatchesAt(s, pat, j)
    ensures r.None? ==> forall j: nat :: i <= j ==> !MatchesAt(s, pat, j)
    decreases |s| - i
  {
    if i + |pat| > |s| then None
    else if MatchesAt(s, pat, i) then Some(i)
    else Position(s, pat, i + 1)
  }

  lemma PositionIs(s: string, pat: string, k: nat)
    requires MatchesAt(s, pat, k) && forall j: nat :: j < k ==> !MatchesAt(s, pat, j)
    ensures Position(s, pat) == Some(k)
  {
    var r := Position(s, pat);
    hide MatchesAt, Position;
    assert r.Some?;
    assert !(r.value < k) && !(k < r.value);
  }

  lemma SliceOfSlice(s: string, i: nat, j: nat, a: nat, b: nat)
    requires i <= j <= |s| && a <= b <= j - i
    ensures s[i..j][a..b] == s[i + a..i + b]
  {
    forall x | a <= x < b ensures s[i..j][x] == s[i + x] {
    }
  }

  /** Texts with a common beginning have the same matches there. */
  lemma PrefixMatches(s: string, t: string, n: nat, pat: string, i: nat)
    requires n <= |s| && n <= |t| && s[..n] == t[..n] && i + |pat| <= n
    ensures MatchesAt(s, pat, i) <==> MatchesAt(t, pat, i)
  {
    SliceOfSlice(s, 0, n, i, i + |pat|);
    SliceOfSlice(t, 0, n, i, i + |pat|);
  }

  lemma MatchRejoins(s: string, pat: string, k: nat)
    requires MatchesAt(s, pat, k)
    ensures s == s[..k] + pat + s[k + |pat|..]
  {
  }

  lemma PositionStable(s: string, ext: string, pat: string)
    requires Position(s, pat).Some?
    ensures Position(s + ext, pat) == Position(s, pat)
  {
    var k := Position(s, pat).value;
    forall j: nat | j <= k ensures MatchesAt(s + ext, pat, j) <==> MatchesAt(s, pat, j) {
      if j + |pat| <= |s| { assert (s + ext)[j..j + |pat|] == s[j..j + |pat|]; }
    }
  }

  /** `split_once`: the text before and after the first separator. */
  function SplitOnce(s: string, sep: string): (r: Option<(string, string)>)
    ensures r.Some? ==> s == r.value.0 + sep + r.value.1
  {
    if |s| < |sep| then None
    else if s[..|sep|] == sep then Some(("", s[|sep|..]))
    else
      match SplitOnce(s[1..], sep)
      case None => None
      case Some((a, b)) => Some(([s[0]] + a, b))
  }

  lemma NoMatchAt(s: string, pat: string, i: nat, j: nat)
    requires j < |pat| && (i + j < |s| ==> s[i + j] != pat[j])
    ensures !MatchesAt(s, pat, i)
  {
    if i + |pat| <= |s| { assert s[i..i + |pat|][j] == s[i + j]; }
  }

  lemma MatchesAtDrop(s: string, pat: string, d: nat, i: nat)
    requires d <= |s|
    ensures MatchesAt(s, pat, d + i) <==> MatchesAt(s[d..], pat, i)
  {
    if d + i + |pat| <= |s| { assert s[d + i..d + i + |pat|] == s[d..][i..i + |pat|]; }
  }

  lemma PositionShift(s: string, pat: string)
    requires s != "" && !MatchesAt(s, pat, 0)
    ensures Position(s, pat) == match Position(s[1..], pat) case None => None case Some(k) => Some(k + 1)
  {
    hide MatchesAt, Position;
    forall j: nat ensures j > 0 ==> (MatchesAt(s, pat, j) <==> MatchesAt(s[1..], pat, j - 1)) {
      if j > 0 { MatchesAtDrop(s, pat, 1, j - 1); }
    }
    match Position(s[1..], pat)
    case None =>
    case Some(k) => assert MatchesAt(s, pat, k + 1);
  }

  /** The recursive splitter cuts exactly at the leftmost match. */
  lemma {:induction false} SplitOnceAtPosition(s: string, sep: string)
    ensures match SplitOnce(s, sep)
            case None => Position(s, sep).None?
            case Some((a, b)) => Position(s, sep) == Some(|a|)
  {
    if |s| < |sep| {
    } else if s[..|sep|] == sep {
      assert s[0..0 + |sep|] == sep;
    } else {
      hide Position;
      SplitOnceAtPosition(s[1..], sep);
      PositionShift(s, sep);
    }
  }

  lemma SplitOnceUnique(a: string, sep: string, b: string)
    requires sep != ""
    requires forall i: nat :: i < |a| ==> !MatchesAt(a + sep + b, sep, i)
    ensures SplitOnce(a + sep + b, sep) == Some((a, b))
  {
    var s := a + sep + b;
    assert MatchesAt(s, sep, |a|);
    SplitOnceAtPosition(s, sep);
    hide Position, SplitOnce, MatchesAt;
    var (x, y) := SplitOnce(s, sep).value;
    assert |x| == |a|;
    assert x == s[..|a|] == a;
    assert y == s[|a| + |sep|..] == b;
  }

  /** The two pieces, by the index of the cut. */
  lemma SplitOnceCuts(s: string, sep: string, k: nat)
    requires Position(s, sep) == Some(k)
    ensures k + |sep| <= |s| && SplitOnce(s, sep) == Some((s[..k], s[k + |sep|..]))
  {
    SplitOnceAtPosition(s, sep);
    hide *;
    var (a, b) := SplitOnce(s, sep).value;
    ThreeParts(a, sep, b);
  }

  lemma ThreeParts(a: string, sep: string, b: string)
    ensures (a + sep + b)[..|a|] == a && (a + sep + b)[|a| + |sep|..] == b
  {
  }

  /** With a one-character separator it is enough that the left part avoids it. */
  lemma SplitOnceChar(a: string, c: char, b: string)
    requires c !in a
    ensures SplitOnce(a + [c] + b, [c]) == Some((a, b))
  {
    forall i: nat | i < |a| ensures !MatchesAt(a + [c] + b, [c], i) {
      assert a[i] in a;
      NoMatchAt(a + [c] + b, [c], i, 0);
    }
    SplitOnceUnique(a, [c], b);
  }

  lemma SplitOnceCharNone(s: string, c: char)
    requires c !in s
    ensures SplitOnce(s, [c]).None?
  {
    SplitOnceAtPosition(s, [c]);
    forall j: nat ensures !MatchesAt(s, [c], j) {
      if j < |s| { assert s[j] in s; }
      NoMatchAt(s, [c], j, 0);
    }
  }

  lemma MatchOfChar(s: string, c: char, i: nat)
    ensures MatchesAt(s, [c], i) <==> i < |s| && s[i] == c
  {
    if i < |s| { assert s[i..i + 1] == [s[i]]; }
  }

  lemma SplitOnceCharSome(s: string, c: char)
    requires c in s
    ensures SplitOnce(s, [c]).Some? && c !in SplitOnce(s, [c]).value.0
  {
    var k :| 0 <= k < |s| && s[k] == c;
    MatchOfChar(s, c, k);
    var p := Position(s, [c]).value;
    SplitOnceCuts(s, [c], p);
    hide Position, SplitOnce, MatchesAt;
    forall i | 0 <= i < p ensures s[i] != c { MatchOfChar(s, c, i); }
  }

  lemma ContainsSub(a: string, s: string, b: string, pat: string)
    requires Contains(s, pat)
    ensures Contains(a + s + b, pat)
  {
    var i: nat :| MatchesAt(s, pat, i);
    assert (a + s + b)[|a| + i..|a| + i + |pat|] == s[i..i + |pat|];
    assert MatchesAt(a + s + b, pat, |a| + i);
  }

  lemma ContainsPart(buf: string, ext: string, pat: string)
    requires Contains(buf, pat)
    ensures Contains(buf + ext, pat)
  {
    ContainsSub("", buf, ext, pat);
    assert "" + buf + ext == buf + ext;
  }

  lemma ContainsTransitive(s: string, t: string, pat: string)
    requires Contains(s, t) && Contains(t, pat)
    ensures Contains(s, pat)
  {
    var i: nat :| MatchesAt(s, t, i);
    assert s == s[..i] + t + s[i + |t|..];
    ContainsSub(s[..i], t, s[i + |t|..], pat);
  }

  lemma ContainsSelf(s: string)
    ensures Contains(s, s)
  {
    assert s[0..0 + |s|] == s;
    assert MatchesAt(s, s, 0);
  }

  // ----- replace

  /** `str::replace`: leftmost, non-overlapping. An empty pattern matches between all characters. */
  function Replace(s: string, pat: string, rep: string): string
    decreases |s|
  {
    if pat == "" then Interleave(s, rep)
    else
      match Position(s, pat)
      case None => s
      case Some(k) => s[..k] + rep + Replace(s[k + |pat|..], pat, rep)
  }

  function Interleave(s: string, rep: string): string {
    if s == "" then rep else rep + [s[0]] + Interleave(s[1..], rep)
  }

  function Join(pieces: seq<string>, sep: string): string
    requires pieces != []
  {
    if |pieces| == 1 then pieces[0] else pieces[0] + sep + Join(pieces[1..], sep)
  }

  /** The text cut at its leftmost, non-overlapping matches. */
  ghost predicate CutAtMatches(pieces: seq<string>, pat: string) {
    && (forall p :: p in pieces ==> !Contains(p, pat))
    && (forall i :: 0 <= i < |pieces| - 1 ==> Position(pieces[i] + pat, pat) == Some(|pieces[i]|))
  }

  lemma MatchIsLeftmostInPrefix(s: string, pat: string)
    requires pat != "" && Position(s, pat).Some?
    ensures var k := Position(s, pat).value;
            Position(s[..k] + pat, pat) == Some(k) && !Contains(s[..k], pat)
  {
    var k := Position(s, pat).value;
    hide Position;
    assert s[..k] + pat == s[..k + |pat|];
    forall j: nat | j <= k ensures MatchesAt(s[..k] + pat, pat, j) <==> MatchesAt(s, pat, j) {
      assert (s[..k] + pat)[j..j + |pat|] == s[j..j + |pat|];
    }
    forall j: nat ensures !MatchesAt(s[..k], pat, j) {
      if j + |pat| <= k { assert s[..k][j..j + |pat|] == s[j..j + |pat|]; assert !MatchesAt(s, pat, j); }
    }
  }

  lemma CutMore(front: string, tail: seq<string>, pat: string)
    requires tail != [] && CutAtMatches(tail, pat)
    requires Position(front + pat, pat) == Some(|front|) && !Contains(front, pat)
    ensures CutAtMatches([front] + tail, pat)
    ensures forall sep :: Join([front] + tail, sep) == front + sep + Join(tail, sep)
  {
    hide Contains, Position;
    assert ([front] + tail)[1..] == tail;
  }

  /** `replace` swaps the separators between the pieces and keeps every piece in place. */
  lemma {:induction false} ReplaceSwapsSeparators(s: string, pat: string, rep: string) returns (pieces: seq<string>)
    requires pat != ""
    ensures pieces != [] && CutAtMatches(pieces, pat)
    ensures s == Join(pieces, pat) && Replace(s, pat, rep) == Join(pieces, rep)
    decreases |s|
  {
    match Position(s, pat)
    case None => pieces := [s];
    case Some(k) =>
      MatchIsLeftmostInPrefix(s, pat);
      var front, rest := s[..k], s[k + |pat|..];
      hide Contains, MatchesAt, Position;
      ThreeParts(front, pat, rest);
      assert s == front + pat + rest;
      var tail := ReplaceSwapsSeparators(rest, pat, rep);
      hide Replace;
      pieces := [front] + tail;
      CutMore(front, tail, pat);
  }

  // ----- lines and words

  function StripCr(s: string): string {
    if s != "" && s[|s| - 1] == '\r' then s[..|s| - 1] else s
  }

  /** `str::lines`: cut after each LF, drop the LF and one CR before it; no empty last line. */
  function Lines(s: string): seq<string>
    decreases |s|
  {
    if s == "" then []
    else
      match Position(s, "\n")
      case None => [s]
      case Some(k) => [StripCr(s[..k])] + Lines(s[k + 1..])
  }

  lemma LinesCons(line: string, rest: string)
    requires '\n' !in line
    ensures Lines(line + "\n" + rest) == [StripCr(line)] + Lines(rest)
  {
    var s := line + "\n" + rest;
    SplitOnceChar(line, '\n', rest);
    SplitOnceAtPosition(s, "\n");
    assert s[..|line|] == line && s[|line| + 1..] == rest;
  }

  lemma LinesSingle(line: string)
    requires '\n' !in line && line != ""
    ensures Lines(line) == [line]
  {
    SplitOnceCharNone(line, '\n');
    SplitOnceAtPosition(line, "\n");
  }

  ghost predicate NewlineTerminated(content: string) {
    content != "" ==> content[|content| - 1] == '\n'
  }

  /** What follows the last newline. */
  function Tail(s: string): (r: string)
    ensures |r| <= |s| && r == s[|s| - |r|..] && '\n' !in r
    ensures NewlineTerminated(s[..|s| - |r|])
  {
    if s == "" || s[|s| - 1] == '\n' then ""
    else Tail(s[..|s| - 1]) + [s[|s| - 1]]
  }

  lemma PositionOfNewline(content: string)
    ensures match Position(content, "\n")
            case None => '\n' !in content
            case Some(k) => k < |content| && content[k] == '\n' && '\n' !in content[..k]
  {
    match Position(content, "\n")
    case None =>
      forall k | 0 <= k < |content| ensures content[k] != '\n' {
        assert !MatchesAt(content, "\n", k);
        assert content[k..k + 1] == [content[k]];
      }
    case Some(k) =>
      forall j | 0 <= j < k ensures content[j] != '\n' {
        assert !MatchesAt(content, "\n", j);
        assert content[j..j + 1] == [content[j]];
      }
  }

  lemma LinesSplitBefore(s: string, more: string, k: nat)
    requires k < |s| && s[k] == '\n' && '\n' !in s[..k]
    ensures Lines(s + more) == [StripCr(s[..k])] + Lines(s[k + 1..] + more)
  {
    hide Lines;
    assert (s + more)[..k] == s[..k];
    assert (s + more)[k + 1..] == s[k + 1..] + more;
    LinesSplitAt(s + more, k);
  }

  lemma LinesSplitAt(s: string, k: nat)
    requires k < |s| && s[k] == '\n' && '\n' !in s[..k]
    ensures Lines(s) == [StripCr(s[..k])] + Lines(s[k + 1..])
  {
    hide Lines;
    assert s == s[..k] + "\n" + s[k + 1..];
    LinesCons(s[..k], s[k + 1..]);
  }

  /** After a newline the lines of a text go on independently. */
  lemma {:induction false} LinesConcat(s: string, more: string)
    requires NewlineTerminated(s)
    ensures Lines(s + more) == Lines(s) + Lines(more)
    decreases |s|
  {
    if s == "" {
      assert s + more == more;
    } else {
      PositionOfNewline(s);
      assert s[|s| - 1] in s;
      var k := Position(s, "\n").value;
      hide Lines, Position;
      LinesConcat(s[k + 1..], more);
      LinesSplitAt(s, k);
      LinesSplitBefore(s, more, k);
    }
  }

  lemma NoLines()
    ensures Lines("") == []
  {
  }

  lemma LinesOfUnfinished(front: string, tail: string)
    requires NewlineTerminated(front) && '\n' !in tail
    ensures Lines(front + tail) == Lines(front) + (if tail == "" then [] else [tail])
  {
    hide Lines;
    LinesConcat(front, tail);
    if tail == "" { NoLines(); } else { LinesSingle(tail); }
  }

  lemma LinesOfFinished(front: string, tail: string, more: string)
    requires NewlineTerminated(front) && '\n' !in tail
    ensures Lines(front + tail + "\n" + more) == Lines(front) + ([StripCr(tail)] + Lines(more))
  {
    hide Lines, StripCr, NewlineTerminated;
    Regroup(front, tail, "\n", more);
    assert front + tail + "\n" + more == front + (tail + "\n" + more);
    LinesConcat(front, tail + "\n" + more);
    LinesCons(tail, more);
  }

  /** The end of the run of other characters that starts at `i`. */
  function SolidRun(s: string, i: nat): (j: nat)
    requires i <= |s|
    ensures i <= j <= |s| && (j < |s| ==> IsWhitespace(s[j]))
    ensures forall k :: i <= k < j ==> !IsWhitespace(s[k])
    decreases |s| - i
  {
    if i < |s| && !IsWhitespace(s[i]) then SolidRun(s, i + 1) else i
  }

  function Word(s: string): (w: string)
    ensures |w| <= |s| && w == s[..|w|]
    ensures s != "" && !IsWhitespace(s[0]) ==> w != ""
  {
    s[..SolidRun(s, 0)]
  }

  /** `str::split_whitespace`. */
  function Words(s: string): seq<string>
    decreases |s|
  {
    var t := TrimStart(s);
    if t == "" then []
    else
      var n := |Word(t)|;
      [Word(t)] + Words(t[n..])
  }

  ghost predicate Solid(w: string) {
    w != "" && forall i :: 0 <= i < |w| ==> !IsWhitespace(w[i])
  }

  lemma WordStops(w: string, rest: string)
    requires Solid(w) && (rest != "" ==> IsWhitespace(rest[0]))
    ensures Word(w + rest) == w
  {
    hide SolidRun, IsWhitespace;
    var j := SolidRun(w + rest, 0);
    assert forall k :: 0 <= k < |w| ==> (w + rest)[k] == w[k];
    assert rest != "" ==> (w + rest)[|w|] == rest[0];
  }

  lemma WordsCons(w: string, rest: string)
    requires Solid(w) && (rest != "" ==> IsWhitespace(rest[0]))
    ensures Words(w + rest) == [w] + Words(rest)
  {
    var t := w + rest;
    WordStops(w, rest);
    assert t != "" && !IsWhitespace(t[0]);
    hide Word, TrimStart, IsWhitespace, Solid;
    TrimStartSkips("", t);
    assert "" + t == t;
    assert t[|w|..] == rest;
  }

  lemma WordsSkipSpace(s: string)
    ensures Words(" " + s) == Words(s)
  {
    hide TrimStart, Word;
    TrimStartSkips(" ", TrimStart(s));
    var b := s[..|s| - |TrimStart(s)|];
    assert " " + s == (" " + b) + TrimStart(s);
    TrimStartSkips(" " + b, TrimStart(s));
  }

  lemma WordOfEnded(t: string)
    requires t != "" && !IsWhitespace(t[0])
    ensures Word(t + "\r") == Word(t)
  {
    var w := Word(t);
    assert SolidRun(t, 0) == |w|;
    assert forall k :: 0 <= k < |w| ==> !IsWhitespace(t[k]) && w[k] == t[k];
    assert t + "\r" == w + (t[|w|..] + "\r");
    assert |w| < |t| ==> (t[|w|..] + "\r")[0] == t[|w|];
    assert IsWhitespace((t[|w|..] + "\r")[0]);
    WordStops(w, t[|w|..] + "\r");
  }

  /** A carriage return left at the end of a line does not show in its words. */
  lemma {:induction false} WordsIgnoreCr(s: string)
    ensures Words(s + "\r") == Words(s)
    decreases |s|
  {
    var t := TrimStart(s);
    TrimStartOfEnded(s);
    hide TrimStart, Word, IsWhitespace;
    if t != "" {
      WordOfEnded(t);
      DropOfEnded(t, |Word(t)|);
      WordsIgnoreCr(t[|Word(t)|..]);
    }
  }

  lemma TrimStartOfEnded(s: string)
    ensures TrimStart(s + "\r") == if TrimStart(s) == "" then "" else TrimStart(s) + "\r"
  {
    var t := TrimStart(s);
    var b := s[..|s| - |t|];
    hide TrimStart;
    assert s == b + t;
    if t == "" {
      assert s + "\r" == (b + "\r") + "";
      TrimStartSkips(b + "\r", "");
    } else {
      assert s + "\r" == b + (t + "\r");
      TrimStartSkips(b, t + "\r");
    }
  }

  lemma DropOfEnded(t: string, k: nat)
    requires k <= |t|
    ensures (t + "\r")[k..] == t[k..] + "\r"
  {
  }

  // ----- case

  function Lower(c: char): char {
    if 'A' <= c <= 'Z' then c - 'A' + 'a' else c
  }

  predicate EqIgnoreCase(a: string, b: string) {
    |a| == |b| && forall i :: 0 <= i < |a| ==> Lower(a[i]) == Lower(b[i])
  }

  /** The same character, or the two cases of one ASCII letter. */
  predicate SameLetter(c: char, d: char) {
    c == d || ('A' <= c <= 'Z' && d as nat == c as nat + 32) || ('A' <= d <= 'Z' && c as nat == d as nat + 32)
  }

  lemma EqIgnoreCaseExactly(a: string, b: string)
    ensures EqIgnoreCase(a, b) <==> |a| == |b| && forall i :: 0 <= i < |a| ==> SameLetter(a[i], b[i])
  {
    forall c: char, d: char ensures Lower(c) == Lower(d) <==> SameLetter(c, d) { LowerExactly(c, d); }
    hide Lower, SameLetter;
  }

  lemma LowerExactly(c: char, d: char)
    ensures Lower(c) == Lower(d) <==> SameLetter(c, d)
  {
    assert 'A' as nat == 65 && 'Z' as nat == 90 && 'a' as nat == 97;
  }
}
