/** `put_file`/`get_file` of `src/forge/contents.rs`: padded base64 (RFC 4648 section 4) and white space. */
module Contents {
  import opened Types
  import opened Text

  type Byte = n: nat | n < 256

  function Char64(i: nat): char
    requires i < 64
  {
    if i < 26 then 'A' + i as char
    else if i < 52 then 'a' + (i - 26) as char
    else if i < 62 then '0' + (i - 52) as char
    else if i == 62 then '+' else '/'
  }

  function Index64(c: char): (r: Option<nat>)
    ensures r.Some? ==> r.value < 64 && Char64(r.value) == c
  {
    if 'A' <= c <= 'Z' then Some(c as nat - 'A' as nat)
    else if 'a' <= c <= 'z' then Some(c as nat - 'a' as nat + 26)
    else if '0' <= c <= '9' then Some(c as nat - '0' as nat + 52)
    else if c == '+' then Some(62)
    else if c == '/' then Some(63)
    else None
  }

  lemma IndexInvertsChar(i: nat)
    requires i < 64
    ensures Index64(Char64(i)) == Some(i) && Char64(i) != '=' && !IsWhitespace(Char64(i))
  {
  }

  // How three bytes are spread over four six-bit indices, and back.

  type Sextet = n: nat | n < 64

  function First(b0: Byte): Sextet { b0 / 4 }
  function Second(b0: Byte, b1: Byte): Sextet { b0 % 4 * 16 + b1 / 16 }
  function Third(b1: Byte, b2: Byte): Sextet { b1 % 16 * 4 + b2 / 64 }
  function Fourth(b2: Byte): Sextet { b2 % 64 }

  function Byte0(i0: Sextet, i1: Sextet): Byte { i0 * 4 + i1 / 16 }
  function Byte1(i1: Sextet, i2: Sextet): Byte { i1 % 16 * 16 + i2 / 4 }
  function Byte2(i2: Sextet, i3: Sextet): Byte { i2 % 4 * 64 + i3 }

  lemma MiddleByteRecovered(b0: Byte, b1: Byte, b2: Byte)
    ensures Byte1(Second(b0, b1), Third(b1, b2)) == b1
  {
    var high, low := b1 / 16, b1 % 16;
    assert b1 == high * 16 + low;
    assert Second(b0, b1) % 16 == high;
    assert Third(b1, b2) / 4 == low;
  }

  lemma FirstByteRecovered(b0: Byte, b1: Byte)
    ensures Byte0(First(b0), Second(b0, b1)) == b0 && Second(b0, 0) % 16 == 0
  {
    var high, low, next := b0 / 4, b0 % 4, b1 / 16;
    assert b0 == high * 4 + low && 0 <= next < 16;
    assert Second(b0, b1) == low * 16 + next;
    assert (low * 16 + next) / 16 == low;
  }

  lemma LastByteRecovered(b1: Byte, b2: Byte)
    ensures Byte2(Third(b1, b2), Fourth(b2)) == b2 && Third(b1, 0) % 4 == 0
  {
    var top, high, low := b1 % 16, b2 / 64, b2 % 64;
    assert b2 == high * 64 + low && 0 <= high < 4;
    assert Third(b1, b2) == top * 4 + high;
    assert (top * 4 + high) % 4 == high;
    assert Third(b1, 0) == top * 4;
    hide Third;
    assert Byte2(top * 4 + high, low) == high * 64 + low;
  }

  lemma BytesRecovered(b0: Byte, b1: Byte, b2: Byte)
    ensures Byte0(First(b0), Second(b0, b1)) == b0
    ensures Byte1(Second(b0, b1), Third(b1, b2)) == b1
    ensures Byte2(Third(b1, b2), Fourth(b2)) == b2
    ensures Second(b0, 0) % 16 == 0 && Third(b1, 0) % 4 == 0
  {
    hide *;
    FirstByteRecovered(b0, b1);
    MiddleByteRecovered(b0, b1, b2);
    LastByteRecovered(b1, b2);
  }

  lemma SextetsRecovered(i0: Sextet, i1: Sextet, i2: Sextet, i3: Sextet)
    ensures First(Byte0(i0, i1)) == i0
    ensures Second(Byte0(i0, i1), Byte1(i1, i2)) == i1
    ensures Third(Byte1(i1, i2), Byte2(i2, i3)) == i2
    ensures Fourth(Byte2(i2, i3)) == i3
    ensures i1 % 16 == 0 ==> Second(Byte0(i0, i1), 0) == i1
    ensures i2 % 4 == 0 ==> Third(Byte1(i1, i2), 0) == i2
  {
  }

  function Encode(b: seq<Byte>): string {
    if b == [] then ""
    else if |b| == 1 then EncodeOne(b[0])
    else if |b| == 2 then EncodeTwo(b[0], b[1])
    else EncodeThree(b[0], b[1], b[2]) + Encode(b[3..])
  }

  function EncodeOne(b0: Byte): (q: string)
    ensures |q| == 4
  {
    [Char64(First(b0)), Char64(Second(b0, 0)), '=', '=']
  }

  function EncodeTwo(b0: Byte, b1: Byte): (q: string)
    ensures |q| == 4
  {
    [Char64(First(b0)), Char64(Second(b0, b1)), Char64(Third(b1, 0)), '=']
  }

  function EncodeThree(b0: Byte, b1: Byte, b2: Byte): (q: string)
    ensures |q| == 4
  {
    [Char64(First(b0)), Char64(Second(b0, b1)), Char64(Third(b1, b2)), Char64(Fourth(b2))]
  }

  /** One quantum of four characters; padding only at the end of the text, unused bits zero. */
  function DecodeQuad(q: string, last: bool): Option<seq<Byte>>
    requires |q| == 4
  {
    match (Index64(q[0]), Index64(q[1]))
    case (Some(i0), Some(i1)) =>
      if last && q[2] == '=' && q[3] == '=' then
        if i1 % 16 == 0 then Some([Byte0(i0, i1)]) else None
      else (
        match Index64(q[2])
        case None => None
        case Some(i2) =>
          if last && q[3] == '=' then
            if i2 % 4 == 0 then Some([Byte0(i0, i1), Byte1(i1, i2)]) else None
          else (
            match Index64(q[3])
            case None => None
            case Some(i3) => Some([Byte0(i0, i1), Byte1(i1, i2), Byte2(i2, i3)])
          )
      )
    case _ => None
  }

  function Decode(s: string): Option<seq<Byte>> {
    if s == "" then Some([])
    else if |s| < 4 then None
    else
      match (DecodeQuad(s[..4], s[4..] == ""), Decode(s[4..]))
      case (Some(head), Some(tail)) => Some(head + tail)
      case _ => None
  }

  lemma QuadOfThree(b0: Byte, b1: Byte, b2: Byte, last: bool)
    ensures DecodeQuad(EncodeThree(b0, b1, b2), last) == Some([b0, b1, b2])
  {
    IndexInvertsChar(First(b0));
    IndexInvertsChar(Second(b0, b1));
    IndexInvertsChar(Third(b1, b2));
    IndexInvertsChar(Fourth(b2));
    BytesRecovered(b0, b1, b2);
    hide Char64, Index64, First, Second, Third, Fourth, Byte0, Byte1, Byte2;
  }

  lemma QuadOfTwo(b0: Byte, b1: Byte)
    ensures DecodeQuad(EncodeTwo(b0, b1), true) == Some([b0, b1])
  {
    IndexInvertsChar(First(b0));
    IndexInvertsChar(Second(b0, b1));
    IndexInvertsChar(Third(b1, 0));
    BytesRecovered(b0, b1, 0);
    hide Char64, Index64, First, Second, Third, Byte0, Byte1;
  }

  lemma QuadOfOne(b0: Byte)
    ensures DecodeQuad(EncodeOne(b0), true) == Some([b0])
  {
    hide Char64, Index64, First, Second, Byte0;
    var i0, i1 := First(b0), Second(b0, 0);
    IndexInvertsChar(i0);
    IndexInvertsChar(i1);
    SingleByte(b0);
    QuadOfOnePad([Char64(i0), Char64(i1), '=', '='], i0, i1);
  }

  lemma SingleByte(b0: Byte)
    ensures Byte0(First(b0), Second(b0, 0)) == b0 && Second(b0, 0) % 16 == 0
  {
  }

  lemma QuadOfOnePad(q: string, i0: Sextet, i1: Sextet)
    requires |q| == 4 && q[2] == '=' && q[3] == '=' && i1 % 16 == 0
    requires Index64(q[0]) == Some(i0) && Index64(q[1]) == Some(i1)
    ensures DecodeQuad(q, true) == Some([Byte0(i0, i1)])
  {
    hide Index64, Byte0;
  }

  lemma DecodeSingleQuad(q: string, b: seq<Byte>)
    requires |q| == 4 && DecodeQuad(q, true) == Some(b)
    ensures Decode(q) == Some(b)
  {
    hide DecodeQuad;
    assert q[..4] == q && q[4..] == "";
    assert Decode("") == Some([]);
    assert b + [] == b;
  }

  /** Decoding inverts encoding, for every byte sequence. */
  lemma {:induction false} DecodeInvertsEncode(b: seq<Byte>)
    ensures Decode(Encode(b)) == Some(b)
  {
    hide DecodeQuad, EncodeOne, EncodeTwo, EncodeThree;
    if b == [] {
    } else if |b| == 1 {
      assert b == [b[0]];
      QuadOfOne(b[0]);
      DecodeSingleQuad(EncodeOne(b[0]), b);
    } else if |b| == 2 {
      assert b == [b[0], b[1]];
      QuadOfTwo(b[0], b[1]);
      DecodeSingleQuad(EncodeTwo(b[0], b[1]), b);
    } else {
      var q, rest := EncodeThree(b[0], b[1], b[2]), Encode(b[3..]);
      QuadOfThree(b[0], b[1], b[2], rest == "");
      DecodeInvertsEncode(b[3..]);
      assert (q + rest)[..4] == q && (q + rest)[4..] == rest;
      assert [b[0], b[1], b[2]] + b[3..] == b;
      hide Encode;
    }
  }

  lemma CanonicalThree(q: string, i0: Sextet, i1: Sextet, i2: Sextet, i3: Sextet)
    requires |q| == 4 && q == [Char64(i0), Char64(i1), Char64(i2), Char64(i3)]
    ensures Encode([Byte0(i0, i1), Byte1(i1, i2), Byte2(i2, i3)]) == q
  {
    SextetsRecovered(i0, i1, i2, i3);
    hide Char64, First, Second, Third, Fourth, Byte0, Byte1, Byte2;
    var b := [Byte0(i0, i1), Byte1(i1, i2), Byte2(i2, i3)];
    assert b[3..] == [];
    assert EncodeThree(b[0], b[1], b[2]) == q;
    hide EncodeThree;
  }

  lemma CanonicalTwo(q: string, i0: Sextet, i1: Sextet, i2: Sextet)
    requires q == [Char64(i0), Char64(i1), Char64(i2), '='] && i2 % 4 == 0
    ensures Encode([Byte0(i0, i1), Byte1(i1, i2)]) == q
  {
    SextetsRecovered(i0, i1, i2, 0);
    hide Char64, First, Second, Third, Fourth, Byte0, Byte1, Byte2;
  }

  lemma CanonicalOne(q: string, i0: Sextet, i1: Sextet)
    requires q == [Char64(i0), Char64(i1), '=', '='] && i1 % 16 == 0
    ensures Encode([Byte0(i0, i1)]) == q
  {
    SextetsRecovered(i0, i1, 0, 0);
    hide Char64, First, Second, Third, Fourth, Byte0, Byte1, Byte2;
  }

  lemma QuadIsCanonical(q: string, last: bool)
    requires |q| == 4 && DecodeQuad(q, last).Some?
    ensures Encode(DecodeQuad(q, last).value) == q
    ensures !last ==> |DecodeQuad(q, last).value| == 3
  {
    hide Char64, Index64, Byte0, Byte1, Byte2, Encode;
    var i0, i1 := Index64(q[0]).value, Index64(q[1]).value;
    assert q == [q[0], q[1], q[2], q[3]];
    if last && q[2] == '=' && q[3] == '=' {
      CanonicalOne(q, i0, i1);
    } else if last && q[3] == '=' {
      CanonicalTwo(q, i0, i1, Index64(q[2]).value);
    } else {
      CanonicalThree(q, i0, i1, Index64(q[2]).value, Index64(q[3]).value);
    }
  }

  lemma EncodePrepend(head: seq<Byte>, tail: seq<Byte>)
    requires |head| == 3 || tail == []
    ensures Encode(head + tail) == Encode(head) + Encode(tail)
  {
    hide EncodeOne, EncodeTwo, EncodeThree;
    if tail == [] {
      assert head + tail == head;
    } else {
      assert (head + tail)[3..] == tail;
      assert head[3..] == [];
    }
  }

  /** Only canonical texts decode, so encoding inverts decoding as well. */
  lemma {:induction false} EncodeInvertsDecode(s: string)
    requires Decode(s).Some?
    ensures Encode(Decode(s).value) == s
  {
    hide DecodeQuad;
    if s != "" {
      hide Encode;
      var last := s[4..] == "";
      QuadIsCanonical(s[..4], last);
      EncodeInvertsDecode(s[4..]);
      EncodePrepend(DecodeQuad(s[..4], last).value, Decode(s[4..]).value);
      assert s[..4] + s[4..] == s;
    }
  }

  // ----- the standard's own terms, RFC 4648 section 4

  const UPPER := "ABCDEFGHIJKLMNOPQRSTUVWXYZ"
  const LOWER := "abcdefghijklmnopqrstuvwxyz"
  const DIGITS := "0123456789"
  const ALPHABET := UPPER + LOWER + DIGITS + "+/"

  lemma UpperLetters()
    ensures |UPPER| == 26 && forall i :: 0 <= i < 26 ==> UPPER[i] == 'A' + i as char
  {
  }

  lemma LowerLetters()
    ensures |LOWER| == 26 && forall i :: 0 <= i < 26 ==> LOWER[i] == 'a' + i as char
  {
  }

  lemma AlphabetIsStandard(i: nat)
    requires i < 64
    ensures Char64(i) == ALPHABET[i]
  {
    UpperLetters();
    LowerLetters();
    assert forall k :: 0 <= k < 10 ==> DIGITS[k] == '0' + k as char;
    hide UPPER, LOWER, DIGITS;
    assert |ALPHABET| == 64;
  }

  /** Three bytes as one number, most significant first. */
  function Number(b0: int, b1: int, b2: int): int {
    (b0 * 256 + b1) * 256 + b2
  }

  function Digits(i0: int, i1: int, i2: int, i3: int): int {
    ((i0 * 64 + i1) * 64 + i2) * 64 + i3
  }

  /** The number written by four characters of the alphabet, most significant first. */
  ghost predicate Spells(q: string, n: int) {
    |q| == 4 && exists i0: nat, i1: nat, i2: nat, i3: nat ::
      && i0 < 64 && i1 < 64 && i2 < 64 && i3 < 64
      && n == Digits(i0, i1, i2, i3)
      && q[0] == ALPHABET[i0] && q[1] == ALPHABET[i1] && q[2] == ALPHABET[i2] && q[3] == ALPHABET[i3]
  }

  lemma ThreeBytesNumber(b0: Byte, b1: Byte, b2: Byte)
    ensures Digits(First(b0), Second(b0, b1), Third(b1, b2), Fourth(b2)) == Number(b0, b1, b2)
  {
    assert b0 == b0 / 4 * 4 + b0 % 4;
    assert b1 == b1 / 16 * 16 + b1 % 16;
    assert b2 == b2 / 64 * 64 + b2 % 64;
  }

  /**
   Group by group the text is the 24-bit number of three bytes in base 64; a last group of one or
   two bytes is that of the group filled up with zeros, with its padding characters in place.
   */
  lemma EncodeIsBase64(b: seq<Byte>)
    ensures b == [] ==> Encode(b) == ""
    ensures |b| >= 3 ==> |Encode(b)| >= 4 && Spells(Encode(b)[..4], Number(b[0], b[1], b[2]))
                         && Encode(b)[4..] == Encode(b[3..])
    ensures |b| == 2 ==> |Encode(b)| == 4 && Encode(b)[3] == '='
                         && Spells(Encode(b)[..3] + "A", Number(b[0], b[1], 0))
    ensures |b| == 1 ==> |Encode(b)| == 4 && Encode(b)[2..] == "=="
                         && Spells(Encode(b)[..2] + "AA", Number(b[0], 0, 0))
  {
    hide First, Second, Third, Fourth, Char64;
    if |b| >= 3 {
      SpellsGroup(b[0], b[1], b[2]);
      assert Encode(b)[..4] == Group(b[0], b[1], b[2]);
    } else if |b| == 2 {
      SpellsGroup(b[0], b[1], 0);
      ZeroIsA(b[1]);
      assert Encode(b)[..3] + "A" == Group(b[0], b[1], 0);
    } else if |b| == 1 {
      SpellsGroup(b[0], 0, 0);
      ZeroIsA(0);
      assert Encode(b)[..2] + "AA" == Group(b[0], 0, 0);
    }
  }

  function Group(b0: Byte, b1: Byte, b2: Byte): string {
    [Char64(First(b0)), Char64(Second(b0, b1)), Char64(Third(b1, b2)), Char64(Fourth(b2))]
  }

  lemma SpellsGroup(b0: Byte, b1: Byte, b2: Byte)
    ensures Spells(Group(b0, b1, b2), Number(b0, b1, b2))
  {
    var i0: nat, i1: nat, i2: nat, i3: nat := First(b0), Second(b0, b1), Third(b1, b2), Fourth(b2);
    ThreeBytesNumber(b0, b1, b2);
    AlphabetIsStandard(i0);
    AlphabetIsStandard(i1);
    AlphabetIsStandard(i2);
    AlphabetIsStandard(i3);
    hide First, Second, Third, Fourth, Char64;
    assert Group(b0, b1, b2)[0] == ALPHABET[i0];
  }

  lemma ZeroIsA(b1: Byte)
    ensures Char64(Fourth(0)) == 'A' && Char64(Third(0, 0)) == 'A'
  {
  }

  // ----- white space the server inserts

  /** `filter(|c| !c.is_whitespace())`. */
  function StripWhitespace(s: string): string {
    if s == "" then ""
    else (if IsWhitespace(s[0]) then "" else [s[0]]) + StripWhitespace(s[1..])
  }

  /** `gaps[i]` goes before character `i`, the last gap to the end. */
  function Insert(s: string, gaps: seq<string>): string
    requires |gaps| == |s| + 1
  {
    if s == "" then gaps[0] else gaps[0] + ([s[0]] + Insert(s[1..], gaps[1..]))
  }

  lemma {:induction false} StripSkipsBlank(w: string, s: string)
    requires Blank(w)
    ensures StripWhitespace(w + s) == StripWhitespace(s)
  {
    if w == "" {
      assert w + s == s;
    } else {
      assert (w + s)[1..] == w[1..] + s;
      StripSkipsBlank(w[1..], s);
    }
  }

  lemma {:induction false} StripUndoesInsert(s: string, gaps: seq<string>)
    requires |gaps| == |s| + 1 && forall g :: g in gaps ==> Blank(g)
    requires forall i :: 0 <= i < |s| ==> !IsWhitespace(s[i])
    ensures StripWhitespace(Insert(s, gaps)) == s
  {
    assert gaps[0] in gaps;
    hide IsWhitespace, Blank;
    if s == "" {
      StripSkipsBlank(gaps[0], "");
      assert gaps[0] + "" == gaps[0];
    } else {
      var rest := Insert(s[1..], gaps[1..]);
      StripUndoesInsert(s[1..], gaps[1..]);
      StripSkipsBlank(gaps[0], [s[0]] + rest);
      assert ([s[0]] + rest)[1..] == rest;
      assert [s[0]] + s[1..] == s;
    }
  }

  lemma {:induction false} EncodedHasNoWhitespace(b: seq<Byte>)
    ensures forall i :: 0 <= i < |Encode(b)| ==> !IsWhitespace(Encode(b)[i])
  {
    forall i: nat | i < 64 ensures !IsWhitespace(Char64(i)) { IndexInvertsChar(i); }
    hide Char64, First, Second, Third, Fourth;
    if |b| > 2 { EncodedHasNoWhitespace(b[3..]); }
  }

  // ----- UTF-8, RFC 3629 section 4

  predicate Continues(b: seq<Byte>, i: nat) {
    i < |b| && 0x80 <= b[i] < 0xC0
  }

  /** The length of the well-formed character at the start, 0 when there is none. */
  function CharLength(b: seq<Byte>): (n: nat)
    ensures n <= |b|
  {
    if b == [] then 0
    else if b[0] < 0x80 then 1
    else if 0xC2 <= b[0] < 0xE0 && Continues(b, 1) then 2
    else if 0xE0 <= b[0] < 0xF0 && Continues(b, 1) && Continues(b, 2)
            && (b[0] == 0xE0 ==> b[1] >= 0xA0) && (b[0] == 0xED ==> b[1] < 0xA0) then 3
    else if 0xF0 <= b[0] < 0xF5 && Continues(b, 1) && Continues(b, 2) && Continues(b, 3)
            && (b[0] == 0xF0 ==> b[1] >= 0x90) && (b[0] == 0xF4 ==> b[1] < 0x90) then 4
    else 0
  }

  predicate Utf8(b: seq<Byte>)
    decreases |b|
  {
    b == [] || (CharLength(b) > 0 && Utf8(b[CharLength(b)..]))
  }

  predicate IsScalar(c: nat) { c < 0xD800 || 0xE000 <= c < 0x110000 }

  /** A Unicode scalar value. */
  type Scalar = c: nat | IsScalar(c)

  lemma ScalarDigits(c: Scalar)
    ensures c < 0x800 ==> c / 64 < 32
    ensures c < 0x10000 ==> c / 64 / 64 < 16
    ensures c / 64 / 64 / 64 <= 4
  {
    assert IsScalar(c);
  }

  function Utf8Char(c: Scalar): (b: seq<Byte>)
    ensures 1 <= |b| <= 4
  {
    ScalarDigits(c);
    var c1 := c / 64;
    var c2 := c1 / 64;
    if c < 0x80 then [c]
    else if c < 0x800 then [0xC0 + c1, 0x80 + c % 64]
    else if c < 0x10000 then [0xE0 + c2, 0x80 + c1 % 64, 0x80 + c % 64]
    else [0xF0 + c2 / 64, 0x80 + c2 % 64, 0x80 + c1 % 64, 0x80 + c % 64]
  }

  function Utf8Text(cs: seq<Scalar>): seq<Byte> {
    if cs == [] then [] else Utf8Char(cs[0]) + Utf8Text(cs[1..])
  }

  /** The bounds on the second byte say that no shorter form exists, that the value is no surrogate, and not too big. */
  lemma LeadBounds(c: Scalar)
    ensures c >= 0x80 ==> c / 64 >= 2
    ensures c >= 0x800 && c / 64 / 64 == 0 ==> c / 64 % 64 >= 0x20
    ensures c < 0x10000 && c / 64 / 64 == 13 ==> c / 64 % 64 < 0x20
    ensures c >= 0x10000 && c / 64 / 64 / 64 == 0 ==> c / 64 / 64 % 64 >= 0x10
    ensures c / 64 / 64 / 64 == 4 ==> c / 64 / 64 % 64 < 0x10
  {
    var c1 := c / 64;
    var c2 := c1 / 64;
    assert IsScalar(c);
    assert c == c1 * 64 + c % 64 && c1 == c2 * 64 + c1 % 64 && c2 == c2 / 64 * 64 + c2 % 64;
  }

  lemma CharIsAccepted(c: Scalar, rest: seq<Byte>)
    ensures CharLength(Utf8Char(c) + rest) == |Utf8Char(c)|
  {
    var u := Utf8Char(c);
    var b := u + rest;
    assert forall i :: 0 <= i < |u| ==> b[i] == u[i];
    ScalarDigits(c);
    LeadBounds(c);
  }

  lemma DivMod64(high: nat, low: nat)
    requires low < 64
    ensures (high * 64 + low) / 64 == high && (high * 64 + low) % 64 == low
  {
  }

  lemma AcceptedPair(b0: int, b1: int) returns (c: Scalar)
    requires 0xC2 <= b0 < 0xE0 && 0x80 <= b1 < 0xC0
    ensures Utf8Char(c) == [b0, b1]
  {
    DivMod64(b0 - 0xC0, b1 - 0x80);
    c := (b0 - 0xC0) * 64 + (b1 - 0x80);
  }

  lemma AcceptedTriple(b0: int, b1: int, b2: int) returns (c: Scalar)
    requires 0xE0 <= b0 < 0xF0 && 0x80 <= b1 < 0xC0 && 0x80 <= b2 < 0xC0
    requires (b0 == 0xE0 ==> b1 >= 0xA0) && (b0 == 0xED ==> b1 < 0xA0)
    ensures Utf8Char(c) == [b0, b1, b2]
  {
    var high := (b0 - 0xE0) * 64 + (b1 - 0x80);
    DivMod64(b0 - 0xE0, b1 - 0x80);
    DivMod64(high, b2 - 0x80);
    c := high * 64 + (b2 - 0x80);
  }

  lemma AcceptedQuad(b0: int, b1: int, b2: int, b3: int) returns (c: Scalar)
    requires 0xF0 <= b0 < 0xF5 && 0x80 <= b1 < 0xC0 && 0x80 <= b2 < 0xC0 && 0x80 <= b3 < 0xC0
    requires (b0 == 0xF0 ==> b1 >= 0x90) && (b0 == 0xF4 ==> b1 < 0x90)
    ensures Utf8Char(c) == [b0, b1, b2, b3]
  {
    var top := (b0 - 0xF0) * 64 + (b1 - 0x80);
    var high := top * 64 + (b2 - 0x80);
    DivMod64(b0 - 0xF0, b1 - 0x80);
    DivMod64(top, b2 - 0x80);
    DivMod64(high, b3 - 0x80);
    c := high * 64 + (b3 - 0x80);
  }

  /** An accepted character is that of a scalar value. */
  lemma AcceptedIsChar(b: seq<Byte>) returns (c: Scalar)
    requires CharLength(b) > 0
    ensures Utf8Char(c) == b[..CharLength(b)]
  {
    var n := CharLength(b);
    if n == 1 {
      c := b[0];
    } else if n == 2 {
      c := AcceptedPair(b[0], b[1]);
    } else if n == 3 {
      c := AcceptedTriple(b[0], b[1], b[2]);
    } else {
      c := AcceptedQuad(b[0], b[1], b[2], b[3]);
    }
  }

  /** Accepted are exactly the UTF-8 encodings of sequences of scalar values. */
  lemma {:induction false} Utf8Exactly(b: seq<Byte>)
    ensures Utf8(b) <==> exists cs: seq<Scalar> :: Utf8Text(cs) == b
    decreases |b|
  {
    hide CharLength, Utf8Char;
    if b == [] {
      assert Utf8Text([]) == b;
    } else {
      if Utf8(b) {
        var c := AcceptedIsChar(b);
        Utf8Exactly(b[CharLength(b)..]);
        var cs: seq<Scalar> :| Utf8Text(cs) == b[CharLength(b)..];
        assert ([c] + cs)[1..] == cs;
        assert Utf8Text([c] + cs) == b;
      }
      if cs: seq<Scalar> :| Utf8Text(cs) == b {
        assert cs != [];
        var rest := Utf8Text(cs[1..]);
        CharIsAccepted(cs[0], rest);
        assert b[CharLength(b)..] == rest;
        assert CharLength(b) > 0 && |rest| < |b|;
        assert exists ds: seq<Scalar> :: Utf8Text(ds) == rest;
        Utf8Exactly(rest);
      }
    }
  }

  // ----- the client

  datatype FileReply = FileReply(status: nat, encoding: string, content: string, sha: string)

  datatype GetResult = Missing | GotFile(content: seq<Byte>, sha: string) | GetFailed

  function GetFile(reply: FileReply): GetResult {
    if reply.status == 404 then Missing
    else if !(200 <= reply.status < 300) || reply.encoding != "base64" then GetFailed
    else
      match Decode(StripWhitespace(reply.content))
      case None => GetFailed
      case Some(bytes) => if Utf8(bytes) then GotFile(bytes, reply.sha) else GetFailed
  }

  /**
   Whatever white space the server inserts into the encoding of a stored file, the file comes back
   as it is, provided it is text; files put by the client, which takes text only, always are.
   */
  lemma GetReturnsWhatWasPut(content: seq<Byte>, gaps: seq<string>, status: nat, sha: string)
    requires |gaps| == |Encode(content)| + 1 && forall g :: g in gaps ==> Blank(g)
    requires 200 <= status < 300
    ensures GetFile(FileReply(status, "base64", Insert(Encode(content), gaps), sha))
            == if Utf8(content) then GotFile(content, sha) else GetFailed
  {
    hide Encode, Insert, Decode, StripWhitespace, Blank, Utf8;
    EncodedHasNoWhitespace(content);
    StripUndoesInsert(Encode(content), gaps);
    DecodeInvertsEncode(content);
  }

  /** `Missing` is a 404 and nothing else. */
  lemma MissingExactly(reply: FileReply)
    ensures GetFile(reply) == Missing <==> reply.status == 404
  {
    hide Decode, StripWhitespace, Utf8;
  }

  /** A file is reported exactly for a successful base64 reply whose text, less white space, encodes it, being text. */
  lemma GotFileExactly(reply: FileReply, content: seq<Byte>, sha: string)
    ensures GetFile(reply) == GotFile(content, sha)
            <==> 200 <= reply.status < 300 && reply.encoding == "base64" && reply.sha == sha
                 && StripWhitespace(reply.content) == Encode(content) && Utf8(content)
  {
    hide Encode, Decode, StripWhitespace, Utf8;
    var s := StripWhitespace(reply.content);
    if Decode(s).Some? { EncodeInvertsDecode(s); }
    DecodeInvertsEncode(content);
  }

  /** Conversely a file is only ever reported when the reply is an encoding of it. */
  lemma GetReportsOnlyWhatIsStored(reply: FileReply)
    requires GetFile(reply).GotFile?
    ensures Encode(GetFile(reply).content) == StripWhitespace(reply.content) && reply.encoding == "base64"
    ensures Utf8(GetFile(reply).content)
  {
    hide Encode, StripWhitespace, Utf8;
    EncodeInvertsDecode(StripWhitespace(reply.content));
  }
}
