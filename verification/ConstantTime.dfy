/** `constant_time_eq` of `src/creds.rs`: an OR/XOR accumulator with the length folded in as `u8`. */
module ConstantTime {
  // ----- bitwise operators on non-negative integers of any width

  function Xor(x: nat, y: nat): nat
    decreases x + y
  {
    if x == 0 && y == 0 then 0
    else (if x % 2 == y % 2 then 0 else 1) + 2 * Xor(x / 2, y / 2)
  }

  function Or(x: nat, y: nat): nat
    decreases x + y
  {
    if x == 0 && y == 0 then 0
    else (if x % 2 == 0 && y % 2 == 0 then 0 else 1) + 2 * Or(x / 2, y / 2)
  }

  function Pow2(bits: nat): (p: nat)
    ensures p > 0
  {
    if bits == 0 then 1 else 2 * Pow2(bits - 1)
  }

  lemma HalfMod(n: nat, m: nat)
    requires m > 0
    ensures n % (2 * m) == n % 2 + 2 * (n / 2 % m)
  {
    var q := n / 2 / m;
    var r := n % 2 + 2 * (n / 2 % m);
    assert n == 2 * (n / 2) + n % 2;
    assert n / 2 == m * q + n / 2 % m;
    assert n == (2 * m) * q + r by {
      assert 2 * (m * q) == (2 * m) * q;
    }
    ModUnique(n, 2 * m, q, r);
  }

  lemma ModUnique(n: nat, m: nat, q: nat, r: nat)
    requires m > 0 && r < m && n == m * q + r
    ensures n % m == r
  {
    var d := n / m - q;
    assert d >= 1 ==> m * d >= m;
    assert d <= -1 ==> m * d + m <= 0;
    assert n == m * (n / m) + n % m;
    assert m * (n / m) - m * q == m * d;
  }

  /** The low bits of a XOR vanish exactly when the low bits of its operands agree. */
  lemma {:induction false} XorLowBits(x: nat, y: nat, bits: nat)
    ensures Xor(x, y) % Pow2(bits) == 0 <==> x % Pow2(bits) == y % Pow2(bits)
  {
    if bits > 0 {
      XorLowBits(x / 2, y / 2, bits - 1);
      var m := Pow2(bits - 1);
      var rest := Xor(x / 2, y / 2);
      var low := if x % 2 == y % 2 then 0 else 1;
      if x == 0 && y == 0 {
      } else {
        assert Xor(x, y) == low + 2 * rest;
        assert Xor(x, y) / 2 == rest && Xor(x, y) % 2 == low;
        HalfMod(Xor(x, y), m);
        HalfMod(x, m);
        HalfMod(y, m);
      }
    }
  }

  lemma {:induction false} XorZero(x: nat, y: nat)
    ensures Xor(x, y) == 0 <==> x == y
    decreases x + y
  {
    if x != 0 || y != 0 { XorZero(x / 2, y / 2); }
  }

  lemma {:induction false} OrZero(x: nat, y: nat)
    ensures Or(x, y) == 0 <==> x == 0 && y == 0
    decreases x + y
  {
    if x != 0 || y != 0 { OrZero(x / 2, y / 2); }
  }

  // ----- the comparison

  function Bytes(s: string): (b: seq<nat>)
    ensures |b| == |s| && forall i :: 0 <= i < |s| ==> b[i] == s[i] as nat
  {
    seq(|s|, i requires 0 <= i < |s| => s[i] as nat)
  }

  function Max(x: nat, y: nat): nat { if x < y then y else x }

  /** `s.get(i).copied().unwrap_or(0)`. */
  function ByteOr0(s: seq<nat>, i: nat): nat { if i < |s| then s[i] else 0 }

  ghost predicate PaddedEqual(a: seq<nat>, b: seq<nat>, n: nat) {
    forall i: nat :: i < n ==> ByteOr0(a, i) == ByteOr0(b, i)
  }

  /** What the comparison decides: lengths modulo 256 and zero-padded contents. */
  ghost predicate FoldedEqual(a: seq<nat>, b: seq<nat>) {
    |a| % 256 == |b| % 256 && PaddedEqual(a, b, Max(|a|, |b|))
  }

  method ConstantTimeEq(a: seq<nat>, b: seq<nat>) returns (equal: bool, ghost rounds: nat)
    ensures equal <==> FoldedEqual(a, b)
    ensures rounds == Max(|a|, |b|)
  {
    var diff: nat := Xor(|a|, |b|) % 256;
    XorLowBits(|a|, |b|, 8);
    assert Pow2(8) == 256;
    var n := Max(|a|, |b|);
    rounds := 0;
    for i := 0 to n
      invariant rounds == i
      invariant diff == 0 <==> |a| % 256 == |b| % 256 && PaddedEqual(a, b, i)
    {
      var x := ByteOr0(a, i);
      var y := ByteOr0(b, i);
      XorZero(x, y);
      OrZero(diff, Xor(x, y));
      diff := Or(diff, Xor(x, y));
      rounds := rounds + 1;
    }
    equal := diff == 0;
  }

  function Zeros(n: nat): (z: seq<nat>)
    ensures |z| == n && forall i :: 0 <= i < n ==> z[i] == 0
  {
    seq(n, _ => 0)
  }

  /**
   The inputs on which the comparison differs from plain equality, all of them: one is the other
   followed by a positive multiple of 256 zero bytes.
   */
  lemma FalseAcceptExactly(a: seq<nat>, b: seq<nat>)
    requires |a| <= |b|
    ensures FoldedEqual(a, b) && a != b
            <==> exists k: nat :: k > 0 && b == a + Zeros(256 * k)
  {
    if FoldedEqual(a, b) && a != b {
      forall i: nat | i < |b| ensures b[i] == ByteOr0(a, i) {
        assert ByteOr0(a, i) == ByteOr0(b, i);
      }
      assert |a| == |b| ==> a == b;
      var k := (|b| - |a|) / 256;
      assert |b| - |a| == 256 * k;
      assert b == a + Zeros(256 * k);
    }
    if k: nat :| k > 0 && b == a + Zeros(256 * k) {
      assert |b| == |a| + 256 * k;
      ModUnique(|b|, 256, |a| / 256 + k, |a| % 256);
    }
  }

  /** Lengths less than 256 apart, or a longer input not ending in NUL: plain equality. */
  lemma FoldedEqualIsEqual(a: seq<nat>, b: seq<nat>)
    requires |a| != |b| ==> -256 < |a| - |b| < 256
                            || (|a| < |b| && b[|b| - 1] != 0) || (|b| < |a| && a[|a| - 1] != 0)
    ensures FoldedEqual(a, b) <==> a == b
  {
    var s, l := if |a| <= |b| then a else b, if |a| <= |b| then b else a;
    forall k: nat ensures !(k > 0 && l == s + Zeros(256 * k)) {
      if k > 0 { assert |s + Zeros(256 * k)| >= |s| + 256 && (s + Zeros(256 * k))[|s| + 256 * k - 1] == 0; }
    }
    FalseAcceptExactly(s, l);
  }

  lemma BytesInjective(a: string, b: string)
    ensures Bytes(a) == Bytes(b) <==> a == b
  {
    if Bytes(a) == Bytes(b) {
      assert |a| == |b|;
      forall i | 0 <= i < |a| ensures a[i] == b[i] {
        assert Bytes(a)[i] == Bytes(b)[i];
      }
    }
  }

  ghost predicate SameToken(held: string, token: string) {
    FoldedEqual(Bytes(held), Bytes(token))
  }

  function Nuls(n: nat): (z: string)
    ensures |z| == n && forall i :: 0 <= i < n ==> z[i] == '\0'
  {
    seq(n, _ => '\0')
  }

  /** `b` is `a`, or `a` and a multiple of 256 NUL characters. */
  ghost predicate PaddedTo(a: string, b: string) {
    exists k: nat :: b == a + Nuls(256 * k)
  }

  lemma BytesOfPadded(a: string, b: string, k: nat)
    ensures Bytes(b) == Bytes(a) + Zeros(256 * k) <==> b == a + Nuls(256 * k)
  {
    var padded := a + Nuls(256 * k);
    assert Bytes(padded) == Bytes(a) + Zeros(256 * k);
    BytesInjective(b, padded);
  }

  lemma FoldedEqualIsPadding(a: string, b: string)
    requires |a| <= |b|
    ensures FoldedEqual(Bytes(a), Bytes(b)) <==> PaddedTo(a, b)
  {
    var x, y := Bytes(a), Bytes(b);
    FalseAcceptExactly(x, y);
    BytesInjective(a, b);
    hide FoldedEqual, Bytes, Zeros, Nuls;
    if k: nat :| k > 0 && y == x + Zeros(256 * k) { BytesOfPadded(a, b, k); }
    if k: nat :| b == a + Nuls(256 * k) { BytesOfPadded(a, b, k); }
    if a == b {
      assert b == a + Nuls(256 * 0);
      FoldedEqualReflexive(x);
    }
  }

  lemma FoldedEqualReflexive(a: seq<nat>)
    ensures FoldedEqual(a, a)
  {
  }

  /** On texts: accepted are the equal pairs and those that differ by such a padding, no others. */
  lemma SameTokenExactly(held: string, token: string)
    ensures SameToken(held, token) <==> PaddedTo(held, token) || PaddedTo(token, held)
  {
    FoldedEqualSymmetric(Bytes(held), Bytes(token));
    PaddedIsLonger(held, token);
    PaddedIsLonger(token, held);
    hide FoldedEqual, PaddedTo;
    if |held| <= |token| { FoldedEqualIsPadding(held, token); }
    if |token| <= |held| { FoldedEqualIsPadding(token, held); }
  }

  lemma FoldedEqualSymmetric(a: seq<nat>, b: seq<nat>)
    ensures FoldedEqual(a, b) <==> FoldedEqual(b, a)
  {
  }

  lemma PaddedIsLonger(a: string, b: string)
    ensures PaddedTo(a, b) ==> |a| <= |b| && (|a| == |b| ==> a == b)
    ensures a == b ==> PaddedTo(a, b)
  {
    assert a == b ==> b == a + Nuls(256 * 0);
  }
}
