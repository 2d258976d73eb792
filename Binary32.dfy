/**
 * IEEE 754-2008 binary32 bit patterns (section 3.4 of the standard) and the
 * real numbers the finite ones denote. A Kotlin Float crosses the storage
 * boundary as its 32 raw bits; this module says what number those bits are.
 */
module Binary32 {
  import opened Wrappers

  /** The 32 raw bits of a Float, read as an unsigned number. */
  type Bits = x: int | 0 <= x < 0x1_0000_0000

  const SignMask: int := 0x8000_0000

  function SignBit(w: Bits): int { w / 0x8000_0000 }

  function ExponentField(w: Bits): int { (w / 0x80_0000) % 0x100 }

  function FractionField(w: Bits): int { w % 0x80_0000 }

  /** 2 raised to a natural power. */
  function Pow2Nat(n: nat): (r: nat)
    ensures r > 0
  {
    if n == 0 then 1
    else
      var h := Pow2Nat(n / 2);
      assert h * h > 0;
      if n % 2 == 0 then h * h else 2 * h * h
  }

  /** 2 raised to an integer power. */
  function Pow2(e: int): (r: real)
    ensures r > 0.0
  {
    if e >= 0 then Pow2Nat(e) as real else 1.0 / Pow2Nat(-e) as real
  }

  /**
   * The value a bit pattern encodes: None for the infinities and NaNs, whose
   * biased exponent is all ones; otherwise the signed subnormal or normal value.
   */
  function Value(w: Bits): (v: Option<real>)
    ensures v.Some? <==> ExponentField(w) != 0xFF
    ensures v.Some? && SignBit(w) == 0 ==> v.value >= 0.0
    ensures v.Some? && SignBit(w) == 1 ==> v.value <= 0.0
    ensures v.Some? ==> (v.value == 0.0 <==> ExponentField(w) == 0 && FractionField(w) == 0)
  {
    var e := ExponentField(w);
    if e == 0xFF then None
    else
      var magnitude := Magnitude(e, FractionField(w));
      Some(if SignBit(w) == 1 then -magnitude else magnitude)
  }

  /** The magnitude of a finite pattern: subnormal for exponent field 0, normal with the hidden bit otherwise. */
  function Magnitude(e: int, f: int): (m: real)
    requires 0 <= e && 0 <= f
    ensures m >= 0.0
    ensures m == 0.0 <==> e == 0 && f == 0
  {
    if e == 0 then f as real * Pow2(-149)
    else (0x80_0000 + f) as real * Pow2(e - 150)
  }

  /** Flipping the sign bit negates the value and keeps finiteness. */
  lemma ValueNegate(w: Bits)
    requires w < SignMask
    ensures Value(w + SignMask).Some? == Value(w).Some?
    ensures Value(w).Some? ==> Value(w + SignMask).value == -Value(w).value
  {
    var w' := w + SignMask;
    assert w' / 0x80_0000 == w / 0x80_0000 + 0x100;
    assert ExponentField(w') == ExponentField(w);
    assert FractionField(w') == FractionField(w);
    assert SignBit(w) == 0 && SignBit(w') == 1;
  }

  /** The pattern 0x3F800000 is 1.0f. */
  lemma ValueOfOne()
    ensures Value(0x3F80_0000) == Some(1.0)
  {
    Pow2NatValues();
    assert ExponentField(0x3F80_0000) == 127;
    assert FractionField(0x3F80_0000) == 0;
    assert Pow2(-23) == 1.0 / 0x80_0000 as real;
  }

  /** The pattern 0x3F000000 is 0.5f. */
  lemma ValueOfHalf()
    ensures Value(0x3F00_0000) == Some(0.5)
  {
    Pow2NatValues();
    assert ExponentField(0x3F00_0000) == 126;
    assert FractionField(0x3F00_0000) == 0;
    assert Pow2(-24) == 1.0 / 0x100_0000 as real;
  }

  /** Both zeros denote 0 and the canonical NaN 0x7FC00000 denotes no real. */
  lemma ValueOfZerosAndNaN()
    ensures Value(0) == Some(0.0) && Value(0x8000_0000) == Some(0.0)
    ensures Value(0x7FC0_0000) == None
  {
    assert ExponentField(0) == 0 && FractionField(0) == 0;
    assert ExponentField(0x8000_0000) == 0 && FractionField(0x8000_0000) == 0;
    assert ExponentField(0x7FC0_0000) == 0xFF;
  }

  /** Each step up doubles: 2^(n+1) == 2 * 2^n. */
  lemma {:induction false} Pow2NatStep(n: nat)
    ensures Pow2Nat(n + 1) == 2 * Pow2Nat(n)
    decreases n
  {
    var k := n / 2;
    var h := Pow2Nat(k);
    if n % 2 == 0 {
      assert (n + 1) / 2 == k && (n + 1) % 2 == 1;
      assert Pow2Nat(n) == h * h;
      assert Pow2Nat(n + 1) == 2 * h * h;
    } else {
      Pow2NatStep(k);
      var h' := Pow2Nat(k + 1);
      assert h' == 2 * h;
      assert (n + 1) / 2 == k + 1 && (n + 1) % 2 == 0;
      assert Pow2Nat(n) == 2 * h * h;
      assert Pow2Nat(n + 1) == h' * h';
      DoubledSquare(h, h');
    }
  }

  lemma DoubledSquare(h: int, h': int)
    requires h' == 2 * h
    ensures h' * h' == 2 * (2 * h * h)
  {
    assert h' * h' == 2 * h * h';
    assert 2 * h * h' == 2 * h * (2 * h);
  }

  lemma Pow2NatValues()
    ensures Pow2Nat(8) == 0x100
    ensures Pow2Nat(23) == 0x80_0000
    ensures Pow2Nat(24) == 0x100_0000
  {
    assert Pow2Nat(4) == 16;
    assert Pow2Nat(8) == 0x100;
    assert Pow2Nat(16) == 0x1_0000;
    assert Pow2Nat(23) == 0x80_0000;
  }

  /** The real values of a vector of patterns, or None when any of them is an infinity or a NaN. */
  function Values(ws: seq<Bits>): (r: Option<seq<real>>)
    ensures r.Some? <==> forall i :: 0 <= i < |ws| ==> Value(ws[i]).Some?
    ensures r.Some? ==> |r.value| == |ws| && forall i :: 0 <= i < |ws| ==> Value(ws[i]) == Some(r.value[i])
  {
    if forall i :: 0 <= i < |ws| ==> Value(ws[i]).Some? then
      Some(seq(|ws|, i requires 0 <= i < |ws| => Value(ws[i]).value))
    else None
  }

  /** A vector of finite patterns denotes the vector of their values. */
  lemma ValuesOf(ws: seq<Bits>, v: seq<real>)
    requires |ws| == |v|
    requires forall i :: 0 <= i < |ws| ==> Value(ws[i]) == Some(v[i])
    ensures Values(ws) == Some(v)
  {
    assert Values(ws).Some?;
    assert Values(ws).value == v;
  }
}
