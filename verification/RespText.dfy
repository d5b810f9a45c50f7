/** Texts at a position of a buffer, and the numbers their digits denote in 32 bits. */
module RespText {
  import opened ByteStrings
  import opened RespParser

  /** The distance from `p` to the end of the buffer fits an `int`, so that the parser's cast of it is exact. */
  predicate Measurable(s: Bytes, p: nat) {
    |s| - p <= INT_MAX
  }

  /** `e` stands in `s` at position `p`. */
  predicate At(s: Bytes, p: nat, e: Bytes) {
    p + |e| <= |s| && s[p..p + |e|] == e
  }

  lemma AtSplit(s: Bytes, p: nat, a: Bytes, b: Bytes)
    requires At(s, p, a + b)
    ensures At(s, p, a) && At(s, p + |a|, b)
  {
    assert s[p..p + |a|] == s[p..p + |a + b|][..|a|];
    assert s[p + |a|..p + |a| + |b|] == s[p..p + |a + b|][|a|..];
  }

  lemma AtIndex(s: Bytes, p: nat, e: Bytes, i: nat)
    requires At(s, p, e) && i < |e|
    ensures s[p + i] == e[i]
  {
    assert s[p..p + |e|][i] == s[p + i];
  }

  lemma Adjacent(s: Bytes, p: nat, a: Bytes, b: Bytes)
    requires At(s, p, a) && At(s, p + |a|, b)
    ensures At(s, p, a + b)
  {
    assert s[p..p + |a + b|] == s[p..p + |a|] + s[p + |a|..p + |a| + |b|];
  }

  // ---------------------------------------------------------------- numbers in 32 bits

  /** Wrapping adds a multiple of 2^32. */
  lemma WrapAdds(x: int) returns (k: int)
    ensures Wrap32(x) == x + k * 0x1_0000_0000
  {
    k := if -INT_MAX - 1 <= x <= INT_MAX then 0 else 0 - (x + 0x8000_0000) / 0x1_0000_0000;
  }

  /** Numbers that differ by a multiple of 2^32 wrap to the same `int`. */
  lemma WrapShift(x: int, y: int, k: int)
    requires y == x + k * 0x1_0000_0000
    ensures Wrap32(x) == Wrap32(y)
  {
    var i := WrapAdds(x);
    var j := WrapAdds(y);
    assert Wrap32(x) - Wrap32(y) == (i - j - k) * 0x1_0000_0000;
  }

  lemma WrapStep(a: int, d: int)
    ensures Wrap32(Wrap32(Wrap32(a) * 10) + d) == Wrap32(a * 10 + d)
  {
    hide Wrap32;
    var i := WrapAdds(a);
    var j := WrapAdds(Wrap32(a) * 10);
    WrapShift(a * 10 + d, Wrap32(Wrap32(a) * 10) + d, 10 * i + j);
  }

  lemma NoneWraps()
    ensures Wrap32(0) == 0
  {
  }

  /** The digit loop computes the number modulo 2^32. */
  lemma {:induction false} AccumulateValue(s: Bytes, i: nat, j: nat)
    requires i <= j <= |s| && AllDigits(s[i..j])
    ensures forall k :: i <= k < j ==> IsDigit(s[k])
    ensures Accumulate(s, i, j) == Wrap32(DecValue(s[i..j]))
    decreases j
  {
    hide Wrap32;
    forall k | i <= k < j ensures IsDigit(s[k]) {
      assert s[i..j][k - i] == s[k];
    }
    NoneWraps();
    if i < j {
      assert s[i..j][..j - i - 1] == s[i..j - 1];
      AccumulateValue(s, i, j - 1);
      WrapStep(DecValue(s[i..j - 1]), s[j - 1] - ZERO);
    }
  }

  lemma {:induction false} DigitsEndAt(s: Bytes, i: nat, j: nat)
    requires i <= j <= |s| && (forall k :: i <= k < j ==> IsDigit(s[k])) && (j < |s| ==> !IsDigit(s[j]))
    ensures DigitsEnd(s, i) == j
    decreases j - i
  {
    if i < j {
      DigitsEndAt(s, i + 1, j);
    }
  }

  lemma WrapNegated(x: int)
    ensures Wrap32(0 - Wrap32(x)) == Wrap32(0 - x)
  {
    hide Wrap32;
    var i := WrapAdds(x);
    WrapShift(0 - x, 0 - Wrap32(x), 0 - i);
  }
}
