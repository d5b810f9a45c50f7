/** Byte strings and printed decimals, shared by the parser, the formatter and the command replies. */
module ByteStrings {

  type byte = b: int | 0 <= b < 0x100

  type Bytes = seq<byte>

  const CR: byte := 13
  const LF: byte := 10
  const CRLF: Bytes := [CR, LF]
  const STAR: byte := '*' as int
  const DOLLAR: byte := '$' as int
  const COLON: byte := ':' as int
  const PLUS: byte := '+' as int
  const MINUS: byte := '-' as int
  const ZERO: byte := '0' as int

  /** The bytes of an ASCII literal. */
  function Ascii(s: string): (b: Bytes)
    ensures |b| == |s|
  {
    seq(|s|, i requires 0 <= i < |s| => s[i] as int % 0x100)
  }

  predicate IsDigit(c: byte) {
    ZERO <= c <= ZERO + 9
  }

  predicate AllDigits(s: Bytes) {
    forall i :: 0 <= i < |s| ==> IsDigit(s[i])
  }

  // ---------------------------------------------------------------- decimals

  /** `%lu`: the shortest decimal of a natural number. */
  function DecNat(n: nat): (s: Bytes)
    ensures |s| >= 1 && AllDigits(s)
  {
    if n < 10 then [ZERO + n] else DecNat(n / 10) + [ZERO + n % 10]
  }

  /** `%ld`: the shortest decimal of an integer. */
  function Dec(n: int): (s: Bytes)
  {
    if n < 0 then [MINUS] + DecNat(-n) else DecNat(n)
  }

  /** The number a digit string denotes. */
  function DecValue(s: Bytes): nat
    requires AllDigits(s)
  {
    if s == [] then 0 else DecValue(s[..|s| - 1]) * 10 + (s[|s| - 1] - ZERO)
  }

  /** Reading a printed decimal gives the number back. */
  lemma {:induction false} DecValueOfDecNat(n: nat)
    ensures DecValue(DecNat(n)) == n
  {
    if n < 10 {
      assert DecNat(n)[..0] == [];
    } else {
      DecValueOfDecNat(n / 10);
      assert DecNat(n)[..|DecNat(n)| - 1] == DecNat(n / 10);
    }
  }

  /** A printed decimal has no leading zero, and every non-empty prefix of one is itself a printed decimal. */
  lemma {:induction false} DecNatPrefix(n: nat, j: nat) returns (m: nat)
    requires 1 <= j <= |DecNat(n)|
    ensures DecNat(n)[..j] == DecNat(m) && (n > 0 ==> m > 0)
    ensures if j == |DecNat(n)| then m == n else 10 * m <= n
  {
    if j == |DecNat(n)| {
      assert DecNat(n)[..j] == DecNat(n);
      m := n;
    } else {
      m := DecNatPrefix(n / 10, j);
      assert DecNat(n)[..j] == DecNat(n / 10)[..j];
    }
  }

  /** Powers of ten, to bound the length of a printed decimal. */
  function Pow10(k: nat): (p: nat)
    ensures p >= 1
  {
    if k == 0 then 1 else 10 * Pow10(k - 1)
  }

  lemma {:induction false} DecNatLength(n: nat, k: nat)
    requires k >= 1 && n < Pow10(k)
    ensures |DecNat(n)| <= k
  {
    if n >= 10 {
      assert Pow10(1) == 10 * Pow10(0);
      assert n / 10 < Pow10(k - 1);
      DecNatLength(n / 10, k - 1);
    }
  }

  lemma {:induction false} DecNatLeadingDigit(n: nat)
    ensures n > 0 ==> DecNat(n)[0] != ZERO
    ensures n == 0 ==> DecNat(n) == [ZERO]
  {
    if n >= 10 {
      DecNatLeadingDigit(n / 10);
    }
  }

  /** The digits of a number without a leading zero are its printed decimal. */
  lemma {:induction false} DecNatOfDecValue(s: Bytes)
    requires s != [] && AllDigits(s) && (s[0] != ZERO || |s| == 1)
    ensures DecNat(DecValue(s)) == s
  {
    var d := s[..|s| - 1];
    if d == [] {
      assert s[..0] == [];
      assert DecValue(s) == s[0] - ZERO;
    } else {
      DecNatOfDecValue(d);
      DecNatLeadingDigit(DecValue(d));
      assert DecValue(d) > 0;
      assert DecValue(s) / 10 == DecValue(d) && DecValue(s) % 10 == s[|s| - 1] - ZERO;
    }
  }

  lemma {:induction false} DecValueAppend(a: Bytes, b: Bytes)
    requires AllDigits(a) && AllDigits(b)
    ensures AllDigits(a + b) && DecValue(a + b) == DecValue(a) * Pow10(|b|) + DecValue(b)
  {
    if b == [] {
      assert a + b == a;
    } else {
      var n: nat := |b| - 1;
      DecValueAppend(a, b[..n]);
      assert (a + b)[..|a + b| - 1] == a + b[..n];
      TimesTen(DecValue(a), Pow10(n), DecValue(b[..n]));
    }
  }

  lemma TimesTen(x: nat, y: nat, z: nat)
    ensures (x * y + z) * 10 == x * (10 * y) + z * 10
  {
  }

  /** A decimal filled up with zeros on the left to at least `width` digits. */
  function Filled(n: nat, width: nat): (s: Bytes)
    ensures AllDigits(s)
  {
    var d := DecNat(n);
    if |d| >= width then d else seq(width - |d|, _ => ZERO) + d
  }

  lemma {:induction false} ZerosValue(k: nat)
    ensures AllDigits(seq(k, _ => ZERO)) && DecValue(seq(k, _ => ZERO)) == 0
  {
    if k > 0 {
      ZerosValue(k - 1);
      assert seq(k, _ => ZERO)[..k - 1] == seq(k - 1, _ => ZERO);
    }
  }

  /** The zeros change nothing of the number, and the digits are as many as asked for, or as many as it needs. */
  lemma FilledValue(n: nat, width: nat)
    ensures DecValue(Filled(n, width)) == n
    ensures |Filled(n, width)| == if |DecNat(n)| >= width then |DecNat(n)| else width
  {
    var d := DecNat(n);
    DecValueOfDecNat(n);
    if |d| < width {
      ZerosValue(width - |d|);
      DecValueAppend(seq(width - |d|, _ => ZERO), d);
    }
  }
}
