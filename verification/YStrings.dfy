/** Strings that the store keeps as integers: `strtol` in base 0, and what SET followed by GET returns. */
module YStrings {
  import opened ByteStrings
  import opened RespFormat

  datatype Option<+T> = None | Some(value: T)

  // ---------------------------------------- strtol, base 0 (section 7.22.1.4 of ISO/IEC 9899:2011)

  predicate IsSpace(c: byte) {
    c == 32 || 9 <= c <= 13
  }

  /** The value of a letter or digit, 36 for any other byte. */
  function DigitValue(c: byte): nat {
    if IsDigit(c) then c - ZERO
    else if 'a' as int <= c <= 'z' as int then c - 'a' as int + 10
    else if 'A' as int <= c <= 'Z' as int then c - 'A' as int + 10
    else 36
  }

  function SkipSpace(s: Bytes, i: nat): (j: nat)
    requires i <= |s|
    ensures i <= j <= |s|
    decreases |s| - i
  {
    if i < |s| && IsSpace(s[i]) then SkipSpace(s, i + 1) else i
  }

  function RunEnd(s: Bytes, i: nat, base: nat): (j: nat)
    requires i <= |s|
    ensures i <= j <= |s|
    ensures forall k :: i <= k < j ==> DigitValue(s[k]) < base
    decreases |s| - i
  {
    if i < |s| && DigitValue(s[i]) < base then RunEnd(s, i + 1, base) else i
  }

  function RunValue(s: Bytes, i: nat, j: nat, base: nat): nat
    requires i <= j <= |s|
    decreases j
  {
    if i == j then 0 else RunValue(s, i, j - 1, base) * base + DigitValue(s[j - 1])
  }

  /** The base that the prefix at `i` announces, and where its digits start. */
  function BaseAt(s: Bytes, i: nat): (r: (nat, nat))
    requires i <= |s|
    ensures i <= r.1 <= |s|
  {
    if i < |s| && s[i] == ZERO then
      if i + 2 < |s| && (s[i + 1] == 'x' as int || s[i + 1] == 'X' as int) && DigitValue(s[i + 2]) < 16 then (16, i + 2)
      else (8, i)
    else (10, i)
  }

  /** The value, the position behind the number (0 when there is none), and whether the value left the range of
      `long`. */
  datatype Conversion = Conversion(value: int, end: nat, erange: bool)

  function Strtol(s: Bytes): Conversion {
    var i := SkipSpace(s, 0);
    var negative := i < |s| && s[i] == MINUS;
    var k := if i < |s| && (s[i] == MINUS || s[i] == PLUS) then i + 1 else i;
    var (base, first) := BaseAt(s, k);
    var end := RunEnd(s, first, base);
    if end == first then Conversion(0, 0, false)
    else
      var v := RunValue(s, first, end, base);
      var value: int := if negative then 0 - v else v;
      if value < LONG_MIN then Conversion(LONG_MIN, end, true)
      else if value > LONG_MAX then Conversion(LONG_MAX, end, true)
      else Conversion(value, end, false)
  }

  /** The integer a string is stored as, if it is. */
  function StringToLong(s: Bytes): (r: Option<int>)
    ensures r.Some? ==> LONG_MIN <= r.value <= LONG_MAX
  {
    if |s| == 0 || |s| > 20 then None
    else
      var c := Strtol(s);
      if c.erange || c.end != |s| then None else Some(c.value)
  }

  // ---------------------------------------------------------------- which texts are integers

  /** White space, a sign, the mark of a hexadecimal number, and digits. */
  datatype LongText = LongText(spaces: Bytes, sign: Bytes, mark: Bytes, digits: Bytes)

  /** Sixteen behind a mark, eight for digits that begin with a zero, ten otherwise. */
  function BaseOf(t: LongText): nat
    requires t.digits != []
  {
    if t.mark != [] then 16 else if t.digits[0] == ZERO then 8 else 10
  }

  predicate IsLongText(t: LongText) {
    && (forall i | 0 <= i < |t.spaces| :: IsSpace(t.spaces[i]))
    && (t.sign == [] || t.sign == [PLUS] || t.sign == [MINUS])
    && (t.mark == [] || t.mark == [ZERO, 'x' as int] || t.mark == [ZERO, 'X' as int])
    && t.digits != [] && forall i | 0 <= i < |t.digits| :: DigitValue(t.digits[i]) < BaseOf(t)
  }

  function LongTextOf(t: LongText): Bytes {
    t.spaces + t.sign + t.mark + t.digits
  }

  /** The number that digits denote in a base. */
  function InBase(digits: Bytes, base: nat): nat {
    if digits == [] then 0 else InBase(digits[..|digits| - 1], base) * base + DigitValue(digits[|digits| - 1])
  }

  function LongValue(t: LongText): int
    requires t.digits != []
  {
    var v := InBase(t.digits, BaseOf(t));
    if t.sign == [MINUS] then 0 - v else v
  }

  /** The string is taken for the integer `n`: one to twenty bytes that are such a text, of a value within `long`. */
  ghost predicate Denotes(s: Bytes, n: int) {
    1 <= |s| <= 20 && LONG_MIN <= n <= LONG_MAX
    && exists t :: IsLongText(t) && LongTextOf(t) == s && LongValue(t) == n
  }

  lemma {:induction false} SkipSpaceAt(s: Bytes, i: nat, j: nat)
    requires i <= j <= |s| && (forall k | i <= k < j :: IsSpace(s[k])) && (j < |s| ==> !IsSpace(s[j]))
    ensures SkipSpace(s, i) == j
    decreases j - i
  {
    if i < j {
      SkipSpaceAt(s, i + 1, j);
    }
  }

  lemma {:induction false} RunEndAt(s: Bytes, i: nat, base: nat)
    requires i <= |s| && forall k | i <= k < |s| :: DigitValue(s[k]) < base
    ensures RunEnd(s, i, base) == |s|
    decreases |s| - i
  {
    if i < |s| {
      RunEndAt(s, i + 1, base);
    }
  }

  lemma {:induction false} RunValueIs(s: Bytes, i: nat, j: nat, base: nat)
    requires i <= j <= |s|
    ensures RunValue(s, i, j, base) == InBase(s[i..j], base)
    decreases j
  {
    if i < j {
      assert s[i..j][..j - i - 1] == s[i..j - 1];
      RunValueIs(s, i, j - 1, base);
    }
  }

  lemma {:induction false} SkipSpaceSkips(s: Bytes, i: nat)
    requires i <= |s|
    ensures forall k | i <= k < SkipSpace(s, i) :: IsSpace(s[k])
    decreases |s| - i
  {
    if i < |s| && IsSpace(s[i]) {
      SkipSpaceSkips(s, i + 1);
    }
  }

  /** Where the parts of such a text begin. */
  lemma LongTextParts(t: LongText)
    requires IsLongText(t)
    ensures var s, i := LongTextOf(t), |t.spaces|;
            var k := i + |t.sign|;
            var first := k + |t.mark|;
            && SkipSpace(s, 0) == i && (i < |s| && s[i] == MINUS <==> t.sign == [MINUS])
            && (i < |s| && (s[i] == MINUS || s[i] == PLUS) <==> t.sign != [])
            && BaseAt(s, k) == (BaseOf(t), first) && s[first..] == t.digits
  {
    hide SkipSpace, BaseAt, IsSpace, DigitValue, LongTextOf;
    var s, i := LongTextOf(t), |t.spaces|;
    var k := i + |t.sign|;
    PartsHere(t);
    MarkHere(t);
    assert s[k..][0] == s[k];
    NotSpaces();
    SkipSpaceAt(s, 0, i);
    BaseAtText(s, k, t);
  }

  lemma PartsHere(t: LongText)
    requires IsLongText(t)
    ensures var s, i := LongTextOf(t), |t.spaces|;
            var k := i + |t.sign|;
            && k + |t.mark| < |s| && s[k..] == t.mark + t.digits && s[k + |t.mark|..] == t.digits
            && (forall j | 0 <= j < i :: s[j] == t.spaces[j]) && (k > i ==> s[i] == t.sign[0])
  {
    hide IsSpace, DigitValue;
  }

  /** A number begins with a digit. */
  lemma MarkHere(t: LongText)
    requires IsLongText(t)
    ensures t.mark + t.digits != [] && IsDigit((t.mark + t.digits)[0])
  {
  }

  lemma NotSpaces()
    ensures forall c: byte | IsDigit(c) || c == PLUS || c == MINUS :: !IsSpace(c)
    ensures forall c: byte | IsDigit(c) :: c != PLUS && c != MINUS
  {
  }

  lemma BaseAtText(s: Bytes, k: nat, t: LongText)
    requires IsLongText(t) && k <= |s| && s[k..] == t.mark + t.digits
    ensures BaseAt(s, k) == (BaseOf(t), k + |t.mark|)
  {
    var u := t.mark + t.digits;
    forall j | 0 <= j < |u| ensures s[k + j] == u[j] {
      assert s[k..][j] == s[k + j];
    }
    if t.mark == [] && |t.digits| > 1 {
      assert DigitValue(u[1]) < BaseOf(t);
    }
    assert t.mark != [] ==> u[2] == t.digits[0];
  }

  lemma LongTextRead(t: LongText)
    requires IsLongText(t)
    ensures var c, v, s := Strtol(LongTextOf(t)), LongValue(t), LongTextOf(t);
            c.end == |s| && c.erange == !(LONG_MIN <= v <= LONG_MAX) && (!c.erange ==> c.value == v)
  {
    hide SkipSpace, RunEnd, RunValue, BaseAt, InBase, LongTextOf, BaseOf, IsSpace, DigitValue;
    var s, first := LongTextOf(t), |t.spaces| + |t.sign| + |t.mark|;
    LongTextParts(t);
    DigitsRead(t, s, first);
  }

  lemma DigitsRead(t: LongText, s: Bytes, first: nat)
    requires IsLongText(t) && first <= |s| && s[first..] == t.digits
    ensures RunEnd(s, first, BaseOf(t)) == |s| && RunValue(s, first, |s|, BaseOf(t)) == InBase(t.digits, BaseOf(t))
  {
    hide RunEnd, RunValue, InBase, BaseOf, IsSpace;
    forall j | first <= j < |s| ensures DigitValue(s[j]) < BaseOf(t) {
      assert s[first..][j - first] == s[j];
    }
    RunEndAt(s, first, BaseOf(t));
    RunValueIs(s, first, |s|, BaseOf(t));
    assert s[first..|s|] == s[first..];
  }

  lemma BaseAtCases(s: Bytes, k: nat)
    requires k <= |s|
    ensures var (base, first) := BaseAt(s, k);
            if base == 16
            then first == k + 2 < |s| && s[k] == ZERO && (s[k + 1] == 'x' as int || s[k + 1] == 'X' as int)
            else first == k && (base == 8 || base == 10) && (k < |s| ==> (base == 8 <==> s[k] == ZERO))
  {
  }

  lemma LongTextFound(s: Bytes) returns (t: LongText)
    requires Strtol(s).end == |s| && s != []
    ensures IsLongText(t) && LongTextOf(t) == s
  {
    hide RunValue, SkipSpace, BaseAt, IsSpace, DigitValue, IsLongText;
    var i := SkipSpace(s, 0);
    SkipSpaceSkips(s, 0);
    var k := if i < |s| && (s[i] == MINUS || s[i] == PLUS) then i + 1 else i;
    var (base, first) := BaseAt(s, k);
    assert RunEnd(s, first, base) == |s| && first < |s|;
    hide RunEnd, Strtol;
    t := LongText(s[..i], s[i..k], s[k..first], s[first..]);
    CutText(s, i, k, base, first);
    assert s == s[..i] + s[i..k] + s[k..first] + s[first..];
  }

  lemma CutText(s: Bytes, i: nat, k: nat, base: nat, first: nat)
    requires i <= k <= first < |s| && (base, first) == BaseAt(s, k)
    requires forall j | 0 <= j < i :: IsSpace(s[j])
    requires k == i || (k == i + 1 && (s[i] == MINUS || s[i] == PLUS))
    requires forall j | first <= j < |s| :: DigitValue(s[j]) < base
    ensures IsLongText(LongText(s[..i], s[i..k], s[k..first], s[first..]))
  {
    hide BaseAt, IsSpace, DigitValue;
    BaseAtCases(s, k);
    var t := LongText(s[..i], s[i..k], s[k..first], s[first..]);
    assert t.sign == if k == i then [] else [s[i]];
    assert t.mark == if first == k then [] else [s[k], s[k + 1]];
    assert BaseOf(t) == base;
    forall j | 0 <= j < |t.digits| ensures DigitValue(t.digits[j]) < base {
      assert t.digits[j] == s[first + j];
    }
  }

  /** Exactly these strings are stored as integers, with the value their digits denote: nothing may stand behind the
      digits, and nothing but white space, a sign and a mark before them. */
  lemma IntegerTextsIff(s: Bytes, n: int)
    ensures StringToLong(s) == Some(n) <==> Denotes(s, n)
  {
    hide Strtol, LongTextOf, IsSpace, DigitValue;
    if t :| 1 <= |s| <= 20 && LONG_MIN <= n <= LONG_MAX && IsLongText(t) && LongTextOf(t) == s && LongValue(t) == n {
      LongTextRead(t);
    }
    if StringToLong(s) == Some(n) {
      var t := LongTextFound(s);
      LongTextRead(t);
    }
  }

  // ---------------------------------------------------------------- SET, then GET

  /** What GET returns after SET stored `s`. */
  function Normalise(s: Bytes): Bytes {
    match StringToLong(s)
    case Some(n) => Dec(n)
    case None => s
  }

  /** An optional minus and digits, no superfluous zero. */
  predicate CanonicalDecimal(s: Bytes) {
    var d := if s != [] && s[0] == MINUS then s[1..] else s;
    d != [] && AllDigits(d) && (d[0] == ZERO ==> s == [ZERO])
  }

  lemma {:induction false} DecimalRun(s: Bytes, i: nat, j: nat)
    requires i <= j <= |s| && AllDigits(s[i..j])
    requires j == |s| || DigitValue(s[j]) >= 10
    ensures RunEnd(s, i, 10) == j
    decreases j - i
  {
    if i < j {
      assert s[i..j][0] == s[i];
      assert s[i + 1..j] == s[i..j][1..];
      DecimalRun(s, i + 1, j);
    }
  }

  lemma {:induction false} DecimalRunValue(s: Bytes, i: nat, j: nat)
    requires i <= j <= |s| && AllDigits(s[i..j])
    ensures RunValue(s, i, j, 10) == DecValue(s[i..j])
    decreases j
  {
    if i < j {
      assert s[i..j][..j - i - 1] == s[i..j - 1];
      assert s[i..j][j - i - 1] == s[j - 1];
      DecimalRunValue(s, i, j - 1);
    }
  }

  /** Digits from `k` on, without a superfluous zero, are read to the end and in base 10, or are a single octal zero. */
  lemma CanonicalRun(s: Bytes, k: nat)
    requires k < |s| && AllDigits(s[k..]) && (s[k] == ZERO ==> s == [ZERO])
    ensures var (base, first) := BaseAt(s, k);
            first == k && RunEnd(s, k, base) == |s| && RunValue(s, k, |s|, base) == DecValue(s[k..])
  {
    assert s[k..|s|] == s[k..];
    if s == [ZERO] {
      assert RunEnd(s, 1, 8) == 1 && RunEnd(s, 0, 8) == 1;
      assert RunValue(s, 0, 1, 8) == RunValue(s, 0, 0, 8) * 8 + DigitValue(s[0]);
      assert s[0..] == s && s[..0] == [];
    } else {
      DecimalRun(s, k, |s|);
      DecimalRunValue(s, k, |s|);
    }
  }

  /** On canonical decimals `strtol` is the value of the digits, with the sign. */
  lemma StrtolOfCanonical(s: Bytes)
    requires CanonicalDecimal(s)
    ensures Strtol(s).end == |s|
    ensures var v: int := if s[0] == MINUS then 0 - DecValue(s[1..]) else DecValue(s);
            Strtol(s).erange == !(LONG_MIN <= v <= LONG_MAX) && (!Strtol(s).erange ==> Strtol(s).value == v)
  {
    hide RunEnd, RunValue, DecValue;
    assert SkipSpace(s, 0) == 0;
    if s[0] == MINUS {
      assert s[1] == s[1..][0];
      CanonicalRun(s, 1);
    } else {
      assert s[0..] == s;
      CanonicalRun(s, 0);
    }
  }

  lemma DecIsCanonical(n: int)
    ensures CanonicalDecimal(Dec(n))
    ensures Dec(n)[0] == MINUS <==> n < 0
  {
    var m := if n < 0 then -n else n;
    DecNatLeadingDigit(m);
    if n < 0 {
      assert Dec(n)[1..] == DecNat(m);
    }
  }

  /** Printing a `long` and reading it back. */
  lemma StringToLongOfDec(n: int)
    requires LONG_MIN <= n <= LONG_MAX
    ensures StringToLong(Dec(n)) == Some(n)
  {
    hide Strtol, DecNat, DecValue;
    DecIsCanonical(n);
    StrtolOfCanonical(Dec(n));
    var m := if n < 0 then -n else n;
    DecValueOfDecNat(m);
    if n < 0 {
      assert Dec(n)[1..] == DecNat(m);
    }
    LongDigits(m);
  }

  lemma LongDigits(m: nat)
    requires m <= LONG_MAX + 1
    ensures 1 <= |DecNat(m)| <= 19
  {
    assert Pow10(19) == 10000000000000000000 by {
      assert Pow10(5) == 100000;
      assert Pow10(10) == 10000000000;
      assert Pow10(15) == 1000000000000000;
    }
    DecNatLength(m, 19);
  }

  /** SET then GET returns the same bytes exactly for the strings that are not taken for integers and the canonical
      decimals. */
  lemma SetGetSameIff(s: Bytes)
    ensures Normalise(s) == s <==> StringToLong(s).None? || CanonicalDecimal(s)
  {
    hide StringToLong, Dec, CanonicalDecimal;
    if StringToLong(s).Some? {
      DecIsCanonical(StringToLong(s).value);
      if CanonicalDecimal(s) {
        CanonicalPrintsBack(s);
      }
    }
  }

  lemma CanonicalPrintsBack(s: Bytes)
    requires CanonicalDecimal(s) && StringToLong(s).Some?
    ensures Dec(StringToLong(s).value) == s
  {
    hide Strtol, DecNat, DecValue;
    StrtolOfCanonical(s);
    if s[0] == MINUS {
      DecNatOfDecValue(s[1..]);
      assert s == [MINUS] + s[1..];
      DecNatLeadingDigit(DecValue(s[1..]));
    } else {
      DecNatOfDecValue(s);
    }
  }

  /** SET of what GET returned changes nothing any more, and keeps the integer. */
  lemma NormaliseIdempotent(s: Bytes)
    ensures Normalise(Normalise(s)) == Normalise(s)
    ensures StringToLong(Normalise(s)) == StringToLong(s)
  {
    if StringToLong(s).Some? {
      StringToLongOfDec(StringToLong(s).value);
    }
  }

  /** Strings that come back changed: white space, a plus, octal and hexadecimal. */
  lemma ChangedExamples()
    ensures Normalise([32, ZERO + 7]) == [ZERO + 7]
    ensures Normalise([PLUS, ZERO + 7]) == [ZERO + 7]
    ensures Normalise([ZERO, ZERO + 1, ZERO]) == [ZERO + 8]
    ensures Normalise([ZERO, 'x' as int, 'F' as int]) == [ZERO + 1, ZERO + 5]
  {
    hide Strtol;
    SpaceAndSignRead();
    OctalAndHexRead();
    assert DecNat(15) == DecNat(1) + [ZERO + 5];
  }

  lemma SpaceAndSignRead()
    ensures StringToLong([32, ZERO + 7]) == Some(7) && StringToLong([PLUS, ZERO + 7]) == Some(7)
  {
    var a := [32, ZERO + 7];
    assert SkipSpace(a, 1) == 1 && RunEnd(a, 2, 10) == 2 && RunEnd(a, 1, 10) == 2;
    assert RunValue(a, 1, 1, 10) == 0 && RunValue(a, 1, 2, 10) == 7;
    var b := [PLUS, ZERO + 7];
    assert SkipSpace(b, 0) == 0 && RunEnd(b, 2, 10) == 2 && RunEnd(b, 1, 10) == 2;
    assert RunValue(b, 1, 1, 10) == 0 && RunValue(b, 1, 2, 10) == 7;
  }

  lemma OctalAndHexRead()
    ensures StringToLong([ZERO, ZERO + 1, ZERO]) == Some(8) && StringToLong([ZERO, 'x' as int, 'F' as int]) == Some(15)
  {
    var c := [ZERO, ZERO + 1, ZERO];
    assert SkipSpace(c, 0) == 0;
    assert RunEnd(c, 3, 8) == 3 && RunEnd(c, 2, 8) == 3 && RunEnd(c, 1, 8) == 3 && RunEnd(c, 0, 8) == 3;
    assert RunValue(c, 0, 0, 8) == 0 && RunValue(c, 0, 1, 8) == 0 && RunValue(c, 0, 2, 8) == 1
           && RunValue(c, 0, 3, 8) == 8;
    var d := [ZERO, 'x' as int, 'F' as int];
    assert SkipSpace(d, 0) == 0 && RunEnd(d, 3, 16) == 3 && RunEnd(d, 2, 16) == 3;
    assert RunValue(d, 2, 2, 16) == 0 && RunValue(d, 2, 3, 16) == 15;
  }
}
