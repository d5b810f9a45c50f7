/** The language the request parser accepts, defined without the parser, and the proof that it accepts exactly that. */
module RespGrammar {
  import opened ByteStrings
  import opened RespParser
  import opened RespText

  // ---------------------------------------------------------------- the language

  /** An optional sign and any number of digits, also none. */
  datatype Numeral = Numeral(sign: Bytes, digits: Bytes)

  predicate IsNumeral(n: Numeral) {
    AllDigits(n.digits) && (n.sign == [] || n.sign == [PLUS] || n.sign == [MINUS])
  }

  /** The 32-bit `int` a numeral stands for. */
  function ValueOf(n: Numeral): int
    requires IsNumeral(n)
  {
    Wrap32(if n.sign == [MINUS] then 0 - DecValue(n.digits) else DecValue(n.digits))
  }

  function LineText(n: Numeral): Bytes {
    n.sign + n.digits + CRLF
  }

  /** A string with the numeral of its length; the length -1 stands for an empty string and has no body. */
  datatype Part = Part(len: Numeral, body: Bytes)

  predicate IsPart(x: Part) {
    IsNumeral(x.len) && if ValueOf(x.len) == -1 then x.body == [] else |x.body| == ValueOf(x.len)
  }

  function PartText(x: Part): Bytes
    requires IsPart(x)
  {
    [DOLLAR] + LineText(x.len) + if ValueOf(x.len) == -1 then [] else x.body + CRLF
  }

  predicate AreParts(xs: seq<Part>) {
    forall i | 0 <= i < |xs| :: IsPart(xs[i])
  }

  function PartsText(xs: seq<Part>): Bytes
    requires AreParts(xs)
  {
    if xs == [] then [] else PartText(xs[0]) + PartsText(xs[1..])
  }

  function Bodies(xs: seq<Part>): (r: seq<Bytes>)
    ensures |r| == |xs|
  {
    if xs == [] then [] else [xs[0].body] + Bodies(xs[1..])
  }

  /** A request: the numeral of its count, then as many parts; a count of -1 stands for none. */
  datatype Message = Message(count: Numeral, parts: seq<Part>)

  predicate IsMessage(m: Message) {
    && IsNumeral(m.count) && AreParts(m.parts)
    && ValueOf(m.count) >= -1 && |m.parts| == if ValueOf(m.count) == -1 then 0 else ValueOf(m.count)
  }

  function MessageText(m: Message): Bytes
    requires IsMessage(m)
  {
    [STAR] + LineText(m.count) + PartsText(m.parts)
  }

  // ---------------------------------------------------------------- numbers

  lemma LineSplits(s: Bytes, q: nat, n: Numeral)
    requires At(s, q, LineText(n))
    ensures At(s, q, n.sign) && At(s, q + |n.sign|, n.digits)
    ensures var j := q + |n.sign| + |n.digits|;
            j + 2 <= |s| && s[j] == CR && s[j + 1] == LF && j + 2 == q + |LineText(n)|
  {
    AtSplit(s, q, n.sign + n.digits, CRLF);
    AtSplit(s, q, n.sign, n.digits);
    AtIndex(s, q + |n.sign + n.digits|, CRLF, 0);
    AtIndex(s, q + |n.sign + n.digits|, CRLF, 1);
  }

  lemma LineRead(s: Bytes, q: nat, n: Numeral)
    requires IsNumeral(n) && At(s, q, LineText(n)) && |s| - q >= 3
    ensures GetInt(s, q) == IntOk(ValueOf(n), q + |LineText(n)|)
  {
    hide Accumulate, DecValue, DigitsEnd, Wrap32, LineText;
    LineSplits(s, q, n);
    var i := q + |n.sign|;
    var j := i + |n.digits|;
    if n.sign != [] {
      AtIndex(s, q, n.sign, 0);
    }
    forall k | i <= k < j ensures IsDigit(s[k]) {
      AtIndex(s, i, n.digits, k - i);
    }
    assert s[i..j] == n.digits;
    DigitsEndAt(s, i, j);
    AccumulateValue(s, i, j);
    WrapNegated(DecValue(n.digits));
    assert SignLength(s, q) == |n.sign|;
  }

  lemma LineFound(s: Bytes, q: nat) returns (n: Numeral)
    requires q <= |s| && GetInt(s, q).IntOk? && GetInt(s, q).pos <= |s|
    ensures IsNumeral(n) && At(s, q, LineText(n))
    ensures GetInt(s, q) == IntOk(ValueOf(n), q + |LineText(n)|)
  {
    hide Accumulate, DecValue;
    var i := q + SignLength(s, q);
    var j := DigitsEnd(s, i);
    n := Numeral(s[q..i], s[i..j]);
    assert ScanInt(s, q).Line?;
    assert s[j] == CR && s[j + 1] == LF;
    assert s[j..j + 2] == CRLF && s[q..j + 2] == s[q..i] + s[i..j] + s[j..j + 2];
    LineRead(s, q, n);
  }

  // ---------------------------------------------------------------- strings

  lemma PartRead(st: Progress, s: Bytes, p: nat, x: Part)
    requires InRange(st) && st.paramLen == -1 && IsPart(x) && Measurable(s, p) && At(s, p, PartText(x))
    ensures ParseStr(st, s, p) == Outcome(Ok, st.(params := st.params + [x.body]), p + |PartText(x)|)
  {
    hide ParseStr, PrefixedInt, LineText, IsNumeral, ParseStrval, At, ValueOf;
    var v, head := ValueOf(x.len), [DOLLAR] + LineText(x.len);
    PartFits(s, p, x);
    if v == -1 {
      AtSplit(s, p, head, []);
      LengthRead(s, p, x.len);
      StrWithout(st, s, p, p + |head|);
    } else {
      AtSplit(s, p, head, x.body + CRLF);
      LengthRead(s, p, x.len);
      StrWith(st, s, p, v, p + |head|);
      BodyRead(st.(paramLen := v), s, p + |head|, x.body);
    }
  }

  lemma StrWithout(st: Progress, s: Bytes, p: nat, q: nat)
    requires InRange(st) && st.paramLen == -1 && PrefixedInt(s, p, DOLLAR) == IntOk(-1, q)
    ensures ParseStr(st, s, p) == Outcome(Ok, st.(params := st.params + [[]]), q)
  {
    hide PrefixedInt;
  }

  lemma StrWith(st: Progress, s: Bytes, p: nat, v: nat, q: nat)
    requires InRange(st) && st.paramLen == -1 && PrefixedInt(s, p, DOLLAR) == IntOk(v, q)
    ensures ParseStr(st, s, p) == ParseStrval(st.(paramLen := v), s, q)
  {
    hide PrefixedInt, ParseStrval;
  }

  lemma PartFits(s: Bytes, p: nat, x: Part)
    requires IsPart(x) && At(s, p, PartText(x))
    ensures p + 4 <= p + |PartText(x)| <= |s|
  {
    hide LineText, ValueOf;
    LineLength(x.len);
  }

  lemma LengthRead(s: Bytes, p: nat, n: Numeral)
    requires p + 4 <= |s| && IsNumeral(n) && At(s, p, [DOLLAR] + LineText(n))
    ensures PrefixedInt(s, p, DOLLAR) == IntOk(ValueOf(n), p + 1 + |LineText(n)|)
  {
    hide GetInt, LineText, ValueOf, IsNumeral;
    AtSplit(s, p, [DOLLAR], LineText(n));
    AtIndex(s, p, [DOLLAR], 0);
    LineRead(s, p + 1, n);
  }

  lemma BodyRead(st: Progress, s: Bytes, q: nat, body: Bytes)
    requires st.paramLen == |body| && Measurable(s, q) && At(s, q, body + CRLF)
    ensures ParseStrval(st, s, q) == Outcome(Ok, Progress(st.multi, -1, st.params + [body]), q + |body| + 2)
  {
    AtSplit(s, q, body, CRLF);
    AtIndex(s, q + |body|, CRLF, 0);
    AtIndex(s, q + |body|, CRLF, 1);
  }

  lemma LineLength(n: Numeral)
    requires IsNumeral(n)
    ensures |LineText(n)| >= if ValueOf(n) == 0 then 2 else 3
  {
    if n.sign == [] && n.digits == [] {
      assert DecValue(n.digits) == 0;
    }
  }

  lemma PartFound(st: Progress, s: Bytes, p: nat) returns (x: Part)
    requires InRange(st) && st.paramLen == -1 && ParseStr(st, s, p).res == Ok && ParseStr(st, s, p).pos <= |s|
    ensures IsPart(x) && At(s, p, PartText(x))
    ensures ParseStr(st, s, p) == Outcome(Ok, st.(params := st.params + [x.body]), p + |PartText(x)|)
  {
    hide GetInt, LineText, ValueOf, IsNumeral;
    var n := LineFound(s, p + 1);
    var v := ValueOf(n);
    var q := p + 1 + |LineText(n)|;
    x := Part(n, if v == -1 then [] else s[q..q + v]);
    Adjacent(s, p, [DOLLAR], LineText(n));
    if v != -1 {
      assert At(s, q + v, CRLF) by {
        assert s[q + v..q + v + 2] == CRLF;
      }
      Adjacent(s, q, x.body, CRLF);
      Adjacent(s, p, [DOLLAR] + LineText(n), x.body + CRLF);
    } else {
      assert [DOLLAR] + LineText(n) + [] == [DOLLAR] + LineText(n);
    }
  }

  // ---------------------------------------------------------------- requests

  /** The state after reading some parts. */
  function With(st: Progress, xs: seq<Part>): (st1: Progress)
    ensures st1.multi == st.multi && st1.paramLen == st.paramLen && |st1.params| == |st.params| + |xs|
  {
    st.(params := st.params + Bodies(xs))
  }

  lemma WithNone(st: Progress)
    ensures With(st, []) == st
  {
    assert st.params + [] == st.params;
  }

  lemma WithMore(st: Progress, x: Part, rest: seq<Part>)
    ensures With(st.(params := st.params + [x.body]), rest) == With(st, [x] + rest)
  {
    assert st.params + [x.body] + Bodies(rest) == st.params + Bodies([x] + rest);
  }

  /** Parts that are announced and there are read, and nothing else happens. */
  lemma {:induction false} PartsRead(st: Progress, s: Bytes, p: nat, xs: seq<Part>)
    requires InRange(st) && st.paramLen == -1 && Measurable(s, p) && AreParts(xs) && p <= |s| && At(s, p, PartsText(xs))
    requires xs != [] ==> |st.params| + |xs| <= st.multi
    ensures ParseStrlist(st, s, p) == ParseStrlist(With(st, xs), s, p + |PartsText(xs)|)
    decreases |xs|
  {
    hide PartText, ParseStr, IsPart, With;
    if xs == [] {
      WithNone(st);
    } else {
      AtSplit(s, p, PartText(xs[0]), PartsText(xs[1..]));
      PartRead(st, s, p, xs[0]);
      var st1 := st.(params := st.params + [xs[0].body]);
      PartsRead(st1, s, p + |PartText(xs[0])|, xs[1..]);
      WithMore(st, xs[0], xs[1..]);
      assert [xs[0]] + xs[1..] == xs;
    }
  }

  /** However a call ends, the parts it could read are parts of the language, and it ends as it does behind them:
      nothing more is announced, or the next string is not there, or its length runs into the end of the buffer. */
  lemma {:induction false} PartsFound(st: Progress, s: Bytes, p: nat) returns (xs: seq<Part>)
    requires InRange(st) && st.paramLen == -1 && p <= |s|
    ensures AreParts(xs) && At(s, p, PartsText(xs)) && (xs != [] ==> |st.params| + |xs| <= st.multi)
    ensures var q := p + |PartsText(xs)|;
            && ParseStrlist(st, s, p) == ParseStrlist(With(st, xs), s, q)
            && (|st.params| + |xs| >= st.multi
                || ParseStr(With(st, xs), s, q).res != Ok || ParseStr(With(st, xs), s, q).pos > |s|)
    decreases st.multi - |st.params|
  {
    hide PartText, ParseStr, IsPart, With;
    var o := ParseStr(st, s, p);
    if |st.params| >= st.multi || o.res != Ok || o.pos > |s| {
      xs := [];
      WithNone(st);
    } else {
      var x := PartFound(st, s, p);
      var st1 := st.(params := st.params + [x.body]);
      var rest := PartsFound(st1, s, p + |PartText(x)|);
      xs := [x] + rest;
      assert xs[1..] == rest;
      Adjacent(s, p, PartText(x), PartsText(rest));
      WithMore(st, x, rest);
    }
  }

  /** The strings of a request, all there. */
  lemma ListRead(st: Progress, s: Bytes, p: nat, xs: seq<Part>)
    requires InRange(st) && st.paramLen == -1 && Measurable(s, p) && AreParts(xs) && p <= |s| && At(s, p, PartsText(xs))
    requires if st.multi == -1 then xs == [] else st.multi == |st.params| + |xs|
    ensures ParseStrlist(st, s, p) == Outcome(Ok, With(st, xs), p + |PartsText(xs)|)
  {
    hide PartText, ParseStr, IsPart, PartsText, AreParts;
    PartsRead(st, s, p, xs);
  }

  lemma ListFound(st: Progress, s: Bytes, p: nat) returns (xs: seq<Part>)
    requires InRange(st) && st.paramLen == -1 && p <= |s|
    requires ParseStrlist(st, s, p).res == Ok && ParseStrlist(st, s, p).pos <= |s|
    ensures AreParts(xs) && At(s, p, PartsText(xs))
    ensures |xs| == if |st.params| >= st.multi then 0 else st.multi - |st.params|
    ensures ParseStrlist(st, s, p) == Outcome(Ok, With(st, xs), p + |PartsText(xs)|)
  {
    hide PartText, ParseStr, IsPart, PartsText, AreParts;
    xs := PartsFound(st, s, p);
  }

  ghost predicate Denotes(text: Bytes, params: seq<Bytes>) {
    exists m :: IsMessage(m) && MessageText(m) == text && Bodies(m.parts) == params
  }

  ghost predicate Accepts(s: Bytes, p: nat, n: nat, params: seq<Bytes>) {
    var o := ParseRequest(INITIAL, s, p);
    o.res == Ok && o.st.params == params && o.pos == p + n
  }

  /** The parser takes `n` bytes of the buffer for a request with these parameters exactly if they are one, and the
      buffer holds at least four bytes: a bare count line, which is three bytes long, is not read before something
      follows it. */
  lemma AcceptsExactlyMessages(s: Bytes, p: nat, n: nat, params: seq<Bytes>)
    requires p + n <= |s| && Measurable(s, p)
    ensures Accepts(s, p, n, params) <==> |s| - p >= 4 && Denotes(s[p..p + n], params)
  {
    if Accepts(s, p, n, params) {
      Sound(s, p, n, params);
    }
    if m :| |s| - p >= 4 && IsMessage(m) && MessageText(m) == s[p..p + n] && Bodies(m.parts) == params {
      Complete(s, p, m);
    }
  }

  lemma Complete(s: Bytes, p: nat, m: Message)
    requires IsMessage(m) && Measurable(s, p) && At(s, p, MessageText(m)) && |s| - p >= 4
    ensures Accepts(s, p, |MessageText(m)|, Bodies(m.parts))
  {
    hide GetInt, LineText, PartsText, ParseStrlist, ValueOf, IsNumeral, AreParts;
    AtSplit(s, p, [STAR] + LineText(m.count), PartsText(m.parts));
    AtSplit(s, p, [STAR], LineText(m.count));
    AtIndex(s, p, [STAR], 0);
    LineRead(s, p + 1, m.count);
    ListRead(INITIAL.(multi := ValueOf(m.count)), s, p + 1 + |LineText(m.count)|, m.parts);
    assert [] + Bodies(m.parts) == Bodies(m.parts);
  }

  lemma BytesNeeded(s: Bytes, q: nat)
    requires q <= |s| && GetInt(s, q).IntOk?
    ensures |s| - q >= 3
  {}

  lemma Sound(s: Bytes, p: nat, n: nat, params: seq<Bytes>)
    requires p + n <= |s| && Accepts(s, p, n, params)
    ensures |s| - p >= 4 && Denotes(s[p..p + n], params)
  {
    hide GetInt, LineText, PartsText, ParseStrlist, ValueOf, IsNumeral, AreParts;
    BytesNeeded(s, p + 1);
    var count := LineFound(s, p + 1);
    var q := p + 1 + |LineText(count)|;
    var parts := ListFound(INITIAL.(multi := ValueOf(count)), s, q);
    var m := Message(count, parts);
    Adjacent(s, p, [STAR], LineText(count));
    Adjacent(s, p, [STAR] + LineText(count), PartsText(parts));
    assert [] + Bodies(parts) == Bodies(parts);
    assert IsMessage(m) && MessageText(m) == s[p..p + n] && Bodies(m.parts) == params;
  }
}
