/** What the parser refuses is exactly what cannot become a request: an Error is given only to texts that no
    continuation turns into a message, and a text that none turns into one is answered Error soon. */
module RespRefusals {
  import opened ByteStrings
  import opened RespParser
  import opened RespText
  import opened RespGrammar
  import opened RespExtension
  import opened RespEnds

  /** The text begins with a message, or is the beginning of one. */
  ghost predicate Viable(s: Bytes) {
    exists m :: IsMessage(m) && (s <= MessageText(m) || MessageText(m) <= s)
  }

  lemma ViablePrefix(s: Bytes, k: nat)
    requires k <= |s| && Viable(s)
    ensures Viable(s[..k])
  {
    var m :| IsMessage(m) && (s <= MessageText(m) || MessageText(m) <= s);
    var text := MessageText(m);
    if s <= text || k <= |text| {
      assert s[..k] <= text;
    } else {
      assert text <= s[..k];
    }
  }

  // ---------------------------------------------------------------- an Error is hopeless

  /** A text answered Error within the buffer neither begins with a message nor is the beginning of one. */
  lemma ErrorIsHopeless(s: Bytes, m: Message)
    requires |s| < INT_MAX && ParseRequest(INITIAL, s, 0).res == Error && !RunsOut(INITIAL, s, 0)
    requires IsMessage(m) && |MessageText(m)| < INT_MAX
    ensures !(s <= MessageText(m)) && !(MessageText(m) <= s)
  {
    hide ParseRequest, RunsOut, MessageText, IsMessage;
    RunsOutIff(INITIAL, s, 0);
    MessageSize(m);
    var text := MessageText(m);
    if s <= text {
      var t := text[|s|..] + [ZERO];
      assert s + t == text + [ZERO];
      ExtensionStability(INITIAL, s, t, 0);
      assert At(s + t, 0, text);
      Complete(s + t, 0, m);
    }
    if text <= s {
      var t := [ZERO];
      ExtensionStability(INITIAL, s, t, 0);
      assert At(s + t, 0, text);
      Complete(s + t, 0, m);
    }
  }

  lemma MessageSize(m: Message)
    requires IsMessage(m)
    ensures |MessageText(m)| >= 3
  {
  }

  // ---------------------------------------------------------------- ways to go on

  /** Any digits go on to a number that is zero in 32 bits. */
  lemma ToZero(n: Numeral) returns (d: Bytes)
    requires IsNumeral(n)
    ensures AllDigits(d) && IsNumeral(Numeral(n.sign, n.digits + d)) && ValueOf(Numeral(n.sign, n.digits + d)) == 0
  {
    hide Wrap32, DecValue;
    var m := 0x1_0000_0000;
    var a := DecValue(n.digits) * Pow10(10);
    var e := (m - a % m) % m;
    d := Filled(e, 10);
    FilledValue(e, 10);
    TenDigits(e);
    DecValueAppend(n.digits, d);
    var k := (a + e) / m;
    assert a + e == k * m by {
      assert a == m * (a / m) + a % m;
    }
    assert DecValue(n.digits + d) == k * m;
    WrapShift(0, k * m, k);
    WrapShift(0, 0 - k * m, 0 - k);
    NoneWraps();
  }

  lemma TenDigits(e: nat)
    requires e < 0x1_0000_0000
    ensures |DecNat(e)| <= 10
  {
    assert Pow10(10) == 10000000000 by {
      assert Pow10(5) == 100000;
    }
    DecNatLength(e, 10);
  }

  const NOTHING := Part(Numeral([], [ZERO]), [])

  lemma NothingIsPart()
    ensures IsPart(NOTHING) && ValueOf(NOTHING.len) == 0
  {
    assert DecValue([ZERO]) == 0;
  }

  lemma {:induction false} PartsTextAppend(a: seq<Part>, b: seq<Part>)
    requires AreParts(a) && AreParts(b)
    ensures AreParts(a + b) && PartsText(a + b) == PartsText(a) + PartsText(b)
    decreases |a|
  {
    hide IsPart, PartText;
    if a == [] {
      assert a + b == b;
    } else {
      PartsTextAppend(a[1..], b);
      assert (a + b)[1..] == a[1..] + b;
      assert PartText(a[0]) + (PartsText(a[1..]) + PartsText(b)) == PartText(a[0]) + PartsText(a[1..]) + PartsText(b);
    }
  }

  /** Behind a count line and fewer parts than it announces, every beginning of a part goes on to a message. */
  lemma ViableWith(n: Numeral, xs: seq<Part>, x: Part, w: Bytes)
    requires IsNumeral(n) && AreParts(xs) && |xs| < ValueOf(n) && IsPart(x) && w <= PartText(x)
    ensures Viable([STAR] + LineText(n) + PartsText(xs) + w)
  {
    hide IsNumeral, ValueOf, LineText, PartText, IsPart, PartsText, AreParts;
    var rest := Nothings(ValueOf(n) - |xs| - 1);
    OnePart(x, rest);
    PartsTextAppend(xs, [x] + rest);
    var m := Message(n, xs + ([x] + rest));
    assert IsMessage(m);
    var front, text := [STAR] + LineText(n) + PartsText(xs), PartText(x);
    assert MessageText(m) == front + (text + PartsText(rest));
    Begins(front, w, text, PartsText(rest));
  }

  lemma Begins(front: Bytes, w: Bytes, text: Bytes, rest: Bytes)
    requires w <= text
    ensures front + w <= front + (text + rest)
  {
    assert (front + (text + rest))[..|front| + |w|] == front + text[..|w|];
  }

  lemma Nothings(k: nat) returns (rest: seq<Part>)
    ensures |rest| == k && AreParts(rest)
  {
    NothingIsPart();
    rest := seq(k, _ => NOTHING);
  }

  lemma OnePart(x: Part, rest: seq<Part>)
    requires IsPart(x) && AreParts(rest)
    ensures AreParts([x] + rest) && PartsText([x] + rest) == PartText(x) + PartsText(rest)
  {
    hide IsPart, PartText;
    assert ([x] + rest)[1..] == rest;
  }

  lemma NothingYetViable()
    ensures Viable([])
  {
    NothingIsPart();
    var m := Message(NOTHING.len, []);
    assert IsMessage(m) && [] <= MessageText(m);
  }

  /** The beginning of a count line goes on to a message. */
  lemma CountViable(n: Numeral)
    requires IsNumeral(n)
    ensures Viable([STAR] + n.sign + n.digits)
  {
    hide ValueOf;
    var d := ToZero(n);
    var whole := Numeral(n.sign, n.digits + d);
    var m := Message(whole, []);
    assert IsMessage(m);
    var s := [STAR] + n.sign + n.digits;
    assert MessageText(m) == s + (d + CRLF);
    assert s <= MessageText(m);
  }

  // ---------------------------------------------------------------- a Wait is hopeful

  /** Digits and a CR without its LF. */
  lemma NeedLfFound(s: Bytes, q: nat) returns (n: Numeral)
    requires q + 3 <= |s| && GetInt(s, q).IntWait?
    ensures IsNumeral(n) && s[q..|s| - 1] == n.sign + n.digits
  {
    hide Accumulate;
    var i := q + SignLength(s, q);
    var j := DigitsEnd(s, i);
    assert ScanInt(s, q).NeedLf? && j + 1 == |s|;
    n := Numeral(s[q..i], s[i..j]);
    assert s[q..i] == if i == q then [] else [s[q]];
  }

  /** A string the parser waits for goes on to a part, but for at most three bytes at the end that decide nothing
      yet. */
  lemma StringViable(st: Progress, s: Bytes, q: nat) returns (k: nat, x: Part)
    requires InRange(st) && st.paramLen == -1 && q <= |s| && |s| - q < INT_MAX
    requires ParseStr(st, s, q).res == Wait && ParseStr(st, s, q).pos <= |s|
    ensures q <= k <= |s| <= k + 3 && IsPart(x) && s[q..k] <= PartText(x)
  {
    hide GetInt, ParseStrval, LineText, ValueOf, IsNumeral;
    NothingIsPart();
    if PrefixedInt(s, q, DOLLAR).IntWait? {
      if |s| - q <= 3 {
        k, x := q, NOTHING;
      } else {
        var n := NeedLfFound(s, q + 1);
        var d := ToZero(n);
        k := |s| - 1;
        x := Part(Numeral(n.sign, n.digits + d), []);
        LengthViable(s, q, n, d);
      }
    } else {
      k, x := BodyViable(st, s, q);
    }
  }

  lemma LengthViable(s: Bytes, q: nat, n: Numeral, d: Bytes)
    requires q + 1 <= |s| - 1 && s[q] == DOLLAR && s[q + 1..|s| - 1] == n.sign + n.digits
    requires IsNumeral(n) && AllDigits(d) && IsNumeral(Numeral(n.sign, n.digits + d))
    requires ValueOf(Numeral(n.sign, n.digits + d)) == 0
    ensures var x := Part(Numeral(n.sign, n.digits + d), []); IsPart(x) && s[q..|s| - 1] <= PartText(x)
  {
    hide ValueOf;
    var x := Part(Numeral(n.sign, n.digits + d), []);
    assert s[q..|s| - 1] == [DOLLAR] + s[q + 1..|s| - 1];
    assert PartText(x) == s[q..|s| - 1] + (d + CRLF + CRLF);
  }

  lemma BodyViable(st: Progress, s: Bytes, q: nat) returns (k: nat, x: Part)
    requires InRange(st) && st.paramLen == -1 && q <= |s| && |s| - q < INT_MAX
    requires ParseStr(st, s, q).res == Wait && ParseStr(st, s, q).pos <= |s| && PrefixedInt(s, q, DOLLAR).IntOk?
    ensures q <= k <= |s| <= k + 3 && IsPart(x) && s[q..k] <= PartText(x)
  {
    hide GetInt, LineText, ValueOf, IsNumeral;
    PositionBound(s, q + 1);
    var n := NumberFound(s, q + 1);
    var v, e := ValueOf(n), PrefixedInt(s, q, DOLLAR).pos;
    assert v >= 0 && |s| - e < v + 2;
    k := if |s| - e <= v then |s| else |s| - 1;
    var body := s[e..k] + seq(v - (k - e), _ => ZERO);
    x := Part(n, body);
    var head := [DOLLAR] + LineText(n);
    assert s[q..e] == head by {
      assert s[q + 1..e] == LineText(n);
    }
    assert PartText(x) == head + (body + CRLF);
    assert s[q..k] == s[q..e] + s[e..k];
    assert s[q..k] <= PartText(x);
  }

  /** Where the parser waits, all of the text but at most three bytes can still become a message. */
  lemma WaitIsHopeful(s: Bytes) returns (k: nat)
    requires |s| < INT_MAX && ParseRequest(INITIAL, s, 0).res == Wait && !RunsOut(INITIAL, s, 0)
    ensures k <= |s| <= k + 3 && Viable(s[..k])
  {
    hide ParseRequest, Brings, RunsOut, GetInt, Viable, ParseStrlist, Dangling, Stops;
    RunsOutIff(INITIAL, s, 0);
    HeaderOutcome(s, 0);
    if PrefixedInt(s, 0, STAR).IntWait? {
      k := HeaderViable(s);
    } else {
      var st1, q := BringsFound(INITIAL, s, 0);
      NoRunOutBehind(s, st1, q);
      WaitingString(st1, s, q);
      var x;
      k, x := StringViable(st1, s, q);
      PartsViable(s, st1, q, x, k);
    }
  }

  lemma HeaderViable(s: Bytes) returns (k: nat)
    requires PrefixedInt(s, 0, STAR).IntWait?
    ensures k <= |s| <= k + 3 && Viable(s[..k])
  {
    hide GetInt, Viable;
    if |s| <= 3 {
      k := 0;
      NothingYetViable();
    } else {
      var n := NeedLfFound(s, 1);
      k := |s| - 1;
      CountViable(n);
      assert s[..k] == [STAR] + s[1..k] == [STAR] + n.sign + n.digits;
    }
  }

  lemma NoRunOutBehind(s: Bytes, st1: Progress, q: nat)
    requires Brings(INITIAL, s, 0, st1, q) && !RunsOut(INITIAL, s, 0)
    ensures !Dangling(s, q, DOLLAR)
  {
  }

  lemma WaitingString(st: Progress, s: Bytes, q: nat)
    requires InRange(st) && st.paramLen == -1 && |st.params| < st.multi && q <= |s| && Stops(st, s, q)
    requires !Dangling(s, q, DOLLAR) && ParseStrlist(st, s, q).res == Wait
    ensures ParseStr(st, s, q).res == Wait && ParseStr(st, s, q).pos <= |s|
  {
    hide ParseStr, Dangling;
    NextRunsOutIff(st, s, q);
    ListPosition(st, s, q);
  }

  /** The text up to `q` is a count line and parts, so what goes on to a part goes on to a message. */
  lemma PartsViable(s: Bytes, st1: Progress, q: nat, x: Part, k: nat)
    requires Brings(INITIAL, s, 0, st1, q) && q <= k <= |s| && IsPart(x) && s[q..k] <= PartText(x)
    ensures Viable(s[..k])
  {
    hide LineText, ValueOf, IsNumeral, PartText, IsPart, Viable;
    var n :| IsNumeral(n) && At(s, 0, [STAR] + LineText(n))
             && StringsBring(INITIAL.(multi := ValueOf(n)), s, 0 + 1 + |LineText(n)|, st1, q);
    var st, p := INITIAL.(multi := ValueOf(n)), 1 + |LineText(n)|;
    var xs :| AreParts(xs) && At(s, p, PartsText(xs)) && |st.params| + |xs| < st.multi
              && st1 == With(st, xs) && q == p + |PartsText(xs)|;
    ViableWith(n, xs, x, s[q..k]);
    assert s[..k] == s[0..p] + s[p..q] + s[q..k];
  }

  /** A text that neither begins with a message nor is the beginning of one is answered Error as soon as three more
      bytes are there, whatever they are, unless they make it run out in digits or announce a length too large. */
  lemma HopelessIsRefused(s: Bytes, t: Bytes)
    requires !Viable(s) && |t| >= 3 && |s + t| < INT_MAX
    requires !RunsOut(INITIAL, s + t, 0) && !Overruns(INITIAL, s + t, 0)
    ensures ParseRequest(INITIAL, s + t, 0).res == Error
  {
    hide ParseRequest, RunsOut, Overruns, Viable;
    var u := s + t;
    var o := ParseRequest(INITIAL, u, 0);
    RunsOutIff(INITIAL, u, 0);
    OverrunsIff(INITIAL, u, 0);
    assert u[..|s|] == s;
    if o.res == Ok {
      Sound(u, 0, o.pos, o.st.params);
      AcceptedViable(u, o.pos, o.st.params);
      ViablePrefix(u, |s|);
    }
    if o.res == Wait {
      var k := WaitIsHopeful(u);
      assert u[..k][..|s|] == u[..|s|];
      ViablePrefix(u[..k], |s|);
    }
  }

  lemma AcceptedViable(u: Bytes, n: nat, params: seq<Bytes>)
    requires n <= |u| && Denotes(u[0..n], params)
    ensures Viable(u)
  {
    var m :| IsMessage(m) && MessageText(m) == u[0..n] && Bodies(m.parts) == params;
    assert MessageText(m) <= u;
  }
}
