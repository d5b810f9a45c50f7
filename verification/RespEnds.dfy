/** Where a text brings the parser, said about its bytes: which texts run out in the digits of a number, and which
    announce a length with which the guard of the body fails. */
module RespEnds {
  import opened ByteStrings
  import opened RespParser
  import opened RespText
  import opened RespGrammar
  import opened RespExtension

  // ---------------------------------------------------------------- the guard of the body

  /** The guard says whether the body and its CR LF are there exactly if the distance to the end and the sum with two
      both fit an `int`, or both do not. */
  lemma GuardExactIff(s: Bytes, p: nat, len: int)
    requires p <= |s| + 2 && |s| - p < 0x1_0000_0000 && 0 <= len <= INT_MAX
    ensures (BodyMissing(s, p, len) <==> |s| - p < len + 2) <==> (|s| - p <= INT_MAX <==> len <= INT_MAX - 2)
  {
  }

  /** Reading the body stays within the buffer exactly if the announced length leaves room for two in an `int`; only
      at the largest distance, where the CR would be the last byte, may a larger length do no harm. */
  lemma StrvalReadsInsideIff(st: Progress, s: Bytes, p: nat)
    requires 0 <= st.paramLen <= INT_MAX && p <= |s| + 2 && Measurable(s, p)
    ensures st.paramLen <= INT_MAX - 2 ==> ParseStrval(st, s, p).res != Overrun
    ensures |s| - p < INT_MAX && ParseStrval(st, s, p).res != Overrun ==> st.paramLen <= INT_MAX - 2
  {
  }

  // ---------------------------------------------------------------- where a text brings the parser

  /** A tag, a sign and digits up to the end of the buffer, at least four bytes together. */
  predicate Dangling(s: Bytes, q: nat, tag: byte) {
    q + 4 <= |s| && s[q] == tag && AllDigits(s[q + 1 + SignLength(s, q + 1)..])
  }

  /** A length above what leaves room for two in an `int`, as a line or up to the end of the buffer. */
  ghost predicate HugeLength(s: Bytes, q: nat) {
    q + 4 <= |s| && s[q] == DOLLAR
    && exists n :: IsNumeral(n) && ValueOf(n) > INT_MAX - 2
                   && (s[q + 1..] == n.sign + n.digits || At(s, q + 1, LineText(n)))
  }

  /** The text from `p` to `q` is parts, fewer than announced; behind them the state is `st1`. */
  ghost predicate PartsBring(st: Progress, s: Bytes, p: nat, st1: Progress, q: nat) {
    st.paramLen == -1
    && exists xs :: AreParts(xs) && At(s, p, PartsText(xs)) && |st.params| + |xs| < st.multi
                    && st1 == With(st, xs) && q == p + |PartsText(xs)|
  }

  /** ... after the body that a call left behind, if one did. */
  ghost predicate StringsBring(st: Progress, s: Bytes, p: nat, st1: Progress, q: nat) {
    if st.paramLen < 0 then PartsBring(st, s, p, st1, q)
    else
      var tail := p + st.paramLen;
      && |st.params| < st.multi && At(s, tail, CRLF)
      && PartsBring(Progress(st.multi, -1, st.params + [s[p..tail]]), s, tail + 2, st1, q)
  }

  /** ... after the header, if none was read. */
  ghost predicate Brings(st: Progress, s: Bytes, p: nat, st1: Progress, q: nat) {
    if st.multi != -1 then StringsBring(st, s, p, st1, q)
    else |s| - p >= 4
         && exists n :: IsNumeral(n) && At(s, p, [STAR] + LineText(n))
                        && StringsBring(INITIAL.(multi := ValueOf(n)), s, p + 1 + |LineText(n)|, st1, q)
  }

  /** The unread text runs out in the digits of a number: of the header, or of a length behind fewer parts than
      announced. */
  ghost predicate RunsOut(st: Progress, s: Bytes, p: nat) {
    (st.multi == -1 && Dangling(s, p, STAR)) || exists st1, q :: Brings(st, s, p, st1, q) && Dangling(s, q, DOLLAR)
  }

  /** The unread text announces a length too large for the guard, or an earlier call has read one. */
  ghost predicate Overruns(st: Progress, s: Bytes, p: nat) {
    (|st.params| < st.multi && st.paramLen > INT_MAX - 2)
    || exists st1, q :: Brings(st, s, p, st1, q) && HugeLength(s, q)
  }

  lemma PartsBringThere(st: Progress, s: Bytes, p: nat, st1: Progress, q: nat)
    requires InRange(st) && p <= |s| && Measurable(s, p) && PartsBring(st, s, p, st1, q)
    ensures p <= q <= |s| && InRange(st1) && st1.paramLen == -1 && |st1.params| < st1.multi
    ensures ParseStrlist(st, s, p) == ParseStrlist(st1, s, q)
  {
    hide ParseStrlist, PartsText, AreParts;
    var xs :| AreParts(xs) && At(s, p, PartsText(xs)) && |st.params| + |xs| < st.multi
              && st1 == With(st, xs) && q == p + |PartsText(xs)|;
    PartsRead(st, s, p, xs);
  }

  lemma StringsBringThere(st: Progress, s: Bytes, p: nat, st1: Progress, q: nat)
    requires InRange(st) && p <= |s| && Measurable(s, p) && StringsBring(st, s, p, st1, q)
    ensures p <= q <= |s| && InRange(st1) && st1.paramLen == -1 && |st1.params| < st1.multi
    ensures ParseStrlist(st, s, p) == ParseStrlist(st1, s, q)
  {
    hide PartsBring;
    if st.paramLen < 0 {
      PartsBringThere(st, s, p, st1, q);
    } else {
      var tail := p + st.paramLen;
      var st0 := Progress(st.multi, -1, st.params + [s[p..tail]]);
      Adjacent(s, p, s[p..tail], CRLF);
      BodyRead(st, s, p, s[p..tail]);
      PartsBringThere(st0, s, tail + 2, st1, q);
    }
  }

  lemma BringsThere(st: Progress, s: Bytes, p: nat, st1: Progress, q: nat)
    requires Live(st) && p <= |s| && Measurable(s, p) && Brings(st, s, p, st1, q)
    ensures p <= q <= |s| && InRange(st1) && st1.paramLen == -1 && |st1.params| < st1.multi
    ensures ParseRequest(st, s, p) == ParseStrlist(st1, s, q)
  {
    hide StringsBring, ParseStrlist, LineText, ValueOf, IsNumeral, GetInt;
    if st.multi != -1 {
      StringsBringThere(st, s, p, st1, q);
    } else {
      var n :| IsNumeral(n) && At(s, p, [STAR] + LineText(n))
               && StringsBring(INITIAL.(multi := ValueOf(n)), s, p + 1 + |LineText(n)|, st1, q);
      AtSplit(s, p, [STAR], LineText(n));
      AtIndex(s, p, [STAR], 0);
      LineRead(s, p + 1, n);
      BroughtAnnounced(INITIAL.(multi := ValueOf(n)), s, p + 1 + |LineText(n)|, st1, q);
      StringsBringThere(INITIAL.(multi := ValueOf(n)), s, p + 1 + |LineText(n)|, st1, q);
    }
  }

  lemma BroughtAnnounced(st: Progress, s: Bytes, p: nat, st1: Progress, q: nat)
    requires StringsBring(st, s, p, st1, q)
    ensures |st.params| < st.multi
  {
  }

  /** A string that stops the parser, or takes it past the end, stops the list. */
  predicate Stops(st: Progress, s: Bytes, q: nat)
    requires InRange(st)
  {
    ParseStr(st, s, q).res != Ok || ParseStr(st, s, q).pos > |s|
  }

  /** The call did not end with an Ok within the buffer. */
  predicate Bad(s: Bytes, o: Outcome) {
    o.pos > |s| || o.res != Ok
  }

  /** The header is a whole line and announces a count. */
  predicate HeaderRead(s: Bytes, p: nat) {
    var r := PrefixedInt(s, p, STAR);
    r.IntOk? && r.pos <= |s| && r.value >= -1
  }

  /** What the header decides of a call. */
  lemma HeaderOutcome(s: Bytes, p: nat)
    requires p <= |s|
    ensures var r, o := PrefixedInt(s, p, STAR), ParseRequest(INITIAL, s, p);
            && (r.IntWait? ==> o.res == Wait && o.pos <= |s|)
            && (r.IntError? ==> o.res == Error && o.pos <= |s|)
            && (r.IntOk? && r.value < -1 ==> o.res == Error && o.pos == r.pos)
            && (r.IntOk? && r.value >= -1 ==> o == ParseStrlist(INITIAL.(multi := r.value), s, r.pos))
            && (r.IntOk? ==> p < r.pos <= |s| + 2)
  {
    hide ScanInt, ParseStrlist;
  }

  lemma PartsBringFound(st: Progress, s: Bytes, p: nat) returns (st1: Progress, q: nat)
    requires InRange(st) && st.paramLen == -1 && p <= |s| && Bad(s, ParseStrlist(st, s, p))
    ensures PartsBring(st, s, p, st1, q) && p <= q <= |s| && InRange(st1) && st1.paramLen == -1
            && |st1.params| < st1.multi
    ensures ParseStrlist(st, s, p) == ParseStrlist(st1, s, q) && Stops(st1, s, q)
  {
    hide PartsText, AreParts, ParseStr;
    var xs := PartsFound(st, s, p);
    st1, q := With(st, xs), p + |PartsText(xs)|;
  }

  /** A body that is read is followed by CR LF, and the list goes on behind it. */
  lemma PendingRead(st: Progress, s: Bytes, p: nat)
    requires InRange(st) && p <= |s| && st.paramLen != -1 && ParseStrval(st, s, p).res == Ok
    requires Bad(s, ParseStrlist(st, s, p))
    ensures var tail := p + st.paramLen;
            && |st.params| < st.multi && At(s, tail, CRLF)
            && ParseStrlist(st, s, p)
               == ParseStrlist(Progress(st.multi, -1, st.params + [s[p..tail]]), s, tail + 2)
  {
    var tail := p + st.paramLen;
    assert s[tail..tail + 2] == CRLF;
  }

  lemma StringsBringFound(st: Progress, s: Bytes, p: nat) returns (st1: Progress, q: nat)
    requires InRange(st) && p <= |s| && Bad(s, ParseStrlist(st, s, p))
    requires st.paramLen != -1 ==> ParseStrval(st, s, p).res == Ok
    ensures StringsBring(st, s, p, st1, q) && p <= q <= |s| && InRange(st1) && st1.paramLen == -1
            && |st1.params| < st1.multi
    ensures ParseStrlist(st, s, p) == ParseStrlist(st1, s, q) && Stops(st1, s, q)
  {
    hide PartsBring, Stops, ParseStrlist, ParseStrval;
    if st.paramLen == -1 {
      st1, q := PartsBringFound(st, s, p);
    } else {
      var tail := p + st.paramLen;
      PendingRead(st, s, p);
      var st0 := Progress(st.multi, -1, st.params + [s[p..tail]]);
      st1, q := PartsBringFound(st0, s, tail + 2);
    }
  }

  lemma BringsFound(st: Progress, s: Bytes, p: nat) returns (st1: Progress, q: nat)
    requires Live(st) && p <= |s| && Bad(s, ParseRequest(st, s, p))
    requires st.multi == -1 ==> HeaderRead(s, p)
    requires st.paramLen != -1 ==> ParseStrval(st, s, p).res == Ok
    ensures Brings(st, s, p, st1, q) && p <= q <= |s| && InRange(st1) && st1.paramLen == -1 && |st1.params| < st1.multi
    ensures ParseRequest(st, s, p) == ParseStrlist(st1, s, q) && Stops(st1, s, q)
  {
    hide StringsBring, ParseStrlist, LineText, ValueOf, IsNumeral, GetInt, Stops;
    if st.multi != -1 {
      st1, q := StringsBringFound(st, s, p);
    } else {
      BytesNeeded(s, p + 1);
      var n := LineFound(s, p + 1);
      Adjacent(s, p, [STAR], LineText(n));
      st1, q := StringsBringFound(INITIAL.(multi := ValueOf(n)), s, p + 1 + |LineText(n)|);
    }
  }

  // ---------------------------------------------------------------- digits that run out

  lemma DanglingIff(s: Bytes, q: nat, tag: byte)
    requires q <= |s|
    ensures PrefixedInt(s, q, tag).IntOk? && PrefixedInt(s, q, tag).pos > |s| <==> Dangling(s, q, tag)
  {
    if q + 4 <= |s| && s[q] == tag {
      var i := q + 1 + SignLength(s, q + 1);
      if DigitsEnd(s, i) == |s| {
        assert forall k | 0 <= k < |s| - i :: s[i..][k] == s[i + k];
      }
      if AllDigits(s[i..]) {
        forall k | i <= k < |s| ensures IsDigit(s[k]) {
          assert s[i..][k - i] == s[k];
        }
      }
    }
  }

  lemma NextRunsOutIff(st: Progress, s: Bytes, q: nat)
    requires InRange(st) && st.paramLen == -1 && q <= |s|
    ensures ParseStr(st, s, q).pos > |s| <==> Dangling(s, q, DOLLAR)
  {
    hide Dangling, GetInt;
    DanglingIff(s, q, DOLLAR);
  }

  lemma ListPast(st: Progress, s: Bytes, q: nat)
    requires InRange(st) && st.paramLen == -1 && |st.params| < st.multi && q <= |s| && Stops(st, s, q)
    ensures ParseStrlist(st, s, q).pos > |s| <==> ParseStr(st, s, q).pos > |s|
    ensures ParseStrlist(st, s, q).res == Overrun <==> ParseStr(st, s, q).res == Overrun
  {
    hide Accumulate, DigitsEnd;
    var o := ParseStr(st, s, q);
    if o.res == Ok {
      PastEndWaits(o.st, s, o.pos);
    }
  }

  /** Past the end of the buffer the parser can only wait. */
  lemma PastEndWaits(st: Progress, s: Bytes, p: nat)
    requires InRange(st) && st.paramLen <= INT_MAX - 2 && |s| < p <= |s| + 2
    ensures ParseStr(st, s, p) == Outcome(Wait, st, p)
    ensures ParseStrlist(st, s, p) == Outcome(if |st.params| < st.multi then Wait else Ok, st, p)
  {
  }

  /** The position passes the end of the buffer exactly for the texts that run out in the digits of a number. */
  lemma RunsOutIff(st: Progress, s: Bytes, p: nat)
    requires Live(st) && p <= |s| && Measurable(s, p)
    ensures ParseRequest(st, s, p).pos > |s| <==> RunsOut(st, s, p)
  {
    hide Brings, ParseStrlist, ParseRequest, Dangling, ParseStrval, Stops;
    if st.multi == -1 && Dangling(s, p, STAR) {
      HeaderRunsOut(st, s, p);
    } else {
      if st1, q :| Brings(st, s, p, st1, q) && Dangling(s, q, DOLLAR) {
        BringsThere(st, s, p, st1, q);
        NextRunsOutIff(st1, s, q);
        ListPosition(st1, s, q);
      }
      if ParseRequest(st, s, p).pos > |s| {
        if st.paramLen != -1 {
          PendingStops(st, s, p);
        }
        HeaderOutcome(s, p);
        DanglingIff(s, p, STAR);
        var st1, q := BringsFound(st, s, p);
        NextRunsOutIff(st1, s, q);
        ListPast(st1, s, q);
      }
    }
  }

  lemma HeaderRunsOut(st: Progress, s: Bytes, p: nat)
    requires Live(st) && st.multi == -1 && p <= |s| && Dangling(s, p, STAR)
    ensures ParseRequest(st, s, p).pos > |s|
  {
    hide Dangling, ParseStrlist;
    DanglingIff(s, p, STAR);
  }

  /** A body that a call left behind decides the next call, unless it is read. */
  lemma PendingStops(st: Progress, s: Bytes, p: nat)
    requires Live(st) && p <= |s| && st.paramLen != -1
    ensures var o := ParseStrval(st, s, p);
            o.res != Ok ==> ParseRequest(st, s, p) == Outcome(if |st.params| < st.multi then o.res else Ok, st, p)
  {
  }

  /** A text that runs out ends in two digits. */
  lemma RunsOutInDigits(st: Progress, s: Bytes, p: nat)
    requires RunsOut(st, s, p)
    ensures |s| >= 2 && IsDigit(s[|s| - 2]) && IsDigit(s[|s| - 1])
  {
    hide Brings, Dangling;
    if st.multi == -1 && Dangling(s, p, STAR) {
      DanglingDigits(s, p, STAR);
    } else {
      var st1, q :| Brings(st, s, p, st1, q) && Dangling(s, q, DOLLAR);
      DanglingDigits(s, q, DOLLAR);
    }
  }

  lemma DanglingDigits(s: Bytes, q: nat, tag: byte)
    requires Dangling(s, q, tag)
    ensures |s| >= 2 && IsDigit(s[|s| - 2]) && IsDigit(s[|s| - 1])
  {
    var u := s[q + 1 + SignLength(s, q + 1)..];
    assert IsDigit(u[|u| - 1]) && IsDigit(u[|u| - 2]);
  }

  // ---------------------------------------------------------------- lengths that are too large

  /** Digits up to the end of the buffer are read as the numeral they are, with the position past the end. */
  lemma DanglingValue(s: Bytes, q: nat, n: Numeral)
    requires q + 3 <= |s| && IsNumeral(n) && s[q..] == n.sign + n.digits
    ensures GetInt(s, q) == IntOk(ValueOf(n), |s| + 2)
  {
    hide Accumulate, DecValue, DigitsEnd, Wrap32;
    var i := q + |n.sign|;
    forall k | q <= k < |s| ensures s[k] == (n.sign + n.digits)[k - q] {
      assert s[q..][k - q] == s[k];
    }
    assert s[i..|s|] == n.digits;
    DigitsEndAt(s, i, |s|);
    AccumulateValue(s, i, |s|);
    WrapNegated(DecValue(n.digits));
    assert SignLength(s, q) == |n.sign|;
  }

  lemma DanglingFound(s: Bytes, q: nat) returns (n: Numeral)
    requires q + 3 <= |s| && AllDigits(s[q + SignLength(s, q)..])
    ensures IsNumeral(n) && s[q..] == n.sign + n.digits
  {
    var i := q + SignLength(s, q);
    n := Numeral(s[q..i], s[i..]);
    assert s[q..i] == if i == q then [] else [s[q]];
  }

  /** The next string is read behind the buffer exactly if its length is too large. */
  lemma NextOverrunsIff(st: Progress, s: Bytes, q: nat)
    requires InRange(st) && st.paramLen == -1 && q <= |s| && Measurable(s, q)
    ensures ParseStr(st, s, q).res == Overrun ==> HugeLength(s, q)
    ensures |s| - q < INT_MAX && HugeLength(s, q) ==> ParseStr(st, s, q).res == Overrun
  {
    hide GetInt, ParseStrval, IsNumeral, ValueOf, LineText, HugeLength;
    if HugeLength(s, q) {
      var v := HugeRead(s, q);
      StrvalReadsInsideIff(st.(paramLen := v), s, PrefixedInt(s, q, DOLLAR).pos);
    }
    if ParseStr(st, s, q).res == Overrun {
      var r := PrefixedInt(s, q, DOLLAR);
      PositionBound(s, q + 1);
      StrvalReadsInsideIff(st.(paramLen := r.value), s, r.pos);
      HugeFound(s, q);
    }
  }

  lemma PositionBound(s: Bytes, q: nat)
    requires q <= |s| && GetInt(s, q).IntOk?
    ensures |s| - q >= 3 && q <= GetInt(s, q).pos <= |s| + 2
  {
  }

  lemma HugeRead(s: Bytes, q: nat) returns (v: int)
    requires HugeLength(s, q)
    ensures PrefixedInt(s, q, DOLLAR).IntOk? && PrefixedInt(s, q, DOLLAR).value == v && INT_MAX - 2 < v <= INT_MAX
    ensures q < PrefixedInt(s, q, DOLLAR).pos <= |s| + 2
  {
    hide GetInt, IsNumeral, LineText;
    var n :| IsNumeral(n) && ValueOf(n) > INT_MAX - 2
             && (s[q + 1..] == n.sign + n.digits || At(s, q + 1, LineText(n)));
    v := ValueOf(n);
    if s[q + 1..] == n.sign + n.digits {
      DanglingValue(s, q + 1, n);
    } else {
      LineRead(s, q + 1, n);
    }
  }

  /** A number that is read is a numeral, as a line or up to the end of the buffer. */
  lemma NumberFound(s: Bytes, q: nat) returns (n: Numeral)
    requires q <= |s| && GetInt(s, q).IntOk?
    ensures q + 3 <= |s| && IsNumeral(n) && ValueOf(n) == GetInt(s, q).value
    ensures if GetInt(s, q).pos > |s| then s[q..] == n.sign + n.digits
            else At(s, q, LineText(n)) && GetInt(s, q).pos == q + |LineText(n)|
  {
    hide GetInt, LineText, ValueOf, IsNumeral;
    BytesNeeded(s, q);
    if GetInt(s, q).pos > |s| {
      RunOutDigits(s, q);
      n := DanglingFound(s, q);
      DanglingValue(s, q, n);
    } else {
      n := LineFound(s, q);
    }
  }

  lemma RunOutDigits(s: Bytes, q: nat)
    requires q + 3 <= |s| && GetInt(s, q).IntOk? && GetInt(s, q).pos > |s|
    ensures AllDigits(s[q + SignLength(s, q)..])
  {
    hide Accumulate;
    var i := q + SignLength(s, q);
    assert DigitsEnd(s, i) == |s|;
    assert forall k | 0 <= k < |s| - i :: s[i..][k] == s[i + k];
  }

  lemma HugeFound(s: Bytes, q: nat)
    requires q <= |s| && PrefixedInt(s, q, DOLLAR).IntOk? && PrefixedInt(s, q, DOLLAR).value > INT_MAX - 2
    ensures HugeLength(s, q)
  {
    hide GetInt, LineText, ValueOf, IsNumeral;
    var n := NumberFound(s, q + 1);
  }

  /** A call reads behind the buffer exactly for the texts that announce a length too large for the guard; only when the
      distance is the largest `int` may such a call still see a wrong byte in time. */
  lemma OverrunsIff(st: Progress, s: Bytes, p: nat)
    requires Live(st) && p <= |s| && Measurable(s, p)
    ensures ParseRequest(st, s, p).res == Overrun ==> Overruns(st, s, p)
    ensures |s| - p < INT_MAX && Overruns(st, s, p) ==> ParseRequest(st, s, p).res == Overrun
  {
    hide Brings, ParseStrlist, ParseRequest, Dangling, ParseStrval, Stops, HugeLength;
    if st.paramLen != -1 {
      StrvalReadsInsideIff(st, s, p);
      PendingStops(st, s, p);
    }
    if st1, q :| Brings(st, s, p, st1, q) && HugeLength(s, q) {
      BringsThere(st, s, p, st1, q);
      NextOverrunsIff(st1, s, q);
      ListPosition(st1, s, q);
    }
    if ParseRequest(st, s, p).res == Overrun && !(|st.params| < st.multi && st.paramLen > INT_MAX - 2) {
      HeaderNoOverrun(st, s, p);
      HeaderOutcome(s, p);
      DanglingIff(s, p, STAR);
      var st1, q := BringsFound(st, s, p);
      NextOverrunsIff(st1, s, q);
      ListPast(st1, s, q);
    }
  }

  lemma HeaderNoOverrun(st: Progress, s: Bytes, p: nat)
    requires Live(st) && p <= |s|
    ensures st.multi == -1 && Dangling(s, p, STAR) ==> ParseRequest(st, s, p).res != Overrun
  {
    hide Accumulate, DigitsEnd, Dangling;
    DanglingIff(s, p, STAR);
    var r := PrefixedInt(s, p, STAR);
    if st.multi == -1 && Dangling(s, p, STAR) && r.value >= -1 {
      PastEndWaits(st.(multi := r.value), s, r.pos);
    }
  }

  // ---------------------------------------------------------------- texts that are refused

  /** The bytes are the beginning of a numeral's line, or the whole of it. */
  ghost predicate StartsLine(u: Bytes) {
    exists n :: IsNumeral(n) && u <= LineText(n)
  }

  /** The texts that begin a line are those the scan does not find malformed, up to the line's own end. */
  lemma StartsLineIff(s: Bytes, q: nat)
    requires q + 2 <= |s|
    ensures StartsLine(s[q..]) <==> !ScanInt(s, q).Malformed? && (ScanInt(s, q).Line? ==> ScanInt(s, q).cr + 2 == |s|)
  {
    hide Accumulate, LineText;
    if n :| IsNumeral(n) && s[q..] <= LineText(n) {
      LineBeginning(s, q, n);
    }
    var i := q + SignLength(s, q);
    var j := DigitsEnd(s, i);
    if !ScanInt(s, q).Malformed? && (ScanInt(s, q).Line? ==> ScanInt(s, q).cr + 2 == |s|) {
      BeginningFound(s, q, i, j);
    }
  }

  lemma BeginningFound(s: Bytes, q: nat, i: nat, j: nat)
    requires q + 2 <= |s| && i == q + SignLength(s, q) && j == DigitsEnd(s, i)
    requires j == |s| || (s[j] == CR && (j + 1 == |s| || (j + 2 == |s| && s[j + 1] == LF)))
    ensures StartsLine(s[q..])
  {
    var n := Numeral(s[q..i], s[i..j]);
    assert s[q..i] == if i == q then [] else [s[q]];
    assert IsNumeral(n);
    LineTextSoFar(s, q, i, j);
  }

  lemma LineTextSoFar(s: Bytes, q: nat, i: nat, j: nat)
    requires q <= i <= j <= |s|
    requires j == |s| || (s[j] == CR && (j + 1 == |s| || (j + 2 == |s| && s[j + 1] == LF)))
    ensures s[q..] <= LineText(Numeral(s[q..i], s[i..j]))
  {
    var l := s[q..i] + s[i..j] + CRLF;
    assert s[q..] == s[q..i] + s[i..j] + s[j..];
    assert s[j..] == CRLF[..|s| - j];
    assert l[..|s| - q] == s[q..];
  }

  lemma LineBeginning(s: Bytes, q: nat, n: Numeral)
    requires q + 2 <= |s| && IsNumeral(n) && s[q..] <= LineText(n)
    ensures !ScanInt(s, q).Malformed? && (ScanInt(s, q).Line? ==> ScanInt(s, q).cr + 2 == |s|)
  {
    hide Accumulate, DigitsEnd;
    var l, i := LineText(n), q + |n.sign|;
    var e := i + |n.digits|;
    forall k | q <= k < |s| ensures s[k] == l[k - q] {
      assert s[q..][k - q] == s[k];
    }
    var j := if e < |s| then e else |s|;
    assert n.sign == [] ==> !(s[q] == PLUS || s[q] == MINUS);
    assert SignLength(s, q) == |n.sign|;
    assert forall k | i <= k < j :: s[k] == n.digits[k - i];
    DigitsEndAt(s, i, j);
  }

  /** Three bytes or more that neither begin with a number's line nor are the beginning of one. */
  ghost predicate BadLine(s: Bytes, q: nat) {
    q + 3 <= |s| && !StartsLine(s[q..]) && !exists n :: IsNumeral(n) && At(s, q, LineText(n))
  }

  /** A number below -1, as a line or up to the end of the buffer. */
  ghost predicate NumberBelow(s: Bytes, q: nat) {
    q + 3 <= |s|
    && exists n :: IsNumeral(n) && ValueOf(n) < -1 && (s[q..] == n.sign + n.digits || At(s, q, LineText(n)))
  }

  /** What stands where a tag and a number are due has another first byte, or no line behind the tag, or a number
      below -1. */
  ghost predicate BadPrefix(s: Bytes, q: nat, tag: byte) {
    q + 3 <= |s| && (s[q] != tag || (q + 4 <= |s| && (BadLine(s, q + 1) || NumberBelow(s, q + 1))))
  }

  /** Two bytes are there behind the body, and they are not CR LF. */
  predicate BadBody(s: Bytes, q: nat, len: int) {
    0 <= len && q + len + 2 <= |s| && !At(s, q + len, CRLF)
  }

  /** What stands where a string is due is none: a bad length line, or a body that does not end where its length
      says. */
  ghost predicate BadString(s: Bytes, q: nat) {
    BadPrefix(s, q, DOLLAR)
    || exists n :: IsNumeral(n) && At(s, q, [DOLLAR] + LineText(n))
                   && BadBody(s, q + 1 + |LineText(n)|, ValueOf(n))
  }

  /** The unread text is refused: by its header, by the end of a body that a call left behind, or by a string behind
      fewer good ones than announced. */
  ghost predicate Refused(st: Progress, s: Bytes, p: nat) {
    || (st.multi == -1 && BadPrefix(s, p, STAR))
    || (|st.params| < st.multi && BadBody(s, p, st.paramLen))
    || exists st1, q :: Brings(st, s, p, st1, q) && BadString(s, q)
  }

  lemma BadLineIff(s: Bytes, q: nat)
    requires q <= |s|
    ensures GetInt(s, q).IntError? <==> BadLine(s, q)
  {
    hide Accumulate, DigitsEnd, LineText, StartsLine, IsNumeral;
    if q + 3 <= |s| {
      StartsLineIff(s, q);
      if n :| IsNumeral(n) && At(s, q, LineText(n)) {
        LineRead(s, q, n);
      }
      if ScanInt(s, q).Line? {
        var n := LineFound(s, q);
      }
    }
  }

  lemma NumberBelowIff(s: Bytes, q: nat)
    requires q <= |s|
    ensures GetInt(s, q).IntOk? && GetInt(s, q).value < -1 <==> NumberBelow(s, q)
  {
    hide GetInt, LineText, ValueOf, IsNumeral;
    if NumberBelow(s, q) {
      var n :| IsNumeral(n) && ValueOf(n) < -1 && (s[q..] == n.sign + n.digits || At(s, q, LineText(n)));
      if s[q..] == n.sign + n.digits {
        DanglingValue(s, q, n);
      } else {
        LineRead(s, q, n);
      }
    }
    if GetInt(s, q).IntOk? && GetInt(s, q).value < -1 {
      var n := NumberFound(s, q);
    }
  }

  lemma BadPrefixIff(s: Bytes, q: nat, tag: byte)
    requires q <= |s|
    ensures var r := PrefixedInt(s, q, tag); r.IntError? || (r.IntOk? && r.value < -1) <==> BadPrefix(s, q, tag)
  {
    hide GetInt, BadLine, NumberBelow;
    if q + 3 <= |s| && s[q] == tag {
      BadLineIff(s, q + 1);
      NumberBelowIff(s, q + 1);
      ThreeBytes(s, q + 1);
    }
  }

  lemma ThreeBytes(s: Bytes, q: nat)
    requires q <= |s|
    ensures |s| - q < 3 ==> GetInt(s, q).IntWait?
  {
  }

  lemma BadBodyIff(st: Progress, s: Bytes, p: nat)
    requires 0 <= st.paramLen <= INT_MAX && p <= |s| + 2 && |s| - p < INT_MAX
    ensures ParseStrval(st, s, p).res == Error <==> BadBody(s, p, st.paramLen)
  {
  }

  lemma NextRefusedIff(st: Progress, s: Bytes, q: nat)
    requires InRange(st) && st.paramLen == -1 && q <= |s| && |s| - q < INT_MAX
    ensures ParseStr(st, s, q).res == Error <==> BadString(s, q)
  {
    hide ParseStr, PrefixedInt, IsNumeral, ValueOf, LineText, BadPrefix, BadBody, At;
    BadPrefixIff(s, q, DOLLAR);
    if BadPrefix(s, q, DOLLAR) {
      BadLengthErrs(st, s, q);
    }
    if n :| IsNumeral(n) && At(s, q, [DOLLAR] + LineText(n)) && BadBody(s, q + 1 + |LineText(n)|, ValueOf(n)) {
      BadBodyErrs(st, s, q, n);
    }
    if ParseStr(st, s, q).res == Error && !BadPrefix(s, q, DOLLAR) {
      var n := BadBodyFound(st, s, q);
    }
  }

  lemma BadLengthErrs(st: Progress, s: Bytes, q: nat)
    requires InRange(st) && st.paramLen == -1 && q <= |s| && BadPrefix(s, q, DOLLAR)
    ensures ParseStr(st, s, q).res == Error
  {
    hide GetInt, BadPrefix;
    BadPrefixIff(s, q, DOLLAR);
  }

  lemma BadBodyErrs(st: Progress, s: Bytes, q: nat, n: Numeral)
    requires InRange(st) && st.paramLen == -1 && q <= |s| && |s| - q < INT_MAX
    requires IsNumeral(n) && At(s, q, [DOLLAR] + LineText(n)) && BadBody(s, q + 1 + |LineText(n)|, ValueOf(n))
    ensures ParseStr(st, s, q).res == Error
  {
    hide GetInt, ParseStrval, IsNumeral, ValueOf, LineText, BadBody;
    BadBodyThere(s, q + 1 + |LineText(n)|, ValueOf(n));
    LengthSize(n);
    AtSplit(s, q, [DOLLAR], LineText(n));
    AtIndex(s, q, [DOLLAR], 0);
    LineRead(s, q + 1, n);
    BadBodyIff(st.(paramLen := ValueOf(n)), s, q + 1 + |LineText(n)|);
  }

  lemma BadBodyFound(st: Progress, s: Bytes, q: nat) returns (n: Numeral)
    requires InRange(st) && st.paramLen == -1 && q <= |s| && |s| - q < INT_MAX
    requires ParseStr(st, s, q).res == Error && !BadPrefix(s, q, DOLLAR)
    ensures IsNumeral(n) && At(s, q, [DOLLAR] + LineText(n)) && BadBody(s, q + 1 + |LineText(n)|, ValueOf(n))
  {
    hide GetInt, ParseStrval, IsNumeral, ValueOf, LineText, BadPrefix, BadBody;
    BadPrefixIff(s, q, DOLLAR);
    PositionBound(s, q + 1);
    n := NumberFound(s, q + 1);
    var e := PrefixedInt(s, q, DOLLAR).pos;
    BadBodyIff(st.(paramLen := ValueOf(n)), s, e);
    BadBodyThere(s, e, ValueOf(n));
    Adjacent(s, q, [DOLLAR], LineText(n));
  }

  lemma LengthSize(n: Numeral)
    requires IsNumeral(n)
    ensures |LineText(n)| >= 2 && -INT_MAX - 1 <= ValueOf(n) <= INT_MAX
  {
  }

  lemma BadBodyThere(s: Bytes, q: nat, len: int)
    requires BadBody(s, q, len)
    ensures len >= 0 && q + 2 <= |s|
  {
  }

  /** The parser answers Error exactly for the texts that are refused. */
  lemma RefusedIff(st: Progress, s: Bytes, p: nat)
    requires Live(st) && p <= |s| && |s| - p < INT_MAX
    ensures ParseRequest(st, s, p).res == Error <==> Refused(st, s, p)
  {
    hide Brings, ParseStrlist, ParseRequest, ParseStrval, Stops, BadString, BadPrefix, BadBody;
    HeaderOutcome(s, p);
    BadPrefixIff(s, p, STAR);
    if st.paramLen != -1 {
      BadBodyIff(st, s, p);
      PendingStops(st, s, p);
    }
    if BadBody(s, p, st.paramLen) {
      BadBodyThere(s, p, st.paramLen);
    }
    if st1, q :| Brings(st, s, p, st1, q) && BadString(s, q) {
      BringsThere(st, s, p, st1, q);
      NextRefusedIff(st1, s, q);
      ListPosition(st1, s, q);
    }
    if ParseRequest(st, s, p).res == Error && !(st.multi == -1 && BadPrefix(s, p, STAR))
       && !(|st.params| < st.multi && BadBody(s, p, st.paramLen))
    {
      PastHeaderNoError(s, p);
      var st1, q := BringsFound(st, s, p);
      NextRefusedIff(st1, s, q);
      ListErrs(st1, s, q);
    }
  }

  /** A header that runs out makes the parser wait, or announces nothing. */
  lemma PastHeaderNoError(s: Bytes, p: nat)
    requires p <= |s|
    ensures var r := PrefixedInt(s, p, STAR);
            r.IntOk? && r.value >= -1 && r.pos > |s| ==> ParseRequest(INITIAL, s, p).res != Error
  {
    hide ParseStrlist;
    HeaderOutcome(s, p);
    var r := PrefixedInt(s, p, STAR);
    if r.IntOk? && r.value >= -1 && r.pos > |s| {
      PastEndWaits(INITIAL.(multi := r.value), s, r.pos);
    }
  }

  lemma ListErrs(st: Progress, s: Bytes, q: nat)
    requires InRange(st) && st.paramLen == -1 && |st.params| < st.multi && q <= |s| && Stops(st, s, q)
    ensures ParseStrlist(st, s, q).res == Error <==> ParseStr(st, s, q).res == Error
  {
    hide Accumulate, DigitsEnd;
    var o := ParseStr(st, s, q);
    if o.res == Ok {
      PastEndWaits(o.st, s, o.pos);
    }
  }
}
