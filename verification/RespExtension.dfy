/** What stays of the parser's answers when bytes are added behind the buffer. All buffers whose growth is considered
    are as long as the parser's `int` distances can measure. */
module RespExtension {
  import opened ByteStrings
  import opened RespParser
  import opened RespText

  lemma {:induction false} DigitsEndExtends(s: Bytes, t: Bytes, i: nat)
    requires i <= |s|
    ensures DigitsEnd(s, i) < |s| ==> DigitsEnd(s + t, i) == DigitsEnd(s, i)
    ensures DigitsEnd(s, i) == |s| && t != [] && !IsDigit(t[0]) ==> DigitsEnd(s + t, i) == |s|
    decreases |s| - i
  {
    if i < |s| && IsDigit(s[i]) {
      assert (s + t)[i] == s[i];
      DigitsEndExtends(s, t, i + 1);
    } else if i < |s| {
      assert (s + t)[i] == s[i];
    }
  }

  lemma {:induction false} AccumulateExtends(s: Bytes, t: Bytes, i: nat, j: nat)
    requires i <= j <= |s| && forall k :: i <= k < j ==> IsDigit(s[k])
    ensures forall k :: i <= k < j ==> IsDigit((s + t)[k])
    ensures Accumulate(s + t, i, j) == Accumulate(s, i, j)
    decreases j
  {
    forall k | i <= k < j ensures IsDigit((s + t)[k]) {
      assert (s + t)[k] == s[k];
    }
    if i < j {
      AccumulateExtends(s, t, i, j - 1);
    }
  }

  /** A complete line and a malformed one stay what they are. */
  lemma ScanIntExtends(s: Bytes, t: Bytes, q: nat)
    requires q < |s|
    ensures ScanInt(s, q).Line? || ScanInt(s, q).Malformed? ==> ScanInt(s + t, q) == ScanInt(s, q)
  {
    assert (s + t)[q] == s[q];
    var i := q + SignLength(s, q);
    var j := DigitsEnd(s, i);
    DigitsEndExtends(s, t, i);
    AccumulateExtends(s, t, i, j);
    if j < |s| {
      assert (s + t)[j] == s[j];
      if j + 1 < |s| {
        assert (s + t)[j + 1] == s[j + 1];
      }
    }
  }

  lemma PrefixedIntExtends(s: Bytes, t: Bytes, p: nat, tag: byte)
    ensures var r := PrefixedInt(s, p, tag);
            r.IntError? || (r.IntOk? && r.pos <= |s|) ==> PrefixedInt(s + t, p, tag) == r
  {
    if |s| - p >= 3 {
      assert (s + t)[p] == s[p];
      ScanIntExtends(s, t, p + 1);
    }
  }

  lemma ParseStrvalExtends(st: Progress, s: Bytes, t: Bytes, p: nat)
    requires 0 <= st.paramLen <= INT_MAX && Measurable(s + t, p)
    ensures var o := ParseStrval(st, s, p);
            o.res == Ok || o.res == Error ==> ParseStrval(st, s + t, p) == o
  {
    var o := ParseStrval(st, s, p);
    var tail := p + st.paramLen;
    if o.res == Ok || o.res == Error {
      assert (s + t)[tail] == s[tail];
      assert tail + 1 < |s| ==> (s + t)[tail + 1] == s[tail + 1];
      assert (s + t)[p..tail] == s[p..tail];
    }
  }

  lemma ParseStrExtends(st: Progress, s: Bytes, t: Bytes, p: nat)
    requires InRange(st) && Measurable(s + t, p)
    requires ParseStr(st, s, p).pos <= |s| && ParseStr(st, s, p).res != Overrun
    ensures var o := ParseStr(st, s, p);
            if o.res == Wait then ParseStr(o.st, s + t, o.pos) == ParseStr(st, s + t, p)
            else ParseStr(st, s + t, p) == o
  {
    hide ParseStrval;
    if st.paramLen != -1 {
      WaitLeaves(st, s, p);
      ParseStrvalExtends(st, s, t, p);
    } else {
      PrefixedIntExtends(s, t, p, DOLLAR);
      var r := PrefixedInt(s, p, DOLLAR);
      if r.IntOk? && r.value >= 0 {
        WaitLeaves(st.(paramLen := r.value), s, r.pos);
        ParseStrvalExtends(st.(paramLen := r.value), s, t, r.pos);
      }
    }
  }

  lemma WaitLeaves(st: Progress, s: Bytes, p: nat)
    requires st.paramLen >= 0
    ensures ParseStrval(st, s, p).res != Ok ==> ParseStrval(st, s, p) == Outcome(ParseStrval(st, s, p).res, st, p)
  {
  }

  lemma {:induction false} ParseStrlistExtends(st: Progress, s: Bytes, t: Bytes, p: nat)
    requires InRange(st) && Measurable(s + t, p)
    requires ParseStrlist(st, s, p).pos <= |s| && ParseStrlist(st, s, p).res != Overrun
    ensures var o := ParseStrlist(st, s, p);
            if o.res == Wait then ParseStrlist(o.st, s + t, o.pos) == ParseStrlist(st, s + t, p)
            else ParseStrlist(st, s + t, p) == o
    decreases st.multi - |st.params|
  {
    hide ParseStr;
    if |st.params| < st.multi {
      var o := ParseStr(st, s, p);
      ListPosition(st, s, p);
      ParseStrExtends(st, s, t, p);
      if o.res == Ok {
        ParseStrlistExtends(o.st, s, t, o.pos);
      }
    }
  }

  lemma ListPosition(st: Progress, s: Bytes, p: nat)
    requires InRange(st) && |st.params| < st.multi
    ensures ParseStr(st, s, p).pos <= ParseStrlist(st, s, p).pos
    ensures ParseStr(st, s, p).res != Ok ==> ParseStrlist(st, s, p) == ParseStr(st, s, p)
  {
  }

  /** The call stopped inside the header after stepping over the star: it will not find the star again. */
  predicate LostStar(st: Progress, o: Outcome, p: nat) {
    o.res == Wait && st.multi == -1 && o.st.multi == -1 && o.pos != p
  }

  /** Extension stability. An answer given within the buffer is final; a Wait within the buffer, with no
      star lost, is a point from which parsing continues as if it had never stopped. */
  lemma ExtensionStability(st: Progress, s: Bytes, t: Bytes, p: nat)
    requires Live(st) && Measurable(s + t, p)
    requires ParseRequest(st, s, p).pos <= |s| && ParseRequest(st, s, p).res != Overrun
    ensures var o := ParseRequest(st, s, p);
            if o.res != Wait then ParseRequest(st, s + t, p) == o
            else !LostStar(st, o, p) ==> ParseRequest(o.st, s + t, o.pos) == ParseRequest(st, s + t, p)
  {
    hide ParseStrlist;
    if st.multi != -1 {
      ParseStrlistExtends(st, s, t, p);
    } else if |s| - p >= 3 {
      assert (s + t)[p] == s[p];
      PrefixedIntExtends(s, t, p, STAR);
      var r := PrefixedInt(s, p, STAR);
      if r.IntOk? && r.value >= -1 {
        ParseStrlistExtends(st.(multi := r.value), s, t, r.pos);
      }
    }
  }
}
