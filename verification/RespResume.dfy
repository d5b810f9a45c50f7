/** Resuming the parser on a buffer that grows: which answers are final, which cuts do no harm, and what a sender must
    do. */
module RespResume {
  import opened ByteStrings
  import opened RespParser
  import opened RespText
  import opened RespGrammar
  import opened RespExtension
  import opened RespEnds

  // ---------------------------------------------------------------- answers past the end

  /** A non-digit appended to digits that ran out ends the number: CR may still become a line, any other byte is
      malformed. */
  lemma RunOutThenByte(s: Bytes, q: nat, c: byte)
    requires q < |s| && ScanInt(s, q).DigitsRunOut? && !IsDigit(c)
    requires |s| - q >= 2
    ensures ScanInt(s + [c], q) == if c == CR then NeedLf else Malformed
  {
    assert (s + [c])[q] == s[q];
    DigitsEndExtends(s, [c], q + SignLength(s, q));
    assert (s + [c])[|s|] == c;
  }

  lemma PrefixedRunOutThenByte(s: Bytes, p: nat, tag: byte, c: byte)
    requires PrefixedInt(s, p, tag).IntOk? && PrefixedInt(s, p, tag).pos > |s| && !IsDigit(c)
    ensures PrefixedInt(s, p, tag).pos == |s| + 2
    ensures PrefixedInt(s + [c], p, tag) == if c == CR then IntWait else IntError
  {
    assert (s + [c])[p] == s[p];
    RunOutThenByte(s, p + 1, c);
  }

  lemma StrRunOut(st: Progress, s: Bytes, p: nat, c: byte)
    requires InRange(st) && st.paramLen == -1 && p <= |s| && ParseStr(st, s, p).pos > |s| && !IsDigit(c)
    ensures ParseStr(st, s, p).pos == |s| + 2
    ensures ParseStr(st, s + [c], p).res == if c == CR then Wait else Error
    ensures ParseStr(st, s, p).res == Ok ==> ParseStr(st, s, p).st.paramLen == -1
    ensures ParseStr(st, s, p).res == Wait ==> ParseStr(st, s, p).st.paramLen <= INT_MAX - 2
  {
    hide Accumulate, DigitsEnd;
    NextRunsOutIff(st, s, p);
    DanglingIff(s, p, DOLLAR);
    PrefixedRunOutThenByte(s, p, DOLLAR, c);
  }

  lemma {:induction false} StrlistRunOut(st: Progress, s: Bytes, p: nat, c: byte)
    requires InRange(st) && p <= |s| && Measurable(s + [c], p) && ParseStrlist(st, s, p).pos > |s| && !IsDigit(c)
    ensures ParseStrlist(st, s, p).pos == |s| + 2
    ensures ParseStrlist(st, s + [c], p).res == if c == CR then Wait else Error
    ensures ParseStrlist(st, s, p).res == Wait ==> ParseStrlist(st, s, p).st.paramLen <= INT_MAX - 2
    decreases st.multi - |st.params|
  {
    hide ParseStr;
    var o := ParseStr(st, s, p);
    ListPosition(st, s, p);
    if o.pos > |s| {
      BodyWithin(st, s, p);
      StrRunOut(st, s, p, c);
      if o.res == Ok {
        PastEndWaits(o.st, s, o.pos);
      }
    } else {
      ParseStrExtends(st, s, [c], p);
      StrlistRunOut(o.st, s, o.pos, c);
    }
  }

  /** A body that a call left behind does not take the position past the end. */
  lemma BodyWithin(st: Progress, s: Bytes, p: nat)
    requires InRange(st) && p <= |s|
    ensures ParseStr(st, s, p).pos > |s| ==> st.paramLen == -1
  {
  }

  /** Every answer past the end is spoiled by the next byte. */
  lemma RequestRunOut(st: Progress, s: Bytes, p: nat, c: byte)
    requires Live(st) && p <= |s| && Measurable(s + [c], p) && ParseRequest(st, s, p).pos > |s| && !IsDigit(c)
    ensures ParseRequest(st, s, p).pos == |s| + 2
    ensures ParseRequest(st, s + [c], p).res == if c == CR then Wait else Error
    ensures ParseRequest(st, s, p).res == Wait ==> ParseRequest(st, s, p).st.paramLen <= INT_MAX - 2
  {
    hide ParseStrlist;
    if st.multi != -1 {
      StrlistRunOut(st, s, p, c);
    } else {
      var r := PrefixedInt(s, p, STAR);
      assert (s + [c])[p] == s[p];
      if r.pos > |s| {
        PrefixedRunOutThenByte(s, p, STAR, c);
        if r.value >= -1 {
          PastEndWaits(st.(multi := r.value), s, r.pos);
        }
      } else {
        PrefixedIntExtends(s, [c], p, STAR);
        StrlistRunOut(st.(multi := r.value), s, r.pos, c);
      }
    }
  }

  /** An Ok or Error answer is final for every continuation exactly if the text did not run out in the digits of a
      number. */
  lemma AnswerFinalIff(st: Progress, s: Bytes, p: nat)
    requires Live(st) && p <= |s| && |s| - p < INT_MAX
    requires ParseRequest(st, s, p).res == Ok || ParseRequest(st, s, p).res == Error
    ensures !RunsOut(st, s, p)
            <==> forall t | Measurable(s + t, p) :: ParseRequest(st, s + t, p) == ParseRequest(st, s, p)
  {
    hide RunsOut, ParseRequest;
    RunsOutIff(st, s, p);
    if !RunsOut(st, s, p) {
      forall t | Measurable(s + t, p) ensures ParseRequest(st, s + t, p) == ParseRequest(st, s, p) {
        ExtensionStability(st, s, t, p);
      }
    } else {
      RequestRunOut(st, s, p, CR);
      assert Measurable(s + [CR], p) && ParseRequest(st, s + [CR], p) != ParseRequest(st, s, p);
    }
  }

  // ---------------------------------------------------------------- resuming after Wait

  /** The header is cut behind its star in a way that matters: three bytes are there, or a CR without its LF, and they
      can still become a header with what is missing, or what stands behind the star is another star. */
  ghost predicate StarCut(st: Progress, s: Bytes, p: nat) {
    st.multi == -1 && p + 3 <= |s| && s[p] == STAR
    && ((|s| == p + 3 && s[p + 1] == STAR)
        || ((|s| == p + 3 || s[|s| - 1] == CR) && StartsLine(s[p + 1..])))
  }

  /** The cuts after which resuming goes wrong: in the digits of a number, or behind the star. */
  ghost predicate HarmfulCut(st: Progress, s: Bytes, p: nat) {
    RunsOut(st, s, p) || StarCut(st, s, p)
  }

  /** The cut is a star cut exactly if the star was lost and its loss makes a difference to some continuation's scan. */
  lemma StarCutIff(st: Progress, s: Bytes, p: nat)
    requires Live(st) && p <= |s|
    ensures StarCut(st, s, p)
            <==> LostStar(st, ParseRequest(st, s, p), p) && (s[p + 1] == STAR || !ScanInt(s, p + 1).Malformed?)
  {
    hide Accumulate, ParseStrlist, StartsLine;
    if st.multi == -1 && p + 3 <= |s| && s[p] == STAR {
      StartsLineIff(s, p + 1);
      LineEndsInLf(s, p + 1);
    }
    ListKeepsCount(st, s, p);
  }

  /** Once the header is read its count stays, and an Ok with count -1 is no Wait. */
  lemma ListKeepsCount(st: Progress, s: Bytes, p: nat)
    requires Live(st)
    ensures LostStar(st, ParseRequest(st, s, p), p)
            <==> st.multi == -1 && |s| - p >= 3 && s[p] == STAR && GetInt(s, p + 1).IntWait?
  {
    hide Accumulate, DigitsEnd;
  }

  lemma LineEndsInLf(s: Bytes, q: nat)
    requires q + 2 <= |s|
    ensures var r := ScanInt(s, q);
            && (r.NeedLf? ==> s[|s| - 1] == CR) && (r.Line? && r.cr + 2 == |s| ==> s[|s| - 1] == LF)
            && (r.DigitsRunOut? ==> s[|s| - 1] != CR)
  {
  }

  lemma LostStarHarmless(st: Progress, s: Bytes, t: Bytes, p: nat)
    requires Live(st) && p <= |s| && Measurable(s + t, p)
    requires LostStar(st, ParseRequest(st, s, p), p) && !StarCut(st, s, p)
    ensures ParseRequest(st, s + t, p + 1) == ParseRequest(st, s + t, p)
  {
    hide StarCut, ParseStrlist;
    StarCutIff(st, s, p);
    ListKeepsCount(st, s, p);
    assert |s| - p == 3;
    if t != [] {
      assert (s + t)[p] == s[p] && (s + t)[p + 1] == s[p + 1];
      ScanIntExtends(s, t, p + 1);
    } else {
      assert s + t == s;
    }
  }

  lemma LostStarHarms(st: Progress, s: Bytes, p: nat) returns (t: Bytes)
    requires Live(st) && p <= |s| && |s| - p < INT_MAX
    requires LostStar(st, ParseRequest(st, s, p), p) && StarCut(st, s, p)
    ensures Measurable(s + t, p)
    ensures ParseRequest(st, s + t, p + 1).res != ParseRequest(st, s + t, p).res
  {
    hide StarCut;
    StarCutIff(st, s, p);
    ListKeepsCount(st, s, p);
    if s[p + 1] == STAR {
      t := [ZERO];
      assert (s + t)[p] == STAR && (s + t)[p + 1] == STAR;
      assert |s| - p == 3;
    } else if |s| - p > 3 {
      t := [];
      assert s + t == s;
    } else {
      t := [CR];
      var u := s + t;
      assert u[p] == STAR && u[p + 1] == s[p + 1] && u[p + 2] == s[p + 2] && u[p + 3] == CR;
      if ScanInt(s, p + 1).DigitsRunOut? {
        RunOutThenByte(s, p + 1, CR);
      } else if ScanInt(s, p + 1).Line? {
        ScanIntExtends(s, t, p + 1);
        assert ScanInt(u, p + 1).value == 0;
      } else {
        t := [LF];
        ShortHeaderCompletes(s, p);
      }
    }
  }

  /** Two bytes ending in a CR, then LF: the header announces a count that is not negative. */
  lemma ShortHeaderCompletes(s: Bytes, p: nat)
    requires |s| - p == 3 && ScanInt(s, p + 1).NeedLf?
    ensures ScanInt(s + [LF], p + 1).Line? && ScanInt(s + [LF], p + 1).value >= 0
  {
    var u := s + [LF];
    assert u[p + 1] == s[p + 1] && u[p + 2] == s[p + 2] && u[p + 3] == LF;
    DigitsEndExtends(s, [LF], p + 1 + SignLength(s, p + 1));
    assert DigitsEnd(u, p + 1 + SignLength(u, p + 1)) == p + 2;
    if SignLength(s, p + 1) == 0 {
      assert Accumulate(u, p + 1, p + 1) == 0;
    }
  }

  lemma ResumeTransparent(st: Progress, s: Bytes, t: Bytes, p: nat)
    requires Live(st) && p <= |s| && Measurable(s + t, p)
    requires ParseRequest(st, s, p).res == Wait && !HarmfulCut(st, s, p)
    ensures var o := ParseRequest(st, s, p); ParseRequest(o.st, s + t, o.pos) == ParseRequest(st, s + t, p)
  {
    hide ParseRequest, RunsOut, StarCut;
    RunsOutIff(st, s, p);
    if LostStar(st, ParseRequest(st, s, p), p) {
      LostStarIsNext(st, s, p);
      LostStarHarmless(st, s, t, p);
    } else {
      ExtensionStability(st, s, t, p);
    }
  }

  /** Chunk independence, exactly: for a call that answered Wait, resuming from the saved state and position
      gives the one-shot outcome under every continuation if and only if the cut is not harmful. */
  lemma ResumeTransparentIff(st: Progress, s: Bytes, p: nat)
    requires Live(st) && p <= |s| && |s| - p < INT_MAX && ParseRequest(st, s, p).res == Wait
    ensures var o := ParseRequest(st, s, p);
            !HarmfulCut(st, s, p)
            <==> forall t | Measurable(s + t, p) :: ParseRequest(o.st, s + t, o.pos) == ParseRequest(st, s + t, p)
  {
    hide ParseRequest, RunsOut, StarCut;
    var o := ParseRequest(st, s, p);
    RunsOutIff(st, s, p);
    StarCutIff(st, s, p);
    if !HarmfulCut(st, s, p) {
      forall t | Measurable(s + t, p) ensures ParseRequest(o.st, s + t, o.pos) == ParseRequest(st, s + t, p) {
        ResumeTransparent(st, s, t, p);
      }
    } else if o.pos > |s| {
      var c := ZERO + 10;
      RequestRunOut(st, s, p, c);
      ResumePastEnd(st, s, p, c);
      assert Measurable(s + [c], p) && ParseRequest(o.st, s + [c], o.pos) != ParseRequest(st, s + [c], p);
    } else {
      LostStarIsNext(st, s, p);
      var t := LostStarHarms(st, s, p);
      assert ParseRequest(o.st, s + t, o.pos) != ParseRequest(st, s + t, p);
    }
  }

  lemma LostStarIsNext(st: Progress, s: Bytes, p: nat)
    requires Live(st) && p <= |s| && LostStar(st, ParseRequest(st, s, p), p)
    ensures ParseRequest(st, s, p) == Outcome(Wait, st, p + 1) && p + 3 <= |s|
  {
    hide Accumulate, DigitsEnd;
    ListKeepsCount(st, s, p);
  }

  lemma ResumePastEnd(st: Progress, s: Bytes, p: nat, c: byte)
    requires Live(st) && p <= |s| && ParseRequest(st, s, p).res == Wait && ParseRequest(st, s, p).pos == |s| + 2
    requires ParseRequest(st, s, p).st.paramLen <= INT_MAX - 2
    ensures var o := ParseRequest(st, s, p); ParseRequest(o.st, s + [c], o.pos).res == Wait
  {
    hide Accumulate, DigitsEnd;
    var o := ParseRequest(st, s, p);
    WaitAnnounced(st, s, p);
    PastEndWaits(o.st, s + [c], o.pos);
  }

  lemma WaitAnnounced(st: Progress, s: Bytes, p: nat)
    requires Live(st) && p <= |s| && ParseRequest(st, s, p).res == Wait && ParseRequest(st, s, p).pos > |s|
    ensures var o := ParseRequest(st, s, p); o.st.multi != -1 && |o.st.params| < o.st.multi
  {
    hide Accumulate, DigitsEnd;
  }

  // ---------------------------------------------------------------- the ways it goes wrong

  /** Both harmful cuts, each inside a well-formed input: the header `*1` cut behind its CR ends in Error
      instead of Wait, and the length 1000 cut behind `100` is read as 100. */
  lemma HarmfulCutExamples()
    ensures var s, t := [STAR, ZERO + 1, CR], [LF];
            var o := ParseRequest(INITIAL, s, 0);
            o.res == Wait && ParseRequest(o.st, s + t, o.pos).res == Error
            && ParseRequest(INITIAL, s + t, 0) == Outcome(Wait, Progress(1, -1, []), 4)
    ensures var s, t := [DOLLAR, ZERO + 1, ZERO, ZERO], [ZERO, CR, LF];
            var st := Progress(1, -1, []);
            var o := ParseRequest(st, s, 0);
            o.res == Wait && ParseRequest(o.st, s + t, o.pos) == Outcome(Wait, Progress(1, 100, []), 6)
            && ParseRequest(st, s + t, 0) == Outcome(Wait, Progress(1, 1000, []), 7)
  {
    hide Accumulate, DigitsEnd;
    var h := [STAR, ZERO + 1, CR] + [LF];
    assert h == [STAR, ZERO + 1, CR, LF];
    HeaderCutNumbers();
    var s := [DOLLAR, ZERO + 1, ZERO, ZERO];
    var u := s + [ZERO, CR, LF];
    assert u == [DOLLAR, ZERO + 1, ZERO, ZERO, ZERO, CR, LF];
    LengthCutNumbers();
  }

  lemma HeaderCutNumbers()
    ensures DigitsEnd([STAR, ZERO + 1, CR], 1) == 2
    ensures DigitsEnd([STAR, ZERO + 1, CR, LF], 1) == 2 && Accumulate([STAR, ZERO + 1, CR, LF], 1, 2) == 1
  {
    assert Accumulate([STAR, ZERO + 1, CR, LF], 1, 1) == 0;
  }

  lemma LengthCutNumbers()
    ensures var s := [DOLLAR, ZERO + 1, ZERO, ZERO]; DigitsEnd(s, 1) == 4 && Accumulate(s, 1, 4) == 100
    ensures var u := [DOLLAR, ZERO + 1, ZERO, ZERO, ZERO, CR, LF]; DigitsEnd(u, 1) == 5 && Accumulate(u, 1, 5) == 1000
  {
    var s := [DOLLAR, ZERO + 1, ZERO, ZERO];
    var u := [DOLLAR, ZERO + 1, ZERO, ZERO, ZERO, CR, LF];
    DigitsEndAt(s, 1, 4);
    DigitsEndAt(u, 1, 5);
    hide DigitsEnd;
    assert Accumulate(s, 1, 1) == 0 && Accumulate(s, 1, 2) == 1 && Accumulate(s, 1, 3) == 10
           && Accumulate(s, 1, 4) == 100;
    assert Accumulate(u, 1, 1) == 0 && Accumulate(u, 1, 2) == 1 && Accumulate(u, 1, 3) == 10
           && Accumulate(u, 1, 4) == 100;
    assert Accumulate(u, 1, 5) == AddDigit(100, ZERO) == 1000;
  }

  /** An answer that is not final: `*000` is answered Ok with the position past the end, `*0001` makes the parser
      wait. */
  lemma AnswerNotFinalExample()
    ensures var s := [STAR, ZERO, ZERO, ZERO];
            && ParseRequest(INITIAL, s, 0) == Outcome(Ok, Progress(0, -1, []), 6)
            && ParseRequest(INITIAL, s + [ZERO + 1], 0) == Outcome(Wait, Progress(1, -1, []), 7)
  {
    var s := [STAR, ZERO, ZERO, ZERO];
    var u := s + [ZERO + 1];
    assert u == [STAR, ZERO, ZERO, ZERO, ZERO + 1];
    assert DigitsEnd(s, 4) == 4 && DigitsEnd(s, 3) == 4 && DigitsEnd(s, 2) == 4 && DigitsEnd(s, 1) == 4;
    assert DigitsEnd(u, 5) == 5 && DigitsEnd(u, 4) == 5 && DigitsEnd(u, 3) == 5 && DigitsEnd(u, 2) == 5
           && DigitsEnd(u, 1) == 5;
    assert Accumulate(s, 1, 1) == 0 && Accumulate(s, 1, 2) == 0 && Accumulate(s, 1, 3) == 0 && Accumulate(s, 1, 4) == 0;
    AccumulateExtends(s, [ZERO + 1], 1, 4);
    assert Accumulate(u, 1, 5) == AddDigit(0, ZERO + 1) == 1;
  }

  // ---------------------------------------------------------------- whole runs over growing buffers

  function Concat(chunks: seq<Bytes>): Bytes {
    if chunks == [] then [] else chunks[0] + Concat(chunks[1..])
  }

  /** The session's loop: after each Wait one more chunk arrives and the parser is called again where it stopped. */
  function Feed(st: Progress, s: Bytes, p: nat, chunks: seq<Bytes>): Outcome
    requires Live(st)
    decreases |chunks|
  {
    var o := ParseRequest(st, s, p);
    if o.res != Wait || chunks == [] then o else Feed(o.st, s + chunks[0], o.pos, chunks[1..])
  }

  /** The buffer after the first `k` chunks. */
  function Buffer(s: Bytes, chunks: seq<Bytes>, k: nat): Bytes
    requires k <= |chunks|
  {
    s + Concat(chunks[..k])
  }

  /** No cut between the chunks is harmful, and no length before one is too large. */
  ghost predicate CleanCuts(st: Progress, s: Bytes, p: nat, chunks: seq<Bytes>) {
    forall k | 0 <= k < |chunks| ::
      !HarmfulCut(st, Buffer(s, chunks, k), p) && !Overruns(st, Buffer(s, chunks, k), p)
  }

  lemma BufferNext(s: Bytes, chunks: seq<Bytes>, k: nat)
    requires k < |chunks|
    ensures Buffer(s, chunks, 0) == s
    ensures Buffer(s + chunks[0], chunks[1..], k) == Buffer(s, chunks, k + 1)
  {
    assert chunks[..0] == [];
    assert chunks[..k + 1][1..] == chunks[1..][..k];
    assert s + chunks[0] + Concat(chunks[1..][..k]) == s + (chunks[0] + Concat(chunks[1..][..k]));
  }

  lemma {:induction false} BufferRest(s: Bytes, chunks: seq<Bytes>, k: nat)
    requires k <= |chunks|
    ensures Buffer(s, chunks, k) + Concat(chunks[k..]) == s + Concat(chunks)
    decreases k
  {
    if k == 0 {
      assert chunks[..0] == [] && chunks[0..] == chunks;
    } else {
      BufferNext(s, chunks, k - 1);
      BufferRest(s + chunks[0], chunks[1..], k - 1);
      assert chunks[1..][k - 1..] == chunks[k..];
      assert s + chunks[0] + Concat(chunks[1..]) == s + (chunks[0] + Concat(chunks[1..]));
    }
  }

  /** Chunk independence of whole runs: the outcome is that of one call on everything. */
  lemma FeedIsOneShot(st: Progress, s: Bytes, p: nat, chunks: seq<Bytes>)
    requires Live(st) && p <= |s| && Measurable(s + Concat(chunks), p) && CleanCuts(st, s, p, chunks)
    ensures Feed(st, s, p, chunks) == ParseRequest(st, s + Concat(chunks), p)
  {
    FeedFrom(st, p, st, s, p, chunks);
  }

  /** ... also from a later state that goes on as the first one would. */
  lemma {:induction false} FeedFrom(st: Progress, p: nat, st1: Progress, s: Bytes, p1: nat, chunks: seq<Bytes>)
    requires Live(st) && Live(st1) && p <= |s| && Measurable(s + Concat(chunks), p) && CleanCuts(st, s, p, chunks)
    requires forall t | Measurable(s + t, p) :: ParseRequest(st1, s + t, p1) == ParseRequest(st, s + t, p)
    ensures Feed(st1, s, p1, chunks) == ParseRequest(st, s + Concat(chunks), p)
    decreases |chunks|
  {
    hide ParseRequest, HarmfulCut, Overruns, Measurable;
    MeasurablePrefix(s, Concat(chunks), p);
    assert s + [] == s;
    var o := ParseRequest(st, s, p);
    assert ParseRequest(st1, s + [], p1) == o;
    if chunks != [] {
      BufferNext(s, chunks, 0);
      assert !HarmfulCut(st, s, p) && !Overruns(st, s, p);
      OverrunsIff(st, s, p);
      var s1 := s + chunks[0];
      assert s1 + Concat(chunks[1..]) == s + Concat(chunks);
      if o.res == Wait {
        forall t | Measurable(s1 + t, p) ensures ParseRequest(o.st, s1 + t, o.pos) == ParseRequest(st, s1 + t, p) {
          assert s1 + t == s + (chunks[0] + t);
          ResumeTransparent(st, s, chunks[0] + t, p);
        }
        forall k | 0 <= k < |chunks[1..]|
          ensures !HarmfulCut(st, Buffer(s1, chunks[1..], k), p) && !Overruns(st, Buffer(s1, chunks[1..], k), p)
        {
          BufferNext(s, chunks, k);
        }
        FeedFrom(st, p, o.st, s1, o.pos, chunks[1..]);
      } else {
        NotHarmfulNotOut(st, s, p);
        ExtensionStability(st, s, Concat(chunks), p);
      }
    }
  }

  lemma MeasurablePrefix(s: Bytes, t: Bytes, p: nat)
    requires Measurable(s + t, p)
    ensures Measurable(s, p)
  {
  }

  lemma NotHarmfulNotOut(st: Progress, s: Bytes, p: nat)
    requires Live(st) && p <= |s| && Measurable(s, p) && !HarmfulCut(st, s, p)
    ensures ParseRequest(st, s, p).pos <= |s|
  {
    hide ParseRequest, RunsOut, StarCut;
    RunsOutIff(st, s, p);
  }

  // ---------------------------------------------------------------- a rule for senders

  lemma AtExtends(s: Bytes, t: Bytes, p: nat, e: Bytes)
    requires At(s, p, e)
    ensures At(s + t, p, e)
  {
    assert (s + t)[p..p + |e|] == s[p..p + |e|];
  }

  lemma BringsExtends(st: Progress, s: Bytes, t: Bytes, p: nat, st1: Progress, q: nat)
    requires InRange(st) && p <= |s| && Brings(st, s, p, st1, q)
    ensures Brings(st, s + t, p, st1, q)
  {
    hide LineText, IsNumeral, ValueOf, StringsBring;
    if st.multi != -1 {
      StringsBringExtends(st, s, t, p, st1, q);
    } else {
      var n :| IsNumeral(n) && At(s, p, [STAR] + LineText(n))
               && StringsBring(INITIAL.(multi := ValueOf(n)), s, p + 1 + |LineText(n)|, st1, q);
      AtExtends(s, t, p, [STAR] + LineText(n));
      StringsBringExtends(INITIAL.(multi := ValueOf(n)), s, t, p + 1 + |LineText(n)|, st1, q);
    }
  }

  lemma StringsBringExtends(st: Progress, s: Bytes, t: Bytes, p: nat, st1: Progress, q: nat)
    requires p <= |s| && StringsBring(st, s, p, st1, q)
    ensures StringsBring(st, s + t, p, st1, q)
  {
    hide PartsBring;
    if st.paramLen < 0 {
      PartsBringExtends(st, s, t, p, st1, q);
    } else {
      var tail := p + st.paramLen;
      AtExtends(s, t, tail, CRLF);
      assert (s + t)[p..tail] == s[p..tail];
      PartsBringExtends(Progress(st.multi, -1, st.params + [s[p..tail]]), s, t, tail + 2, st1, q);
    }
  }

  lemma PartsBringExtends(st: Progress, s: Bytes, t: Bytes, p: nat, st1: Progress, q: nat)
    requires p <= |s| && PartsBring(st, s, p, st1, q)
    ensures PartsBring(st, s + t, p, st1, q)
  {
    hide PartsText, AreParts;
    var xs :| AreParts(xs) && At(s, p, PartsText(xs)) && |st.params| + |xs| < st.multi
              && st1 == With(st, xs) && q == p + |PartsText(xs)|;
    AtExtends(s, t, p, PartsText(xs));
  }

  lemma HugeExtends(s: Bytes, t: Bytes, q: nat)
    requires HugeLength(s, q) && !IsDigit(s[|s| - 1])
    ensures HugeLength(s + t, q)
  {
    hide LineText, ValueOf;
    var n :| IsNumeral(n) && ValueOf(n) > INT_MAX - 2
             && (s[q + 1..] == n.sign + n.digits || At(s, q + 1, LineText(n)));
    LastIsDigit(s, q + 1, n);
    AtExtends(s, t, q + 1, LineText(n));
  }

  lemma LastIsDigit(s: Bytes, q: nat, n: Numeral)
    requires q + 2 <= |s| && IsNumeral(n)
    ensures s[q..] == n.sign + n.digits ==> IsDigit(s[|s| - 1])
  {
    if s[q..] == n.sign + n.digits {
      assert s[|s| - 1] == s[q..][|s| - q - 1] == n.digits[|n.digits| - 1];
    }
  }

  lemma OverrunsExtends(st: Progress, s: Bytes, t: Bytes, p: nat)
    requires Live(st) && p <= |s| && s != [] && !IsDigit(s[|s| - 1]) && Overruns(st, s, p)
    ensures Overruns(st, s + t, p)
  {
    hide Brings, HugeLength;
    if st1, q :| Brings(st, s, p, st1, q) && HugeLength(s, q) {
      BringsExtends(st, s, t, p, st1, q);
      HugeExtends(s, t, q);
    }
  }

  /** Behind a whole count line no star is lost. */
  lemma NoStarCut(st: Progress, s: Bytes, p: nat, n: Numeral)
    requires IsNumeral(n) && |s| - p >= 4 && At(s, p + 1, LineText(n))
    ensures !StarCut(st, s, p)
  {
    hide StartsLine, Accumulate, DigitsEnd, LineText, ValueOf;
    LineRead(s, p + 1, n);
    StartsLineIff(s, p + 1);
    LineEndsInLf(s, p + 1);
  }

  /** A rule a sender can follow without knowing the parser: send the count line in one piece, never stop right behind a
      digit, and announce no length that is too large. */
  lemma CleanWhenNotCutBehindDigits(st: Progress, s: Bytes, p: nat, chunks: seq<Bytes>)
    requires Live(st) && p <= |s|
    requires st.multi == -1 ==> |s| - p >= 4 && exists n :: IsNumeral(n) && At(s, p + 1, LineText(n))
    requires forall k :: 0 <= k < |chunks| ==> var b := Buffer(s, chunks, k); b != [] && !IsDigit(b[|b| - 1])
    requires !Overruns(st, s + Concat(chunks), p)
    ensures CleanCuts(st, s, p, chunks)
  {
    hide RunsOut, StarCut, Overruns, LineText, IsNumeral;
    forall k | 0 <= k < |chunks|
      ensures !HarmfulCut(st, Buffer(s, chunks, k), p) && !Overruns(st, Buffer(s, chunks, k), p)
    {
      var b := Buffer(s, chunks, k);
      BufferRest(s, chunks, k);
      if RunsOut(st, b, p) {
        RunsOutInDigits(st, b, p);
      }
      if Overruns(st, b, p) {
        OverrunsExtends(st, b, Concat(chunks[k..]), p);
      }
      if st.multi == -1 {
        var n :| IsNumeral(n) && At(s, p + 1, LineText(n));
        AtExtends(s, Concat(chunks[..k]), p + 1, LineText(n));
        NoStarCut(st, b, p, n);
      } else {
        StarCutNeedsHeader(st, b, p);
      }
    }
  }

  lemma StarCutNeedsHeader(st: Progress, s: Bytes, p: nat)
    ensures StarCut(st, s, p) ==> st.multi == -1
  {
  }
}
