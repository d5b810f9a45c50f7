/** Requests as the formatter writes them, and what the parser makes of them: round trip, proper prefixes, pipelines. */
module RespRequests {
  import opened ByteStrings
  import opened RespParser
  import opened RespText
  import opened RespGrammar
  import opened RespExtension
  import opened RespEnds

  // ---------------------------------------------------------------- the encoding

  /** A type byte, a decimal and CR LF. */
  function Header(tag: byte, n: nat): Bytes {
    [tag] + DecNat(n) + CRLF
  }

  /** A bulk string. */
  function Bulk(x: Bytes): Bytes {
    Header(DOLLAR, |x|) + x + CRLF
  }

  function Bulks(xs: seq<Bytes>): Bytes {
    if xs == [] then [] else Bulk(xs[0]) + Bulks(xs[1..])
  }

  /** An array of bulk strings. */
  function Encode(xs: seq<Bytes>): Bytes {
    Header(STAR, |xs|) + Bulks(xs)
  }

  /** The counts and lengths a 32-bit `int` holds. */
  predicate IntSized(xs: seq<Bytes>) {
    |xs| <= INT_MAX && forall i :: 0 <= i < |xs| ==> |xs[i]| <= INT_MAX
  }

  lemma {:induction false} BulksAppend(xs: seq<Bytes>, x: Bytes)
    ensures Bulks(xs + [x]) == Bulks(xs) + Bulk(x)
  {
    hide Bulk;
    if xs == [] {
      assert Bulks([x]) == Bulk(x) + Bulks([x][1..]);
      assert [] + [x] == [x];
    } else {
      BulksAppend(xs[1..], x);
      assert (xs + [x])[1..] == xs[1..] + [x];
      assert Bulk(xs[0]) + (Bulks(xs[1..]) + Bulk(x)) == Bulks(xs) + Bulk(x);
    }
  }

  lemma NoBulks()
    ensures Bulks([]) == []
  {
  }

  lemma BulksUpTo(range: seq<Bytes>, i: nat)
    requires i < |range|
    ensures Bulks(range[..i + 1]) == Bulks(range[..i]) + Bulk(range[i])
    ensures |Bulks(range[..i + 1])| <= |Bulks(range)|
  {
    assert range[..i + 1] == range[..i] + [range[i]];
    BulksAppend(range[..i], range[i]);
    BulksPrefixLength(range, i + 1);
  }

  lemma {:induction false} BulksPrefixLength(range: seq<Bytes>, i: nat)
    requires i <= |range|
    ensures |Bulks(range[..i])| <= |Bulks(range)|
  {
    if i > 0 {
      assert range[..i][1..] == range[1..][..i - 1];
      BulksPrefixLength(range[1..], i - 1);
    }
  }

  // ---------------------------------------------------------------- numbers

  /** A printed decimal line reads back as the number modulo 2^32, for every number. */
  lemma HeaderReadsBack(s: Bytes, p: nat, tag: byte, n: nat)
    requires At(s, p, Header(tag, n))
    ensures PrefixedInt(s, p, tag) == IntOk(Wrap32(n), p + |Header(tag, n)|)
  {
    hide DecNat, DecValue, Accumulate, DigitsEnd, Wrap32;
    var d := DecNat(n);
    var j := p + 1 + |d|;
    assert s[p + 1..j] == d by {
      AtSplit(s, p, [tag] + d, CRLF);
      AtSplit(s, p, [tag], d);
    }
    AtSplit(s, p, [tag] + d, CRLF);
    AtSplit(s, p, [tag], d);
    AtIndex(s, p, [tag], 0);
    AtIndex(s, j, CRLF, 0);
    AtIndex(s, j, CRLF, 1);
    forall k | p + 1 <= k < j ensures IsDigit(s[k]) {
      AtIndex(s, p + 1, d, k - p - 1);
    }
    DigitsEndAt(s, p + 1, j);
    AccumulateValue(s, p + 1, j);
    DecValueOfDecNat(n);
  }

  /** ... so it reads back as itself exactly when it fits an `int`. */
  lemma HeaderReadsBackIff(s: Bytes, p: nat, tag: byte, n: nat)
    requires At(s, p, Header(tag, n))
    ensures PrefixedInt(s, p, tag) == IntOk(n, p + |Header(tag, n)|) <==> n <= INT_MAX
  {
    HeaderReadsBack(s, p, tag, n);
  }

  // ---------------------------------------------------------------- round trip

  lemma BulkParses(st: Progress, s: Bytes, p: nat, x: Bytes)
    requires InRange(st) && st.paramLen == -1 && Measurable(s, p) && At(s, p, Bulk(x))
    ensures ParseStr(st, s, p) == Outcome(Ok, st.(params := st.params + [x]), p + |Bulk(x)|)
  {
    hide Header, PrefixedInt, ParseStrval;
    var h := Header(DOLLAR, |x|);
    assert Bulk(x) == h + (x + CRLF);
    AtSplit(s, p, h, x + CRLF);
    HeaderReadsBack(s, p, DOLLAR, |x|);
    BodyRead(st.(paramLen := |x|), s, p + |h|, x);
  }

  lemma {:induction false} BulksParse(st: Progress, s: Bytes, p: nat, xs: seq<Bytes>)
    requires InRange(st) && st.paramLen == -1 && Measurable(s, p) && At(s, p, Bulks(xs))
    requires st.multi == |st.params| + |xs|
    ensures ParseStrlist(st, s, p) == Outcome(Ok, st.(params := st.params + xs), p + |Bulks(xs)|)
    decreases |xs|
  {
    hide Bulk, ParseStr;
    if xs == [] {
      assert st.params + xs == st.params;
    } else {
      AtSplit(s, p, Bulk(xs[0]), Bulks(xs[1..]));
      BulkParses(st, s, p, xs[0]);
      var st1 := st.(params := st.params + [xs[0]]);
      assert ParseStrlist(st, s, p) == ParseStrlist(st1, s, p + |Bulk(xs[0])|);
      BulksParse(st1, s, p + |Bulk(xs[0])|, xs[1..]);
      assert st1.params + xs[1..] == st.params + xs;
    }
  }

  /** A request is longer than the number of its strings and than each of them. */
  lemma {:induction false} SizesWithin(xs: seq<Bytes>)
    ensures |xs| <= |Bulks(xs)| && forall x | x in xs :: |x| <= |Bulks(xs)|
  {
    if xs != [] {
      SizesWithin(xs[1..]);
      BulkSize(xs[0]);
      forall x | x in xs ensures |x| <= |Bulks(xs)| {
        assert x == xs[0] || x in xs[1..];
      }
    }
  }

  /** Round trip: an encoded request, wherever it stands in the buffer and whatever follows it, is
      parsed to exactly its strings, and the position is left right behind it. */
  lemma RoundTrip(s: Bytes, p: nat, xs: seq<Bytes>)
    requires Measurable(s, p) && At(s, p, Encode(xs))
    ensures ParseRequest(INITIAL, s, p) == Outcome(Ok, Progress(|xs|, -1, xs), p + |Encode(xs)|)
  {
    hide ParseRequest, ParseStrlist, Bulks, Header;
    SizesWithin(xs);
    AtSplit(s, p, Header(STAR, |xs|), Bulks(xs));
    HeaderParses(s, p, |xs|);
    BulksParse(Progress(|xs|, -1, []), s, p + |Header(STAR, |xs|)|, xs);
    assert [] + xs == xs;
  }

  lemma HeaderParses(s: Bytes, p: nat, n: nat)
    requires n <= INT_MAX && At(s, p, Header(STAR, n))
    ensures ParseRequest(INITIAL, s, p) == ParseStrlist(Progress(n, -1, []), s, p + |Header(STAR, n)|)
  {
    hide ParseStrlist, ScanInt;
    HeaderReadsBack(s, p, STAR, n);
    AtIndex(s, p, Header(STAR, n), 0);
  }

  /** The count 4294967299 is read as 3. */
  lemma HeaderWrapsExample()
    ensures var h := Header(STAR, 4294967299);
            ParseRequest(INITIAL, h, 0) == Outcome(Wait, Progress(3, -1, []), |h|)
  {
    hide Header, ScanInt;
    var h := Header(STAR, 4294967299);
    assert h[0..|h|] == h;
    HeaderReadsBack(h, 0, STAR, 4294967299);
    HeaderStarts(STAR, 4294967299);
  }

  lemma HeaderStarts(tag: byte, n: nat)
    ensures |Header(tag, n)| >= 4 && Header(tag, n)[0] == tag
  {
  }

  // ---------------------------------------------------------------- the encoding is prefix-free

  /** Two texts that begin with printed headers and are equal announce the same number. */
  lemma HeaderUnique(tag: byte, n: nat, m: nat, a: Bytes, b: Bytes)
    requires Header(tag, n) + a == Header(tag, m) + b
    ensures n == m && a == b
  {
    var d, e := DecNat(n), DecNat(m);
    var u, v := Header(tag, n) + a, Header(tag, m) + b;
    assert |d| == |e| by {
      assert u[1 + |d|] == CR && v[1 + |e|] == CR;
      assert forall i | 1 <= i <= |d| :: u[i] == d[i - 1];
      assert forall i | 1 <= i <= |e| :: v[i] == e[i - 1];
    }
    assert d == u[1..1 + |d|] == v[1..1 + |e|] == e;
    DecValueOfDecNat(n);
    DecValueOfDecNat(m);
    assert a == u[3 + |d|..] == v[3 + |e|..] == b;
  }

  lemma BulkUnique(x: Bytes, y: Bytes, a: Bytes, b: Bytes)
    requires Bulk(x) + a == Bulk(y) + b
    ensures x == y && a == b
  {
    var h, g := Header(DOLLAR, |x|), Header(DOLLAR, |y|);
    hide Header;
    assert h + (x + CRLF + a) == Bulk(x) + a && g + (y + CRLF + b) == Bulk(y) + b;
    HeaderUnique(DOLLAR, |x|, |y|, x + CRLF + a, y + CRLF + b);
    var u, v := x + CRLF + a, y + CRLF + b;
    assert x == u[..|x|] == v[..|y|] == y;
    assert a == u[|x| + 2..] == v[|y| + 2..] == b;
  }

  lemma {:induction false} BulksUnique(xs: seq<Bytes>, ys: seq<Bytes>, a: Bytes, b: Bytes)
    requires |xs| == |ys| && Bulks(xs) + a == Bulks(ys) + b
    ensures xs == ys && a == b
    decreases |xs|
  {
    hide Bulk;
    if xs == [] {
      assert Bulks(xs) + a == a && Bulks(ys) + b == b;
    } else {
      assert Bulk(xs[0]) + (Bulks(xs[1..]) + a) == Bulks(xs) + a && Bulk(ys[0]) + (Bulks(ys[1..]) + b) == Bulks(ys) + b;
      BulkUnique(xs[0], ys[0], Bulks(xs[1..]) + a, Bulks(ys[1..]) + b);
      BulksUnique(xs[1..], ys[1..], a, b);
      assert xs == [xs[0]] + xs[1..] && ys == [ys[0]] + ys[1..];
    }
  }

  /** No encoded request is a prefix of another one followed by anything, of whatever size they are. */
  lemma EncodingPrefixFree(xs: seq<Bytes>, ys: seq<Bytes>, t: Bytes)
    requires Encode(xs) + t == Encode(ys)
    ensures xs == ys && t == []
  {
    hide Header, Bulks;
    assert Header(STAR, |xs|) + (Bulks(xs) + t) == Encode(xs) + t;
    HeaderUnique(STAR, |xs|, |ys|, Bulks(xs) + t, Bulks(ys));
    assert Bulks(ys) + [] == Bulks(ys);
    BulksUnique(xs, ys, t, []);
  }

  // ---------------------------------------------------------------- proper prefixes

  /** Within a printed header the parser waits, except that three or more digits at the end are taken for a number: the
      header's own when they are all there, and at most a tenth of it before. */
  lemma HeaderPrefix(s: Bytes, p: nat, tag: byte, n: nat)
    requires n <= INT_MAX && p <= |s| < p + |Header(tag, n)| && s[p..] == Header(tag, n)[..|s| - p]
    ensures var r := PrefixedInt(s, p, tag);
            if |s| - p >= 4 && |s| <= p + |DecNat(n)| + 1
            then r.IntOk? && r.pos == |s| + 2 && r.value > 0
                 && (if |s| == p + |DecNat(n)| + 1 then r.value == n else 10 * r.value <= n)
            else r.IntWait?
  {
    hide GetInt, ScanInt;
    if |s| - p >= 4 {
      if |s| <= p + |DecNat(n)| + 1 {
        HeaderDigits(s, p, tag, n);
      } else {
        HeaderWithoutLf(s, p, tag, n);
      }
    } else if |s| - p == 3 {
      assert s[p] == s[p..][0];
      assert GetInt(s, p + 1) == IntWait by {
        TooShort(s, p + 1);
      }
    }
  }

  lemma TooShort(s: Bytes, q: nat)
    requires q <= |s| && |s| - q < 3
    ensures GetInt(s, q) == IntWait
  {
  }

  lemma HeaderDigits(s: Bytes, p: nat, tag: byte, n: nat)
    requires n <= INT_MAX && p + 4 <= |s| <= p + |DecNat(n)| + 1 && s[p..] == Header(tag, n)[..|s| - p]
    ensures var r := PrefixedInt(s, p, tag);
            r.IntOk? && r.pos == |s| + 2 && r.value > 0
            && (if |s| == p + |DecNat(n)| + 1 then r.value == n else 10 * r.value <= n)
  {
    hide GetInt, DecNat, DecValue;
    var d, k := DecNat(n), |s| - p - 1;
    var m := DecNatPrefix(n, k);
    assert s[p] == s[p..][0] == tag;
    assert s[p + 1..] == s[p..][1..] == Header(tag, n)[1..|s| - p] == d[..k];
    var num := Numeral([], d[..k]);
    assert [] + d[..k] == d[..k];
    DanglingValue(s, p + 1, num);
    DecValueOfDecNat(m);
    SeveralDigits(n);
  }

  lemma SeveralDigits(n: nat)
    ensures |DecNat(n)| >= 2 ==> n > 0
  {
  }

  lemma HeaderWithoutLf(s: Bytes, p: nat, tag: byte, n: nat)
    requires n <= INT_MAX && p + 4 <= |s| == p + |DecNat(n)| + 2 && s[p..] == Header(tag, n)[..|s| - p]
    ensures PrefixedInt(s, p, tag).IntWait?
  {
    hide GetInt, DecNat;
    var h := Header(tag, n);
    assert At(s + [LF], p, h) by {
      assert (s + [LF])[p..p + |h|] == s[p..] + [LF];
    }
    HeaderReadsBack(s + [LF], p, tag, n);
    PrefixedIntExtends(s, [LF], p, tag);
    DanglingIff(s, p, tag);
    assert s[|s| - 1] == s[p..][|s| - p - 1] == CR;
    if Dangling(s, p, tag) {
      DanglingDigits(s, p, tag);
    }
  }

  lemma PrefixTail(s: Bytes, p: nat, a: Bytes, b: Bytes)
    requires p <= |s| <= p + |a| + |b| && s[p..] == (a + b)[..|s| - p]
    ensures |s| <= p + |a| ==> s[p..] == a[..|s| - p]
    ensures |s| >= p + |a| ==> At(s, p, a) && s[p + |a|..] == b[..|s| - p - |a|]
  {
    if |s| <= p + |a| {
      assert (a + b)[..|s| - p] == a[..|s| - p];
    }
    if |s| >= p + |a| {
      assert s[p..p + |a|] == s[p..][..|a|];
      assert s[p + |a|..] == s[p..][|a|..];
    }
  }

  /** The first `k` bytes of the strings show the whole length of one that is too long for the guard. */
  predicate HugeSeen(xs: seq<Bytes>, k: int) {
    xs != []
    && var digits := 1 + |DecNat(|xs[0]|)|;
       (|xs[0]| > INT_MAX - 2 && (k == digits || k >= digits + 2))
       || (k >= |Bulk(xs[0])| && HugeSeen(xs[1..], k - |Bulk(xs[0])|))
  }

  lemma BulkPrefix(st: Progress, s: Bytes, p: nat, x: Bytes)
    requires InRange(st) && st.paramLen == -1 && |x| <= INT_MAX && |s| - p < INT_MAX
    requires p <= |s| < p + |Bulk(x)| && s[p..] == Bulk(x)[..|s| - p]
    ensures var k, digits := |s| - p, 1 + |DecNat(|x|)|;
            ParseStr(st, s, p).res == if |x| > INT_MAX - 2 && (k == digits || k >= digits + 2) then Overrun else Wait
  {
    hide Header, DecNat, PrefixedInt, ParseStrval;
    var h := Header(DOLLAR, |x|);
    HeaderSize(DOLLAR, |x|);
    assert Bulk(x) == h + (x + CRLF);
    PrefixTail(s, p, h, x + CRLF);
    if |s| < p + |h| {
      HeaderPrefix(s, p, DOLLAR, |x|);
      var r := PrefixedInt(s, p, DOLLAR);
      if r.IntOk? {
        StrvalReadsInsideIff(st.(paramLen := r.value), s, r.pos);
        BodyNotThere(st.(paramLen := r.value), s, r.pos);
      }
    } else {
      HeaderReadsBack(s, p, DOLLAR, |x|);
      StrvalReadsInsideIff(st.(paramLen := |x|), s, p + |h|);
      BodyNotThere(st.(paramLen := |x|), s, p + |h|);
    }
  }

  lemma HeaderSize(tag: byte, n: nat)
    ensures |Header(tag, n)| == 3 + |DecNat(n)|
    ensures n >= 100 ==> |DecNat(n)| >= 3
  {
    hide DecNat;
    OneDigitLess(n);
    OneDigitLess(n / 10);
  }

  lemma OneDigitLess(n: nat)
    ensures n >= 10 ==> |DecNat(n)| == |DecNat(n / 10)| + 1
  {
  }

  lemma BodyNotThere(st: Progress, s: Bytes, p: nat)
    requires 0 <= st.paramLen && p <= |s| + 2 && |s| - p < st.paramLen + 2
    ensures st.paramLen <= INT_MAX - 2 ==> ParseStrval(st, s, p).res == Wait
  {
  }

  lemma {:induction false} BulksPrefix(st: Progress, s: Bytes, p: nat, xs: seq<Bytes>)
    requires InRange(st) && st.paramLen == -1 && IntSized(xs) && st.multi == |st.params| + |xs| && |s| - p < INT_MAX
    requires p <= |s| < p + |Bulks(xs)| && s[p..] == Bulks(xs)[..|s| - p]
    ensures ParseStrlist(st, s, p).res == if HugeSeen(xs, |s| - p) then Overrun else Wait
    decreases |xs|
  {
    hide Bulk, ParseStr, DecNat;
    var b := |Bulk(xs[0])|;
    BulkSize(xs[0]);
    PrefixTail(s, p, Bulk(xs[0]), Bulks(xs[1..]));
    if |s| < p + b {
      BulkPrefix(st, s, p, xs[0]);
    } else {
      BulkParses(st, s, p, xs[0]);
      var st1 := st.(params := st.params + [xs[0]]);
      assert ParseStrlist(st, s, p) == ParseStrlist(st1, s, p + b);
      BulksPrefix(st1, s, p + b, xs[1..]);
    }
  }

  lemma BulkSize(x: Bytes)
    ensures |Bulk(x)| >= |x| + 5
  {
  }

  /** A proper prefix of an encoded request makes the parser wait, also one that cuts a number, exactly as long as it
      does not show the whole length of a string too long for the guard; then the parser reads behind the buffer. */
  lemma ProperPrefixIff(xs: seq<Bytes>, k: nat)
    requires IntSized(xs) && k < |Encode(xs)| && k < INT_MAX
    ensures ParseRequest(INITIAL, Encode(xs)[..k], 0).res
            == if HugeSeen(xs, k - |Header(STAR, |xs|)|) then Overrun else Wait
  {
    hide ParseStrlist, PrefixedInt, DecNat;
    var s := Encode(xs)[..k];
    var h := Header(STAR, |xs|);
    assert s[0..] == s;
    PrefixTail(s, 0, h, Bulks(xs));
    if k < |h| {
      HeaderPrefix(s, 0, STAR, |xs|);
      if k >= 1 {
        assert s[0] == h[0];
      }
      var r := PrefixedInt(s, 0, STAR);
      HeaderAnswer(s);
      if r.IntOk? {
        PastEndWaits(INITIAL.(multi := r.value), s, r.pos);
      }
      NothingSeen(xs, k - |h|);
    } else {
      HeaderParses(s, 0, |xs|);
      BulksPrefix(Progress(|xs|, -1, []), s, |h|, xs);
    }
  }

  lemma HeaderAnswer(s: Bytes)
    requires s != [] ==> s[0] == STAR
    ensures var r := PrefixedInt(s, 0, STAR);
            && (r.IntWait? ==> ParseRequest(INITIAL, s, 0).res == Wait)
            && (r.IntOk? && r.value > 0 ==>
                  ParseRequest(INITIAL, s, 0) == ParseStrlist(INITIAL.(multi := r.value), s, r.pos))
  {
    hide ScanInt, ParseStrlist;
  }

  lemma NothingSeen(xs: seq<Bytes>, k: int)
    requires k < 0
    ensures !HugeSeen(xs, k)
  {
  }

  lemma {:induction false} NoHuge(xs: seq<Bytes>, k: int)
    requires forall i | 0 <= i < |xs| :: |xs[i]| <= INT_MAX - 2
    ensures !HugeSeen(xs, k)
    decreases |xs|
  {
    hide Bulk, DecNat;
    if xs != [] {
      NoHuge(xs[1..], k - |Bulk(xs[0])|);
    }
  }

  /** Every proper prefix of a request whose strings leave room for two in an `int` makes the parser wait. */
  lemma ProperPrefixWaits(xs: seq<Bytes>, k: nat)
    requires |xs| <= INT_MAX && forall i | 0 <= i < |xs| :: |xs[i]| <= INT_MAX - 2
    requires k < |Encode(xs)| && k < INT_MAX
    ensures ParseRequest(INITIAL, Encode(xs)[..k], 0).res == Wait
  {
    hide ParseRequest, HugeSeen, Encode;
    ProperPrefixIff(xs, k);
    NoHuge(xs, k - |Header(STAR, |xs|)|);
  }

  /** Seventeen bytes that make the parser read behind the buffer: one string is announced, of 2147483647 bytes. */
  lemma OverrunExample()
    ensures var s := Ascii("*1\r\n$2147483647\r\n"); |s| == 17 && ParseRequest(INITIAL, s, 0).res == Overrun
  {
    hide ParseRequest, HugeLength, Brings, Ascii, ValueOf;
    var s := Ascii("*1\r\n$2147483647\r\n");
    var one, n := Numeral([], [49]), Numeral([], [50, 49, 52, 55, 52, 56, 51, 54, 52, 55]);
    ExampleText();
    ExampleValues(one, n);
    assert s[0..4] == [STAR] + LineText(one) && s[5..17] == LineText(n);
    HugeThere(s, 4, n);
    HeaderBrings(s, one);
    OverrunsIff(INITIAL, s, 0);
  }

  lemma ExampleText()
    ensures Ascii("*1\r\n$2147483647\r\n")
            == [STAR, 49, CR, LF, DOLLAR, 50, 49, 52, 55, 52, 56, 51, 54, 52, 55, CR, LF]
  {
  }

  lemma ExampleValues(one: Numeral, n: Numeral)
    requires one == Numeral([], [49]) && n == Numeral([], [50, 49, 52, 55, 52, 56, 51, 54, 52, 55])
    ensures IsNumeral(one) && ValueOf(one) == 1 && IsNumeral(n) && ValueOf(n) == INT_MAX
  {
    hide DecValue, AllDigits;
    EightDigits();
    Digits([50, 49, 52, 55, 52, 56, 51, 54], 52);
    assert [50, 49, 52, 55, 52, 56, 51, 54] + [52] == [50, 49, 52, 55, 52, 56, 51, 54, 52];
    Digits([50, 49, 52, 55, 52, 56, 51, 54, 52], 55);
    assert [50, 49, 52, 55, 52, 56, 51, 54, 52] + [55] == n.digits;
  }

  lemma EightDigits()
    ensures AllDigits([49]) && DecValue([49]) == 1
    ensures AllDigits([50, 49, 52, 55, 52, 56, 51, 54]) && DecValue([50, 49, 52, 55, 52, 56, 51, 54]) == 21474836
  {
    hide DecValue;
    Digits([], 49);
    assert [49] == [] + [49];
    FourDigits([], 50, 49, 52, 55);
    FourDigits([50, 49, 52, 55], 52, 56, 51, 54);
    assert [] + [50, 49, 52, 55] == [50, 49, 52, 55];
    assert [50, 49, 52, 55] + [52, 56, 51, 54] == [50, 49, 52, 55, 52, 56, 51, 54];
  }

  lemma FourDigits(d: Bytes, a: byte, b: byte, c: byte, e: byte)
    requires AllDigits(d) && AllDigits([a, b, c, e])
    ensures AllDigits(d + [a, b, c, e])
    ensures DecValue(d + [a, b, c, e])
            == 10000 * DecValue(d) + 1000 * (a - ZERO) + 100 * (b - ZERO) + 10 * (c - ZERO) + (e - ZERO)
  {
    hide DecValue;
    assert IsDigit([a, b, c, e][0]) && IsDigit([a, b, c, e][1]) && IsDigit([a, b, c, e][2]) && IsDigit([a, b, c, e][3]);
    Digits(d, a);
    Digits(d + [a], b);
    Digits(d + [a] + [b], c);
    Digits(d + [a] + [b] + [c], e);
    assert d + [a, b, c, e] == d + [a] + [b] + [c] + [e];
  }

  lemma Digits(d: Bytes, c: byte)
    requires AllDigits(d) && IsDigit(c)
    ensures AllDigits(d + [c]) && DecValue(d + [c]) == 10 * DecValue(d) + (c - ZERO)
    ensures DecValue([]) == 0
  {
    assert (d + [c])[..|d|] == d;
  }

  lemma HugeThere(s: Bytes, q: nat, n: Numeral)
    requires q + 4 <= |s| && s[q] == DOLLAR && IsNumeral(n) && ValueOf(n) > INT_MAX - 2 && At(s, q + 1, LineText(n))
    ensures HugeLength(s, q)
  {
  }

  /** A count line alone brings the parser to the first string. */
  lemma HeaderBrings(s: Bytes, n: Numeral)
    requires |s| >= 4 && IsNumeral(n) && ValueOf(n) > 0 && At(s, 0, [STAR] + LineText(n))
    ensures Brings(INITIAL, s, 0, Progress(ValueOf(n), -1, []), 1 + |LineText(n)|)
  {
    hide LineText;
    var st, q := INITIAL.(multi := ValueOf(n)), 1 + |LineText(n)|;
    WithNone(st);
    assert At(s, q, PartsText([])) && AreParts([]);
    assert PartsBring(st, s, q, st, q);
    assert StringsBring(st, s, 0 + 1 + |LineText(n)|, st, q);
  }

  // ---------------------------------------------------------------- pipelines

  function Pipeline(reqs: seq<seq<Bytes>>): Bytes {
    if reqs == [] then [] else Encode(reqs[0]) + Pipeline(reqs[1..])
  }

  /** `n` requests read in a row, with a reset after each one. */
  function ParseMany(s: Bytes, p: nat, n: nat): (r: (seq<Outcome>, nat))
    decreases n
  {
    if n == 0 then ([], p)
    else
      var o := ParseRequest(INITIAL, s, p);
      var rest := ParseMany(s, o.pos, n - 1);
      ([o] + rest.0, rest.1)
  }

  /** A pipeline of encoded requests is read back request by request, and nothing behind it is touched. */
  lemma {:induction false} PipelineRoundTrip(s: Bytes, p: nat, reqs: seq<seq<Bytes>>)
    requires Measurable(s, p) && At(s, p, Pipeline(reqs))
    ensures var r := ParseMany(s, p, |reqs|);
            r.1 == p + |Pipeline(reqs)| && |r.0| == |reqs|
            && forall i :: 0 <= i < |reqs| ==> r.0[i].res == Ok && r.0[i].st.params == reqs[i]
    decreases |reqs|
  {
    hide ParseRequest, Encode;
    if reqs != [] {
      AtSplit(s, p, Encode(reqs[0]), Pipeline(reqs[1..]));
      RoundTrip(s, p, reqs[0]);
      PipelineRoundTrip(s, p + |Encode(reqs[0])|, reqs[1..]);
    }
  }
}
