/** The parts put together: what is formatted into a reply buffer is what a parser object reads out of it. */
module EndToEnd {
  import opened ByteStrings
  import opened RespParser
  import opened RespText
  import opened RespResume
  import opened RespRequests
  import opened ReplyBuffers
  import opened Keyspace
  import opened YStrings
  import opened ProtoParse
  import YLists
  import RespFormat

  // ---------------------------------------------------------------- replies are requests

  lemma AtFront(a: Bytes, t: Bytes)
    ensures At(a + t, 0, a)
  {
    assert (a + t)[0..|a|] == a;
  }

  /** An integer reply reads back as its number, in 32 bits as every number the parser reads. */
  lemma IntReplyReadsBack(n: nat, t: Bytes)
    ensures var reply := RespFormat.IntReply(n);
            PrefixedInt(reply + t, 0, COLON) == IntOk(Wrap32(n), |reply|)
  {
    hide PrefixedInt, Wrap32;
    AtFront(RespFormat.IntReply(n), t);
    HeaderReadsBack(RespFormat.IntReply(n) + t, 0, COLON, n);
  }

  /** The reply of LRANGE on a list reads back, whatever follows it, as exactly the items Redis asks for. */
  lemma RangeReplyReadsBack(ks: Store, key: Bytes, start: Bytes, end: Bytes, t: Bytes)
    requires ErrorAt(ks, key, ListType) == ErrorOk && StringToLong(start).Some? && StringToLong(end).Some?
    requires |Exec(ks, LRange(key, start, end), []).reply| + |t| <= INT_MAX
    ensures var range := RedisRange(ks[key].items, StringToLong(start).value, StringToLong(end).value);
            var reply := Exec(ks, LRange(key, start, end), []).reply;
            ParseRequest(INITIAL, reply + t, 0) == Outcome(Ok, Progress(|range|, -1, range), |reply|)
  {
    hide ParseRequest, Encode, RedisRange, StringToLong;
    var items := ks[key].items;
    var range := RedisRange(items, StringToLong(start).value, StringToLong(end).value);
    AtFront(Encode(range), t);
    RoundTrip(Encode(range) + t, 0, range);
  }

  /** The reply of SMEMBERS reads back as the members of the set, each once. */
  lemma MembersReplyReadsBack(ks: Store, key: Bytes, choice: seq<Bytes>, t: Bytes)
    requires ErrorAt(ks, key, SetType) == ErrorOk && ValidChoice(ks, SMembers(key), choice)
    requires |Exec(ks, SMembers(key), choice).reply| + |t| <= INT_MAX
    ensures var reply := Exec(ks, SMembers(key), choice).reply;
            var o := ParseRequest(INITIAL, reply + t, 0);
            && o.res == Ok && o.pos == |reply| && ToSet(o.st.params) == ks[key].members
            && forall i, j :: 0 <= i < j < |o.st.params| ==> o.st.params[i] != o.st.params[j]
  {
    hide ParseRequest, Encode;
    AtFront(Encode(choice), t);
    RoundTrip(Encode(choice) + t, 0, choice);
  }

  // ---------------------------------------------------------------- through the objects

  lemma EncodingFits(xs: seq<Bytes>)
    requires |Encode(xs)| <= INT_MAX
    ensures |xs| <= INT_MAX && forall x | x in xs :: |x| <= INT_MAX
  {
    hide Header, Bulks;
    SizesWithin(xs);
  }

  /** A request formatted into a fresh reply buffer, and other bytes behind it, come out of the buffer as they went
      in. */
  method FormatAndTake(xs: seq<Bytes>, t: Bytes) returns (s: Bytes)
    requires |Encode(xs)| + |t| <= INT_MAX
    ensures s == Encode(xs) + t
  {
    hide Encode;
    var reply := new ReplyBuffer();
    assert xs[0..|xs|] == xs;
    EncodingFits(xs);
    YLists.SendItems(xs, 0, |xs|, reply);
    assert reply.Contents() == Encode(xs);
    var _ := reply.PushData(t);
    s := reply.PeekData(SIZE_LIMIT - 1);
  }

  /** What a parser object reads from those bytes is exactly the request. */
  method FormatThenParse(xs: seq<Bytes>, t: Bytes) returns (res: YParseResult, params: seq<Bytes>, pos: nat)
    requires |Encode(xs)| + |t| <= INT_MAX
    ensures res == Ok && params == xs && pos == |Encode(xs)|
  {
    hide RespParser.ParseRequest, Encode;
    var s := FormatAndTake(xs, t);
    var parser := new YProtoParse();
    res, pos := parser.ParseRequest(s, 0);
    AtFront(Encode(xs), t);
    RoundTrip(s, 0, xs);
    params := parser.m_vecParams;
  }

  /** A parser object fed with a buffer that grows chunk by chunk, resumed after every wait where it stopped. */
  method FeedParser(parser: YProtoParse, s: Bytes, p: nat, chunks: seq<Bytes>) returns (res: YParseResult, pos: nat)
    requires parser.Valid() && Live(parser.View()) && p <= |s| && Measurable(s + Concat(chunks), p)
    modifies parser
    ensures parser.Valid()
    ensures Outcome(res, parser.View(), pos) == Feed(old(parser.View()), s, p, chunks)
    ensures CleanCuts(old(parser.View()), s, p, chunks) ==>
              Outcome(res, parser.View(), pos) == RespParser.ParseRequest(old(parser.View()), s + Concat(chunks), p)
  {
    hide RespParser.ParseRequest;
    if CleanCuts(parser.View(), s, p, chunks) {
      FeedIsOneShot(parser.View(), s, p, chunks);
    }
    var buffer, rest := s, chunks;
    res, pos := parser.ParseRequest(buffer, p);
    while res == Wait && rest != []
      invariant parser.Valid() && (res == Wait ==> Live(parser.View()))
      invariant if res == Wait && rest != []
                then Feed(parser.View(), buffer + rest[0], pos, rest[1..]) == Feed(old(parser.View()), s, p, chunks)
                else Outcome(res, parser.View(), pos) == Feed(old(parser.View()), s, p, chunks)
      decreases |rest|
    {
      buffer, rest := buffer + rest[0], rest[1..];
      res, pos := parser.ParseRequest(buffer, pos);
    }
  }

  /** One parser object, reset after each request, reads a pipeline of encoded requests one by one. */
  method ParsePipeline(parser: YProtoParse, s: Bytes, reqs: seq<seq<Bytes>>) returns (read: seq<seq<Bytes>>, pos: nat)
    requires parser.Valid() && parser.View() == INITIAL
    requires Measurable(s, 0) && At(s, 0, Pipeline(reqs))
    modifies parser
    ensures parser.Valid() && parser.View() == INITIAL
    ensures read == reqs && pos == |Pipeline(reqs)|
  {
    hide RespParser.ParseRequest, Encode;
    read, pos := [], 0;
    var n := 0;
    while n < |reqs|
      invariant n <= |reqs| && parser.Valid() && parser.View() == INITIAL
      invariant read == reqs[..n]
      invariant At(s, pos, Pipeline(reqs[n..])) && pos + |Pipeline(reqs[n..])| == |Pipeline(reqs)|
    {
      assert reqs[n..][1..] == reqs[n + 1..];
      AtSplit(s, pos, Encode(reqs[n]), Pipeline(reqs[n + 1..]));
      RoundTrip(s, pos, reqs[n]);
      var res;
      res, pos := parser.ParseRequest(s, pos);
      read := read + [parser.m_vecParams];
      parser.Reset();
      n := n + 1;
    }
  }
}
