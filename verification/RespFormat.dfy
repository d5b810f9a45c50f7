/** The reply formatter, writing into a reply buffer. */
module RespFormat {
  import opened ByteStrings
  import opened ReplyBuffers
  import opened RespRequests

  const LONG_MIN: int := -0x8000_0000_0000_0000
  const LONG_MAX: int := 0x7fff_ffff_ffff_ffff

  /** `snprintf` into a buffer of `size` bytes: what is stored, without the terminator. */
  function Snprintf(text: Bytes, size: nat): (stored: Bytes)
    requires size > 0
  {
    if |text| < size then text else text[..size - 1]
  }

  lemma DecimalsFit(n: nat)
    requires n < SIZE_LIMIT
    ensures |DecNat(n)| <= 20
  {
    assert Pow10(20) == 100000000000000000000 by {
      assert Pow10(5) == 100000;
      assert Pow10(10) == 10000000000;
      assert Pow10(15) == 1000000000000000;
    }
    DecNatLength(n, 20);
  }

  function IntReply(value: int): Bytes {
    [COLON] + Dec(value) + CRLF
  }

  function SingleReply(s: Bytes): Bytes {
    [PLUS] + s + CRLF
  }

  const NULL_BULK: Bytes := [DOLLAR, MINUS, ZERO + 1, CR, LF]
  const NULL_ARRAY: Bytes := [STAR, MINUS, ZERO + 1, CR, LF]
  const OK_REPLY: Bytes := [PLUS, 'O' as int, 'K' as int, CR, LF]

  /** The reply buffer can take `text`. */
  ghost predicate Room(reply: ReplyBuffer, text: Bytes)
    reads reply
  {
    reply.Valid() && |reply.Contents()| + |text| <= MAX_BUFFER_SIZE
  }

  /** What every formatting function does: append `text` and return its length. */
  twostate predicate Appended(reply: ReplyBuffer, text: Bytes, n: nat)
    reads reply
  {
    old(reply.Valid()) && reply.Valid() && reply.Contents() == old(reply.Contents()) + text && n == |text|
  }

  lemma LongFits(value: int)
    requires LONG_MIN <= value <= LONG_MAX
    ensures |Dec(value) + CRLF| < 32
  {
    hide DecNat;
    DecimalsFit(if value < 0 then -value else value);
  }

  method FormatInt(value: int, reply: ReplyBuffer) returns (n: nat)
    requires LONG_MIN <= value <= LONG_MAX && Room(reply, IntReply(value))
    modifies reply
    ensures Appended(reply, IntReply(value), n)
  {
    hide ReplyBuffer.Contents, ReplyBuffer.Valid, Dec;
    LongFits(value);
    ghost var was := reply.Contents();
    var val := Snprintf(Dec(value) + CRLF, 32);
    var oldSize := reply.ReadableSize();
    var _ := reply.PushData([COLON]);
    var _ := reply.PushData(val);
    n := reply.ReadableSize() - oldSize;
    assert was + [COLON] + val == was + IntReply(value);
  }

  method FormatSingle(s: Bytes, reply: ReplyBuffer) returns (n: nat)
    requires Room(reply, SingleReply(s))
    modifies reply
    ensures Appended(reply, SingleReply(s), n)
  {
    var oldSize := reply.ReadableSize();
    var _ := reply.PushData([PLUS]);
    var _ := reply.PushData(s);
    var _ := reply.PushData(CRLF);
    n := reply.ReadableSize() - oldSize;
  }

  /** A type byte, and a decimal with CR LF through the scratch array. */
  method PushHeader(tag: byte, n: nat, reply: ReplyBuffer)
    requires n < SIZE_LIMIT && Room(reply, Header(tag, n))
    modifies reply
    ensures reply.Valid() && reply.Contents() == old(reply.Contents()) + Header(tag, n)
  {
    hide ReplyBuffer.Contents, ReplyBuffer.Valid, DecNat;
    DecimalsFit(n);
    ghost var was := reply.Contents();
    var _ := reply.PushData([tag]);
    var val := Snprintf(DecNat(n) + CRLF, 31);
    var _ := reply.PushData(val);
    assert was + [tag] + val == was + Header(tag, n);
  }

  method PreFormatMultiBulk(nBulk: nat, reply: ReplyBuffer) returns (n: nat)
    requires nBulk < SIZE_LIMIT && Room(reply, Header(STAR, nBulk))
    modifies reply
    ensures Appended(reply, Header(STAR, nBulk), n)
  {
    var oldSize := reply.ReadableSize();
    PushHeader(STAR, nBulk, reply);
    n := reply.ReadableSize() - oldSize;
  }

  method FormatBulk(str: Bytes, reply: ReplyBuffer) returns (n: nat)
    requires |str| < SIZE_LIMIT && Room(reply, Bulk(str))
    modifies reply
    ensures Appended(reply, Bulk(str), n)
  {
    hide ReplyBuffer.Contents, ReplyBuffer.Valid, Header;
    ghost var was, h := reply.Contents(), Header(DOLLAR, |str|);
    var oldSize := reply.ReadableSize();
    PushHeader(DOLLAR, |str|, reply);
    if |str| > 0 {
      var _ := reply.PushData(str);
    }
    assert reply.Contents() == was + h + str;
    var _ := reply.PushData(CRLF);
    assert was + h + str + CRLF == was + Bulk(str);
    n := reply.ReadableSize() - oldSize;
  }

  method FormatEmptyBulk(reply: ReplyBuffer) returns (n: nat)
    requires Room(reply, Bulk([]))
    modifies reply
    ensures Appended(reply, Bulk([]), n)
  {
    assert Bulk([]) == [DOLLAR, ZERO, CR, LF, CR, LF];
    n := reply.PushData([DOLLAR, ZERO, CR, LF, CR, LF]);
  }

  method FormatNull(reply: ReplyBuffer) returns (n: nat)
    requires Room(reply, NULL_BULK)
    modifies reply
    ensures Appended(reply, NULL_BULK, n)
  {
    n := FormatConstant(NULL_BULK, reply);
  }

  method FormatNullArray(reply: ReplyBuffer) returns (n: nat)
    requires Room(reply, NULL_ARRAY)
    modifies reply
    ensures Appended(reply, NULL_ARRAY, n)
  {
    n := FormatConstant(NULL_ARRAY, reply);
  }

  method FormatOK(reply: ReplyBuffer) returns (n: nat)
    requires Room(reply, OK_REPLY)
    modifies reply
    ensures Appended(reply, SingleReply(OK_REPLY[1..3]), n)
  {
    assert SingleReply(OK_REPLY[1..3]) == OK_REPLY;
    n := FormatConstant(OK_REPLY, reply);
  }

  method Format1(reply: ReplyBuffer) returns (n: nat)
    requires Room(reply, IntReply(1))
    modifies reply
    ensures Appended(reply, IntReply(1), n)
  {
    assert IntReply(1) == [COLON, ZERO + 1, CR, LF];
    n := FormatConstant([COLON, ZERO + 1, CR, LF], reply);
  }

  method Format0(reply: ReplyBuffer) returns (n: nat)
    requires Room(reply, IntReply(0))
    modifies reply
    ensures Appended(reply, IntReply(0), n)
  {
    assert IntReply(0) == [COLON, ZERO, CR, LF];
    n := FormatConstant([COLON, ZERO, CR, LF], reply);
  }

  /** The replies with a fixed text. */
  method FormatConstant(text: Bytes, reply: ReplyBuffer) returns (n: nat)
    requires Room(reply, text)
    modifies reply
    ensures Appended(reply, text, n)
  {
    var oldSize := reply.ReadableSize();
    var _ := reply.PushData(text);
    n := reply.ReadableSize() - oldSize;
  }
}
