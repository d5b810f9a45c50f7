/** The resumable request parser as functions on abstract parser states; ProtoParse holds the object that implements
    them. */
module RespParser {
  import opened ByteStrings

  /** The answers of the source, and `Overrun`, which is none of them: it stands for a read behind the buffer. */
  datatype YParseResult = Ok | Wait | Error | Overrun

  /** What the parser remembers between calls: the announced number of parameters (-1 before the
      header is read), the announced length of the next one (-1 before it is read), and the parameters read. */
  datatype Progress = Progress(multi: int, paramLen: int, params: seq<Bytes>)

  const INITIAL := Progress(-1, -1, [])

  /** The two numbers are an `int`, and announce something or are -1. */
  predicate InRange(st: Progress) {
    -1 <= st.multi <= INT_MAX && -1 <= st.paramLen <= INT_MAX
  }

  /** The parser may be called in this state: no earlier call answered Error. Before the header nothing else is read. */
  predicate Live(st: Progress) {
    InRange(st) && (st.multi == -1 ==> st == INITIAL)
  }

  datatype Outcome = Outcome(res: YParseResult, st: Progress, pos: nat)

  // ---------------------------------------------------------------- integers up to CR LF

  const INT_MAX: int := 0x7fff_ffff

  /** A 32-bit two's complement `int`. */
  function Wrap32(x: int): (v: int)
    ensures -INT_MAX - 1 <= v <= INT_MAX
  {
    if -0x8000_0000 <= x <= INT_MAX then x else (x + 0x8000_0000) % 0x1_0000_0000 - 0x8000_0000
  }

  /** One round of the digit loop. */
  function AddDigit(v: int, c: byte): (w: int)
    ensures -INT_MAX - 1 <= w <= INT_MAX
  {
    Wrap32(Wrap32(v * 10) + (c - ZERO))
  }

  /** The first position at or after `i` that holds no digit. */
  function DigitsEnd(s: Bytes, i: nat): (j: nat)
    requires i <= |s|
    ensures i <= j <= |s|
    ensures forall k :: i <= k < j ==> IsDigit(s[k])
    ensures j < |s| ==> !IsDigit(s[j])
    decreases |s| - i
  {
    if i < |s| && IsDigit(s[i]) then DigitsEnd(s, i + 1) else i
  }

  /** The value the digit loop holds after reading `s[i..j]`. */
  function Accumulate(s: Bytes, i: nat, j: nat): (v: int)
    requires i <= j <= |s| && forall k :: i <= k < j ==> IsDigit(s[k])
    ensures -INT_MAX - 1 <= v <= INT_MAX
    decreases j
  {
    if i == j then 0 else AddDigit(Accumulate(s, i, j - 1), s[j - 1])
  }

  function SignLength(s: Bytes, q: nat): (n: nat)
    ensures n <= 1 && (n == 0 || q + n <= |s|)
  {
    if q < |s| && (s[q] == MINUS || s[q] == PLUS) then 1 else 0
  }

  /** What follows position `q`: a number and CR LF, a byte that cannot belong to one, a CR whose LF is
      not there yet, or digits up to the end of the buffer. */
  datatype Scan = Line(value: int, cr: nat) | Malformed | NeedLf | DigitsRunOut(value: int)

  function ScanInt(s: Bytes, q: nat): (r: Scan)
    requires q <= |s|
    ensures r.Line? ==> q <= r.cr && r.cr + 2 <= |s|
    ensures r.Line? || r.DigitsRunOut? ==> -INT_MAX - 1 <= r.value <= INT_MAX
  {
    var i := q + SignLength(s, q);
    var j := DigitsEnd(s, i);
    var v := Accumulate(s, i, j);
    var value := if q < |s| && s[q] == MINUS then Wrap32(-v) else v;
    if j == |s| then DigitsRunOut(value)
    else if s[j] != CR || (j + 1 < |s| && s[j + 1] != LF) then Malformed
    else if j + 1 == |s| then NeedLf
    else Line(value, j)
  }

  /** The result of `getIntUntilCRLF`; when the digits run out, the position passes the end of the buffer. */
  datatype IntResult = IntOk(value: int, pos: nat) | IntWait | IntError

  function GetInt(s: Bytes, q: nat): (r: IntResult)
    requires q <= |s|
    ensures r.IntOk? ==> r.pos >= q + 2 && -INT_MAX - 1 <= r.value <= INT_MAX
  {
    if |s| - q < 3 then IntWait
    else match ScanInt(s, q)
      case Malformed => IntError
      case NeedLf => IntWait
      case DigitsRunOut(v) => IntOk(v, |s| + 2)
      case Line(v, cr) => IntOk(v, cr + 2)
  }

  /** A type byte, then a number and CR LF. */
  function PrefixedInt(s: Bytes, p: nat, tag: byte): IntResult {
    if |s| - p < 3 then IntWait
    else if s[p] != tag then IntError
    else GetInt(s, p + 1)
  }

  // ---------------------------------------------------------------- strings and requests

  /** The guard of the body compares in `int`: the distance to the end is cast, and the two bytes of CR LF are added. */
  predicate BodyMissing(s: Bytes, p: nat, len: int) {
    Wrap32(|s| - p) < Wrap32(len + 2)
  }

  function ParseStrval(st: Progress, s: Bytes, p: nat): (o: Outcome)
    requires st.paramLen >= 0
    ensures o.pos >= p && (InRange(st) ==> InRange(o.st))
  {
    var tail := p + st.paramLen;
    if BodyMissing(s, p, st.paramLen) then Outcome(Wait, st, p)
    else if tail >= |s| then Outcome(Overrun, st, p)
    else if s[tail] != CR then Outcome(Error, st, p)
    else if tail + 1 == |s| then Outcome(Overrun, st, p)
    else if s[tail + 1] != LF then Outcome(Error, st, p)
    else Outcome(Ok, Progress(st.multi, -1, st.params + [s[p..tail]]), tail + 2)
  }

  function ParseStr(st: Progress, s: Bytes, p: nat): (o: Outcome)
    requires InRange(st)
    ensures o.pos >= p && o.st.multi == st.multi
    ensures o.res == Ok ==> o.st.paramLen == -1 && |o.st.params| == |st.params| + 1
    ensures o.res != Ok ==> o.st.params == st.params
    ensures o.res == Ok || o.res == Wait ==> InRange(o.st)
  {
    if st.paramLen != -1 then ParseStrval(st, s, p)
    else match PrefixedInt(s, p, DOLLAR)
      case IntWait => Outcome(Wait, st, p)
      case IntError => Outcome(Error, st, p)
      case IntOk(len, next) =>
        if len < -1 then Outcome(Error, st.(paramLen := len), next)
        else if len == -1 then Outcome(Ok, st.(params := st.params + [[]]), next)
        else ParseStrval(st.(paramLen := len), s, next)
  }

  function ParseStrlist(st: Progress, s: Bytes, p: nat): (o: Outcome)
    requires InRange(st)
    ensures o.pos >= p && o.st.multi == st.multi
    ensures o.res == Wait ==> |o.st.params| < o.st.multi
    ensures o.res == Ok || o.res == Wait ==> InRange(o.st)
    decreases st.multi - |st.params|
  {
    if |st.params| >= st.multi then Outcome(Ok, st, p)
    else
      var o := ParseStr(st, s, p);
      if o.res == Ok then ParseStrlist(o.st, s, o.pos) else o
  }

  /** One call of the parser on buffer `s`, reading from position `p`. */
  function ParseRequest(st: Progress, s: Bytes, p: nat): (o: Outcome)
    requires Live(st)
    ensures o.pos >= p
    ensures o.res == Ok || o.res == Wait ==> Live(o.st)
  {
    if st.multi != -1 then ParseStrlist(st, s, p)
    else if |s| - p < 3 then Outcome(Wait, st, p)
    else if s[p] != STAR then Outcome(Error, st, p)
    else match GetInt(s, p + 1)
      case IntWait => Outcome(Wait, st, p + 1)
      case IntError => Outcome(Error, st, p + 1)
      case IntOk(n, next) =>
        var st1 := st.(multi := n);
        if n < -1 then Outcome(Error, st1, next) else ParseStrlist(st1, s, next)
  }
}
