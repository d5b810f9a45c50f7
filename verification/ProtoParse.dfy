/** The parser object of the session, proved against the specification in RespParser. */
module ProtoParse {
  import opened ByteStrings
  import opened RespParser

  lemma SlotWritten<T>(a: seq<T>, b: seq<T>, n: nat)
    requires n < |a| == |b| && forall i :: 0 <= i < |a| && i != n ==> b[i] == a[i]
    ensures b[..n] == a[..n] && b[..n + 1] == a[..n] + [b[n]]
  {
  }

  /** A result code, a position and a value read, as the result type of the specification. */
  function AsIntResult(res: YParseResult, pos: nat, val: int): IntResult {
    match res
    case Ok => IntOk(val, pos)
    case Wait => IntWait
    case _ => IntError
  }

  class YProtoParse {
    var m_nMulti: int
    var m_nParamLen: int
    var m_nNumOfParam: nat
    var m_vecParams: seq<Bytes>

    ghost predicate Valid()
      reads this
    {
      m_nNumOfParam <= |m_vecParams|
    }

    /** Strings kept beyond `m_nNumOfParam` are stale and not part of the state. */
    ghost function View(): Progress
      reads this
      requires Valid()
    {
      Progress(m_nMulti, m_nParamLen, m_vecParams[..m_nNumOfParam])
    }

    constructor ()
      ensures Valid() && View() == INITIAL
    {
      m_nMulti := -1;
      m_nParamLen := -1;
      m_nNumOfParam := 0;
      m_vecParams := [];
    }

    /** Back to the initial state, whatever the parser was doing; up to three strings stay allocated. */
    method Reset()
      modifies this
      ensures Valid() && View() == INITIAL
      ensures m_vecParams == if |old(m_vecParams)| > 3 then old(m_vecParams)[..3] else old(m_vecParams)
    {
      m_nMulti := -1;
      m_nParamLen := -1;
      m_nNumOfParam := 0;
      while |m_vecParams| > 3
        invariant m_nMulti == -1 && m_nParamLen == -1 && m_nNumOfParam == 0
        invariant m_vecParams <= old(m_vecParams)
        invariant |m_vecParams| >= 3 || m_vecParams == old(m_vecParams)
      {
        m_vecParams := m_vecParams[..|m_vecParams| - 1];
      }
    }

    /** The caller passes the bytes from `ptr` on as `s[ptr..]`; `ptr2` is the position left behind. */
    static method GetIntUntilCRLF(s: Bytes, ptr: nat) returns (res: YParseResult, ptr2: nat, val: int)
      requires ptr <= |s|
      ensures res != Overrun
      ensures AsIntResult(res, ptr2, val) == RespParser.GetInt(s, ptr)
      ensures res != Ok ==> ptr2 == ptr
    {
      hide Wrap32, AddDigit;
      val := 0;
      if |s| - ptr < 3 {
        return Wait, ptr, val;
      }
      var i := ptr;
      var negative := false;
      if s[ptr] == MINUS {
        negative := true;
        i := i + 1;
      } else if s[ptr] == PLUS {
        i := i + 1;
      }
      ghost var first, stop := i, DigitsEnd(s, i);
      assert first == ptr + SignLength(s, ptr);
      var value := 0;
      while i < |s|
        invariant first <= i <= stop
        invariant value == Accumulate(s, first, i)
      {
        if IsDigit(s[i]) {
          value := AddDigit(value, s[i]);
        } else {
          if s[i] != CR || (i + 1 < |s| && s[i + 1] != LF) {
            return Error, ptr, val;
          }
          if i + 1 == |s| {
            return Wait, ptr, val;
          }
          break;
        }
        i := i + 1;
      }
      if negative {
        value := Wrap32(-value);
      }
      return Ok, i + 2, value;
    }

    method ParseRequest(s: Bytes, ptr: nat) returns (res: YParseResult, ptr2: nat)
      requires Valid() && Live(View())
      modifies this
      ensures Valid()
      ensures Outcome(res, View(), ptr2) == RespParser.ParseRequest(old(View()), s, ptr)
      ensures res == Ok ==> m_vecParams == View().params
    {
      ptr2 := ptr;
      if m_nMulti == -1 {
        var ret;
        ret, ptr2 := ParseMulti(s, ptr2);
        if ret == Error || m_nMulti < -1 {
          return Error, ptr2;
        }
        if ret != Ok {
          return Wait, ptr2;
        }
      }
      res, ptr2 := ParseStrlist(s, ptr2);
    }

    /** Reads the header; the position stays behind the star also when the number is not complete. */
    method ParseMulti(s: Bytes, ptr: nat) returns (res: YParseResult, ptr2: nat)
      requires Valid() && m_nMulti == -1
      modifies this`m_nMulti
      ensures res != Overrun
      ensures |s| - ptr < 3 ==> res == Wait && ptr2 == ptr && m_nMulti == -1
      ensures |s| - ptr >= 3 && s[ptr] != STAR ==> res == Error && ptr2 == ptr && m_nMulti == -1
      ensures |s| - ptr >= 3 && s[ptr] == STAR ==>
                AsIntResult(res, ptr2, m_nMulti) == RespParser.GetInt(s, ptr + 1)
                && (res != Ok ==> ptr2 == ptr + 1 && m_nMulti == -1)
    {
      ptr2 := ptr;
      if |s| - ptr2 < 3 {
        return Wait, ptr2;
      }
      if s[ptr2] != STAR {
        return Error, ptr2;
      }
      ptr2 := ptr2 + 1;
      var v;
      res, ptr2, v := GetIntUntilCRLF(s, ptr2);
      if res == Ok {
        m_nMulti := v;
      }
    }

    method ParseStrlist(s: Bytes, ptr: nat) returns (res: YParseResult, ptr2: nat)
      requires Valid() && InRange(View())
      modifies this
      ensures Valid()
      ensures Outcome(res, View(), ptr2) == RespParser.ParseStrlist(old(View()), s, ptr)
      ensures res == Ok ==> m_vecParams == View().params
    {
      ptr2 := ptr;
      ghost var goal := RespParser.ParseStrlist(View(), s, ptr);
      while m_nNumOfParam < m_nMulti
        invariant Valid() && InRange(View())
        invariant RespParser.ParseStrlist(View(), s, ptr2) == goal
        decreases m_nMulti - m_nNumOfParam
      {
        ghost var st, o := View(), RespParser.ParseStr(View(), s, ptr2);
        if |m_vecParams| < m_nNumOfParam + 1 {
          m_vecParams := m_vecParams + [[]];
        }
        assert View() == st;
        ghost var before := m_vecParams;
        res, ptr2 := ParseStr(s, ptr2);
        SlotWritten(before, m_vecParams, m_nNumOfParam);
        if res == Ok {
          m_nNumOfParam := m_nNumOfParam + 1;
        } else {
          return;
        }
        assert View() == o.st;
      }
      m_vecParams := m_vecParams[..m_nNumOfParam];
      res := Ok;
    }

    /** Parses into slot `m_nNumOfParam`; the caller counts the parameter. */
    method ParseStr(s: Bytes, ptr: nat) returns (res: YParseResult, ptr2: nat)
      requires Valid() && InRange(View()) && m_nNumOfParam < |m_vecParams|
      modifies this`m_nParamLen, this`m_vecParams
      ensures |m_vecParams| == |old(m_vecParams)|
      ensures forall i :: 0 <= i < |m_vecParams| && i != m_nNumOfParam ==> m_vecParams[i] == old(m_vecParams)[i]
      ensures var o := RespParser.ParseStr(old(View()), s, ptr);
              res == o.res && ptr2 == o.pos && m_nParamLen == o.st.paramLen
              && (res == Ok ==> o.st.params == old(View()).params + [m_vecParams[m_nNumOfParam]])
              && (res != Ok ==> m_vecParams == old(m_vecParams))
    {
      ptr2 := ptr;
      if m_nParamLen == -1 {
        var len;
        res, ptr2, len := ParseStrlen(s, ptr2);
        if res == Ok {
          m_nParamLen := len;
        }
        if res == Error || m_nParamLen < -1 {
          return Error, ptr2;
        }
        if res != Ok {
          return Wait, ptr2;
        }
      }
      if m_nParamLen == -1 {
        m_vecParams := m_vecParams[m_nNumOfParam := []];
        res := Ok;
      } else {
        res, ptr2 := ParseStrval(s, ptr2);
      }
    }

    /** Reads the body; where the source would read behind the buffer, the answer is Overrun. */
    method ParseStrval(s: Bytes, ptr: nat) returns (res: YParseResult, ptr2: nat)
      requires m_nParamLen >= 0 && m_nNumOfParam < |m_vecParams|
      modifies this`m_nParamLen, this`m_vecParams
      ensures |m_vecParams| == |old(m_vecParams)|
      ensures var o := RespParser.ParseStrval(old(View()), s, ptr);
              res == o.res && ptr2 == o.pos && m_nParamLen == o.st.paramLen
              && (res == Ok ==> o.st.params == old(View()).params + [m_vecParams[m_nNumOfParam]])
              && (res != Ok ==> m_vecParams == old(m_vecParams))
      ensures forall i :: 0 <= i < |m_vecParams| && i != m_nNumOfParam ==> m_vecParams[i] == old(m_vecParams)[i]
    {
      if Wrap32(|s| - ptr) < Wrap32(m_nParamLen + 2) {
        return Wait, ptr;
      }
      var tail := ptr + m_nParamLen;
      if tail >= |s| {
        return Overrun, ptr;
      }
      if s[tail] != CR {
        return Error, ptr;
      }
      if tail + 1 == |s| {
        return Overrun, ptr;
      }
      if s[tail + 1] != LF {
        return Error, ptr;
      }
      m_vecParams := m_vecParams[m_nNumOfParam := s[ptr..tail]];
      m_nParamLen := -1;
      return Ok, tail + 2;
    }

    /** Reads a length line; unlike the header, it steps back over the dollar when the number is not complete. */
    static method ParseStrlen(s: Bytes, ptr: nat) returns (res: YParseResult, ptr2: nat, len: int)
      ensures res != Overrun
      ensures AsIntResult(res, ptr2, len) == RespParser.PrefixedInt(s, ptr, DOLLAR)
      ensures res != Ok ==> ptr2 == ptr
    {
      ptr2 := ptr;
      len := -1;
      if |s| - ptr2 < 3 {
        return Wait, ptr2, len;
      }
      if s[ptr2] != DOLLAR {
        return Error, ptr2, len;
      }
      ptr2 := ptr2 + 1;
      res, ptr2, len := GetIntUntilCRLF(s, ptr2);
      if res != Ok {
        ptr2 := ptr2 - 1;
      }
    }
  }
}
