/** What clients see: laws between the commands of a run and the replies they get, whatever the store held before. */
module CommandLaws {
  import opened ByteStrings
  import opened RespRequests
  import opened RespFormat
  import opened YStrings
  import opened Keyspace
  import opened KeyspaceRuns

  // ---------------------------------------------------------------- short runs

  /** A command that leaves nothing to the hash tables. */
  function Do(cmd: Command): Entry {
    Entry(cmd, [])
  }

  lemma RunOfTwo(ks: Store, a: Entry, b: Entry)
    requires Enabled(ks, a.cmd, a.choice) && Enabled(Exec(ks, a.cmd, a.choice).store, b.cmd, b.choice)
    ensures ValidRun(ks, [a, b])
    ensures var e := Exec(ks, a.cmd, a.choice);
            var f := Exec(e.store, b.cmd, b.choice);
            RunReplies(ks, [a, b]) == [e.reply, f.reply] && RunStore(ks, [a, b]) == f.store
  {
    hide Exec, Enabled;
    assert [a, b] == [a] + [b] && [b] == [b] + [];
    RunCons(ks, a, [b]);
    RunCons(Exec(ks, a.cmd, a.choice).store, b, []);
  }

  lemma RunOfThree(ks: Store, a: Entry, b: Entry, c: Entry)
    requires Enabled(ks, a.cmd, a.choice) && Enabled(Exec(ks, a.cmd, a.choice).store, b.cmd, b.choice)
    requires Enabled(Exec(Exec(ks, a.cmd, a.choice).store, b.cmd, b.choice).store, c.cmd, c.choice)
    ensures ValidRun(ks, [a, b, c])
    ensures var e := Exec(ks, a.cmd, a.choice);
            var f := Exec(e.store, b.cmd, b.choice);
            var g := Exec(f.store, c.cmd, c.choice);
            RunReplies(ks, [a, b, c]) == [e.reply, f.reply, g.reply] && RunStore(ks, [a, b, c]) == g.store
  {
    hide Exec, Enabled;
    assert [a, b, c] == [a] + [b, c];
    RunOfTwo(Exec(ks, a.cmd, a.choice).store, b, c);
    RunCons(ks, a, [b, c]);
  }

  // ---------------------------------------------------------------- strings

  /** SET, then GET: whatever the key held, the reply is the text, or the decimal of the integer it is taken for. */
  lemma SetThenGet(ks: Store, key: Bytes, v: Bytes)
    ensures var log := [Do(Set(key, v)), Do(Get(key))];
            && ValidRun(ks, log)
            && RunReplies(ks, log) == [Ascii("+OK\r\n"), Bulk(Normalise(v))]
            && (forall k | k in RunStore(ks, log) :: k == key || k in ks)
            && (forall k | k in ks && k != key :: k in RunStore(ks, log) && RunStore(ks, log)[k] == ks[k])
  {
    hide Bulk, Normalise, StringToLong;
    SmallReplies();
    RunOfTwo(ks, Do(Set(key, v)), Do(Get(key)));
  }

  /** A second SET wins over the first, so GET returns what was set last. */
  lemma LastSetWins(ks: Store, key: Bytes, v: Bytes, w: Bytes)
    ensures var log := [Do(Set(key, v)), Do(Set(key, w)), Do(Get(key))];
            ValidRun(ks, log) && RunReplies(ks, log) == [Ascii("+OK\r\n"), Ascii("+OK\r\n"), Bulk(Normalise(w))]
  {
    hide Bulk, Normalise, StringToLong;
    SmallReplies();
    RunOfThree(ks, Do(Set(key, v)), Do(Set(key, w)), Do(Get(key)));
  }

  /** SETNX, then GET: 0 and the old text when the key was there, 1 and the new one when it was not. */
  lemma SetNxThenGet(ks: Store, key: Bytes, v: Bytes)
    ensures var log := [Do(SetNx(key, v)), Do(Get(key))];
            && ValidRun(ks, log)
            && (key !in ks ==> RunReplies(ks, log) == [Ascii(":1\r\n"), Bulk(Normalise(v))])
            && (key in ks && ks[key].Type() == StringType ==>
                  RunReplies(ks, log) == [Ascii(":0\r\n"), Bulk(ks[key].Text())])
            && (key in ks ==> RunReplies(ks, log)[0] == Ascii(":0\r\n") && RunStore(ks, log) == ks)
  {
    hide Bulk, Normalise, StringToLong;
    RunOfTwo(ks, Do(SetNx(key, v)), Do(Get(key)));
    SmallReplies();
  }

  lemma SmallReplies()
    ensures IntReply(0) == Ascii(":0\r\n") && IntReply(1) == Ascii(":1\r\n") && OK_REPLY == Ascii("+OK\r\n")
  {
  }

  // ---------------------------------------------------------------- lists

  /** The values of a push as they stand in the list afterwards. */
  function AfterPush(items: seq<Bytes>, values: seq<Bytes>, pos: ListPosition): seq<Bytes> {
    if pos == Head then seq(|values|, i requires 0 <= i < |values| => values[|values| - 1 - i]) + items
    else items + values
  }

  lemma PushedIsAfterPush(items: seq<Bytes>, values: seq<Bytes>, pos: ListPosition)
    ensures Pushed(items, values, pos) == AfterPush(items, values, pos)
  {
  }

  lemma WholeRange(items: seq<Bytes>)
    ensures RedisRange(items, 0, -1) == items
  {
    AdjustedSliceIsRedisRange(items, 0, -1);
  }

  lemma IndexTexts()
    ensures StringToLong(Dec(0)) == Some(0) && StringToLong(Dec(-1)) == Some(-1)
  {
    StringToLongOfDec(0);
    StringToLongOfDec(-1);
  }

  /** A push that is allowed, then LRANGE 0 -1 and LLEN: the push and LLEN reply the number of strings that LRANGE
      sends, and these are the old items with the new ones in front, last one first, or behind, in their order. */
  lemma PushThenRangeAndLength(ks: Store, key: Bytes, values: seq<Bytes>, pos: ListPosition, create: bool)
    requires if key in ks then ks[key].ListV? else create
    ensures var log := [Do(Push(key, values, pos, create)), Do(LRange(key, Dec(0), Dec(-1))), Do(LLen(key))];
            var all := AfterPush(Held(ks, key), values, pos);
            ValidRun(ks, log) && RunReplies(ks, log) == [IntReply(|all|), Encode(all), IntReply(|all|)]
  {
    hide Encode, StringToLong, IntReply, RedisRange, Pushed, Dec;
    PushedIsAfterPush(Held(ks, key), values, pos);
    PushedIsAfterPush([], values, pos);
    IndexTexts();
    WholeRange(AfterPush(Held(ks, key), values, pos));
    RunOfThree(ks, Do(Push(key, values, pos, create)), Do(LRange(key, Dec(0), Dec(-1))), Do(LLen(key)));
  }

  /** Any two bounds within the list, counted from the head or from the tail: LRANGE sends the items between them, both
      included; a start before the list means its head, an end behind it its tail, and crossed bounds nothing. */
  lemma RangeReplies(ks: Store, key: Bytes, a: int, b: int)
    requires key in ks && ks[key].ListV? && LONG_MIN <= a <= LONG_MAX && LONG_MIN <= b <= LONG_MAX
    ensures var l, e := ks[key].items, Exec(ks, LRange(key, Dec(a), Dec(b)), []);
            && e.store == ks && e.err == ErrorOk
            && (0 <= a <= b < |l| ==> e.reply == Encode(l[a..b + 1]))
            && (-|l| <= a <= b < 0 ==> e.reply == Encode(l[|l| + a..|l| + b + 1]))
            && (0 <= a < |l| <= b ==> e.reply == Encode(l[a..]))
            && (a < -|l| && 0 <= b < |l| ==> e.reply == Encode(l[..b + 1]))
            && (0 <= b < a ==> e.reply == Encode([]))
            && (a >= |l| ==> e.reply == Encode([]))
            && (b < -|l| ==> e.reply == Encode([]))
  {
    hide Encode, StringToLong, RedisRange, Dec;
    StringToLongOfDec(a);
    StringToLongOfDec(b);
    var l := ks[key].items;
    AdjustedSliceIsRedisRange(l, a, b);
    assert 0 <= a < |l| ==> l[a..] == l[a..|l|];
  }

  function Pops(key: Bytes, pos: ListPosition, n: nat): (log: seq<Entry>)
    ensures |log| == n
  {
    seq(n, _ => Do(Pop(key, pos)))
  }

  function EachBulk(xs: seq<Bytes>): (r: seq<Bytes>)
    ensures |r| == |xs|
  {
    seq(|xs|, i requires 0 <= i < |xs| => Bulk(xs[i]))
  }

  function Backwards(xs: seq<Bytes>): (r: seq<Bytes>)
    ensures |r| == |xs|
  {
    seq(|xs|, i requires 0 <= i < |xs| => xs[|xs| - 1 - i])
  }

  lemma PopOne(ks: Store, key: Bytes, pos: ListPosition)
    requires Held(ks, key) != []
    ensures Enabled(ks, Pop(key, pos), [])
    ensures var e, l := Exec(ks, Pop(key, pos), []), Held(ks, key);
            && (pos == Head ==> e.reply == Bulk(l[0]) && e.store == WithList(ks, key, l[1..]))
            && (pos == Tail ==> e.reply == Bulk(l[|l| - 1]) && e.store == WithList(ks, key, l[..|l| - 1]))
  {
    hide Bulk;
  }

  lemma WithListTwice(ks: Store, key: Bytes, l: seq<Bytes>, m: seq<Bytes>)
    ensures WithList(WithList(ks, key, l), key, m) == WithList(ks, key, m) && Held(WithList(ks, key, l), key) == l
  {
  }

  /** Some LPOPs on a list: the replies are its first items as bulk strings, in order; the rest stays, and an empty list
      loses its key. */
  lemma {:induction false} PopsAtHead(ks: Store, key: Bytes, n: nat)
    requires 0 < n <= |Held(ks, key)|
    ensures ValidRun(ks, Pops(key, Head, n))
    ensures RunReplies(ks, Pops(key, Head, n)) == EachBulk(Held(ks, key)[..n])
    ensures RunStore(ks, Pops(key, Head, n)) == WithList(ks, key, Held(ks, key)[n..])
    decreases n
  {
    hide Exec, Enabled, Bulk, WithList, Held;
    var l := Held(ks, key);
    PopOne(ks, key, Head);
    var e := Exec(ks, Pop(key, Head), []);
    WithListTwice(ks, key, l[1..], l[n..]);
    assert Pops(key, Head, n) == [Do(Pop(key, Head))] + Pops(key, Head, n - 1);
    RunCons(ks, Do(Pop(key, Head)), Pops(key, Head, n - 1));
    if n > 1 {
      PopsAtHead(e.store, key, n - 1);
      assert l[1..][n - 1..] == l[n..] && l[1..][..n - 1] == l[1..n];
    }
    assert EachBulk(l[..n]) == [Bulk(l[0])] + EachBulk(l[1..n]);
  }

  /** Some RPOPs: the last items, last one first. */
  lemma {:induction false} PopsAtTail(ks: Store, key: Bytes, n: nat)
    requires 0 < n <= |Held(ks, key)|
    ensures ValidRun(ks, Pops(key, Tail, n))
    ensures var l := Held(ks, key); RunReplies(ks, Pops(key, Tail, n)) == EachBulk(Backwards(l[|l| - n..]))
    ensures var l := Held(ks, key); RunStore(ks, Pops(key, Tail, n)) == WithList(ks, key, l[..|l| - n])
    decreases n
  {
    hide Exec, Enabled, Bulk, WithList, Held;
    var l := Held(ks, key);
    var m := |l| - n;
    PopOne(ks, key, Tail);
    var e, front := Exec(ks, Pop(key, Tail), []), l[..|l| - 1];
    WithListTwice(ks, key, front, l[..m]);
    assert Pops(key, Tail, n) == [Do(Pop(key, Tail))] + Pops(key, Tail, n - 1);
    RunCons(ks, Do(Pop(key, Tail)), Pops(key, Tail, n - 1));
    if n > 1 {
      PopsAtTail(e.store, key, n - 1);
      assert front[..m] == l[..m] && front[m..] == l[m..|l| - 1];
    }
    assert EachBulk(Backwards(l[m..])) == [Bulk(l[|l| - 1])] + EachBulk(Backwards(l[m..|l| - 1]));
  }

  /** LPUSH of some values, then as many LPOPs: the replies are the new length and the values as bulk strings, last one
      first, and the store is what it was. */
  lemma PushedThenPoppedAtHead(ks: Store, key: Bytes, values: seq<Bytes>)
    requires values != [] && (key in ks ==> ks[key].ListV? && ks[key].items != [])
    ensures var log := [Do(Push(key, values, Head, true))] + Pops(key, Head, |values|);
            && ValidRun(ks, log)
            && RunReplies(ks, log) == [IntReply(|Held(ks, key)| + |values|)] + EachBulk(Backwards(values))
            && RunStore(ks, log) == ks
  {
    hide Bulk, IntReply, Exec, Enabled;
    var push, before := Do(Push(key, values, Head, true)), Held(ks, key);
    HeadPush(ks, key, values);
    var ks1 := Exec(ks, push.cmd, []).store;
    RunCons(ks, push, Pops(key, Head, |values|));
    PopsAtHead(ks1, key, |values|);
    assert (Backwards(values) + before)[..|values|] == Backwards(values);
    assert (Backwards(values) + before)[|values|..] == before;
  }

  lemma HeadPush(ks: Store, key: Bytes, values: seq<Bytes>)
    requires values != [] && (key in ks ==> ks[key].ListV? && ks[key].items != [])
    ensures Enabled(ks, Push(key, values, Head, true), [])
    ensures var e := Exec(ks, Push(key, values, Head, true), []);
            && e.reply == IntReply(|Held(ks, key)| + |values|)
            && Held(e.store, key) == Backwards(values) + Held(ks, key)
            && WithList(e.store, key, Held(ks, key)) == ks
  {
    hide IntReply;
    PushedIsAfterPush(Held(ks, key), values, Head);
    PushedIsAfterPush([], values, Head);
    assert Backwards(values) + [] == Backwards(values);
  }

  /** LPUSH of some values into a new list, then as many RPOPs: the values come back as bulk strings in the order given,
      and the key is gone. */
  lemma PushedAtHeadPoppedAtTail(ks: Store, key: Bytes, values: seq<Bytes>)
    requires values != [] && key !in ks
    ensures var log := [Do(Push(key, values, Head, true))] + Pops(key, Tail, |values|);
            && ValidRun(ks, log)
            && RunReplies(ks, log) == [IntReply(|values|)] + EachBulk(values)
            && RunStore(ks, log) == ks
  {
    hide Bulk, IntReply, Exec, Enabled;
    var push := Do(Push(key, values, Head, true));
    HeadPush(ks, key, values);
    var ks1 := Exec(ks, push.cmd, []).store;
    RunCons(ks, push, Pops(key, Tail, |values|));
    var l := Held(ks1, key);
    assert l == Backwards(values);
    PopsAtTail(ks1, key, |values|);
    assert l[0..] == l && Backwards(l) == values && l[..0] == [];
  }

  // ---------------------------------------------------------------- sets

  /** SADD, then SCARD and SMEMBERS: SADD replies by how much the set grew, SCARD the number of strings SMEMBERS
      sends, and these are the old members and the values, each once. On a new key both numbers are that of the
      distinct values. */
  lemma SAddThenCardAndMembers(ks: Store, key: Bytes, values: seq<Bytes>, order: seq<Bytes>)
    requires key in ks ==> ks[key].SetV?
    requires Enumerates(order, SetAt(ks, key) + ToSet(values))
    ensures var log := [Do(SAdd(key, values)), Do(SCard(key)), Entry(SMembers(key), order)];
            && ValidRun(ks, log)
            && RunReplies(ks, log) == [IntReply(|order| - |SetAt(ks, key)|), IntReply(|order|), Encode(order)]
            && (key !in ks ==> RunReplies(ks, log)[0] == RunReplies(ks, log)[1] == IntReply(|ToSet(values)|))
  {
    hide Encode, IntReply, Enumerates, Exec;
    var all := SetAt(ks, key) + ToSet(values);
    OrderLength(order, all);
    AddedTo(ks, key, values);
    var ks1 := ks[key := SetV(all)];
    SetReports(ks1, key, order);
    RunOfThree(ks, Do(SAdd(key, values)), Do(SCard(key)), Entry(SMembers(key), order));
  }

  lemma AddedTo(ks: Store, key: Bytes, values: seq<Bytes>)
    requires key in ks ==> ks[key].SetV?
    ensures var all := SetAt(ks, key) + ToSet(values);
            Exec(ks, SAdd(key, values), []) == Effect(ks[key := SetV(all)], ErrorOk, IntReply(|all| - |SetAt(ks, key)|))
    ensures key !in ks ==> SetAt(ks, key) + ToSet(values) == ToSet(values)
  {
    hide IntReply;
    assert {} + ToSet(values) == ToSet(values);
  }

  lemma SetReports(ks: Store, key: Bytes, order: seq<Bytes>)
    requires key in ks && ks[key].SetV? && Enumerates(order, ks[key].members)
    ensures Enabled(ks, SMembers(key), order)
    ensures Exec(ks, SCard(key), []) == Effect(ks, ErrorOk, IntReply(|ks[key].members|))
    ensures Exec(ks, SMembers(key), order) == Effect(ks, ErrorOk, Encode(order))
  {
    hide IntReply, Encode, Enumerates;
  }

  lemma {:induction false} OrderLength(order: seq<Bytes>, s: set<Bytes>)
    requires Enumerates(order, s)
    ensures |order| == |s|
    decreases |order|
  {
    if order == [] {
      assert s == {};
    } else {
      var n := |order| - 1;
      var rest := s - {order[n]};
      forall x | x in rest ensures x in order[..n] {
        var i :| 0 <= i < |order| && order[i] == x;
        assert order[..n][i] == x;
      }
      OrderLength(order[..n], rest);
    }
  }

  /** SPOP on a set: the reply is some member, which the set then lacks; the last one takes the key with it, and what is
      left is what SMEMBERS sends next. */
  lemma SPopTakesOne(ks: Store, key: Bytes, choice: seq<Bytes>)
    requires key in ks && ks[key].SetV? && ks[key].members != {} && Enabled(ks, SPop(key), choice)
    ensures var e, s := Exec(ks, SPop(key), choice), ks[key].members;
            exists m | m in s ::
              && e.reply == Bulk(m) && e.err == ErrorOk
              && (s == {m} ==> e.store == ks - {key})
              && (s != {m} ==> e.store == ks[key := SetV(s - {m})])
  {
    hide Bulk;
    var m := choice[0];
    assert m in ks[key].members;
    assert ks[key].members - {m} == {} <==> ks[key].members == {m};
  }

  // ---------------------------------------------------------------- keys that are missing or of another type

  /** What each command replies, and answers, when its key is not there; the store stays, unless the command creates. */
  lemma MissingKeyReplies(ks: Store, key: Bytes, values: seq<Bytes>, pos: ListPosition, a: Bytes, b: Bytes)
    requires key !in ks
    ensures Exec(ks, Get(key), []) == Effect(ks, ErrorNotExist, Ascii("$-1\r\n"))
    ensures Exec(ks, Push(key, values, pos, false), []) == Effect(ks, ErrorNotExist, Ascii("-ERR no such key\r\n"))
    ensures Exec(ks, Pop(key, pos), []) == Effect(ks, ErrorNotExist, [])
    ensures Exec(ks, LLen(key), []) == Effect(ks, ErrorNotExist, Ascii(":0\r\n"))
    ensures Exec(ks, LRange(key, a, b), []) == Effect(ks, ErrorNotExist, [])
  {
    hide IntReply, StringToLong;
    SmallReplies();
    assert NULL_BULK == Ascii("$-1\r\n");
  }

  lemma MissingSetReplies(ks: Store, key: Bytes, choice: seq<Bytes>)
    requires key !in ks
    ensures Exec(ks, SCard(key), []) == Effect(ks, ErrorType, Ascii("$-1\r\n-ERR error type"))
    ensures Exec(ks, SMembers(key), choice) == Effect(ks, ErrorType, Ascii("$-1\r\n-ERR error type"))
    ensures Exec(ks, SPop(key), choice) == Effect(ks, ErrorType, Ascii("$-1\r\n-ERR error type"))
  {
    hide IntReply, Encode, Bulk, ToSet, Enumerates, Ascii;
    NoSetText();
  }

  lemma NoSetText()
    ensures NULL_BULK + WRONG_TYPE == Ascii("$-1\r\n-ERR error type")
  {
  }

  /** ... and when it holds a value of another type: the store stays in any case. */
  lemma WrongTypeReplies(ks: Store, cmd: Command, choice: seq<Bytes>)
    requires HasKey(cmd) && cmd.key in ks && TypeOf(cmd) != InvalidType && ks[cmd.key].Type() != TypeOf(cmd)
    requires Enabled(ks, cmd, choice)
    ensures var e := Exec(ks, cmd, choice);
            && e.store == ks && e.err == ErrorType
            && (cmd.Get? || cmd.Push? ==> e.reply == Ascii("-ERR no such key\r\n"))
            && (cmd.Pop? || cmd.LRange? ==> e.reply == [])
            && (cmd.LLen? ==> e.reply == Ascii("-ERR Unknown command\r\n"))
            && (cmd.SAdd? || cmd.SCard? || cmd.SMembers? || cmd.SPop? ==>
                  e.reply == Ascii("-ERR error type") + Ascii("-ERR error type"))
  {
  }

  /** LRANGE with a bound that is no integer sends nothing; a command that is not known is told so. */
  lemma OddReplies(ks: Store, key: Bytes, a: Bytes, b: Bytes)
    ensures Exec(ks, Unknown, []) == Effect(ks, ErrorOk, Ascii("-ERR Unknown command\r\n"))
    ensures key in ks && ks[key].ListV? && (StringToLong(a).None? || StringToLong(b).None?) ==>
              Exec(ks, LRange(key, a, b), []) == Effect(ks, ErrorOk, [])
  {
  }

  /** When a command answers ok: SET and SETNX always, the others when their key holds what they work on, or is
      missing and they create it; SPOP also needs a member. */
  lemma AnswersOkIff(ks: Store, cmd: Command, choice: seq<Bytes>)
    requires Enabled(ks, cmd, choice)
    ensures Exec(ks, cmd, choice).err == ErrorOk
            <==> || cmd.Set? || cmd.SetNx? || cmd.Unknown?
                 || (cmd.key in ks && ks[cmd.key].Type() == TypeOf(cmd) && (cmd.SPop? ==> ks[cmd.key] != SetV({})))
                 || (cmd.key !in ks && (cmd.SAdd? || (cmd.Push? && cmd.createIfNotExist)))
  {
  }
}
