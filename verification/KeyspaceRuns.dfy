/** What runs of commands keep: no empty collections, untouched keys, and the two ends of a list. */
module KeyspaceRuns {
  import opened ByteStrings
  import opened RespRequests
  import opened RespFormat
  import opened Keyspace

  // ---------------------------------------------------------------- LRANGE

  /** The source's normalisation of the two indexes. */
  function AdjustIndex(start: int, end: int, size: nat): (int, int) {
    if size == 0 then (1, 0)
    else
      var s1 := if start < 0 then start + size else start;
      var s2 := if s1 < 0 then 0 else s1;
      var e1 := if end < 0 then end + size else end;
      (s2, if e1 >= size then size - 1 else e1)
  }

  /** The slice between two adjusted indexes. */
  function Slice(items: seq<Bytes>, lo: int, hi: int): seq<Bytes>
    requires lo <= hi ==> 0 <= lo && hi < |items|
  {
    if lo > hi then [] else items[lo..hi + 1]
  }

  lemma {:induction false} SelectedIsSlice(items: seq<Bytes>, start: int, end: int, n: nat)
    requires n <= |items|
    ensures var lo := if FromTail(start, |items|) < 0 then 0 else FromTail(start, |items|);
            var hi := if FromTail(end, |items|) >= n then n - 1 else FromTail(end, |items|);
            Selected(items, start, end, n) == if lo > hi then [] else items[lo..hi + 1]
  {
    if n > 0 {
      SelectedIsSlice(items, start, end, n - 1);
    }
  }

  /** The adjusted indexes delimit exactly the items LRANGE is asked for, for all signed bounds. */
  lemma AdjustedSliceIsRedisRange(items: seq<Bytes>, start: int, end: int)
    ensures var (lo, hi) := AdjustIndex(start, end, |items|);
            (lo <= hi ==> 0 <= lo && hi < |items|) && Slice(items, lo, hi) == RedisRange(items, start, end)
  {
    SelectedIsSlice(items, start, end, |items|);
  }

  // ---------------------------------------------------------------- runs

  datatype Entry = Entry(cmd: Command, choice: seq<Bytes>)

  /** Every command of the run can run in the store its predecessors leave. */
  predicate ValidRun(ks: Store, log: seq<Entry>)
    decreases |log|
  {
    log == [] || (Enabled(ks, log[0].cmd, log[0].choice)
                  && ValidRun(Exec(ks, log[0].cmd, log[0].choice).store, log[1..]))
  }

  function RunStore(ks: Store, log: seq<Entry>): Store
    requires ValidRun(ks, log)
    decreases |log|
  {
    if log == [] then ks else RunStore(Exec(ks, log[0].cmd, log[0].choice).store, log[1..])
  }

  function RunReplies(ks: Store, log: seq<Entry>): (r: seq<Bytes>)
    requires ValidRun(ks, log)
    ensures |r| == |log|
    decreases |log|
  {
    if log == [] then []
    else
      var e := Exec(ks, log[0].cmd, log[0].choice);
      [e.reply] + RunReplies(e.store, log[1..])
  }

  lemma RunCons(ks: Store, x: Entry, rest: seq<Entry>)
    ensures ValidRun(ks, [x] + rest)
            <==> Enabled(ks, x.cmd, x.choice) && ValidRun(Exec(ks, x.cmd, x.choice).store, rest)
    ensures ValidRun(ks, [x] + rest) ==>
              var e := Exec(ks, x.cmd, x.choice);
              && RunStore(ks, [x] + rest) == RunStore(e.store, rest)
              && RunReplies(ks, [x] + rest) == [e.reply] + RunReplies(e.store, rest)
  {
    hide Exec, Enabled;
    assert ([x] + rest)[1..] == rest;
  }

  /** Runs extend at the end. */
  lemma {:induction false} RunAppend(ks: Store, log: seq<Entry>, e: Entry)
    requires ValidRun(ks, log) && Enabled(RunStore(ks, log), e.cmd, e.choice)
    ensures ValidRun(ks, log + [e])
    ensures RunStore(ks, log + [e]) == Exec(RunStore(ks, log), e.cmd, e.choice).store
    ensures RunReplies(ks, log + [e]) == RunReplies(ks, log) + [Exec(RunStore(ks, log), e.cmd, e.choice).reply]
    decreases |log|
  {
    hide Exec, Enabled;
    if log == [] {
      RunCons(ks, e, []);
      assert [] + [e] == [e] + [];
    } else {
      hide RunStore, RunReplies, ValidRun;
      var rest := log[1..];
      assert log == [log[0]] + rest && log + [e] == [log[0]] + (rest + [e]);
      RunCons(ks, log[0], rest);
      RunCons(ks, log[0], rest + [e]);
      RunAppend(Exec(ks, log[0].cmd, log[0].choice).store, rest, e);
    }
  }

  // ---------------------------------------------------------------- no empty collections

  predicate NoEmpty(ks: Store) {
    forall k | k in ks :: ks[k] != ListV([]) && ks[k] != SetV({})
  }

  /** LPUSH, RPUSH or SADD without a value, on a key that does not exist. */
  predicate CreatesEmpty(ks: Store, cmd: Command) {
    match cmd
    case Push(key, values, _, create) => create && values == [] && key !in ks
    case SAdd(key, values) => values == [] && key !in ks
    case _ => false
  }

  lemma StoreUnless(ks: Store, cmd: Command, choice: seq<Bytes>)
    requires Enabled(ks, cmd, choice)
    ensures HasKey(cmd) ==>
              forall k | k in Exec(ks, cmd, choice).store ::
                k == cmd.key || (k in ks && Exec(ks, cmd, choice).store[k] == ks[k])
    ensures !HasKey(cmd) ==> Exec(ks, cmd, choice).store == ks
  {
  }

  lemma KeyNotEmptied(ks: Store, cmd: Command, choice: seq<Bytes>)
    requires HasKey(cmd) && Enabled(ks, cmd, choice) && !CreatesEmpty(ks, cmd)
    requires cmd.key in ks ==> ks[cmd.key] != ListV([]) && ks[cmd.key] != SetV({})
    ensures var ks1 := Exec(ks, cmd, choice).store;
            cmd.key in ks1 ==> ks1[cmd.key] != ListV([]) && ks1[cmd.key] != SetV({})
  {
    hide IntReply, NoSetReply, Pushed, Reverse;
    if cmd.SAdd? && cmd.values != [] {
      assert cmd.values[0] in ToSet(cmd.values);
    }
  }

  /** The commands that leave an empty list or set behind are exactly those. */
  lemma NoEmptyKeptIff(ks: Store, cmd: Command, choice: seq<Bytes>)
    requires NoEmpty(ks) && Enabled(ks, cmd, choice)
    ensures NoEmpty(Exec(ks, cmd, choice).store) <==> !CreatesEmpty(ks, cmd)
  {
    if CreatesEmpty(ks, cmd) {
      assert ToSet([]) == {};
      assert Exec(ks, cmd, choice).store[cmd.key] == if cmd.Push? then ListV([]) else SetV({});
    } else {
      StoreUnless(ks, cmd, choice);
      if HasKey(cmd) {
        KeyNotEmptied(ks, cmd, choice);
      }
      hide Exec, Enabled;
    }
  }

  /** LPUSH without values, then LPOP: the list is there and empty, and the assertion in `pop` fails. */
  lemma AbortExample(key: Bytes)
    ensures var ks := Exec(map[], Push(key, [], Head, true), []).store;
            ks == map[key := ListV([])] && PopAborts(ks, key) && !Enabled(ks, Pop(key, Head), [])
  {
    assert Pushed([], [], Head) == [];
  }

  /** A push or SADD that may create its key carries at least one value, as the arity of these commands demands. */
  predicate CarriesValue(cmd: Command) {
    (cmd.Push? && cmd.createIfNotExist) || cmd.SAdd? ==> cmd.values != []
  }

  lemma NoEmptyAfter(ks: Store, cmd: Command, choice: seq<Bytes>)
    requires NoEmpty(ks) && CarriesValue(cmd) && Enabled(ks, cmd, choice)
    ensures NoEmpty(Exec(ks, cmd, choice).store)
  {
    NoEmptyKeptIff(ks, cmd, choice);
  }

  /** The choices of the hash table are valid in every store of the run; nothing else is asked. */
  predicate ChoicesValid(ks: Store, log: seq<Entry>)
    decreases |log|
  {
    log == [] || (ValidChoice(ks, log[0].cmd, log[0].choice)
                  && (Enabled(ks, log[0].cmd, log[0].choice) ==>
                        ChoicesValid(Exec(ks, log[0].cmd, log[0].choice).store, log[1..])))
  }

  /** In every run of commands that carry values, no list or set is ever empty, and the assertion in `pop` never
      fails. */
  lemma {:induction false} RunsNeverEmptyNorAbort(ks: Store, log: seq<Entry>)
    requires NoEmpty(ks) && ChoicesValid(ks, log) && forall i :: 0 <= i < |log| ==> CarriesValue(log[i].cmd)
    ensures ValidRun(ks, log) && NoEmpty(RunStore(ks, log))
    decreases |log|
  {
    if log != [] {
      NoEmptyKeptIff(ks, log[0].cmd, log[0].choice);
      RunsNeverEmptyNorAbort(Exec(ks, log[0].cmd, log[0].choice).store, log[1..]);
    }
  }

  lemma {:induction false} EnumerationExists(s: set<Bytes>) returns (order: seq<Bytes>)
    ensures Enumerates(order, s)
  {
    if s == {} {
      order := [];
    } else {
      var x :| x in s;
      order := EnumerationExists(s - {x});
      order := order + [x];
    }
  }

  // ---------------------------------------------------------------- what a command leaves alone

  predicate HasKey(cmd: Command) {
    !cmd.Unknown?
  }

  /** No command touches another key than its own. */
  lemma OtherKeysUntouched(ks: Store, cmd: Command, choice: seq<Bytes>, k: Bytes)
    requires Enabled(ks, cmd, choice) && (HasKey(cmd) ==> k != cmd.key)
    ensures var ks1 := Exec(ks, cmd, choice).store;
            (k in ks1 <==> k in ks) && (k in ks ==> ks1[k] == ks[k])
  {
  }

  function TypeOf(cmd: Command): YType {
    match cmd
    case Get(_) => StringType
    case Push(_, _, _, _) => ListType
    case Pop(_, _) => ListType
    case LLen(_) => ListType
    case LRange(_, _, _) => ListType
    case SAdd(_, _) => SetType
    case SCard(_) => SetType
    case SMembers(_) => SetType
    case SPop(_) => SetType
    case _ => InvalidType
  }

  /** A type changes only by SET; with a wrong type, every command that has one answers the type error and
      leaves the whole store as it was. */
  lemma WrongTypeUnchanged(ks: Store, cmd: Command, choice: seq<Bytes>)
    requires Enabled(ks, cmd, choice) && HasKey(cmd) && cmd.key in ks
    ensures TypeOf(cmd) != InvalidType && ks[cmd.key].Type() != TypeOf(cmd) ==>
              Exec(ks, cmd, choice).store == ks && Exec(ks, cmd, choice).err == ErrorType
    ensures var ks1 := Exec(ks, cmd, choice).store;
            !cmd.Set? && cmd.key in ks1 ==> ks1[cmd.key].Type() == ks[cmd.key].Type()
  {
  }

  // ---------------------------------------------------------------- the two ends of a list

  /** The list held at a key, empty when there is none. */
  function Held(ks: Store, key: Bytes): seq<Bytes> {
    if key in ks && ks[key].ListV? then ks[key].items else []
  }

  /** The store with `items` at the key, or without the key when there are none. */
  function WithList(ks: Store, key: Bytes, items: seq<Bytes>): Store {
    if items == [] then ks - {key} else ks[key := ListV(items)]
  }

  // ---------------------------------------------------------------- conservation

  /** The string in a reply that is a bulk string. */
  ghost function BulkIn(reply: Bytes): seq<Bytes> {
    if x :| reply == Bulk(x) then [x] else []
  }

  lemma BulkInIs(x: Bytes)
    ensures BulkIn(Bulk(x)) == [x] && BulkIn([]) == []
  {
    forall y | Bulk(x) == Bulk(y) ensures x == y {
      assert Bulk(x) + [] == Bulk(y) + [];
      BulkUnique(x, y, [], []);
    }
  }

  /** What a push has put into the list at `key`, when its reply is an integer. */
  function PushedBy(cmd: Command, reply: Bytes, key: Bytes): seq<Bytes> {
    if cmd.Push? && cmd.key == key && reply != [] && reply[0] == COLON then cmd.values else []
  }

  /** What a pop has sent from the list at `key`. */
  ghost function PoppedBy(cmd: Command, reply: Bytes, key: Bytes): seq<Bytes> {
    if cmd.Pop? && cmd.key == key then BulkIn(reply) else []
  }

  function RunPushed(log: seq<Entry>, replies: seq<Bytes>, key: Bytes): seq<Bytes>
    requires |log| == |replies|
    decreases |log|
  {
    if log == [] then [] else PushedBy(log[0].cmd, replies[0], key) + RunPushed(log[1..], replies[1..], key)
  }

  ghost function RunPopped(log: seq<Entry>, replies: seq<Bytes>, key: Bytes): seq<Bytes>
    requires |log| == |replies|
    decreases |log|
  {
    if log == [] then [] else PoppedBy(log[0].cmd, replies[0], key) + RunPopped(log[1..], replies[1..], key)
  }

  lemma {:induction false} MultisetReverse(s: seq<Bytes>)
    ensures multiset(Reverse(s)) == multiset(s)
  {
    if s != [] {
      MultisetReverse(s[1..]);
      assert s == [s[0]] + s[1..];
    }
  }

  lemma PushedMultiset(items: seq<Bytes>, values: seq<Bytes>, pos: ListPosition)
    ensures multiset(Pushed(items, values, pos)) == multiset(items) + multiset(values)
  {
    MultisetReverse(values);
  }

  lemma PushConserves(ks: Store, cmd: Command, choice: seq<Bytes>)
    requires cmd.Push?
    ensures var e := Exec(ks, cmd, choice);
            multiset(Held(e.store, cmd.key)) == multiset(Held(ks, cmd.key)) + multiset(PushedBy(cmd, e.reply, cmd.key))
  {
    hide Pushed, IntReply, PushEffect;
    PushedMultiset(Held(ks, cmd.key), cmd.values, cmd.pos);
    PushHolds(ks, cmd.key, cmd.values, cmd.pos, cmd.createIfNotExist);
  }

  lemma PushHolds(ks: Store, key: Bytes, values: seq<Bytes>, pos: ListPosition, create: bool)
    ensures var e, done := PushEffect(ks, key, values, pos, create),
                           ErrorAt(ks, key, ListType) == ErrorOk || (create && key !in ks);
            && Held(e.store, key) == (if done then Pushed(Held(ks, key), values, pos) else Held(ks, key))
            && (e.reply != [] && e.reply[0] == COLON <==> done)
  {
    hide Pushed;
  }

  lemma PopConserves(ks: Store, cmd: Command, choice: seq<Bytes>)
    requires cmd.Pop? && Enabled(ks, cmd, choice)
    ensures var e := Exec(ks, cmd, choice);
            multiset(Held(e.store, cmd.key)) + multiset(PoppedBy(cmd, e.reply, cmd.key)) == multiset(Held(ks, cmd.key))
  {
    hide Bulk, BulkIn;
    if ErrorAt(ks, cmd.key, ListType) == ErrorOk {
      var l := ks[cmd.key].items;
      FrontRest(l, cmd.pos);
      BulkInIs(Front(l, cmd.pos));
    } else {
      BulkInIs([]);
    }
  }

  lemma FrontRest(l: seq<Bytes>, pos: ListPosition)
    requires l != []
    ensures multiset(l) == multiset(Rest(l, pos)) + multiset([Front(l, pos)])
  {
    assert l == [l[0]] + l[1..] == l[..|l| - 1] + [l[|l| - 1]];
  }

  lemma OthersHold(ks: Store, cmd: Command, choice: seq<Bytes>, key: Bytes)
    requires Enabled(ks, cmd, choice) && !cmd.Push? && !cmd.Pop? && !(cmd.Set? && cmd.key == key)
    ensures Held(Exec(ks, cmd, choice).store, key) == Held(ks, key)
  {
    if HasKey(cmd) && cmd.key == key {
      SameHolds(ks, cmd, choice);
    } else {
      OtherKeysUntouched(ks, cmd, choice, key);
    }
    hide Exec, Enabled;
  }

  lemma SameHolds(ks: Store, cmd: Command, choice: seq<Bytes>)
    requires Enabled(ks, cmd, choice) && HasKey(cmd) && !cmd.Push? && !cmd.Pop? && !cmd.Set?
    ensures Held(Exec(ks, cmd, choice).store, cmd.key) == Held(ks, cmd.key)
  {
    hide RedisRange, PushEffect, PopEffect, ToSet, Enumerates, StoredString, NoSetReply;
  }

  lemma StepConserves(ks: Store, cmd: Command, choice: seq<Bytes>, key: Bytes)
    requires Enabled(ks, cmd, choice) && !(cmd.Set? && cmd.key == key)
    ensures var e := Exec(ks, cmd, choice);
            multiset(Held(e.store, key)) + multiset(PoppedBy(cmd, e.reply, key))
            == multiset(Held(ks, key)) + multiset(PushedBy(cmd, e.reply, key))
  {
    hide BulkIn;
    if cmd.Push? && cmd.key == key {
      PushConserves(ks, cmd, choice);
    } else if cmd.Pop? && cmd.key == key {
      PopConserves(ks, cmd, choice);
    } else if cmd.Push? || cmd.Pop? {
      OtherKeysUntouched(ks, cmd, choice, key);
    } else {
      OthersHold(ks, cmd, choice, key);
    }
    hide Exec, Enabled;
  }

  lemma BalanceChain(h0: seq<Bytes>, h1: seq<Bytes>, h2: seq<Bytes>,
                     in1: seq<Bytes>, in2: seq<Bytes>, out1: seq<Bytes>, out2: seq<Bytes>)
    requires multiset(h1) + multiset(out1) == multiset(h0) + multiset(in1)
    requires multiset(h2) + multiset(out2) == multiset(h1) + multiset(in2)
    ensures multiset(h2) + multiset(out1 + out2) == multiset(h0) + multiset(in1 + in2)
  {
    assert multiset(out1 + out2) == multiset(out1) + multiset(out2);
    assert multiset(in1 + in2) == multiset(in1) + multiset(in2);
    var a, b := multiset(h2) + multiset(out1 + out2), multiset(h0) + multiset(in1 + in2);
    forall x ensures a[x] == b[x] {
      assert (multiset(h1) + multiset(out1))[x] == (multiset(h0) + multiset(in1))[x];
      assert (multiset(h2) + multiset(out2))[x] == (multiset(h1) + multiset(in2))[x];
    }
  }

  /** Over any run in which no SET overwrites the key: what was held and what the pushes that replied an integer put
      in is what the pops sent as bulk strings and what is held now. */
  lemma {:induction false} RunConserves(ks: Store, log: seq<Entry>, key: Bytes)
    requires ValidRun(ks, log) && forall i :: 0 <= i < |log| ==> !(log[i].cmd.Set? && log[i].cmd.key == key)
    ensures var replies := RunReplies(ks, log);
            multiset(Held(RunStore(ks, log), key)) + multiset(RunPopped(log, replies, key))
            == multiset(Held(ks, key)) + multiset(RunPushed(log, replies, key))
    decreases |log|
  {
    if log != [] {
      hide Exec, Enabled, PushedBy, PoppedBy, Held;
      var e := Exec(ks, log[0].cmd, log[0].choice);
      var replies := RunReplies(e.store, log[1..]);
      assert RunReplies(ks, log) == [e.reply] + replies;
      StepConserves(ks, log[0].cmd, log[0].choice, key);
      RunConserves(e.store, log[1..], key);
      BalanceChain(Held(ks, key), Held(e.store, key), Held(RunStore(e.store, log[1..]), key),
                   PushedBy(log[0].cmd, e.reply, key), RunPushed(log[1..], replies, key),
                   PoppedBy(log[0].cmd, e.reply, key), RunPopped(log[1..], replies, key));
    }
  }
}
