/** The queue and the store object together: in every interleaving of the threads the object ends with the store, and
    sends the replies, that the state machine of the queue has. */
module Servers {
  import opened ByteStrings
  import opened Keyspace
  import opened KeyspaceRuns
  import opened YObjects
  import opened YStores
  import opened YCommands
  import opened TaskManagers

  /** The commands a run executes, in order. */
  function CommandsRun(s: State, steps: seq<Step>): seq<Command>
    requires IsRun(s, steps)
    decreases |steps|
  {
    if steps == [] then []
    else (if steps[0].Execute? then [s.deque[0].cmd] else []) + CommandsRun(Take(s, steps[0]), steps[1..])
  }

  /** The same steps, but for what the hash tables choose. */
  predicate SameSchedule(a: seq<Step>, b: seq<Step>) {
    |a| == |b| && forall i | 0 <= i < |a| :: if a[i].Execute? then b[i].Execute? else b[i] == a[i]
  }

  /** The same state of threads and queue; the stores, the choices and the replies may differ. */
  predicate Twin(s: State, t: State) {
    t == s.(store := t.store, executed := t.executed, sent := t.sent) && Items(t.executed) == Items(s.executed)
  }

  function Replies(sent: seq<(nat, Bytes)>): (r: seq<Bytes>)
    ensures |r| == |sent|
  {
    seq(|sent|, i requires 0 <= i < |sent| => sent[i].1)
  }

  lemma TwinStep(s: State, t: State, a: Step)
    requires Twin(s, t) && CanStep(s, a) && !a.Execute?
    ensures CanStep(t, a) && Twin(Take(s, a), Take(t, a))
    ensures Take(t, a).store == t.store && Take(t, a).sent == t.sent
  {
    hide Exec, Enabled;
  }

  lemma TwinExecute(s: State, t: State, choice: seq<Bytes>, other: seq<Bytes>)
    requires Twin(s, t) && CanStep(s, Execute(choice)) && Enabled(t.store, s.deque[0].cmd, other)
    ensures CanStep(t, Execute(other)) && Twin(Take(s, Execute(choice)), Take(t, Execute(other)))
    ensures var e := Exec(t.store, s.deque[0].cmd, other);
            && Take(t, Execute(other)).store == e.store
            && Replies(Take(t, Execute(other)).sent) == Replies(t.sent) + [e.reply]
  {
    hide Exec, Enabled;
    var s1, t1 := Take(s, Execute(choice)), Take(t, Execute(other));
    assert Items(s1.executed) == Items(s.executed) + [s.deque[0]];
    assert Items(t1.executed) == Items(t.executed) + [s.deque[0]];
  }

  /** A run of the queue can be taken again with other choices of the hash tables, as long as the same commands run: the
      store and the replies are then those of the other choices. */
  lemma {:induction false} Rerun(s: State, t: State, steps: seq<Step>, log: seq<Entry>) returns (other: seq<Step>)
    requires IsRun(s, steps) && Twin(s, t) && ValidRun(t.store, log)
    requires var cmds := CommandsRun(s, steps); |log| == |cmds| && forall i | 0 <= i < |log| :: log[i].cmd == cmds[i]
    ensures SameSchedule(steps, other) && IsRun(t, other) && Twin(After(s, steps), After(t, other))
    ensures After(t, other).store == RunStore(t.store, log)
    ensures Replies(After(t, other).sent) == Replies(t.sent) + RunReplies(t.store, log)
    decreases |steps|
  {
    hide CanStep, Take, Exec, Enabled, Twin, Replies;
    if steps == [] {
      other := [];
      assert Replies(t.sent) + [] == Replies(t.sent);
    } else if !steps[0].Execute? {
      TwinStep(s, t, steps[0]);
      var rest := Rerun(Take(s, steps[0]), Take(t, steps[0]), steps[1..], log);
      other := [steps[0]] + rest;
      assert other[1..] == rest;
    } else {
      var e := Exec(t.store, log[0].cmd, log[0].choice);
      var a := Execute(log[0].choice);
      TwinExecute(s, t, steps[0].choice, log[0].choice);
      assert CommandsRun(s, steps)[1..] == CommandsRun(Take(s, steps[0]), steps[1..]);
      var rest := Rerun(Take(s, steps[0]), Take(t, a), steps[1..], log[1..]);
      other := [a] + rest;
      assert other[1..] == rest;
      assert Replies(t.sent) + [e.reply] + RunReplies(e.store, log[1..]) == Replies(t.sent) + RunReplies(t.store, log);
    }
  }

  lemma TwinOfItself(s: State)
    ensures Twin(s, s)
  {
  }

  /** The store object behind the queue: for any number of threads and every interleaving, an object that consumes the
      commands this interleaving executes holds and sends what the interleaving does, with the choices its hash tables
      make. */
  method ServeInterleaving(store: YStore, cmds: seq<Command>, ghost n: nat, ghost steps: seq<Step>)
    returns (sent: seq<Bytes>, ghost run: seq<Step>)
    requires store.Valid() && NoEmpty(store.Current()) && FitsRun(store.Current(), cmds)
    requires forall i | 0 <= i < |cmds| :: CarriesValue(cmds[i])
    requires IsRun(Initial(n, store.Current()), steps) && cmds == CommandsRun(Initial(n, store.Current()), steps)
    modifies store, store.heap, store.Objects
    ensures store.Valid() && store.OtherDbs() == old(store.OtherDbs())
    ensures var s0 := Initial(n, old(store.Current()));
            && SameSchedule(steps, run) && IsRun(s0, run) && Twin(After(s0, steps), After(s0, run))
            && store.Current() == After(s0, run).store && sent == Replies(After(s0, run).sent)
  {
    hide Owned, ObjectsOf, ViewOf, Distinct, YStore.OtherDbs, YStore.Valid, YStore.Layout, YStore.Current, Exec,
         Enabled, CarriesValue, FitsRun, IsRun, After, CommandsRun, Twin, SameSchedule, RunStore, RunReplies, ValidRun;
    ghost var s0 := Initial(n, store.Current());
    ghost var log;
    sent, log := ConsumeAll(store, cmds);
    TwinOfItself(s0);
    run := Rerun(s0, s0, steps, log);
    assert Replies(s0.sent) + sent == sent;
  }
}
