/** The bounded command queue between the connection threads and the one consumer thread, as a state machine
    whose steps are the acquisitions, releases, waits and notifications of the source. */
module TaskManagers {
  import opened ByteStrings
  import opened Keyspace
  import opened KeyspaceRuns

  const M_MAX_SIZE: nat := 30

  /** A queued command: the thread that submits it, the connection it came from, the command. */
  datatype Item = Item(thread: nat, conn: nat, cmd: Command)

  /** Where a submitting thread stands; the mutexes it holds are named in brackets. */
  datatype Producer =
    | Idle
    | WantsCounter(item: Item)
    | WantsQueue(item: Item)   // [itemCounter]
    | Checking(item: Item)     // [itemCounter, mtx]
    | Asleep(item: Item)       // [itemCounter], waiting on notFull
    | Woken(item: Item)        // [itemCounter], about to take mtx again
    | HasPushed                // [itemCounter, mtx]
    | HasNotified              // [itemCounter, mtx]
    | Leaving                  // [itemCounter]
  {
    predicate HoldsQueue() { Checking? || HasPushed? || HasNotified? }

    predicate HoldsCounter() { !Idle? && !WantsCounter? }

    /** The item submitted but not yet in the queue. */
    function InFlight(): seq<Item> {
      if WantsCounter? || WantsQueue? || Checking? || Asleep? || Woken? then [item] else []
    }
  }

  /** Where the consumer stands; it holds mtx from Ready on. */
  datatype Consumer = WantsMtx | ConsumerAsleep | ConsumerWoken | Ready | Executing | Executed | Popped | ToUnlock
  {
    predicate HoldsQueue() { Ready? || Executing? || Executed? || Popped? || ToUnlock? }
  }

  datatype Owner = Free | Thread(p: nat) | TheConsumer

  datatype Done = Done(item: Item, choice: seq<Bytes>)

  datatype State = State(
    producers: seq<Producer>,
    consumer: Consumer,
    deque: seq<Item>,
    mtx: Owner,
    counter: Owner,
    store: Store,
    submitted: seq<seq<Item>>,  // history: what each thread submitted, in its order
    pushed: seq<Item>,          // history: every push_back
    executed: seq<Done>,        // history: every execCommand
    sent: seq<(nat, Bytes)>     // history: every send
  )

  datatype Step =
    | Submit(p: nat, item: Item)
    | TakeCounter(p: nat) | TakeQueue(p: nat) | CheckFull(p: nat) | SpuriousWake(p: nat)
    | NotifyNotEmpty(p: nat) | UnlockQueue(p: nat) | UnlockCounter(p: nat)
    | ConsumerTake | CheckEmpty | ConsumerSpuriousWake
    | Execute(choice: seq<Bytes>) | PopFront | NotifyNotFull | ConsumerUnlock

  predicate CanStep(s: State, a: Step) {
    match a
    case Submit(p, item) => p < |s.producers| && p < |s.submitted| && s.producers[p].Idle? && item.thread == p
    case TakeCounter(p) => p < |s.producers| && s.producers[p].WantsCounter? && s.counter == Free
    case TakeQueue(p) => p < |s.producers| && (s.producers[p].WantsQueue? || s.producers[p].Woken?) && s.mtx == Free
    case CheckFull(p) => p < |s.producers| && s.producers[p].Checking?
    case SpuriousWake(p) => p < |s.producers| && s.producers[p].Asleep?
    case NotifyNotEmpty(p) => p < |s.producers| && s.producers[p].HasPushed?
    case UnlockQueue(p) => p < |s.producers| && s.producers[p].HasNotified?
    case UnlockCounter(p) => p < |s.producers| && s.producers[p].Leaving?
    case ConsumerTake => (s.consumer.WantsMtx? || s.consumer.ConsumerWoken?) && s.mtx == Free
    case CheckEmpty => s.consumer.Ready?
    case ConsumerSpuriousWake => s.consumer.ConsumerAsleep?
    case Execute(choice) => s.consumer.Executing? && s.deque != [] && Enabled(s.store, s.deque[0].cmd, choice)
    case PopFront => s.consumer.Executed? && s.deque != []
    case NotifyNotFull => s.consumer.Popped?
    case ConsumerUnlock => s.consumer.ToUnlock?
  }

  function WakeAll(ps: seq<Producer>): (r: seq<Producer>)
    ensures |r| == |ps|
  {
    seq(|ps|, i requires 0 <= i < |ps| => if ps[i].Asleep? then Woken(ps[i].item) else ps[i])
  }

  function Take(s: State, a: Step): State
    requires CanStep(s, a)
  {
    match a
    case Submit(p, item) =>
      s.(producers := s.producers[p := WantsCounter(item)], submitted := s.submitted[p := s.submitted[p] + [item]])
    case TakeCounter(p) => s.(producers := s.producers[p := WantsQueue(s.producers[p].item)], counter := Thread(p))
    case TakeQueue(p) => s.(producers := s.producers[p := Checking(s.producers[p].item)], mtx := Thread(p))
    case CheckFull(p) =>
      var item := s.producers[p].item;
      if |s.deque| >= M_MAX_SIZE then s.(producers := s.producers[p := Asleep(item)], mtx := Free)
      else s.(producers := s.producers[p := HasPushed], deque := s.deque + [item], pushed := s.pushed + [item])
    case SpuriousWake(p) => s.(producers := s.producers[p := Woken(s.producers[p].item)])
    case NotifyNotEmpty(p) =>
      s.(producers := s.producers[p := HasNotified],
         consumer := if s.consumer.ConsumerAsleep? then ConsumerWoken else s.consumer)
    case UnlockQueue(p) => s.(producers := s.producers[p := Leaving], mtx := Free)
    case UnlockCounter(p) => s.(producers := s.producers[p := Idle], counter := Free)
    case ConsumerTake => s.(consumer := Ready, mtx := TheConsumer)
    case CheckEmpty =>
      if s.deque == [] then s.(consumer := ConsumerAsleep, mtx := Free) else s.(consumer := Executing)
    case ConsumerSpuriousWake => s.(consumer := ConsumerWoken)
    case Execute(choice) =>
      var item := s.deque[0];
      var e := Exec(s.store, item.cmd, choice);
      s.(consumer := Executed, store := e.store, executed := s.executed + [Done(item, choice)],
         sent := s.sent + [(item.conn, e.reply)])
    case PopFront => s.(consumer := Popped, deque := s.deque[1..])
    case NotifyNotFull => s.(consumer := ToUnlock, producers := WakeAll(s.producers))
    case ConsumerUnlock => s.(consumer := WantsMtx, mtx := Free)
  }

  function Initial(n: nat, store: Store): State {
    State(seq(n, _ => Idle), WantsMtx, [], Free, Free, store, seq(n, _ => []), [], [], [])
  }

  // ---------------------------------------------------------------- locks and wake-ups

  predicate LocksAgree(s: State) {
    && |s.producers| == |s.submitted|
    && (forall p :: 0 <= p < |s.producers| ==> (s.producers[p].HoldsQueue() <==> s.mtx == Thread(p)))
    && (forall p :: 0 <= p < |s.producers| ==> (s.producers[p].HoldsCounter() <==> s.counter == Thread(p)))
    && (s.consumer.HoldsQueue() <==> s.mtx == TheConsumer)
    && (s.mtx.Thread? ==> s.mtx.p < |s.producers|)
    && s.counter != TheConsumer && (s.counter.Thread? ==> s.counter.p < |s.producers|)
  }

  /** No lost wake-up: whoever sleeps has reason to, unless the thread that will notify it is on its way and still
      holds mtx. */
  predicate SleepersHaveReason(s: State) {
    && (s.consumer.ConsumerAsleep? ==>
          s.deque == [] || (s.mtx.Thread? && s.mtx.p < |s.producers| && s.producers[s.mtx.p].HasPushed?))
    && (forall p :: 0 <= p < |s.producers| && s.producers[p].Asleep? ==> |s.deque| >= M_MAX_SIZE || s.consumer.Popped?)
  }

  predicate QueueBounded(s: State) {
    |s.deque| <= M_MAX_SIZE && (s.consumer.Executing? || s.consumer.Executed? ==> s.deque != [])
  }

  predicate Coordinated(s: State) {
    LocksAgree(s) && SleepersHaveReason(s) && QueueBounded(s)
  }

  /** The steps of a submitting thread. */
  predicate OfProducer(a: Step) {
    a.TakeCounter? || a.TakeQueue? || a.CheckFull? || a.NotifyNotEmpty? || a.UnlockQueue? || a.UnlockCounter?
  }

  lemma ProducerLocksAgree(s: State, a: Step)
    requires LocksAgree(s) && CanStep(s, a) && (OfProducer(a) || a.Submit? || a.SpuriousWake?)
    ensures LocksAgree(Take(s, a))
  {
    hide Exec, Enabled;
    var t, p := Take(s, a), a.p;
    assert |t.producers| == |s.producers| && |t.submitted| == |s.submitted|
           && t.consumer.HoldsQueue() == s.consumer.HoldsQueue();
    forall q | 0 <= q < |t.producers| && q != p
      ensures t.producers[q] == s.producers[q] && (t.mtx == Thread(q) <==> s.mtx == Thread(q))
      ensures t.counter == Thread(q) <==> s.counter == Thread(q)
    {
    }
  }

  lemma ConsumerLocksAgree(s: State, a: Step)
    requires Coordinated(s) && CanStep(s, a) && !(OfProducer(a) || a.Submit? || a.SpuriousWake?)
    ensures LocksAgree(Take(s, a))
  {
    hide Exec, Enabled, SleepersHaveReason;
  }

  lemma StepLocksAgree(s: State, a: Step)
    requires Coordinated(s) && CanStep(s, a)
    ensures LocksAgree(Take(s, a))
  {
    hide LocksAgree, CanStep, Take;
    if OfProducer(a) || a.Submit? || a.SpuriousWake? {
      ProducerLocksAgree(s, a);
    } else {
      ConsumerLocksAgree(s, a);
    }
  }

  lemma StepSleepers(s: State, a: Step)
    requires Coordinated(s) && CanStep(s, a)
    ensures SleepersHaveReason(Take(s, a))
  {
    hide Exec, Enabled;
  }

  /** Every step keeps the locks, the sleepers and the queue bound in order. */
  lemma StepCoordinated(s: State, a: Step)
    requires Coordinated(s) && CanStep(s, a)
    ensures Coordinated(Take(s, a))
  {
    StepLocksAgree(s, a);
    StepSleepers(s, a);
    hide Exec, Enabled, SleepersHaveReason, LocksAgree;
  }

  // ---------------------------------------------------------------- serial execution

  /** The queue without the command that is executed but not yet popped. */
  function Queued(s: State): seq<Item> {
    if s.consumer.Executed? && s.deque != [] then s.deque[1..] else s.deque
  }

  function Items(log: seq<Done>): (r: seq<Item>)
    ensures |r| == |log|
  {
    seq(|log|, i requires 0 <= i < |log| => log[i].item)
  }

  function Entries(log: seq<Done>): (r: seq<Entry>)
    ensures |r| == |log|
  {
    seq(|log|, i requires 0 <= i < |log| => Entry(log[i].item.cmd, log[i].choice))
  }

  /** Executed commands, in the order of their pushes, followed by the queue: nothing lost, doubled or overtaken. */
  predicate InPushOrder(s: State) {
    s.pushed == Items(s.executed) + Queued(s)
  }

  /** The store and the replies are those of running the executed commands one after the other. */
  predicate Serial(s: State, store0: Store) {
    && ValidRun(store0, Entries(s.executed))
    && s.store == RunStore(store0, Entries(s.executed))
    && |s.sent| == |s.executed|
    && forall i :: 0 <= i < |s.sent| ==>
         s.sent[i] == (s.executed[i].item.conn, RunReplies(store0, Entries(s.executed))[i])
  }

  function By(items: seq<Item>, p: nat): seq<Item> {
    if items == [] then []
    else (if items[0].thread == p then [items[0]] else []) + By(items[1..], p)
  }

  /** Each thread's pushes are its submissions in its order, but for the one in flight. */
  predicate InProgramOrder(s: State) {
    && |s.producers| == |s.submitted|
    && (forall p :: 0 <= p < |s.producers| ==> By(s.pushed, p) + s.producers[p].InFlight() == s.submitted[p])
    && (forall p :: 0 <= p < |s.producers| ==> forall x | x in s.producers[p].InFlight() :: x.thread == p)
    && (forall x | x in s.pushed :: x.thread < |s.producers|)
  }

  lemma {:induction false} ByAppend(a: seq<Item>, b: seq<Item>, p: nat)
    ensures By(a + b, p) == By(a, p) + By(b, p)
  {
    if a == [] {
      assert a + b == b;
    } else {
      ByAppend(a[1..], b, p);
      var first := if a[0].thread == p then [a[0]] else [];
      assert (a + b)[0] == a[0] && (a + b)[1..] == a[1..] + b;
      assert first + (By(a[1..], p) + By(b, p)) == (first + By(a[1..], p)) + By(b, p);
    }
  }

  predicate Inv(s: State, store0: Store) {
    Coordinated(s) && InPushOrder(s) && Serial(s, store0) && InProgramOrder(s)
  }

  lemma StepInPushOrder(s: State, a: Step)
    requires Coordinated(s) && InPushOrder(s) && CanStep(s, a)
    ensures InPushOrder(Take(s, a))
  {
    hide Exec, Enabled;
    var t := Take(s, a);
    if a.Execute? {
      assert Items(t.executed) == Items(s.executed) + [s.deque[0]];
    }
  }

  lemma StepSerial(s: State, a: Step, store0: Store)
    requires Serial(s, store0) && CanStep(s, a)
    ensures Serial(Take(s, a), store0)
  {
    hide Exec, Enabled;
    if a.Execute? {
      var t := Take(s, a);
      var e := Entry(s.deque[0].cmd, a.choice);
      assert Entries(t.executed) == Entries(s.executed) + [e];
      RunAppend(store0, Entries(s.executed), e);
    } else {
      assert Take(s, a).executed == s.executed && Take(s, a).store == s.store && Take(s, a).sent == s.sent;
    }
  }

  lemma StepInProgramOrder(s: State, a: Step)
    requires Coordinated(s) && InProgramOrder(s) && CanStep(s, a)
    ensures InProgramOrder(Take(s, a))
  {
    hide InProgramOrder, CanStep, Take, Coordinated;
    if a.CheckFull? && |s.deque| < M_MAX_SIZE {
      PushInProgramOrder(s, a.p);
    } else if OfProducer(a) || a.Submit? || a.SpuriousWake? {
      OtherInProgramOrder(s, a);
    } else {
      ConsumerInProgramOrder(s, a);
    }
  }

  lemma OtherInProgramOrder(s: State, a: Step)
    requires InProgramOrder(s) && CanStep(s, a) && (OfProducer(a) || a.Submit? || a.SpuriousWake?)
    requires a.CheckFull? ==> |s.deque| >= M_MAX_SIZE
    ensures InProgramOrder(Take(s, a))
  {
    hide Exec, Enabled, By;
    var t := Take(s, a);
    assert t.pushed == s.pushed && |t.producers| == |s.producers|;
    assert forall q | 0 <= q < |s.producers| && q != a.p ::
             t.producers[q] == s.producers[q] && t.submitted[q] == s.submitted[q];
    if a.Submit? {
      assert s.producers[a.p].InFlight() == [];
      assert By(s.pushed, a.p) + [] == By(s.pushed, a.p);
    } else {
      assert t.producers[a.p].InFlight() == s.producers[a.p].InFlight() && t.submitted == s.submitted;
    }
  }

  lemma ConsumerInProgramOrder(s: State, a: Step)
    requires InProgramOrder(s) && CanStep(s, a) && !(OfProducer(a) || a.Submit? || a.SpuriousWake?)
    ensures InProgramOrder(Take(s, a))
  {
    hide Exec, Enabled;
    assert Take(s, a).pushed == s.pushed;
  }

  lemma PushInProgramOrder(s: State, p: nat)
    requires InProgramOrder(s) && CanStep(s, CheckFull(p)) && |s.deque| < M_MAX_SIZE
    ensures InProgramOrder(Take(s, CheckFull(p)))
  {
    var t := Take(s, CheckFull(p));
    var item := s.producers[p].item;
    assert item in s.producers[p].InFlight();
    forall q | 0 <= q < |t.producers| ensures By(t.pushed, q) + t.producers[q].InFlight() == t.submitted[q] {
      ByAppend(s.pushed, [item], q);
      assert By([item], q) == if q == p then [item] else [];
    }
  }

  // ---------------------------------------------------------------- all runs

  predicate IsRun(s: State, steps: seq<Step>)
    decreases |steps|
  {
    steps == [] || (CanStep(s, steps[0]) && IsRun(Take(s, steps[0]), steps[1..]))
  }

  function After(s: State, steps: seq<Step>): State
    requires IsRun(s, steps)
    decreases |steps|
  {
    if steps == [] then s else After(Take(s, steps[0]), steps[1..])
  }

  lemma InitialInv(n: nat, store: Store)
    ensures Inv(Initial(n, store), store)
  {
    var s := Initial(n, store);
    assert Items(s.executed) == [] && Entries(s.executed) == [];
  }

  lemma StepInv(s: State, a: Step, store0: Store)
    requires Inv(s, store0) && CanStep(s, a)
    ensures Inv(Take(s, a), store0)
  {
    hide Coordinated, InPushOrder, Serial, InProgramOrder, CanStep, Take;
    StepCoordinated(s, a);
    StepInPushOrder(s, a);
    StepSerial(s, a, store0);
    StepInProgramOrder(s, a);
  }

  lemma {:induction false} RunInv(s: State, steps: seq<Step>, store0: Store)
    requires Inv(s, store0) && IsRun(s, steps)
    ensures Inv(After(s, steps), store0)
    decreases |steps|
  {
    hide Inv, CanStep, Take;
    if steps != [] {
      StepInv(s, steps[0], store0);
      RunInv(Take(s, steps[0]), steps[1..], store0);
    }
  }

  /** Serial execution, for any number of threads and every interleaving: the pushes are the executed commands and then
      the queue; the store and the replies are those of executing that log one by one; and what a thread's
      commands did so far is a prefix of its submissions, in its order. */
  lemma SerialExecution(n: nat, store: Store, steps: seq<Step>)
    requires IsRun(Initial(n, store), steps)
    ensures var s := After(Initial(n, store), steps);
            && InPushOrder(s) && Serial(s, store)
            && |s.submitted| == |s.producers|
            && forall p :: 0 <= p < |s.submitted| ==>
                 By(Items(s.executed), p) + By(Queued(s), p) + s.producers[p].InFlight() == s.submitted[p]
  {
    InitialInv(n, store);
    RunInv(Initial(n, store), steps, store);
    var s := After(Initial(n, store), steps);
    forall p | 0 <= p < |s.submitted|
      ensures By(Items(s.executed), p) + By(Queued(s), p) + s.producers[p].InFlight() == s.submitted[p]
    {
      ByAppend(Items(s.executed), Queued(s), p);
    }
  }

  function OnConn(items: seq<Item>, c: nat): seq<Item> {
    if items == [] then []
    else (if items[0].conn == c then [items[0]] else []) + OnConn(items[1..], c)
  }

  function SentTo(sent: seq<(nat, Bytes)>, c: nat): seq<Bytes> {
    if sent == [] then []
    else (if sent[0].0 == c then [sent[0].1] else []) + SentTo(sent[1..], c)
  }

  lemma {:induction false} OnConnAppend(a: seq<Item>, b: seq<Item>, c: nat)
    ensures OnConn(a + b, c) == OnConn(a, c) + OnConn(b, c)
  {
    if a == [] {
      assert a + b == b;
    } else {
      OnConnAppend(a[1..], b, c);
      var first := if a[0].conn == c then [a[0]] else [];
      assert (a + b)[0] == a[0] && (a + b)[1..] == a[1..] + b;
      assert first + (OnConn(a[1..], c) + OnConn(b, c)) == (first + OnConn(a[1..], c)) + OnConn(b, c);
    }
  }

  lemma {:induction false} OnConnOfThread(items: seq<Item>, p: nat, c: nat)
    requires forall x | x in items && x.conn == c :: x.thread == p
    ensures OnConn(By(items, p), c) == OnConn(items, c)
  {
    if items != [] {
      OnConnOfThread(items[1..], p, c);
      OnConnAppend(if items[0].thread == p then [items[0]] else [], By(items[1..], p), c);
    }
  }

  lemma {:induction false} InBy(items: seq<Item>, x: Item)
    requires x in items
    ensures x in By(items, x.thread)
  {
    if x != items[0] {
      InBy(items[1..], x);
    }
  }

  /** The commands of a connection, each with its reply. */
  function Transcript(items: seq<Item>, replies: seq<Bytes>, c: nat): seq<(Item, Bytes)>
    requires |items| == |replies|
    decreases |items|
  {
    if items == [] then []
    else (if items[0].conn == c then [(items[0], replies[0])] else []) + Transcript(items[1..], replies[1..], c)
  }

  lemma {:induction false} TranscriptMatches(items: seq<Item>, replies: seq<Bytes>, sent: seq<(nat, Bytes)>, c: nat)
    requires |items| == |sent| == |replies|
    requires forall i :: 0 <= i < |sent| ==> sent[i] == (items[i].conn, replies[i])
    ensures var t := Transcript(items, replies, c);
            |t| == |OnConn(items, c)| == |SentTo(sent, c)|
            && forall k :: 0 <= k < |t| ==> t[k] == (OnConn(items, c)[k], SentTo(sent, c)[k])
    decreases |items|
  {
    if items != [] {
      assert sent[0] == (items[0].conn, replies[0]);
      TranscriptMatches(items[1..], replies[1..], sent[1..], c);
    }
  }

  lemma SentAlongExecuted(s: State, store: Store)
    requires Serial(s, store)
    ensures ValidRun(store, Entries(s.executed)) && |s.sent| == |s.executed|
    ensures forall i :: 0 <= i < |s.sent| ==>
              s.sent[i] == (Items(s.executed)[i].conn, RunReplies(store, Entries(s.executed))[i])
  {
  }

  /** A connection that one thread serves gets its replies in the order of its submissions: what was sent to it are the
      replies of the serial execution to its first submissions, one for each. */
  lemma RepliesInSubmissionOrder(n: nat, store: Store, steps: seq<Step>, p: nat, c: nat)
    requires IsRun(Initial(n, store), steps)
    requires var s := After(Initial(n, store), steps);
             p < |s.submitted| && forall q, x :: 0 <= q < |s.submitted| && x in s.submitted[q] && x.conn == c ==> q == p
    ensures var s := After(Initial(n, store), steps);
            && OnConn(Items(s.executed), c) <= OnConn(s.submitted[p], c)
            && ValidRun(store, Entries(s.executed))
            && var t := Transcript(Items(s.executed), RunReplies(store, Entries(s.executed)), c);
               |t| == |SentTo(s.sent, c)| == |OnConn(Items(s.executed), c)|
               && forall k :: 0 <= k < |t| ==> t[k] == (OnConn(s.submitted[p], c)[k], SentTo(s.sent, c)[k])
  {
    hide IsRun, After, Initial, Serial, Coordinated;
    InitialInv(n, store);
    RunInv(Initial(n, store), steps, store);
    SerialExecution(n, store, steps);
    var s := After(Initial(n, store), steps);
    var done := Items(s.executed);
    forall x | x in done && x.conn == c ensures x.thread == p {
      assert x in s.pushed;
      InBy(done, x);
      assert x in s.submitted[x.thread];
    }
    OnConnOfThread(done, p, c);
    OnConnAppend(By(done, p) + By(Queued(s), p), s.producers[p].InFlight(), c);
    OnConnAppend(By(done, p), By(Queued(s), p), c);
    SentAlongExecuted(s, store);
    TranscriptMatches(done, RunReplies(store, Entries(s.executed)), s.sent, c);
  }

  /** No lost wake-up: whenever nobody holds mtx, a sleeping consumer means an empty queue and a sleeping producer a
      full one. */
  lemma NoLostWakeUp(n: nat, store: Store, steps: seq<Step>)
    requires IsRun(Initial(n, store), steps)
    ensures var s := After(Initial(n, store), steps);
            && |s.deque| <= 30
            && (s.mtx == Free && s.consumer.ConsumerAsleep? ==> s.deque == [])
            && (s.mtx == Free ==>
                  forall p :: 0 <= p < |s.producers| && s.producers[p].Asleep? ==> |s.deque| == 30)
            && (forall p, q :: 0 <= p < q < |s.producers| ==> !(s.producers[p].Asleep? && s.producers[q].Asleep?))
  {
    hide IsRun, After, Initial, Coordinated, InPushOrder, Serial, InProgramOrder;
    InitialInv(n, store);
    RunInv(Initial(n, store), steps, store);
    ReasonsToSleep(After(Initial(n, store), steps));
  }

  lemma ReasonsToSleep(s: State)
    requires Coordinated(s)
    ensures |s.deque| <= 30 && (s.mtx == Free && s.consumer.ConsumerAsleep? ==> s.deque == [])
    ensures s.mtx == Free ==> forall p :: 0 <= p < |s.producers| && s.producers[p].Asleep? ==> |s.deque| == 30
    ensures forall p, q :: 0 <= p < q < |s.producers| ==> !(s.producers[p].Asleep? && s.producers[q].Asleep?)
  {
  }

  // ---------------------------------------------------------------- progress

  /** The steps that are not a new submission and not a spurious wake-up. */
  predicate IsWork(a: Step) {
    !a.Submit? && !a.SpuriousWake? && !a.ConsumerSpuriousWake?
  }

  predicate Pending(s: State) {
    s.deque != [] || exists p :: 0 <= p < |s.producers| && !s.producers[p].Idle?
  }

  /** The consumer is about to run a pop whose assertion fails: the server stops. */
  predicate Crashing(s: State) {
    s.consumer.Executing? && s.deque != [] && s.deque[0].cmd.Pop? && PopAborts(s.store, s.deque[0].cmd.key)
  }

  lemma SomeChoiceEnabled(ks: Store, cmd: Command) returns (choice: seq<Bytes>)
    requires cmd.Pop? ==> !PopAborts(ks, cmd.key)
    ensures Enabled(ks, cmd, choice)
  {
    choice := [];
    if cmd.SMembers? && ErrorAt(ks, cmd.key, SetType) == ErrorOk {
      choice := EnumerationExists(ks[cmd.key].members);
    } else if cmd.SPop? && ErrorAt(ks, cmd.key, SetType) == ErrorOk && ks[cmd.key].members != {} {
      var m :| m in ks[cmd.key].members;
      choice := [m];
    }
  }

  /** No deadlock: while anything is pending, some thread can take a step that is real work, unless the server stops. */
  lemma NotStuck(s: State) returns (a: Step)
    requires Coordinated(s) && Pending(s) && !Crashing(s)
    ensures IsWork(a) && CanStep(s, a)
  {
    match s.mtx
    case TheConsumer =>
      match s.consumer {
        case Ready => a := CheckEmpty;
        case Executing =>
          var choice := SomeChoiceEnabled(s.store, s.deque[0].cmd);
          a := Execute(choice);
        case Executed => a := PopFront;
        case Popped => a := NotifyNotFull;
        case _ => a := ConsumerUnlock;
      }
    case Thread(p) =>
      a := if s.producers[p].Checking? then CheckFull(p)
           else if s.producers[p].HasPushed? then NotifyNotEmpty(p) else UnlockQueue(p);
    case Free =>
      if !s.consumer.ConsumerAsleep? {
        a := ConsumerTake;
      } else if s.counter == Free {
        var p :| 0 <= p < |s.producers| && !s.producers[p].Idle?;
        a := TakeCounter(p);
      } else {
        var q := s.counter.p;
        a := if s.producers[q].Leaving? then UnlockCounter(q) else TakeQueue(q);
      }
  }

  /** How much work is left before everybody rests. */
  function ProducerWork(p: Producer): nat {
    match p
    case Idle => 0
    case Leaving => 1
    case HasNotified => 2
    case HasPushed => 6
    case Asleep(_) => 30
    case Checking(_) => 31
    case Woken(_) => 32
    case WantsQueue(_) => 32
    case WantsCounter(_) => 33
  }

  function ConsumerWork(c: Consumer): nat {
    match c
    case ConsumerAsleep => 0
    case Ready => 1
    case WantsMtx => 2
    case ConsumerWoken => 2
    case ToUnlock => 3
    case Popped => 6
    case Executed => 7
    case Executing => 8
  }

  function TotalWork(ps: seq<Producer>): nat {
    if ps == [] then 0 else TotalWork(ps[..|ps| - 1]) + ProducerWork(ps[|ps| - 1])
  }

  function Measure(s: State): int {
    TotalWork(s.producers) + ConsumerWork(s.consumer)
    + 12 * (|s.deque| - if s.consumer.Executing? || s.consumer.Executed? then 1 else 0)
  }

  lemma {:induction false} TotalWorkUpdate(ps: seq<Producer>, p: nat, x: Producer)
    requires p < |ps|
    ensures TotalWork(ps[p := x]) == TotalWork(ps) - ProducerWork(ps[p]) + ProducerWork(x)
  {
    var n := |ps| - 1;
    if p == n {
      assert ps[p := x][..n] == ps[..n];
    } else {
      assert ps[p := x][..n] == ps[..n][p := x];
      TotalWorkUpdate(ps[..n], p, x);
    }
  }

  /** At most one producer sleeps, because the others wait for its itemCounter mutex. */
  lemma WakeAllWork(s: State)
    requires LocksAgree(s)
    ensures TotalWork(WakeAll(s.producers)) <= TotalWork(s.producers) + 2
  {
    if s.counter.Thread? && s.producers[s.counter.p].Asleep? {
      var q := s.counter.p;
      assert WakeAll(s.producers) == s.producers[q := Woken(s.producers[q].item)];
      TotalWorkUpdate(s.producers, q, Woken(s.producers[q].item));
    } else {
      assert WakeAll(s.producers) == s.producers;
    }
  }

  lemma ProducerWorkDecreases(s: State, a: Step)
    requires LocksAgree(s) && CanStep(s, a) && OfProducer(a)
    ensures Measure(Take(s, a)) < Measure(s)
  {
    hide LocksAgree;
    var t := Take(s, a);
    assert t.producers == s.producers[a.p := t.producers[a.p]];
    TotalWorkUpdate(s.producers, a.p, t.producers[a.p]);
    hide TotalWork;
  }

  /** Every step of real work brings the queue nearer to rest. */
  lemma WorkDecreases(s: State, a: Step)
    requires Coordinated(s) && CanStep(s, a) && IsWork(a)
    ensures Measure(Take(s, a)) < Measure(s)
  {
    hide Exec, Enabled, SleepersHaveReason;
    if OfProducer(a) {
      ProducerWorkDecreases(s, a);
    } else if a.NotifyNotFull? {
      WakeAllWork(s);
    }
  }

  /** Progress: from any reachable state, when clients submit nothing more and no wake-up is spurious, every run is at
      most Measure steps long, and one that cannot go on has executed everything, in push order, unless the server
      stops. */
  lemma {:induction false} EveryRunDrains(s: State, steps: seq<Step>, store0: Store)
    requires Inv(s, store0) && IsRun(s, steps) && forall i :: 0 <= i < |steps| ==> IsWork(steps[i])
    ensures |steps| <= Measure(s)
    ensures var t := After(s, steps);
            (forall a | IsWork(a) :: !CanStep(t, a)) && !Crashing(t) ==>
              && t.deque == [] && t.pushed == Items(t.executed)
              && forall p :: 0 <= p < |t.producers| ==> t.producers[p].Idle?
    decreases |steps|
  {
    hide Measure, Inv;
    if steps != [] {
      InvCoordinated(s, store0);
      WorkDecreases(s, steps[0]);
      StepInv(s, steps[0], store0);
      EveryRunDrains(Take(s, steps[0]), steps[1..], store0);
    } else {
      InvCoordinated(s, store0);
      MeasureNonNegative(s);
      if (forall a | IsWork(a) :: !CanStep(s, a)) && !Crashing(s) {
        Drained(s, store0);
      }
    }
  }

  lemma InvCoordinated(s: State, store0: Store)
    requires Inv(s, store0)
    ensures Coordinated(s)
  {
  }

  lemma Drained(s: State, store0: Store)
    requires Inv(s, store0) && !Crashing(s) && forall a | IsWork(a) :: !CanStep(s, a)
    ensures s.deque == [] && s.pushed == Items(s.executed)
    ensures forall p :: 0 <= p < |s.producers| ==> s.producers[p].Idle?
  {
    if Pending(s) {
      var a := NotStuck(s);
      assert false;
    }
  }

  // ---------------------------------------------------------------- the server does not stop

  /** Every command submitted and not yet executed carries a value if it needs one, and no list or set is empty. */
  predicate Healthy(s: State) {
    && NoEmpty(s.store)
    && (forall x | x in s.deque :: CarriesValue(x.cmd))
    && (forall p, x | 0 <= p < |s.producers| && x in s.producers[p].InFlight() :: CarriesValue(x.cmd))
  }

  lemma StepHealthy(s: State, a: Step)
    requires LocksAgree(s) && Healthy(s) && CanStep(s, a) && (a.Submit? ==> CarriesValue(a.item.cmd))
    ensures Healthy(Take(s, a))
  {
    hide Exec, Enabled, CarriesValue, NoEmpty, LocksAgree;
    var t := Take(s, a);
    if a.Execute? {
      assert s.deque[0] in s.deque;
      NoEmptyAfter(s.store, s.deque[0].cmd, a.choice);
    }
    if a.CheckFull? {
      assert s.producers[a.p].item in s.producers[a.p].InFlight();
    }
  }

  /** When every submission carries the values it needs, no interleaving ever stops the server. */
  lemma {:induction false} NeverCrashes(s: State, steps: seq<Step>)
    requires Coordinated(s) && Healthy(s) && IsRun(s, steps)
    requires forall i | 0 <= i < |steps| && steps[i].Submit? :: CarriesValue(steps[i].item.cmd)
    ensures Healthy(After(s, steps)) && !Crashing(After(s, steps))
    decreases |steps|
  {
    hide Healthy, Coordinated, CarriesValue, CanStep, Take;
    if steps == [] {
      HealthyRuns(s);
    } else {
      StepCoordinated(s, steps[0]);
      CoordinatedLocks(s);
      StepHealthy(s, steps[0]);
      NeverCrashes(Take(s, steps[0]), steps[1..]);
    }
  }

  lemma CoordinatedLocks(s: State)
    requires Coordinated(s)
    ensures LocksAgree(s)
  {
  }

  lemma HealthyRuns(s: State)
    requires Healthy(s)
    ensures !Crashing(s)
  {
  }

  lemma {:induction false} RunOn(s: State, steps: seq<Step>, a: Step)
    requires IsRun(s, steps) && CanStep(After(s, steps), a)
    ensures IsRun(s, steps + [a]) && After(s, steps + [a]) == Take(After(s, steps), a)
    decreases |steps|
  {
    hide CanStep, Take;
    var more := steps + [a];
    if steps == [] {
      assert more == [a] && more[1..] == [];
      assert IsRun(Take(s, a), more[1..]) && After(Take(s, a), more[1..]) == Take(s, a);
    } else {
      assert more[0] == steps[0] && more[1..] == steps[1..] + [a];
      RunOn(Take(s, steps[0]), steps[1..], a);
    }
  }

  /** With nobody else about, one thread submits and pushes a command. */
  lemma SubmitAlone(s0: State, steps: seq<Step>, item: Item) returns (more: seq<Step>)
    requires IsRun(s0, steps)
    requires var s := After(s0, steps);
             && s.producers == [Idle] && |s.submitted| == 1 && item.thread == 0 && |s.deque| < M_MAX_SIZE
             && s.mtx == Free && s.counter == Free && s.consumer == WantsMtx
    ensures IsRun(s0, more)
    ensures var s, t := After(s0, steps), After(s0, more);
            && t.producers == [Idle] && |t.submitted| == 1 && t.deque == s.deque + [item]
            && t.mtx == Free && t.counter == Free && t.consumer == WantsMtx && t.store == s.store
  {
    hide IsRun, After;
    more := steps;
    var todo := [Submit(0, item), TakeCounter(0), TakeQueue(0), CheckFull(0), NotifyNotEmpty(0), UnlockQueue(0),
                 UnlockCounter(0)];
    RunOn(s0, more, todo[0]);
    more := more + [todo[0]];
    RunOn(s0, more, todo[1]);
    more := more + [todo[1]];
    RunOn(s0, more, todo[2]);
    more := more + [todo[2]];
    RunOn(s0, more, todo[3]);
    more := more + [todo[3]];
    RunOn(s0, more, todo[4]);
    more := more + [todo[4]];
    RunOn(s0, more, todo[5]);
    more := more + [todo[5]];
    RunOn(s0, more, todo[6]);
    more := more + [todo[6]];
  }

  /** The consumer takes the lock and finds a command. */
  lemma WakeAlone(s0: State, steps: seq<Step>) returns (more: seq<Step>)
    requires IsRun(s0, steps)
    requires var s := After(s0, steps); s.mtx == Free && s.consumer == WantsMtx && s.deque != []
    ensures IsRun(s0, more) && After(s0, more) == After(s0, steps).(consumer := Executing, mtx := TheConsumer)
  {
    hide IsRun, After;
    RunOn(s0, steps, ConsumerTake);
    more := steps + [ConsumerTake];
    RunOn(s0, more, CheckEmpty);
    more := more + [CheckEmpty];
  }

  /** ... and executes it. */
  lemma ExecuteAlone(s0: State, steps: seq<Step>, choice: seq<Bytes>) returns (more: seq<Step>)
    requires IsRun(s0, steps)
    requires var s := After(s0, steps);
             && s.consumer == Executing && s.producers == [Idle]
             && s.deque != [] && Enabled(s.store, s.deque[0].cmd, choice)
    ensures IsRun(s0, more)
    ensures var s, t := After(s0, steps), After(s0, more);
            && t.producers == [Idle] && t.deque == s.deque[1..] && t.mtx == Free && t.consumer == WantsMtx
            && t.store == Exec(s.store, s.deque[0].cmd, choice).store
  {
    hide IsRun, After, Exec, Enabled;
    RunOn(s0, steps, Execute(choice));
    more := steps + [Execute(choice)];
    RunOn(s0, more, PopFront);
    more := more + [PopFront];
    RunOn(s0, more, NotifyNotFull);
    more := more + [NotifyNotFull];
    RunOn(s0, more, ConsumerUnlock);
    more := more + [ConsumerUnlock];
  }

  /** One command without a value is enough to stop the server: LPUSH of nothing, then LPOP. */
  lemma CrashExample(key: Bytes) returns (steps: seq<Step>)
    ensures IsRun(Initial(1, map[]), steps) && Crashing(After(Initial(1, map[]), steps))
  {
    hide IsRun, After, Exec;
    var s0 := Initial(1, map[]);
    steps := [];
    NoStepYet(s0);
    steps := SubmitAlone(s0, steps, Item(0, 0, Push(key, [], Head, true)));
    steps := SubmitAlone(s0, steps, Item(0, 0, Pop(key, Head)));
    steps := WakeAlone(s0, steps);
    steps := ExecuteAlone(s0, steps, []);
    steps := WakeAlone(s0, steps);
    AbortExample(key);
  }

  lemma NoStepYet(s: State)
    ensures IsRun(s, []) && After(s, []) == s
  {
  }

  lemma MeasureNonNegative(s: State)
    requires QueueBounded(s)
    ensures Measure(s) >= 0
  {
  }
}
