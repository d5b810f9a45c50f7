/** Dispatch: every command, run on the store's objects, has the effect its meaning gives it. */
module YCommands {
  import opened ByteStrings
  import opened RespParser
  import opened RespRequests
  import opened ReplyBuffers
  import opened RespFormat
  import opened Keyspace
  import opened KeyspaceRuns
  import opened YObjects
  import opened YStores
  import opened CommandEffects
  import YLists
  import YSets
  import YStringCommands

  /** Strings whose length a `size_t` holds. */
  predicate SizeTexts(s: seq<Bytes>) {
    forall x | x in s :: |x| < SIZE_LIMIT
  }

  /** Beside `held` bytes the reply buffer can take `text`. */
  predicate RoomFor(held: nat, text: Bytes) {
    held + |text| <= MAX_BUFFER_SIZE
  }

  /** What the machine must provide: sizes within `int`, `long` and `size_t`, and room for the reply behind `held`
      bytes. */
  ghost predicate Fits(ks: Store, cmd: Command, held: nat) {
    match cmd
    case Get(key) =>
      RoomFor(held, Exec(ks, cmd, []).reply)
      && (ErrorAt(ks, key, StringType) == ErrorOk ==> |ks[key].Text()| < SIZE_LIMIT)
    case Push(key, values, pos, create) =>
      RoomFor(held, PushEffect(ks, key, values, pos, create).reply) && |Held(ks, key)| + |values| <= LONG_MAX
    case Pop(key, pos) =>
      SizeTexts(Held(ks, key)) && (!PopAborts(ks, key) ==> RoomFor(held, PopEffect(ks, key, pos).reply))
    case LLen(key) => RoomFor(held, Exec(ks, cmd, []).reply) && |Held(ks, key)| <= LONG_MAX
    case LRange(key, a, b) =>
      RoomFor(held, LRangeEffect(ks, key, a, b).reply) && |Held(ks, key)| <= LONG_MAX && SizeTexts(Held(ks, key))
    case SAdd(key, values) =>
      RoomFor(held, SAddEffect(ks, key, values).reply) && RoomFor(held, WRONG_TYPE) && |values| <= INT_MAX
    case SCard(key) =>
      RoomFor(held, Exec(ks, cmd, []).reply) && RoomFor(held, NoSetReply(ks, key))
      && |SetAt(ks, key)| <= LONG_MAX
    case SMembers(key) =>
      RoomFor(held, NoSetReply(ks, key))
      && (ErrorAt(ks, key, SetType) == ErrorOk ==> YSets.OrdersFit(SetAt(ks, key), held))
    case SPop(key) =>
      RoomFor(held, NoSetReply(ks, key)) && RoomFor(held, NULL_BULK)
      && forall x | x in SetAt(ks, key) :: |x| < SIZE_LIMIT && RoomFor(held, Bulk(x))
    case _ => RoomFor(held, Exec(ks, cmd, []).reply)
  }

  /** `execCommand`: the store object refines the abstract store, command by command. */
  method ExecCommand(store: YStore, cmd: Command, reply: ReplyBuffer) returns (err: YError, ghost choice: seq<Bytes>)
    requires store.Valid() && reply.Valid() && Fits(store.Current(), cmd, |reply.Contents()|)
    requires cmd.Pop? ==> !PopAborts(store.Current(), cmd.key)
    modifies store, store.heap, store.Objects, reply
    ensures Enabled(old(store.Current()), cmd, choice)
    ensures Did(store, reply, Exec(old(store.Current()), cmd, choice), err)
    ensures fresh(store.Objects - old(store.Objects))
  {
    hide Owned, ObjectsOf, ViewOf, Distinct, YStore.OtherDbs, YStore.Valid, YStore.Layout, YStore.Current, PushEffect,
         PopEffect, LRangeEffect, SAddEffect, SCardEffect, SMembersEffect, SPopEffect, ReplyBuffer.Contents,
         ReplyBuffer.Valid, IntReply, Bulk, StoredString, Ascii, NoSetReply, Enumerates, YStore.Readable, Encode;
    choice := [];
    match cmd {
      case Set(key, value) => err := YStringCommands.SetCommand(store, key, value, reply);
      case SetNx(key, value) => err := YStringCommands.SetNxCommand(store, key, value, reply);
      case Get(key) => err := YStringCommands.GetCommand(store, key, reply);
      case Push(key, values, pos, create) => err := YLists.Push(store, key, values, pos, create, reply);
      case Pop(key, pos) => err := YLists.PopCommand(store, key, pos, reply);
      case LLen(key) => err := YLists.LLenCommand(store, key, reply);
      case LRange(key, start, end) => err := YLists.LRangeCommand(store, key, start, end, reply);
      case SAdd(key, values) => err := YSets.SAddCommand(store, key, values, reply);
      case SCard(key) => err := YSets.SCardCommand(store, key, reply);
      case SMembers(key) => err, choice := YSets.SMembersCommand(store, key, reply);
      case SPop(key) => err, choice := YSets.SPopCommand(store, key, reply);
      case Unknown =>
        var _ := reply.PushData(UNKNOWN_COMMAND);
        err := ErrorOk;
    }
  }

  // ---------------------------------------------------------------- the consumer on the object

  /** Whatever the hash table chooses, every command of the run fits a fresh reply buffer when its turn comes. */
  ghost predicate FitsRun(ks: Store, cmds: seq<Command>)
    decreases |cmds|
  {
    cmds == [] || (Fits(ks, cmds[0], 0)
                   && forall choice | Enabled(ks, cmds[0], choice) ::
                         FitsRun(Exec(ks, cmds[0], choice).store, cmds[1..]))
  }

  /** One round of `consumer` on the store object, with a reply buffer of its own. */
  method Consume(store: YStore, cmd: Command) returns (srcbuf: Bytes, ghost choice: seq<Bytes>)
    requires store.Valid() && Fits(store.Current(), cmd, 0) && (cmd.Pop? ==> !PopAborts(store.Current(), cmd.key))
    modifies store, store.heap, store.Objects
    ensures store.Valid() && store.m_nDbno == old(store.m_nDbno) && store.OtherDbs() == old(store.OtherDbs())
    ensures Enabled(old(store.Current()), cmd, choice)
    ensures store.Current() == Exec(old(store.Current()), cmd, choice).store
    ensures srcbuf == Exec(old(store.Current()), cmd, choice).reply
    ensures fresh(store.Objects - old(store.Objects))
  {
    hide Owned, ObjectsOf, ViewOf, Distinct, YStore.OtherDbs, YStore.Valid, YStore.Layout, YStore.Current, Exec,
         Enabled, Fits;
    var replyBuffer := new ReplyBuffer();
    var err;
    err, choice := ExecCommand(store, cmd, replyBuffer);
    srcbuf := replyBuffer.ReadAll();
  }

  /** The consumer's loop on the store object: started without empty lists and sets, and with commands that carry
      values, it never stops at the assertion in `pop`; the store and the replies are those of the abstract run. */
  method ConsumeAll(store: YStore, cmds: seq<Command>) returns (sent: seq<Bytes>, ghost log: seq<Entry>)
    requires store.Valid() && NoEmpty(store.Current()) && FitsRun(store.Current(), cmds)
    requires forall i | 0 <= i < |cmds| :: CarriesValue(cmds[i])
    modifies store, store.heap, store.Objects
    ensures store.Valid() && store.OtherDbs() == old(store.OtherDbs()) && NoEmpty(store.Current())
    ensures |log| == |cmds| && forall i | 0 <= i < |cmds| :: log[i].cmd == cmds[i]
    ensures ValidRun(old(store.Current()), log)
    ensures store.Current() == RunStore(old(store.Current()), log) && sent == RunReplies(old(store.Current()), log)
  {
    hide Owned, ObjectsOf, ViewOf, Distinct, YStore.OtherDbs, YStore.Valid, YStore.Layout, YStore.Current, Exec,
         Enabled, Fits, CarriesValue;
    sent, log := [], [];
    ghost var ks := store.Current();
    var n := 0;
    while n < |cmds|
      invariant n <= |cmds| && store.Valid() && store.OtherDbs() == old(store.OtherDbs())
                && store.m_nDbno == old(store.m_nDbno)
      invariant NoEmpty(store.Current()) && FitsRun(store.Current(), cmds[n..])
      invariant |log| == n && forall i | 0 <= i < n :: log[i].cmd == cmds[i]
      invariant ValidRun(ks, log) && store.Current() == RunStore(ks, log) && sent == RunReplies(ks, log)
      invariant fresh(store.Objects - old(store.Objects))
    {
      ghost var cur := store.Current();
      NoAbort(cur, cmds[n]);
      var srcbuf;
      ghost var choice;
      srcbuf, choice := Consume(store, cmds[n]);
      NoEmptyAfter(cur, cmds[n], choice);
      RunAppend(ks, log, Entry(cmds[n], choice));
      assert cmds[n..][1..] == cmds[n + 1..];
      sent := sent + [srcbuf];
      log := log + [Entry(cmds[n], choice)];
      n := n + 1;
    }
  }

  lemma NoAbort(ks: Store, cmd: Command)
    requires NoEmpty(ks)
    ensures cmd.Pop? ==> !PopAborts(ks, cmd.key)
  {
  }
}
