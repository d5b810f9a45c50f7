/** The set commands, on the store's objects. */
module YSets {
  import opened ByteStrings
  import opened RespParser
  import opened RespRequests
  import opened ReplyBuffers
  import opened RespFormat
  import opened Keyspace
  import opened KeyspaceRuns
  import opened YObjects
  import opened YStores
  import opened CommandEffects

  /** The object of an existing set; otherwise null, with the first half of the error reply. */
  method GetSet(store: YStore, key: Bytes, reply: ReplyBuffer) returns (value: YObject?)
    requires store.Valid() && Room(reply, NoSetReply(store.Current(), key))
    modifies reply
    ensures reply.Valid()
    ensures value == null <==> ErrorAt(store.Current(), key, SetType) != ErrorOk
    ensures value == null ==> reply.Contents() + WRONG_TYPE == old(reply.Contents()) + NoSetReply(store.Current(), key)
    ensures value != null ==> key in store.m_vecStore[store.m_nDbno] && value == store.m_vecStore[store.m_nDbno][key]
                              && reply.Contents() == old(reply.Contents())
  {
    hide Owned, ObjectsOf, ViewOf, Distinct, YStore.Layout, YStore.Current, YStore.Readable, TagsAgree,
         YObject.Tagged, YObject.Content;
    var err;
    err, value := store.GetValueByType(key, SetType);
    if err != ErrorOk {
      if err == ErrorNotExist {
        var _ := FormatNull(reply);
      } else {
        var _ := reply.PushData(WRONG_TYPE);
      }
      return null;
    }
  }

  /** The object of a set, created when the key is new; null for a key of another type, with the first half of the
      error reply. */
  method CreateOrGetSet(store: YStore, key: Bytes, reply: ReplyBuffer) returns (value: YObject?)
    requires store.Valid() && Room(reply, WRONG_TYPE)
    modifies store, store.heap, store.Objects, reply
    ensures store.Valid() && store.m_nDbno == old(store.m_nDbno) && fresh(store.Objects - old(store.Objects))
    ensures store.OtherDbs() == old(store.OtherDbs()) && reply.Valid()
    ensures value == null <==> ErrorAt(old(store.Current()), key, SetType) == ErrorType
    ensures reply.Contents() == old(reply.Contents()) + if value == null then WRONG_TYPE else []
    ensures store.Current() == if key in old(store.Current()) then old(store.Current())
                               else old(store.Current())[key := SetV({})]
    ensures value != null ==> key in store.Current() && store.Current()[key].SetV?
                              && SetAt(store.Current(), key) == SetAt(old(store.Current()), key)
    ensures value != null ==> key in store.m_vecStore[store.m_nDbno] && value == store.m_vecStore[store.m_nDbno][key]
  {
    hide Owned, ObjectsOf, ViewOf, Distinct, YStore.Layout, YStore.Current, YStore.Readable, TagsAgree,
         YObject.Tagged, YObject.Content;
    var err;
    err, value := store.GetValueByType(key, SetType);
    if err != ErrorOk && err != ErrorNotExist {
      var _ := reply.PushData(WRONG_TYPE);
      return null;
    }
    if err == ErrorNotExist {
      var temp := YObject.CreateSet(store.heap, store.Objects);
      store.AfterCreate(temp);
      value := store.SetValue(key, temp);
    }
  }

  /** SADD: the number of members that are new. */
  method SAddCommand(store: YStore, key: Bytes, values: seq<Bytes>, reply: ReplyBuffer) returns (err: YError)
    requires store.Valid() && |values| <= INT_MAX
    requires Room(reply, SAddEffect(store.Current(), key, values).reply) && Room(reply, WRONG_TYPE)
    modifies store, store.heap, store.Objects, reply
    ensures Did(store, reply, SAddEffect(old(store.Current()), key, values), err)
    ensures fresh(store.Objects - old(store.Objects))
  {
    hide Owned, ObjectsOf, ViewOf, Distinct, IntReply, YStore.OtherDbs, YStore.Layout, YStore.Current, ToSet,
         ReplyBuffer.Valid, WRONG_TYPE, Ascii, TagsAgree, YObject.Tagged, YObject.Content, YStore.Readable,
         SAddEffect, ReplyBuffer.Contents, SetAt;
    SAddMeans(store.Current(), key, values);
    var value := CreateOrGetSet(store, key, reply);
    if value == null {
      var _ := reply.PushData(WRONG_TYPE);
      return ErrorType;
    }
    var res := InsertAll(store, key, value, values);
    var _ := FormatInt(res, reply);
    err := ErrorOk;
  }

  /** SADD in one formula: the set at the key, if any, with the values, and by how much it grew. */
  lemma SAddMeans(ks: Store, key: Bytes, values: seq<Bytes>)
    ensures var e, all := SAddEffect(ks, key, values), SetAt(ks, key) + ToSet(values);
            if ErrorAt(ks, key, SetType) == ErrorType then e == Effect(ks, ErrorType, WRONG_TYPE + WRONG_TYPE)
            else e == Effect(ks[key := SetV(all)], ErrorOk, IntReply(|all| - |SetAt(ks, key)|))
  {
    assert {} + ToSet(values) == ToSet(values);
  }

  /** A set after inserting the first `i` values. */
  function Inserted(s: set<Bytes>, values: seq<Bytes>, i: nat): set<Bytes>
    requires i <= |values|
  {
    s + ToSet(values[..i])
  }

  lemma InsertedNone(s: set<Bytes>, values: seq<Bytes>)
    ensures Inserted(s, values, 0) == s
  {
  }

  lemma InsertedAll(s: set<Bytes>, values: seq<Bytes>)
    ensures Inserted(s, values, |values|) == s + ToSet(values)
  {
    assert values[..|values|] == values;
  }

  lemma InsertedStep(s: set<Bytes>, values: seq<Bytes>, i: nat)
    requires i < |values|
    ensures var a, b := Inserted(s, values, i), Inserted(s, values, i + 1);
            if values[i] in a then b == a else b == a + {values[i]} && |b| == |a| + 1
  {
    assert values[..i + 1] == values[..i] + [values[i]];
    assert Inserted(s, values, i + 1) == Inserted(s, values, i) + {values[i]};
  }

  /** The loop of `sadd`, counting the insertions that succeed. */
  method InsertAll(store: YStore, key: Bytes, value: YObject, values: seq<Bytes>) returns (res: nat)
    requires store.Valid() && key in store.m_vecStore[store.m_nDbno] && value == store.m_vecStore[store.m_nDbno][key]
    requires key in store.Current() && store.Current()[key].SetV?
    modifies store.heap`cells
    ensures store.Valid()
    ensures var s := SetAt(old(store.Current()), key);
            store.Current() == old(store.Current())[key := SetV(s + ToSet(values))]
            && res == |s + ToSet(values)| - |s| && res <= |values|
    ensures store.OtherDbs() == old(store.OtherDbs())
  {
    hide Owned, ObjectsOf, ViewOf, Distinct, YStore.OtherDbs, Inserted, YStore.Layout, YStore.Current,
         YStore.Readable, TagsAgree, YObject.Tagged, YObject.Content;
    ghost var cur, others, s := store.Current(), store.OtherDbs(), store.Current()[key].members;
    InsertedNone(s, values);
    assert cur == cur[key := SetV(s)];
    res := 0;
    var i := 0;
    while i < |values|
      invariant i <= |values| && store.Valid()
      invariant store.Current() == cur[key := SetV(Inserted(s, values, i))] && store.OtherDbs() == others
      invariant res == |Inserted(s, values, i)| - |s| && res <= i
    {
      store.Holding(key);
      var members := value.CastSet(store.heap);
      InsertedStep(s, values, i);
      if values[i] !in members {
        store.WritePayload(value, key, SetP(members + {values[i]}));
        res := res + 1;
      }
      i := i + 1;
    }
    InsertedAll(s, values);
  }

  /** The set behind the pointer. */
  method SetBehind(store: YStore, key: Bytes, value: YObject) returns (members: set<Bytes>)
    requires store.Valid() && key in store.m_vecStore[store.m_nDbno] && value == store.m_vecStore[store.m_nDbno][key]
    requires ErrorAt(store.Current(), key, SetType) == ErrorOk
    ensures members == SetAt(store.Current(), key)
  {
    hide Owned, ObjectsOf, ViewOf, Distinct, YStore.Layout, YStore.Current, YStore.Readable, TagsAgree, YObject.Tagged,
         YObject.Content;
    store.Holding(key);
    members := value.CastSet(store.heap);
  }

  method SCardCommand(store: YStore, key: Bytes, reply: ReplyBuffer) returns (err: YError)
    requires store.Valid() && Room(reply, SCardEffect(store.Current(), key).reply)
    requires |SetAt(store.Current(), key)| <= LONG_MAX
    requires Room(reply, NoSetReply(store.Current(), key))
    modifies reply
    ensures Did(store, reply, SCardEffect(old(store.Current()), key), err)
  {
    hide Owned, ObjectsOf, ViewOf, Distinct, IntReply, YStore.OtherDbs, YStore.Layout, YStore.Current,
         YStore.Readable, TagsAgree, YObject.Tagged, YObject.Content;
    var value := GetSet(store, key, reply);
    if value == null {
      var _ := reply.PushData(WRONG_TYPE);
      return ErrorType;
    }
    var members := SetBehind(store, key, value);
    var _ := FormatInt(|members|, reply);
    err := ErrorOk;
  }

  /** SMEMBERS: all members, in the order the hash table visits them. */
  method SMembersCommand(store: YStore, key: Bytes, reply: ReplyBuffer) returns (err: YError, ghost order: seq<Bytes>)
    requires store.Valid() && Room(reply, NoSetReply(store.Current(), key))
    requires ErrorAt(store.Current(), key, SetType) == ErrorOk ==>
               OrdersFit(SetAt(store.Current(), key), |reply.Contents()|)
    modifies reply
    ensures ValidChoice(old(store.Current()), SMembers(key), order)
    ensures Did(store, reply, SMembersEffect(old(store.Current()), key, order), err)
  {
    hide Owned, ObjectsOf, ViewOf, Distinct, YStore.OtherDbs, Encode, Enumerates, YStore.Layout, YStore.Current,
         YStore.Readable, TagsAgree, YObject.Tagged, YObject.Content;
    order := [];
    var value := GetSet(store, key, reply);
    if value == null {
      var _ := reply.PushData(WRONG_TYPE);
      return ErrorType, order;
    }
    var members := SetBehind(store, key, value);
    order := SendMembers(members, reply);
    err := ErrorOk;
  }

  /** Behind `held` bytes the reply buffer can take the members, in whichever order they come. */
  ghost predicate OrdersFit(members: set<Bytes>, held: nat) {
    |members| < SIZE_LIMIT && (forall x | x in members :: |x| < SIZE_LIMIT)
    && forall order | Enumerates(order, members) :: held + |Encode(order)| <= MAX_BUFFER_SIZE
  }

  lemma {:induction false} EnumerationLength(order: seq<Bytes>, s: set<Bytes>)
    requires Enumerates(order, s)
    ensures |order| == |s|
    decreases |order|
  {
    if order == [] {
      assert s == {};
    } else {
      var n := |order| - 1;
      assert Enumerates(order[..n], s - {order[n]}) by {
        forall x | x in s - {order[n]} ensures x in order[..n] {
          var i :| 0 <= i < |order| && order[i] == x;
          assert order[..n][i] == x;
        }
      }
      EnumerationLength(order[..n], s - {order[n]});
    }
  }

  /** Whatever is still to come, the next member fits. */
  lemma NextFits(order: seq<Bytes>, m: Bytes, rest: set<Bytes>, members: set<Bytes>)
    returns (full: seq<Bytes>)
    requires m in rest && Enumerates(order, members - rest) && rest <= members
    ensures Enumerates(full, members) && order + [m] <= full && Enumerates(order + [m], members - (rest - {m}))
  {
    var tail := EnumerationExists(rest - {m});
    full := order + [m] + tail;
    forall x | x in members ensures x in full {
      if x in rest - {m} { assert x in tail; }
    }
    forall i, j | 0 <= i < j < |full| ensures full[i] != full[j] {
      var k := |order|;
      if j < k {
        assert full[i] == order[i] && full[j] == order[j];
      } else if i < k {
        assert order[i] in order;
        if j > k { assert tail[j - k - 1] in tail; }
      } else if i == k {
        assert tail[j - k - 1] in tail;
      } else {
        assert full[i] == tail[i - k - 1] && full[j] == tail[j - k - 1];
      }
    }
  }

  /** The loop of `smember`. */
  method SendMembers(members: set<Bytes>, reply: ReplyBuffer) returns (ghost order: seq<Bytes>)
    requires reply.Valid() && OrdersFit(members, |reply.Contents()|)
    modifies reply
    ensures reply.Valid() && Enumerates(order, members) && reply.Contents() == old(reply.Contents()) + Encode(order)
  {
    hide Bulk, Bulks, Header, Enumerates, Encode, OrdersFit;
    AnyOrderFits(members, |reply.Contents()|);
    var _ := PreFormatMultiBulk(|members|, reply);
    ghost var head := reply.Contents();
    NoBulks();
    order := [];
    var rest := members;
    NothingYet(members);
    while rest != {}
      invariant rest <= members && Enumerates(order, members - rest)
      invariant reply.Valid() && reply.Contents() == head + Bulks(order)
      decreases rest
    {
      var m :| m in rest;
      NextMember(order, m, rest, members, |old(reply.Contents())|);
      var _ := FormatBulk(m, reply);
      order := order + [m];
      rest := rest - {m};
    }
    assert members - rest == members;
    EncodeOf(order, members);
  }

  lemma EncodeOf(order: seq<Bytes>, members: set<Bytes>)
    requires Enumerates(order, members)
    ensures Encode(order) == Header(STAR, |members|) + Bulks(order)
  {
    EnumerationLength(order, members);
  }

  lemma AnyOrderFits(members: set<Bytes>, held: nat)
    requires OrdersFit(members, held)
    ensures |members| < SIZE_LIMIT && held + |Header(STAR, |members|)| <= MAX_BUFFER_SIZE
  {
    var full := EnumerationExists(members);
    EncodeOf(full, members);
  }

  /** Whatever order the rest takes, the next member fits behind those already sent. */
  lemma NextMember(order: seq<Bytes>, m: Bytes, rest: set<Bytes>, members: set<Bytes>, held: nat)
    requires OrdersFit(members, held)
    requires m in rest && Enumerates(order, members - rest) && rest <= members
    ensures Enumerates(order + [m], members - (rest - {m})) && |m| < SIZE_LIMIT
    ensures Bulks(order + [m]) == Bulks(order) + Bulk(m)
    ensures held + |Header(STAR, |members|)| + |Bulks(order)| + |Bulk(m)| <= MAX_BUFFER_SIZE
  {
    hide Bulk, Bulks, Header, Enumerates, Encode;
    var full := NextFits(order, m, rest, members);
    EncodeOf(full, members);
    BulksUpTo(full, |order|);
    assert full[..|order| + 1] == order + [m] && full[|order|] == m && full[..|order|] == order;
  }

  lemma NothingYet(members: set<Bytes>)
    ensures Enumerates([], members - members)
  {
  }

  /** SPOP: draws any member; the last one takes the key with it. */
  method SPopCommand(store: YStore, key: Bytes, reply: ReplyBuffer) returns (err: YError, ghost choice: seq<Bytes>)
    requires store.Valid() && Room(reply, NoSetReply(store.Current(), key)) && Room(reply, NULL_BULK)
    requires forall x | x in SetAt(store.Current(), key) :: |x| < SIZE_LIMIT && Room(reply, Bulk(x))
    modifies store, store.heap, reply
    ensures ValidChoice(old(store.Current()), SPop(key), choice)
    ensures Did(store, reply, SPopEffect(old(store.Current()), key, choice), err) && store.Objects <= old(store.Objects)
  {
    hide Owned, ObjectsOf, ViewOf, Distinct, YStore.OtherDbs, YStore.Layout, YStore.Current, Bulk, ReplyBuffer.Valid,
         WRONG_TYPE, NULL_BULK, Ascii, TagsAgree, YObject.Tagged, YObject.Content, YStore.Readable,
         ReplyBuffer.Contents, NoSetReply;
    choice := [];
    var value := GetSet(store, key, reply);
    if value == null {
      var _ := reply.PushData(WRONG_TYPE);
      return ErrorType, choice;
    }
    var members := SetBehind(store, key, value);
    if members == {} {
      var _ := FormatNull(reply);
      return ErrorNotExist, choice;
    }
    choice := DrawMember(store, key, value, members, reply);
    err := ErrorOk;
  }

  /** The end of `spop`: any member is sent and erased. */
  method DrawMember(store: YStore, key: Bytes, value: YObject, members: set<Bytes>, reply: ReplyBuffer)
    returns (ghost choice: seq<Bytes>)
    requires store.Valid() && key in store.m_vecStore[store.m_nDbno] && value == store.m_vecStore[store.m_nDbno][key]
    requires ErrorAt(store.Current(), key, SetType) == ErrorOk && members == SetAt(store.Current(), key)
             && members != {}
    requires reply.Valid() && forall x | x in members :: |x| < SIZE_LIMIT && Room(reply, Bulk(x))
    modifies store, store.heap, reply
    ensures |choice| == 1 && choice[0] in members && store.Objects <= old(store.Objects)
    ensures Did(store, reply, SPopEffect(old(store.Current()), key, choice), ErrorOk)
  {
    hide Owned, ObjectsOf, ViewOf, Distinct, YStore.OtherDbs, YStore.Layout, YStore.Current, Bulk, ReplyBuffer.Valid,
         TagsAgree, YObject.Tagged, YObject.Content, YStore.Readable, ReplyBuffer.Contents, SPopEffect;
    var res :| res in members;
    choice := [res];
    SPopMeans(store.Current(), key, choice);
    var _ := FormatBulk(res, reply);
    EraseMember(store, key, value, res);
  }

  /** SPOP of a member that is there. */
  lemma SPopMeans(ks: Store, key: Bytes, choice: seq<Bytes>)
    requires ErrorAt(ks, key, SetType) == ErrorOk && |choice| == 1 && choice[0] in SetAt(ks, key)
    ensures var rest := SetAt(ks, key) - {choice[0]};
            SPopEffect(ks, key, choice)
            == Effect(if rest == {} then ks - {key} else ks[key := SetV(rest)], ErrorOk, Bulk(choice[0]))
  {
  }

  /** Erases a member, and the key when it was the last one. */
  method EraseMember(store: YStore, key: Bytes, value: YObject, res: Bytes)
    requires store.Valid() && key in store.m_vecStore[store.m_nDbno] && value == store.m_vecStore[store.m_nDbno][key]
    requires ErrorAt(store.Current(), key, SetType) == ErrorOk
    modifies store, store.heap
    ensures store.Valid() && store.m_nDbno == old(store.m_nDbno) && store.OtherDbs() == old(store.OtherDbs())
    ensures store.Objects <= old(store.Objects)
    ensures var rest := SetAt(old(store.Current()), key) - {res};
            store.Current()
            == if rest == {} then old(store.Current()) - {key} else old(store.Current())[key := SetV(rest)]
  {
    hide Owned, ObjectsOf, ViewOf, Distinct, YStore.OtherDbs, YStore.Layout, YStore.Current, YStore.Readable,
         TagsAgree, YObject.Tagged, YObject.Content;
    store.Holding(key);
    var members := SetBehind(store, key, value);
    var rest := members - {res};
    ghost var cur := store.Current();
    store.WritePayload(value, key, SetP(rest));
    if rest == {} {
      var _ := store.DeleteKey(key);
      assert cur[key := SetV({})] - {key} == cur - {key};
    }
  }
}
