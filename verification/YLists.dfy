/** The list commands, on the store's objects. */
module YLists {
  import opened ByteStrings
  import opened YStrings
  import opened RespRequests
  import opened ReplyBuffers
  import opened RespFormat
  import opened Keyspace
  import opened KeyspaceRuns
  import opened YObjects
  import opened YStores
  import opened CommandEffects

  lemma PushedSnoc(items: seq<Bytes>, values: seq<Bytes>, i: nat, pos: ListPosition)
    requires i < |values|
    ensures Pushed(items, values[..i + 1], pos)
            == if pos.Head? then [values[i]] + Pushed(items, values[..i], pos)
                else Pushed(items, values[..i], pos) + [values[i]]
  {
    if pos.Head? {
      var a, b := Reverse(values[..i + 1]), [values[i]] + Reverse(values[..i]);
      assert |a| == |b| && forall k :: 0 <= k < |a| ==> a[k] == b[k];
      assert [values[i]] + (Reverse(values[..i]) + items) == b + items;
    } else {
      assert values[..i + 1] == values[..i] + [values[i]];
    }
  }

  lemma PushedNone(items: seq<Bytes>, pos: ListPosition)
    ensures Pushed(items, [], pos) == items
  {
  }

  /** Pushes values one by one at one end, creating the list when asked to. */
  method Push(store: YStore, key: Bytes, values: seq<Bytes>, pos: ListPosition, createIfNotExist: bool,
              reply: ReplyBuffer)
    returns (err: YError)
    requires store.Valid() && |Held(store.Current(), key)| + |values| <= LONG_MAX
    requires Room(reply, PushEffect(store.Current(), key, values, pos, createIfNotExist).reply)
    modifies store, store.heap, store.Objects, reply
    ensures Did(store, reply, PushEffect(old(store.Current()), key, values, pos, createIfNotExist), err)
    ensures fresh(store.Objects - old(store.Objects))
  {
    hide Owned, ObjectsOf, ViewOf, Distinct, Pushed, IntReply, YStore.OtherDbs, YStore.Layout, YStore.Current,
         ReplyBuffer.Valid, TagsAgree, YObject.Tagged, YObject.Content, YStore.Readable;
    var value;
    err, value := ListForPush(store, key, createIfNotExist);
    if err != ErrorOk {
      var _ := reply.PushData(NO_SUCH_KEY);
      return;
    }
    PushAll(store, key, value, values, pos);
    var size := ListSize(store, key, value);
    var _ := FormatInt(size, reply);
  }

  /** The first half of `push`: finds the list, or creates it when asked to. */
  method ListForPush(store: YStore, key: Bytes, createIfNotExist: bool) returns (err: YError, value: YObject?)
    requires store.Valid()
    modifies store, store.heap, store.Objects
    ensures store.Valid() && store.m_nDbno == old(store.m_nDbno) && fresh(store.Objects - old(store.Objects))
    ensures store.OtherDbs() == old(store.OtherDbs())
    ensures var found := ErrorAt(old(store.Current()), key, ListType);
            err == if found == ErrorNotExist && createIfNotExist then ErrorOk else found
    ensures store.Current()
            == if err == ErrorOk && key !in old(store.Current()) then old(store.Current())[key := ListV([])]
               else old(store.Current())
    ensures err == ErrorOk ==> key in store.m_vecStore[store.m_nDbno] && value == store.m_vecStore[store.m_nDbno][key]
  {
    hide Owned, ObjectsOf, ViewOf, Distinct, YStore.Layout, YStore.Current, YStore.Readable, TagsAgree,
         YObject.Tagged, YObject.Content;
    err, value := store.GetValueByType(key, ListType);
    if err == ErrorNotExist && createIfNotExist {
      var temp := YObject.CreateList(store.heap, store.Objects);
      store.AfterCreate(temp);
      value := store.SetValue(key, temp);
      err := ErrorOk;
    }
  }

  /** The size of the list behind the pointer. */
  method ListSize(store: YStore, key: Bytes, value: YObject) returns (n: nat)
    requires store.Valid() && key in store.m_vecStore[store.m_nDbno] && value == store.m_vecStore[store.m_nDbno][key]
    requires key in store.Current() && store.Current()[key].ListV?
    ensures n == |store.Current()[key].items|
  {
    hide Owned, ObjectsOf, ViewOf, Distinct, YStore.Layout, YStore.Current, YStore.Readable, TagsAgree,
         YObject.Tagged, YObject.Content;
    store.Holding(key);
    n := |value.CastList(store.heap)|;
  }

  /** The loop of `push`, through the pointer of the key's list. */
  method PushAll(store: YStore, key: Bytes, value: YObject, values: seq<Bytes>, pos: ListPosition)
    requires store.Valid() && key in store.m_vecStore[store.m_nDbno] && value == store.m_vecStore[store.m_nDbno][key]
    requires key in store.Current() && store.Current()[key].ListV?
    modifies store.heap`cells
    ensures store.Valid()
    ensures store.Current() == old(store.Current())[key := ListV(Pushed(old(store.Current())[key].items, values, pos))]
    ensures store.OtherDbs() == old(store.OtherDbs())
  {
    hide Owned, ObjectsOf, ViewOf, Distinct, Pushed, YStore.OtherDbs, YStore.Layout, YStore.Current, YStore.Readable,
         TagsAgree, YObject.Tagged, YObject.Content;
    ghost var cur, others, items := store.Current(), store.OtherDbs(), store.Current()[key].items;
    PushedNone(items, pos);
    assert values[..0] == [] && cur == cur[key := ListV(items)];
    var i := 0;
    while i < |values|
      invariant i <= |values| && store.Valid()
      invariant store.Current() == cur[key := ListV(Pushed(items, values[..i], pos))] && store.OtherDbs() == others
    {
      store.Holding(key);
      var list := value.CastList(store.heap);
      PushedSnoc(items, values, i, pos);
      if pos == Head {
        list := [values[i]] + list;
      } else {
        list := list + [values[i]];
      }
      store.WritePayload(value, key, ListP(list));
      i := i + 1;
    }
    assert values[..i] == values;
  }

  /** Takes a value off one end; a list that becomes empty loses its key. */
  method Pop(store: YStore, key: Bytes, pos: ListPosition) returns (err: YError, result: Bytes)
    requires store.Valid() && !PopAborts(store.Current(), key)
    modifies store, store.heap
    ensures store.Valid() && store.m_nDbno == old(store.m_nDbno) && store.Objects <= old(store.Objects)
    ensures store.OtherDbs() == old(store.OtherDbs())
    ensures var e := PopEffect(old(store.Current()), key, pos); err == e.err && store.Current() == e.store
    ensures err == ErrorOk ==> key in old(store.Current()) && old(store.Current())[key].ListV?
                               && result == Front(old(store.Current())[key].items, pos)
  {
    hide Owned, ObjectsOf, ViewOf, Distinct, YStore.OtherDbs, YStore.Layout, YStore.Current, YStore.Readable,
         TagsAgree, YObject.Tagged, YObject.Content;
    var value;
    result := [];
    err, value := store.GetValueByType(key, ListType);
    if err != ErrorOk {
      return;
    }
    store.Holding(key);
    var list := value.CastList(store.heap);
    assert list != [];
    if pos == Head {
      result := list[0];
      list := list[1..];
    } else {
      result := list[|list| - 1];
      list := list[..|list| - 1];
    }
    ghost var cur := store.Current();
    store.WritePayload(value, key, ListP(list));
    if list == [] {
      var _ := store.DeleteKey(key);
      assert cur[key := ListV([])] - {key} == cur - {key};
    }
  }

  /** LPOP and RPOP: the value, or no reply at all. */
  method PopCommand(store: YStore, key: Bytes, pos: ListPosition, reply: ReplyBuffer) returns (err: YError)
    requires store.Valid() && !PopAborts(store.Current(), key)
    requires forall x | x in Held(store.Current(), key) :: |x| < SIZE_LIMIT
    requires Room(reply, PopEffect(store.Current(), key, pos).reply)
    modifies store, store.heap, reply
    ensures Did(store, reply, PopEffect(old(store.Current()), key, pos), err) && store.Objects <= old(store.Objects)
  {
    hide Owned, ObjectsOf, ViewOf, Distinct, YStore.OtherDbs, YStore.Layout, YStore.Current, YStore.Readable,
         TagsAgree, YObject.Tagged, YObject.Content;
    var result;
    err, result := Pop(store, key, pos);
    if err == ErrorOk {
      assert result in Held(old(store.Current()), key);
      var _ := FormatBulk(result, reply);
    }
  }

  method LLenCommand(store: YStore, key: Bytes, reply: ReplyBuffer) returns (err: YError)
    requires store.Valid() && |Held(store.Current(), key)| <= LONG_MAX
    requires Room(reply, Exec(store.Current(), LLen(key), []).reply)
    modifies reply
    ensures Did(store, reply, Exec(old(store.Current()), LLen(key), []), err)
  {
    hide Owned, ObjectsOf, ViewOf, Distinct, YStore.OtherDbs, YStore.Layout, YStore.Current, YStore.Readable,
         TagsAgree, YObject.Tagged, YObject.Content;
    var value;
    err, value := store.GetValueByType(key, ListType);
    if err != ErrorOk {
      if err == ErrorType {
        var _ := reply.PushData(UNKNOWN_COMMAND);
      } else {
        var _ := Format0(reply);
      }
      return;
    }
    var size := ListSize(store, key, value);
    var _ := FormatInt(size, reply);
  }

  // ---------------------------------------------------------------- LRANGE

  /** Normalises the two indexes in place: negative ones count from the tail, the start is at least 0, the end at most
      the last. */
  method AdjustIndexes(start: int, end: int, size: nat) returns (s: int, e: int)
    ensures (s, e) == AdjustIndex(start, end, size)
  {
    s, e := start, end;
    if size == 0 {
      e := 0;
      s := 1;
      return;
    }
    if s < 0 {
      s := s + size;
    }
    if s < 0 {
      s := 0;
    }
    if e < 0 {
      e := e + size;
    }
    if e >= size {
      e := size - 1;
    }
  }

  /** Walks to an index from the nearer end; positions in the list stand for iterators. */
  method Walk(index: int, size: nat) returns (it: int, moves: nat)
    requires 0 <= index < size
    ensures it == index && moves <= size / 2
  {
    moves := 0;
    var i := index;
    if i * 2 < size {
      it := 0;
      while i > 0
        invariant 0 <= i && it == index - i && moves == index - i
      {
        i := i - 1;
        it := it + 1;
        moves := moves + 1;
      }
    } else {
      it := size;
      while i < size
        invariant index <= i <= size && it == size - (i - index) && moves == i - index
        decreases size - i
      {
        i := i + 1;
        it := it - 1;
        moves := moves + 1;
      }
    }
  }

  /** Sets the iterators that are asked for, each by a walk from the nearer end, and leaves the other as it is. */
  method Index2Iterator(start: int, end: int, size: nat, wantBegin: bool, wantEnd: bool, begin0: int, end0: int)
    returns (beginIt: int, endIt: int, moves: nat)
    requires 0 <= start <= end < size
    ensures beginIt == (if wantBegin then start else begin0) && endIt == (if wantEnd then end else end0)
    ensures moves <= (if wantBegin then size / 2 else 0) + (if wantEnd then size / 2 else 0)
  {
    beginIt, endIt, moves := begin0, end0, 0;
    var walked;
    if wantBegin {
      beginIt, walked := Walk(start, size);
      moves := moves + walked;
    }
    if wantEnd {
      endIt, walked := Walk(end, size);
      moves := moves + walked;
    }
  }

  /** The length of the range and the positions of its first and last item; the end of the list when it is empty. */
  method GetRange(start: int, end: int, size: nat, wantBegin: bool, wantEnd: bool, begin0: int, end0: int)
    returns (rangeLen: nat, beginIt: int, endIt: int)
    requires start <= end ==> 0 <= start && end < size
    ensures rangeLen == if start > end then 0 else end - start + 1
    ensures beginIt == if !wantBegin then begin0 else if start > end then size else start
    ensures endIt == if !wantEnd then end0 else if start > end then size else end
  {
    rangeLen, beginIt, endIt := 0, begin0, end0;
    if start > end {
      if wantBegin {
        beginIt := size;
      }
      if wantEnd {
        endIt := size;
      }
    } else if start != 0 || end + 1 != size {
      rangeLen := end - start + 1;
      var moves;
      beginIt, endIt, moves := Index2Iterator(start, end, size, wantBegin, wantEnd, begin0, end0);
    } else {
      rangeLen := size;
      if wantBegin {
        beginIt := 0;
      }
      if wantEnd {
        endIt := size - 1;
      }
    }
  }

  /** LRANGE: the Redis slice as an array of bulk strings, or no reply when the key or the indexes are not usable. */
  method LRangeCommand(store: YStore, key: Bytes, startText: Bytes, endText: Bytes, reply: ReplyBuffer)
    returns (err: YError)
    requires store.Valid() && |Held(store.Current(), key)| <= LONG_MAX
    requires forall x | x in Held(store.Current(), key) :: |x| < SIZE_LIMIT
    requires Room(reply, LRangeEffect(store.Current(), key, startText, endText).reply)
    modifies reply
    ensures Did(store, reply, LRangeEffect(old(store.Current()), key, startText, endText), err)
  {
    hide Owned, ObjectsOf, ViewOf, Distinct, YStore.OtherDbs, StringToLong, RedisRange, Encode, YStore.Layout,
         YStore.Current, YStore.Readable, TagsAgree, YObject.Tagged, YObject.Content;
    var value;
    err, value := store.GetValueByType(key, ListType);
    if err != ErrorOk {
      return;
    }
    var start, end := StringToLong(startText), StringToLong(endText);
    if start.None? || end.None? {
      return;
    }
    store.Holding(key);
    var list := value.CastList(store.heap);
    SendRange(list, start.value, end.value, reply);
  }

  /** The second half of `lrange`. */
  method SendRange(list: seq<Bytes>, start: int, end: int, reply: ReplyBuffer)
    requires |list| < SIZE_LIMIT && forall x | x in list :: |x| < SIZE_LIMIT
    requires Room(reply, Encode(RedisRange(list, start, end)))
    modifies reply
    ensures reply.Valid() && reply.Contents() == old(reply.Contents()) + Encode(RedisRange(list, start, end))
  {
    AdjustedSliceIsRedisRange(list, start, end);
    hide RedisRange;
    var s, e := AdjustIndexes(start, end, |list|);
    var rangeLen, beginIter, _ := GetRange(s, e, |list|, true, false, 0, 0);
    SendItems(list, beginIter, rangeLen, reply);
  }

  /** The header and the items from an iterator on. */
  method SendItems(list: seq<Bytes>, beginIter: nat, rangeLen: nat, reply: ReplyBuffer)
    requires beginIter + rangeLen <= |list| < SIZE_LIMIT && forall x | x in list :: |x| < SIZE_LIMIT
    requires Room(reply, Encode(list[beginIter..beginIter + rangeLen]))
    modifies reply
    ensures reply.Valid() && reply.Contents() == old(reply.Contents()) + Encode(list[beginIter..beginIter + rangeLen])
  {
    hide Bulk, Bulks, Header;
    ghost var range := list[beginIter..beginIter + rangeLen];
    NoBulks();
    var _ := PreFormatMultiBulk(rangeLen, reply);
    ghost var head := reply.Contents();
    var it, left := beginIter, rangeLen;
    assert range[..0] == [];
    if it != |list| {
      while left != 0
        invariant 0 <= left <= rangeLen && it == beginIter + (rangeLen - left)
        invariant reply.Valid() && reply.Contents() == head + Bulks(range[..rangeLen - left])
        decreases left
      {
        BulksUpTo(range, rangeLen - left);
        var _ := FormatBulk(list[it], reply);
        it := it + 1;
        left := left - 1;
      }
    }
    assert range[..rangeLen] == range;
  }
}
