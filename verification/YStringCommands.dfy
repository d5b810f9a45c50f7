/** The string commands, on the store's objects. */
module YStringCommands {
  import opened ByteStrings
  import opened RespRequests
  import opened ReplyBuffers
  import opened RespFormat
  import opened Keyspace
  import opened YObjects
  import opened YStores
  import opened CommandEffects

  /** Stores a string; exclusive, only where there is nothing yet. */
  method SetStringValue(store: YStore, key: Bytes, value: Bytes, exclusive: bool) returns (done: bool)
    requires store.Valid()
    modifies store, store.heap, store.Objects
    ensures store.Valid() && store.m_nDbno == old(store.m_nDbno) && fresh(store.Objects - old(store.Objects))
    ensures store.OtherDbs() == old(store.OtherDbs())
    ensures done <==> !(exclusive && key in old(store.Current()))
    ensures store.Current() == if done then old(store.Current())[key := StoredString(value)] else old(store.Current())
  {
    hide Owned, ObjectsOf, ViewOf, Distinct, YStore.Layout, YStore.Current, YStore.Readable, TagsAgree,
         YObject.Tagged, YObject.Content;
    if exclusive {
      var err, val := store.GetValueByType(key, InvalidType);
      if err == ErrorOk {
        return false;
      }
    }
    var temp := YObject.CreateString(store.heap, value, store.Objects);
    store.AfterCreate(temp);
    var _ := store.SetValue(key, temp);
    done := true;
  }

  method SetCommand(store: YStore, key: Bytes, value: Bytes, reply: ReplyBuffer) returns (err: YError)
    requires store.Valid() && Room(reply, OK_REPLY)
    modifies store, store.heap, store.Objects, reply
    ensures Did(store, reply, Exec(old(store.Current()), Set(key, value), []), err)
    ensures fresh(store.Objects - old(store.Objects))
  {
    hide Owned, ObjectsOf, ViewOf, Distinct, YStore.OtherDbs, StoredString, YStore.Layout, YStore.Current,
         YStore.Readable, TagsAgree, YObject.Tagged, YObject.Content;
    var _ := SetStringValue(store, key, value, false);
    var _ := reply.PushData(OK_REPLY);
    err := ErrorOk;
  }

  method SetNxCommand(store: YStore, key: Bytes, value: Bytes, reply: ReplyBuffer) returns (err: YError)
    requires store.Valid() && Room(reply, Exec(store.Current(), SetNx(key, value), []).reply)
    modifies store, store.heap, store.Objects, reply
    ensures Did(store, reply, Exec(old(store.Current()), SetNx(key, value), []), err)
    ensures fresh(store.Objects - old(store.Objects))
  {
    hide Owned, ObjectsOf, ViewOf, Distinct, YStore.OtherDbs, StoredString, YStore.Layout, YStore.Current,
         YStore.Readable, TagsAgree, YObject.Tagged, YObject.Content;
    var done := SetStringValue(store, key, value, true);
    if done {
      assert IntReply(1) == [COLON, ZERO + 1, CR, LF];
      var _ := reply.PushData([COLON, ZERO + 1, CR, LF]);
    } else {
      assert IntReply(0) == [COLON, ZERO, CR, LF];
      var _ := reply.PushData([COLON, ZERO, CR, LF]);
    }
    err := ErrorOk;
  }

  /** The text of a string object, printed when it is kept as an integer. */
  method GetDecodeString(store: YStore, obj: YObject) returns (s: Bytes)
    requires obj.Tagged(store.heap) && obj.typ == StringType
    ensures obj.encoding != EncInvalid && obj.Content(store.heap).Type() == StringType
            && s == obj.Content(store.heap).Text()
  {
    if obj.encoding == EncRaw {
      s := obj.CastString(store.heap);
    } else {
      s := Dec(obj.value.n);
    }
  }

  method GetCommand(store: YStore, key: Bytes, reply: ReplyBuffer) returns (err: YError)
    requires store.Valid() && Room(reply, Exec(store.Current(), Get(key), []).reply)
    requires ErrorAt(store.Current(), key, StringType) == ErrorOk ==> |store.Current()[key].Text()| < SIZE_LIMIT
    modifies reply
    ensures Did(store, reply, Exec(old(store.Current()), Get(key), []), err)
  {
    hide Owned, ObjectsOf, ViewOf, Distinct, YStore.OtherDbs, YStore.Layout, YStore.Current, ReplyBuffer.Valid,
         YStore.Readable, TagsAgree, YObject.Tagged, YObject.Content;
    var value;
    err, value := store.GetValueByType(key, StringType);
    if err != ErrorOk {
      if err == ErrorNotExist {
        var _ := reply.PushData(NULL_BULK);
      } else {
        var _ := reply.PushData(NO_SUCH_KEY);
      }
      return;
    }
    store.Holding(key);
    store.ContentType(value);
    var strValue := GetDecodeString(store, value);
    SendString(strValue, reply);
  }

  /** The end of `getCmd`, which writes the bulk string piece by piece. */
  method SendString(strValue: Bytes, reply: ReplyBuffer)
    requires |strValue| < SIZE_LIMIT && Room(reply, Bulk(strValue))
    modifies reply
    ensures reply.Valid() && reply.Contents() == old(reply.Contents()) + Bulk(strValue)
  {
    hide ReplyBuffer.Contents, ReplyBuffer.Valid, Header;
    ghost var was, h := reply.Contents(), Header(DOLLAR, |strValue|);
    PushHeader(DOLLAR, |strValue|, reply);
    var _ := reply.PushData(strValue);
    assert reply.Contents() == was + h + strValue;
    var _ := reply.PushData(CRLF);
    assert was + h + strValue + CRLF == was + Bulk(strValue);
  }
}
