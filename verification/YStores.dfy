/** The databases: maps from keys to value objects, whose meaning is a sequence of abstract stores. */
module YStores {
  import opened ByteStrings
  import opened Keyspace
  import opened YObjects

  const K_MAX_DB_NUM: nat := 65536

  ghost function ObjectsOf(vec: seq<map<Bytes, YObject>>): set<YObject> {
    set d, k | 0 <= d < |vec| && k in vec[d] :: vec[d][k]
  }

  ghost function ViewOf(vec: seq<map<Bytes, YObject>>, c: map<YObject, Value>): (r: seq<Store>)
    requires ObjectsOf(vec) <= c.Keys
    ensures |r| == |vec|
  {
    seq(|vec|, d requires 0 <= d < |vec| => map k | k in vec[d] :: c[vec[d][k]])
  }

  /** A key shows the content of its object. */
  lemma ViewAt(vec: seq<map<Bytes, YObject>>, c: map<YObject, Value>, d: nat, key: Bytes)
    requires ObjectsOf(vec) <= c.Keys && d < |vec| && key in vec[d]
    ensures vec[d][key] in c && key in ViewOf(vec, c)[d] && ViewOf(vec, c)[d][key] == c[vec[d][key]]
  {
  }

  ghost predicate Distinct(vec: seq<map<Bytes, YObject>>) {
    forall d, k, e, l | 0 <= d < |vec| && k in vec[d] && 0 <= e < |vec| && l in vec[e] ::
      vec[d][k] == vec[e][l] ==> d == e && k == l
  }

  lemma PutLayout(vec: seq<map<Bytes, YObject>>, d: nat, key: Bytes, o: YObject)
    requires Distinct(vec) && d < |vec|
    requires if key in vec[d] then o == vec[d][key] else o !in ObjectsOf(vec)
    ensures var vec1 := vec[d := vec[d][key := o]];
            ObjectsOf(vec1) == ObjectsOf(vec) + {o} && Distinct(vec1)
  {
    var vec1 := vec[d := vec[d][key := o]];
    assert vec1[d][key] == o;
    forall x | x in ObjectsOf(vec) ensures x in ObjectsOf(vec1) {
      var e, k :| 0 <= e < |vec| && k in vec[e] && vec[e][k] == x;
      assert vec1[e][k] == x;
    }
  }

  /** Replacing the content of one key's object, or giving a new key a new object. */
  lemma ViewPut(vec: seq<map<Bytes, YObject>>, c: map<YObject, Value>, d: nat, key: Bytes, o: YObject, v: Value)
    requires ObjectsOf(vec) <= c.Keys && Distinct(vec) && d < |vec|
    requires if key in vec[d] then o == vec[d][key] else o !in ObjectsOf(vec)
    ensures var vec1 := vec[d := vec[d][key := o]];
            ObjectsOf(vec1) == ObjectsOf(vec) + {o} && Distinct(vec1)
            && ViewOf(vec1, c[o := v]) == ViewOf(vec, c)[d := ViewOf(vec, c)[d][key := v]]
  {
    hide Distinct, ObjectsOf;
    PutLayout(vec, d, key, o);
    var vec1, c1 := vec[d := vec[d][key := o]], c[o := v];
    var r, q := ViewOf(vec1, c1), ViewOf(vec, c)[d := ViewOf(vec, c)[d][key := v]];
    forall e | 0 <= e < |vec| ensures r[e] == q[e] {
      assert r[e].Keys == q[e].Keys;
      forall k | k in r[e] ensures r[e][k] == q[e][k] {
        if e != d || k != key {
          OwnObject(vec, e, k);
          if key in vec[d] {
            OtherObject(vec, d, key, e, k);
          }
          assert vec1[e][k] == vec[e][k] && vec[e][k] != o;
        }
      }
    }
  }

  lemma OwnObject(vec: seq<map<Bytes, YObject>>, d: nat, key: Bytes)
    requires d < |vec| && key in vec[d]
    ensures vec[d][key] in ObjectsOf(vec)
  {
  }

  lemma OtherObject(vec: seq<map<Bytes, YObject>>, d: nat, key: Bytes, e: nat, k: Bytes)
    requires Distinct(vec) && d < |vec| && key in vec[d] && e < |vec| && k in vec[e] && (e != d || k != key)
    ensures vec[d][key] != vec[e][k]
  {
  }

  /** Empty databases at the end add no object. */
  lemma MoreEmpty(vec: seq<map<Bytes, YObject>>, more: seq<map<Bytes, YObject>>, c: map<YObject, Value>)
    requires ObjectsOf(vec) <= c.Keys && vec <= more && forall d | |vec| <= d < |more| :: more[d] == map[]
    ensures ObjectsOf(more) == ObjectsOf(vec) && (Distinct(vec) <==> Distinct(more))
    ensures ViewOf(vec, c) == ViewOf(more, c)[..|vec|]
    ensures forall d | |vec| <= d < |more| :: ViewOf(more, c)[d] == map[]
  {
    forall x | x in ObjectsOf(vec) ensures x in ObjectsOf(more) {
      var e, k :| 0 <= e < |vec| && k in vec[e] && vec[e][k] == x;
      assert more[e][k] == x;
    }
    assert forall d, k | 0 <= d < |more| && k in more[d] :: d < |vec| && more[d] == vec[d];
  }

  lemma EraseLayout(vec: seq<map<Bytes, YObject>>, d: nat, key: Bytes)
    requires Distinct(vec) && d < |vec| && key in vec[d]
    ensures var vec1 := vec[d := vec[d] - {key}];
            ObjectsOf(vec1) == ObjectsOf(vec) - {vec[d][key]} && Distinct(vec1)
  {
    var vec1 := vec[d := vec[d] - {key}];
    forall x | x in ObjectsOf(vec) && x != vec[d][key] ensures x in ObjectsOf(vec1) {
      var e, k :| 0 <= e < |vec| && k in vec[e] && vec[e][k] == x;
      assert k in vec1[e] && vec1[e][k] == x;
    }
    forall e, k | 0 <= e < |vec1| && k in vec1[e] ensures vec1[e][k] in ObjectsOf(vec) && vec1[e][k] != vec[d][key] {
      assert vec1[e][k] == vec[e][k];
    }
  }

  lemma ViewErase(vec: seq<map<Bytes, YObject>>, c: map<YObject, Value>, d: nat, key: Bytes, c1: map<YObject, Value>)
    requires ObjectsOf(vec) <= c.Keys && Distinct(vec) && d < |vec| && key in vec[d]
    requires forall x | x in ObjectsOf(vec) && x != vec[d][key] :: x in c1 && c1[x] == c[x]
    ensures var vec1 := vec[d := vec[d] - {key}];
            ObjectsOf(vec1) == ObjectsOf(vec) - {vec[d][key]} && Distinct(vec1)
            && ViewOf(vec1, c1) == ViewOf(vec, c)[d := ViewOf(vec, c)[d] - {key}]
  {
    hide Distinct, ObjectsOf;
    EraseLayout(vec, d, key);
    var vec1 := vec[d := vec[d] - {key}];
    var r, q := ViewOf(vec1, c1), ViewOf(vec, c)[d := ViewOf(vec, c)[d] - {key}];
    forall e | 0 <= e < |vec| ensures r[e] == q[e] {
      forall k | k in vec1[e] ensures r[e][k] == q[e][k] {
        OwnObject(vec, e, k);
        OtherObject(vec, d, key, e, k);
        assert vec1[e][k] == vec[e][k];
      }
    }
  }

  class YStore {
    var m_vecStore: seq<map<Bytes, YObject>>
    var m_nDbno: nat
    const heap: Heap

    /** The objects under all keys. */
    ghost var Objects: set<YObject>

    /** Every key has its own object, and none of them is invalid. */
    ghost predicate Keyed()
      reads this, Objects
    {
      && Objects == ObjectsOf(m_vecStore)
      && (forall o | o in Objects :: o.encoding != EncInvalid)
      && Distinct(m_vecStore)
    }

    /** ... and the database in use exists. */
    ghost predicate Layout()
      reads this, Objects
    {
      m_nDbno < |m_vecStore| && Keyed()
    }

    /** The objects of all databases own all payloads; the database in use need not exist. */
    ghost predicate Stocked()
      reads this, heap, Objects
      ensures Stocked() ==> Readable()
    {
      Keyed() && Owned(heap, Objects)
    }

    /** The objects of the store own all payloads. */
    ghost predicate Valid()
      reads this, heap, Objects
      ensures Valid() ==> Readable() && m_nDbno < |m_vecStore|
    {
      Layout() && Owned(heap, Objects)
    }

    /** ... all but the payload of a temporary. */
    ghost predicate ValidWith(temp: YObject)
      reads this, heap, Objects, temp
      ensures ValidWith(temp) ==> Readable() && m_nDbno < |m_vecStore| && temp.Tagged(heap)
    {
      Layout() && temp !in Objects && temp.encoding != EncInvalid && Owned(heap, Objects + {temp})
    }

    /** The contents of all objects can be read. */
    ghost predicate Readable()
      reads this, heap, Objects
    {
      ObjectsOf(m_vecStore) <= Objects && forall o | o in Objects :: o.Tagged(heap) && o.encoding != EncInvalid
    }

    /** The content of every object. */
    ghost function Contents(): (c: map<YObject, Value>)
      requires Readable()
      reads this, heap, Objects
      ensures c.Keys == Objects
    {
      map o | o in Objects :: o.Content(heap)
    }

    /** What all databases mean. */
    ghost function Dbs(): (r: seq<Store>)
      requires Readable()
      reads this, heap, Objects
      ensures |r| == |m_vecStore|
    {
      ViewOf(m_vecStore, Contents())
    }

    /** The database in use. */
    ghost function Current(): Store
      requires Readable() && m_nDbno < |m_vecStore|
      reads this, heap, Objects
    {
      Dbs()[m_nDbno]
    }

    /** What the other databases mean. */
    ghost function OtherDbs(): map<nat, Store>
      requires Readable()
      reads this, heap, Objects
    {
      map d: nat | d < |Dbs()| && d != m_nDbno :: Dbs()[d]
    }

    /** The object under a key of the current database carries the key's value. */
    lemma Holding(key: Bytes)
      requires Valid() && key in m_vecStore[m_nDbno]
      ensures var o := m_vecStore[m_nDbno][key];
              && o in Objects && o.Tagged(heap) && o.encoding != EncInvalid
              && o.Content(heap).Type() == o.encoding.Type()
              && key in Current() && Current()[key] == o.Content(heap)
    {
      hide Owned, ObjectsOf, ViewOf, Distinct;
      OwnObject(m_vecStore, m_nDbno, key);
      ViewAt(m_vecStore, Contents(), m_nDbno, key);
      ContentType(m_vecStore[m_nDbno][key]);
    }

    constructor ()
      ensures Stocked() && fresh(heap) && m_nDbno == 0 && Dbs() == [] && Objects == {}
    {
      m_nDbno := 0;
      m_vecStore := [];
      Objects := {};
      heap := new Heap();
    }

    /** Sets the number of databases, between 1 and the maximum: those beyond it are destroyed with all their objects,
        those missing are added empty. The database in use stays, and may then be one of those destroyed. */
    method Init(num: int)
      requires Stocked()
      modifies this`m_vecStore, this`Objects, heap
      ensures Stocked() && Objects <= old(Objects)
      ensures Valid() <==> m_nDbno < |Dbs()|
      ensures |Dbs()| == if num < 1 then 1 else if num > K_MAX_DB_NUM then K_MAX_DB_NUM else num
      ensures forall d | 0 <= d < |Dbs()| :: Dbs()[d] == if d < |old(Dbs())| then old(Dbs())[d] else map[]
    {
      hide Owned, Distinct, ViewOf, ObjectsOf, Keyed;
      var dbNum := num;
      if dbNum < 1 {
        dbNum := 1;
      } else if dbNum > K_MAX_DB_NUM {
        dbNum := K_MAX_DB_NUM;
      }
      while |m_vecStore| > dbNum
        invariant Stocked() && Objects <= old(Objects)
        invariant |Dbs()| >= dbNum || |Dbs()| == |old(Dbs())|
        invariant |Dbs()| <= |old(Dbs())| && Dbs() == old(Dbs())[..|Dbs()|]
      {
        DropLast();
      }
      AddEmpty(dbNum);
    }

    /** Destroys the last database, object by object. */
    method DropLast()
      requires Stocked() && m_vecStore != []
      modifies this`m_vecStore, this`Objects, heap
      ensures Stocked() && Objects <= old(Objects) && Dbs() == old(Dbs())[..|old(Dbs())| - 1]
    {
      hide Owned, Distinct, ViewOf, ObjectsOf, Keyed;
      var n := |m_vecStore| - 1;
      while m_vecStore[n] != map[]
        invariant Stocked() && Objects <= old(Objects)
        invariant |Dbs()| == n + 1 && Dbs()[..n] == old(Dbs())[..n]
        decreases m_vecStore[n].Keys
      {
        var key :| key in m_vecStore[n];
        ghost var before := m_vecStore[n];
        Erase(n, key);
        assert m_vecStore[n].Keys == before.Keys - {key};
      }
      ghost var c := Contents();
      StockHolds();
      LastEmpty(c);
      m_vecStore := m_vecStore[..n];
      StockedContents(c);
    }

    /** Adds empty databases up to a number. */
    method AddEmpty(dbNum: nat)
      requires Stocked() && |m_vecStore| <= dbNum
      modifies this`m_vecStore
      ensures Stocked() && |Dbs()| == dbNum
      ensures forall d | 0 <= d < dbNum :: Dbs()[d] == if d < |old(Dbs())| then old(Dbs())[d] else map[]
    {
      hide Owned, Distinct, ObjectsOf, Holds;
      ghost var c, vec := Contents(), m_vecStore;
      StockHolds();
      m_vecStore := m_vecStore + seq(dbNum - |m_vecStore|, _ => map[]);
      MoreEmpty(vec, m_vecStore, c);
      StockedContents(c);
    }

    /** A last database without keys can go: the others keep their objects and their view. */
    lemma LastEmpty(c: map<YObject, Value>)
      requires m_vecStore != [] && m_vecStore[|m_vecStore| - 1] == map[] && ObjectsOf(m_vecStore) <= c.Keys
      ensures var vec := m_vecStore[..|m_vecStore| - 1];
              && ObjectsOf(vec) == ObjectsOf(m_vecStore) && (Distinct(m_vecStore) ==> Distinct(vec))
              && ViewOf(vec, c) == ViewOf(m_vecStore, c)[..|vec|]
    {
      var vec := m_vecStore[..|m_vecStore| - 1];
      forall x | x in ObjectsOf(vec) ensures x in ObjectsOf(m_vecStore) {
        var e, k :| 0 <= e < |vec| && k in vec[e] && vec[e][k] == x;
        assert m_vecStore[e][k] == x;
      }
      MoreEmpty(vec, m_vecStore, c);
    }

    lemma StockHolds()
      requires Stocked()
      ensures Objects == ObjectsOf(m_vecStore) && Distinct(m_vecStore) && Holds(heap, Objects, Contents())
    {
    }

    lemma StockedContents(c: map<YObject, Value>)
      requires Objects == ObjectsOf(m_vecStore) && Distinct(m_vecStore) && Owned(heap, Objects)
               && Holds(heap, Objects, c)
      ensures Stocked() && Dbs() == ViewOf(m_vecStore, c)
    {
      assert Contents() == c;
    }

    /** Erases a key of a database; its object is destroyed with its payload. */
    method Erase(d: nat, key: Bytes)
      requires Stocked() && d < |m_vecStore| && key in m_vecStore[d]
      modifies this`m_vecStore, this`Objects, heap
      ensures Stocked() && Objects <= old(Objects)
      ensures m_vecStore == old(m_vecStore)[d := old(m_vecStore)[d] - {key}]
      ensures Dbs() == old(Dbs())[d := old(Dbs())[d] - {key}]
    {
      hide Owned, Holds, Distinct, ViewOf, ObjectsOf;
      ghost var vec, c := m_vecStore, Contents();
      OwnObject(vec, d, key);
      StockHolds();
      var obj := m_vecStore[d][key];
      DestroyOne(heap, obj, Objects, c);
      m_vecStore := m_vecStore[d := m_vecStore[d] - {key}];
      Objects := Objects - {obj};
      ViewErase(vec, c, d, key, c - {obj});
      StockedContents(c - {obj});
    }

    /** Switches databases and answers the previous one; an unknown number changes nothing. */
    method SelectDB(dbno: int) returns (r: int)
      requires Valid()
      modifies this`m_nDbno
      ensures Valid() && Dbs() == old(Dbs())
      ensures if 0 <= dbno < |Dbs()| then m_nDbno == dbno && r == old(m_nDbno) else m_nDbno == old(m_nDbno) && r == -1
    {
      if dbno == m_nDbno {
        return m_nDbno;
      }
      if dbno >= 0 && dbno < |m_vecStore| {
        r := m_nDbno;
        m_nDbno := dbno;
        assert Contents() == old(Contents());
        return;
      }
      return -1;
    }

    method GetObject(key: Bytes) returns (obj: YObject?)
      requires Valid()
      ensures obj == if key in m_vecStore[m_nDbno] then m_vecStore[m_nDbno][key] else null
      ensures obj != null <==> key in Current()
    {
      var db := m_vecStore[m_nDbno];
      if key in db {
        return db[key];
      }
      return null;
    }

    method ExistsKey(key: Bytes) returns (b: bool)
      requires Valid()
      ensures b <==> key in Current()
    {
      var obj := GetObject(key);
      b := obj != null;
    }

    method GetKeyType(key: Bytes) returns (t: YType)
      requires Valid()
      ensures t == if key in Current() then Current()[key].Type() else InvalidType
    {
      var obj := GetObject(key);
      if obj == null {
        return InvalidType;
      }
      t := obj.typ;
      ContentType(obj);
    }

    /** The type field is the type of the content. */
    lemma ContentType(obj: YObject)
      requires obj.Tagged(heap) && obj.encoding != EncInvalid
      ensures obj.Content(heap).Type() == obj.typ && obj.typ == obj.encoding.Type()
    {
    }

    /** Looks a key up and checks its type; the invalid type asks for any. When it answers ok with a concrete type, the
        payload behind the object is of that type, so the cast that follows is right. */
    method GetValueByType(key: Bytes, t: YType) returns (err: YError, value: YObject?)
      requires Valid()
      ensures err == ErrorAt(Current(), key, t)
      ensures err == ErrorOk ==> key in m_vecStore[m_nDbno] && value == m_vecStore[m_nDbno][key] && value.Tagged(heap)
      ensures err == ErrorOk && t != InvalidType ==>
                value.Content(heap).Type() == t && value.Content(heap) == Current()[key]
    {
      var cobj := GetObject(key);
      value := null;
      if cobj != null {
        ContentType(cobj);
        if t != InvalidType && t != cobj.typ {
          return ErrorType, null;
        } else {
          return ErrorOk, cobj;
        }
      } else {
        return ErrorNotExist, null;
      }
    }

    /** Stores a temporary object under a key, moving its payload into the key's object. */
    method SetValue(key: Bytes, temp: YObject) returns (obj: YObject)
      requires ValidWith(temp)
      modifies this, heap, Objects, temp
      ensures Valid() && m_nDbno == old(m_nDbno) && fresh(Objects - old(Objects))
      ensures Current() == old(Current())[key := old(temp.Content(heap))] && OtherDbs() == old(OtherDbs())
      ensures key in m_vecStore[m_nDbno] && obj == m_vecStore[m_nDbno][key]
    {
      hide Owned, ViewOf, Distinct, Dbs, OtherDbs;
      obj := Slot(key);
      Install(key, obj, temp);
      OneDbChanged();
    }

    /** Changing one entry of the sequence changes the current database and no other. */
    twostate lemma OneDbChanged()
      requires old(Readable()) && Readable() && m_nDbno == old(m_nDbno) && m_nDbno < |old(m_vecStore)|
      requires |Dbs()| == |old(Dbs())| && forall d | 0 <= d < |Dbs()| && d != m_nDbno :: Dbs()[d] == old(Dbs())[d]
      ensures OtherDbs() == old(OtherDbs())
      ensures Current() == Dbs()[m_nDbno]
    {
    }

    /** Creating a temporary changes no database. */
    twostate lemma AfterCreate(new temp: YObject)
      requires old(Valid()) && unchanged(this) && unchanged(Objects) && temp !in Objects
      requires forall a | a in old(heap.cells) :: a in heap.cells && heap.cells[a] == old(heap.cells)[a]
      requires Owned(heap, Objects + {temp}) && temp.encoding != EncInvalid
      ensures ValidWith(temp) && Current() == old(Current()) && OtherDbs() == old(OtherDbs())
    {
      hide Owned, ObjectsOf, ViewOf, Distinct;
      ghost var c := old(Contents());
      OwnedTags(heap, Objects + {temp});
      OthersKept(heap, temp, c);
      assert Objects - {temp} == Objects && c - {temp} == c;
      assert Contents() == c;
    }

    /** The object under a key, or an invalid one for a key that is new. */
    method Slot(key: Bytes) returns (obj: YObject)
      requires Layout()
      ensures if key in m_vecStore[m_nDbno] then obj == m_vecStore[m_nDbno][key] && obj in Objects
              else fresh(obj) && obj.typ == InvalidType && obj.encoding == EncInvalid && obj.value == Null
    {
      var db := m_vecStore[m_nDbno];
      if key in db {
        obj := db[key];
        OwnObject(m_vecStore, m_nDbno, key);
      } else {
        obj := new YObject(InvalidType);
      }
    }

    method Install(key: Bytes, obj: YObject, temp: YObject)
      requires ValidWith(temp) && obj != temp
      requires if key in m_vecStore[m_nDbno] then obj == m_vecStore[m_nDbno][key] && obj in Objects
               else obj !in Objects && obj.typ == InvalidType && obj.encoding == EncInvalid && obj.value == Null
      modifies this`m_vecStore, this`Objects, heap, obj, temp
      ensures Valid() && Objects == old(Objects) + {obj}
      ensures m_vecStore == old(m_vecStore)[m_nDbno := old(m_vecStore)[m_nDbno][key := obj]]
      ensures Dbs() == old(Dbs())[m_nDbno := old(Current())[key := old(temp.Content(heap))]]
    {
      hide Owned, Holds, Distinct, ViewOf, ObjectsOf;
      ContentsHold(temp);
      ghost var v, c := temp.Content(heap), Contents();
      ViewPut(m_vecStore, c, m_nDbno, key, obj, v);
      MoveInto(heap, obj, temp, Objects, c);
      m_vecStore := m_vecStore[m_nDbno := m_vecStore[m_nDbno][key := obj]];
      Objects := Objects + {obj};
      HeldContents(c[obj := v]);
    }

    lemma ContentsHold(temp: YObject)
      requires ValidWith(temp)
      ensures Readable() && temp.Tagged(heap) && Holds(heap, Objects, Contents())
    {
    }

    lemma HeldContents(c: map<YObject, Value>)
      requires m_nDbno < |m_vecStore| && Objects == ObjectsOf(m_vecStore) && Distinct(m_vecStore)
      requires Owned(heap, Objects) && Holds(heap, Objects, c)
      ensures Valid() && Dbs() == ViewOf(m_vecStore, c)
    {
      assert Contents() == c;
    }

    /** Erases a key; its object is destroyed with its payload. */
    method DeleteKey(key: Bytes) returns (b: bool)
      requires Valid()
      modifies this, heap
      ensures Valid() && m_nDbno == old(m_nDbno) && Objects <= old(Objects)
      ensures b <==> key in old(Current())
      ensures Current() == old(Current()) - {key} && OtherDbs() == old(OtherDbs())
    {
      hide Owned, Distinct, ViewOf, ObjectsOf, OtherDbs, Keyed;
      var db := m_vecStore[m_nDbno];
      SameKeys();
      if key !in db {
        assert Current() - {key} == Current();
        return false;
      }
      Erase(m_nDbno, key);
      OneDbChanged();
      b := true;
    }

    /** Writes through the pointer that the cast of a key's object gives: the payload changes, its kind does not. */
    method WritePayload(obj: YObject, ghost key: Bytes, p: Payload)
      requires Valid() && key in m_vecStore[m_nDbno] && obj == m_vecStore[m_nDbno][key]
      requires obj.encoding == p.Encoding()
      modifies heap`cells
      ensures Valid()
      ensures Current() == old(Current())[key := p.Value()] && OtherDbs() == old(OtherDbs())
    {
      hide Owned, Holds, Distinct, ViewOf, ObjectsOf, OtherDbs;
      ghost var c := Contents();
      OwnObject(m_vecStore, m_nDbno, key);
      AllHold();
      ViewPut(m_vecStore, c, m_nDbno, key, obj, p.Value());
      WriteThrough(heap, obj, p, Objects, c);
      PutSame(m_vecStore, m_nDbno, key);
      HeldContents(c[obj := p.Value()]);
      OneDbChanged();
    }

    lemma SameKeys()
      requires Valid()
      ensures Current().Keys == m_vecStore[m_nDbno].Keys
    {
    }

    lemma AllHold()
      requires Valid()
      ensures Holds(heap, Objects, Contents())
    {
    }

    lemma PutSame(vec: seq<map<Bytes, YObject>>, d: nat, key: Bytes)
      requires d < |vec| && key in vec[d]
      ensures vec[d := vec[d][key := vec[d][key]]] == vec
    {
      assert vec[d][key := vec[d][key]] == vec[d];
    }
  }
}
