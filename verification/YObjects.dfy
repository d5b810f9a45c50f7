/** The tagged value objects of the store and the payloads they own. */
module YObjects {
  import opened ByteStrings
  import opened YStrings
  import opened Keyspace

  /** What `new` allocates for an object. */
  datatype Payload =
    | RawP(text: Bytes)
    | ListP(items: seq<Bytes>)
    | SetP(members: set<Bytes>)
    | SortedSetP
    | HashP
  {
    /** The encoding of the objects that may own it. */
    function Encoding(): YEncode {
      match this
      case RawP(_) => EncRaw
      case ListP(_) => EncList
      case SetP(_) => EncSet
      case SortedSetP => EncSset
      case HashP => EncHash
    }

    function Value(): Value {
      match this
      case RawP(s) => RawV(s)
      case ListP(l) => ListV(l)
      case SetP(s) => SetV(s)
      case SortedSetP => SortedSetV
      case HashP => HashV
    }
  }

  /** The `void*` of an object: null, an integer in its place, or an address. */
  datatype Word = Null | Int(n: int) | Ptr(addr: nat)

  datatype YEncode = EncInvalid | EncRaw | EncInt | EncList | EncSet | EncHash | EncSset
  {
    /** The encodings whose word is an address to free. */
    predicate Owning() { !EncInvalid? && !EncInt? }

    function Type(): YType {
      match this
      case EncInvalid => InvalidType
      case EncRaw => StringType
      case EncInt => StringType
      case EncList => ListType
      case EncSet => SetType
      case EncSset => SortedSetType
      case EncHash => HashType
    }
  }

  predicate TagsAgree(typ: YType, encoding: YEncode, value: Word, cells: map<nat, Payload>) {
    && typ == encoding.Type()
    && (encoding.Owning() ==> value.Ptr? && value.addr in cells && cells[value.addr].Encoding() == encoding)
    && (encoding == EncInt ==> value.Int?)
    && (encoding == EncInvalid ==> value == Null)
  }

  /** The allocator: which addresses are in use, and which have been freed. */
  class Heap {
    var cells: map<nat, Payload>
    var next: nat
    ghost var freed: set<nat>
    /** Who owns each address in use. */
    ghost var owner: map<nat, YObject>

    /** Every address handed out is in use or freed, not both. */
    ghost predicate Valid()
      reads this
    {
      && (forall a | a in cells :: a < next && a !in freed)
      && (forall a | a in freed :: a < next)
      && (forall a: nat | a < next :: a in cells || a in freed)
    }

    constructor ()
      ensures Valid() && cells == map[] && next == 0 && freed == {} && owner == map[]
    {
      cells, next, freed, owner := map[], 0, {}, map[];
    }

    method New(p: Payload, ghost o: YObject) returns (a: nat)
      requires Valid()
      modifies this
      ensures Valid() && a == old(next) && next == a + 1
      ensures cells == old(cells)[a := p] && freed == old(freed) && owner == old(owner)[a := o]
    {
      a := next;
      cells := cells[a := p];
      owner := owner[a := o];
      next := next + 1;
    }

    /** Frees an address that is in use: freeing one twice is excluded here. */
    method Delete(a: nat)
      requires Valid() && a in cells
      modifies this
      ensures Valid() && cells == old(cells) - {a} && freed == old(freed) + {a} && next == old(next)
      ensures owner == old(owner) - {a}
    {
      cells := cells - {a};
      owner := owner - {a};
      freed := freed + {a};
    }
  }

  class YObject {
    var typ: YType
    var encoding: YEncode
    var value: Word

    /** Type, encoding and payload agree. */
    ghost predicate Tagged(h: Heap)
      reads this, h
    {
      TagsAgree(typ, encoding, value, h.cells)
    }

    /** The value a cast of the word finds. */
    ghost function Content(h: Heap): Value
      requires Tagged(h) && encoding != EncInvalid
      reads this, h
    {
      if encoding == EncInt then IntV(value.n)
      else h.cells[value.addr].Value()
    }

    /** The payload the object owns. */
    ghost function Addrs(): set<nat>
      reads this
    {
      if encoding.Owning() && value.Ptr? then {value.addr} else {}
    }

    /** The object holds no payload and can be given one. */
    ghost predicate Blank()
      reads this
    {
      typ == encoding.Type() && value == Null
    }

    /** The list behind the word. */
    function CastList(h: Heap): (l: seq<Bytes>)
      requires Tagged(h) && encoding == EncList
      reads this, h
      ensures Content(h) == ListV(l)
    {
      h.cells[value.addr].items
    }

    /** The set behind the word. */
    function CastSet(h: Heap): (s: set<Bytes>)
      requires Tagged(h) && encoding == EncSet
      reads this, h
      ensures Content(h) == SetV(s)
    {
      h.cells[value.addr].members
    }

    /** The text behind the word. */
    function CastString(h: Heap): (s: Bytes)
      requires Tagged(h) && encoding == EncRaw
      reads this, h
      ensures Content(h) == RawV(s)
    {
      h.cells[value.addr].text
    }

    constructor (t: YType)
      ensures typ == t && value == Null
      ensures t != StringType ==> Blank() && t == encoding.Type()
      ensures t == StringType || t == InvalidType ==> encoding == EncInvalid
    {
      typ := t;
      encoding := match t
        case ListType => EncList
        case SetType => EncSet
        case SortedSetType => EncSset
        case HashType => EncHash
        case _ => EncInvalid;
      value := Null;
    }

    /** The word to free is an address in use, with a payload of the kind the encoding says. */
    ghost predicate CanFree(h: Heap)
      reads this, h
    {
      encoding.Owning() && value != Null ==>
            value.Ptr? && value.addr in h.cells && h.cells[value.addr].Encoding() == encoding
    }

    /** Frees the payload by its encoding; the word is left dangling. */
    method FreeValue(h: Heap)
      requires h.Valid() && CanFree(h)
      modifies h
      ensures h.Valid() && h.next == old(h.next)
      ensures h.cells == old(h.cells) - Addrs() && h.freed == old(h.freed) + Addrs()
              && h.owner == old(h.owner) - Addrs()
    {
      if encoding.Owning() && value != Null {
        h.Delete(value.addr);
      }
    }

    method Reset(h: Heap, newvalue: Word)
      requires h.Valid() && CanFree(h)
      modifies h, this`value
      ensures h.Valid() && h.next == old(h.next) && value == newvalue
      ensures h.cells == old(h.cells) - old(Addrs()) && h.freed == old(h.freed) + old(Addrs())
              && h.owner == old(h.owner) - old(Addrs())
    {
      FreeValue(h);
      value := newvalue;
    }

    /** Gives the payload back and becomes an invalid object. */
    method Clear(h: Heap, ghost live: set<YObject>)
      requires Owned(h, live) && this in live
      modifies h, this
      ensures Owned(h, live) && encoding == EncInvalid
      ensures h.cells == old(h.cells) - old(Addrs()) && h.freed == old(h.freed) + old(Addrs()) && h.next == old(h.next)
    {
      hide Owned, TagsAgree, Heap.Valid, YEncode.Type;
      OwnedTags(h, live);
      FreeValue(h);
      Released(h, this, live);
      typ := InvalidType;
      encoding := EncInvalid;
      value := Null;
      CountInvalid(h, live - {this}, this);
      assert live - {this} + {this} == live;
    }

    /** The destructor. */
    method Destroy(h: Heap, ghost live: set<YObject>)
      requires Owned(h, live) && this in live
      modifies h
      ensures Owned(h, live - {this})
      ensures h.cells == old(h.cells) - old(Addrs()) && h.freed == old(h.freed) + old(Addrs()) && h.next == old(h.next)
    {
      hide Owned, TagsAgree, Heap.Valid, YEncode.Type;
      OwnedTags(h, live);
      FreeValue(h);
      Released(h, this, live);
    }

    /** Takes over the payload of `obj` and frees its own; moving an object onto itself frees it. */
    method MoveFrom(h: Heap, obj: YObject, ghost live: set<YObject>)
      requires Owned(h, live) && this in live && obj in live
      modifies h, this, obj
      ensures Owned(h, live) && obj.encoding == EncInvalid && obj.typ == InvalidType && obj.value == Null
      ensures this != obj ==> encoding == old(obj.encoding) && typ == old(obj.typ) && value == old(obj.value)
      ensures this != obj && encoding != EncInvalid ==> Tagged(h) && Content(h) == old(obj.Content(h))
      ensures h.cells == old(h.cells) - old(Addrs()) && h.freed == old(h.freed) + old(Addrs()) && h.next == old(h.next)
    {
      hide Owned, TagsAgree, Tagged, Heap.Valid, YEncode.Type;
      OwnedTags(h, live);
      Reset(h, Null);
      Released(h, this, live);
      if obj == this {
        // Copying the fields onto themselves changes nothing; what remains is making the object invalid.
        encoding := EncInvalid;
        typ := InvalidType;
        CountInvalid(h, live - {this}, this);
        assert live - {this} + {this} == live;
      } else {
        Adopt(h, obj, live - {this});
        assert live - {this} + {this} == live;
        OwnedTags(h, live);
      }
    }

    /** The second half of the move: copies the fields and makes `obj` invalid. */
    method Adopt(h: Heap, obj: YObject, ghost others: set<YObject>)
      requires Owned(h, others) && this !in others && value == Null && obj in others
      modifies h`owner, this, obj
      ensures Owned(h, others + {this}) && obj.encoding == EncInvalid && obj.typ == InvalidType && obj.value == Null
      ensures encoding == old(obj.encoding) && typ == old(obj.typ) && value == old(obj.value)
    {
      hide Owned, TagsAgree, YEncode.Type, Heap.Valid;
      OwnedTags(h, others);
      encoding := obj.encoding;
      typ := obj.typ;
      value := obj.value;
      obj.encoding := EncInvalid;
      obj.typ := InvalidType;
      obj.value := Null;
      if value.Ptr? {
        h.owner := h.owner[value.addr := this];
      }
      Adopted(h, this, obj, others);
    }

    /** `reset(new ...)` on a fresh object of the right encoding. */
    method Allocate(h: Heap, p: Payload, ghost live: set<YObject>)
      requires Owned(h, live) && this !in live && value == Null && encoding == p.Encoding() && typ == encoding.Type()
      modifies h, this`value
      ensures Owned(h, live + {this}) && value == Ptr(old(h.next)) && h.cells == old(h.cells)[old(h.next) := p]
    {
      hide Owned, TagsAgree, YEncode.Type;
      OwnedTags(h, live);
      var a := h.New(p, this);
      Reset(h, Ptr(a));
      Allocated(h, this, p, live);
    }

    /** A string: kept as an integer when it reads as one, as text otherwise. */
    static method CreateString(h: Heap, v: Bytes, ghost live: set<YObject>) returns (obj: YObject)
      requires Owned(h, live)
      modifies h
      ensures fresh(obj) && Owned(h, live + {obj}) && obj.encoding != EncInvalid
      ensures obj.Content(h) == StoredString(v)
      ensures forall a | a in old(h.cells) :: a in h.cells && h.cells[a] == old(h.cells)[a]
    {
      obj := new YObject(StringType);
      var r := StringToLong(v);
      if r.Some? {
        obj.encoding := EncInt;
        obj.value := Int(r.value);
      } else {
        obj.encoding := EncRaw;
        obj.Allocate(h, RawP(v), live);
      }
    }

    /** An empty list. */
    static method CreateList(h: Heap, ghost live: set<YObject>) returns (obj: YObject)
      requires Owned(h, live)
      modifies h
      ensures fresh(obj) && Owned(h, live + {obj}) && obj.encoding != EncInvalid
      ensures obj.Content(h) == ListV([])
      ensures forall a | a in old(h.cells) :: a in h.cells && h.cells[a] == old(h.cells)[a]
    {
      obj := new YObject(ListType);
      obj.Allocate(h, ListP([]), live);
    }

    /** An empty set. */
    static method CreateSet(h: Heap, ghost live: set<YObject>) returns (obj: YObject)
      requires Owned(h, live)
      modifies h
      ensures fresh(obj) && Owned(h, live + {obj}) && obj.encoding != EncInvalid
      ensures obj.Content(h) == SetV({})
      ensures forall a | a in old(h.cells) :: a in h.cells && h.cells[a] == old(h.cells)[a]
    {
      obj := new YObject(SetType);
      obj.Allocate(h, SetP({}), live);
    }

    /** An empty hash. */
    static method CreateHash(h: Heap, ghost live: set<YObject>) returns (obj: YObject)
      requires Owned(h, live)
      modifies h
      ensures fresh(obj) && Owned(h, live + {obj}) && obj.encoding != EncInvalid
      ensures obj.Content(h) == HashV
      ensures forall a | a in old(h.cells) :: a in h.cells && h.cells[a] == old(h.cells)[a]
    {
      obj := new YObject(HashType);
      obj.Allocate(h, HashP, live);
    }

    /** An empty sorted set. */
    static method CreateSSet(h: Heap, ghost live: set<YObject>) returns (obj: YObject)
      requires Owned(h, live)
      modifies h
      ensures fresh(obj) && Owned(h, live + {obj}) && obj.encoding != EncInvalid
      ensures obj.Content(h) == SortedSetV
      ensures forall a | a in old(h.cells) :: a in h.cells && h.cells[a] == old(h.cells)[a]
    {
      obj := new YObject(SortedSetType);
      obj.Allocate(h, SortedSetP, live);
    }
  }

  /** Ownership of all payloads by the live objects. */
  ghost predicate Owned(h: Heap, live: set<YObject>)
    reads h, live
  {
    && h.Valid() && h.owner.Keys == h.cells.Keys
    && (forall o | o in live ::
          TagsAgree(o.typ, o.encoding, o.value, h.cells) && (o.value.Ptr? ==> h.owner[o.value.addr] == o))
    && (forall a | a in h.owner :: h.owner[a] in live && h.owner[a].value == Ptr(a))
  }

  /** An object that gave its payload back is owned no more; the others are as they were. */
  twostate lemma Released(new h: Heap, new o: YObject, live: set<YObject>)
    requires old(allocated(h)) && old(Owned(h, live)) && o in live
    requires forall p | p in live && p != o ::
               p.typ == old(p.typ) && p.encoding == old(p.encoding) && p.value == old(p.value)
    requires h.Valid() && h.cells == old(h.cells) - old(o.Addrs()) && h.owner == old(h.owner) - old(o.Addrs())
    ensures Owned(h, live - {o})
  {
    hide Heap.Valid, YEncode.Type;
    forall p | p in live - {o}
      ensures TagsAgree(p.typ, p.encoding, p.value, h.cells)
              && (p.value.Ptr? ==> p.value.addr in h.owner && h.owner[p.value.addr] == p)
    {
      assert p.value.Ptr? ==> old(h.owner)[p.value.addr] == p;
      assert p.value.Ptr? ==> p.value.addr !in old(o.Addrs());
    }
    forall a | a in h.owner ensures h.owner[a] in live - {o} && h.owner[a].value == Ptr(a) {
      assert old(h.owner[a].value) == Ptr(a);
    }
  }

  /** The taker of a payload owns it in place of the giver, which owns nothing any more. */
  twostate lemma Adopted(new h: Heap, new o: YObject, new giver: YObject, others: set<YObject>)
    requires old(allocated(h)) && old(allocated(giver)) && old(Owned(h, others)) && o !in others && giver in others
    requires forall p | p in others && p != giver ::
               p.typ == old(p.typ) && p.encoding == old(p.encoding) && p.value == old(p.value)
    requires o.typ == old(giver.typ) && o.encoding == old(giver.encoding) && o.value == old(giver.value)
    requires giver.typ == InvalidType && giver.encoding == EncInvalid && giver.value == Null
    requires h.cells == old(h.cells) && h.next == old(h.next) && h.freed == old(h.freed)
    requires h.owner == if o.value.Ptr? then old(h.owner)[o.value.addr := o] else old(h.owner)
    ensures Owned(h, others + {o})
  {
    hide Heap.Valid;
    SameHeap(h);
    assert old(giver.value).Ptr? ==> old(h.owner)[o.value.addr] == giver;
  }

  /** A new payload is owned by the object it was made for; no payload in use is at its address. */
  twostate lemma Allocated(new h: Heap, new o: YObject, new p: Payload, live: set<YObject>)
    requires old(allocated(h)) && old(Owned(h, live)) && o !in live
    requires forall q | q in live :: q.typ == old(q.typ) && q.encoding == old(q.encoding) && q.value == old(q.value)
    requires o.value == Ptr(old(h.next)) && o.encoding == p.Encoding() && o.typ == o.encoding.Type()
    requires h.Valid() && h.cells == old(h.cells)[old(h.next) := p] && h.owner == old(h.owner)[old(h.next) := o]
    ensures Owned(h, live + {o})
  {
    hide YEncode.Type;
    assert old(h.next) !in old(h.cells);
  }

  twostate lemma SameHeap(h: Heap)
    requires old(h.Valid()) && h.cells == old(h.cells) && h.next == old(h.next) && h.freed == old(h.freed)
    ensures h.Valid()
  {}

  /** Writing a payload of the same kind leaves the ownership as it is. */
  twostate lemma Rewritten(new h: Heap, new obj: YObject, live: set<YObject>, new p: Payload)
    requires old(allocated(h)) && old(Owned(h, live)) && obj in live && obj.value.Ptr? && obj.encoding == p.Encoding()
    requires forall o | o in live :: o.typ == old(o.typ) && o.encoding == old(o.encoding) && o.value == old(o.value)
    requires h.next == old(h.next) && h.freed == old(h.freed) && h.owner == old(h.owner)
    requires h.cells == old(h.cells)[obj.value.addr := p]
    ensures Owned(h, live)
  {
    hide YEncode.Type;
    assert obj.value.addr in old(h.cells);
  }

  /** What ownership means: every address ever handed out is freed, or is held by exactly one live object, and never
      both. */
  lemma OneOwnerOrFreed(h: Heap, live: set<YObject>, a: nat)
    requires Owned(h, live) && a < h.next
    ensures a in h.freed <==> !exists o | o in live :: o.value == Ptr(a)
    ensures forall o, p | o in live && p in live && o.value == Ptr(a) && p.value == Ptr(a) :: o == p
    ensures forall o | o in live && o.value == Ptr(a) :: a in h.cells && h.cells[a].Encoding() == o.encoding
  {
    if a in h.cells {
      assert h.owner[a] in live && h.owner[a].value == Ptr(a);
    }
  }

  lemma OwnedTags(h: Heap, live: set<YObject>)
    requires Owned(h, live)
    ensures h.Valid()
    ensures forall o | o in live :: o.Tagged(h) && o.CanFree(h) && (o.encoding.Owning() ==> o.value.Ptr?)
    ensures forall o, p | o in live && p in live && o != p :: o.Addrs() !! p.Addrs()
  {
  }

  /** An invalid object owns nothing: it may be counted or not. */
  lemma CountInvalid(h: Heap, live: set<YObject>, o: YObject)
    requires o.typ == InvalidType && o.encoding == EncInvalid && o.value == Null
    ensures Owned(h, live) ==> Owned(h, live + {o})
    ensures Owned(h, live + {o}) ==> Owned(h, live)
  {
  }

  lemma CountTarget(h: Heap, live: set<YObject>, o: YObject)
    requires Owned(h, live)
    requires o in live || (o.typ == InvalidType && o.encoding == EncInvalid && o.value == Null)
    ensures Owned(h, live + {o})
  {
    if o in live {
      assert live + {o} == live;
    }
  }

  /** The contents of some objects. */
  ghost predicate Holds(h: Heap, objects: set<YObject>, c: map<YObject, Value>)
    reads h, objects
  {
    c.Keys == objects
    && forall o | o in objects :: o.Tagged(h) && o.encoding != EncInvalid && o.Content(h) == c[o]
  }

  /** The objects other than `obj` keep their contents while their fields and payloads are left alone. */
  twostate lemma OthersKept(new h: Heap, new obj: YObject, c: map<YObject, Value>)
    requires old(allocated(h)) && old(Holds(h, c.Keys, c))
    requires forall o | o in c && o != obj ::
               && o.typ == old(o.typ) && o.encoding == old(o.encoding) && o.value == old(o.value)
               && forall a | a in o.Addrs() && a in old(h.cells) :: a in h.cells && h.cells[a] == old(h.cells)[a]
    ensures Holds(h, c.Keys - {obj}, c - {obj})
  {
  }

  /** Moves a temporary into an object of the store, old or new: the other contents stay, nothing leaks. */
  method MoveInto(h: Heap, obj: YObject, temp: YObject, ghost objects: set<YObject>, ghost c: map<YObject, Value>)
    requires Owned(h, objects + {temp}) && Holds(h, objects, c) && temp !in objects
    requires temp.encoding != EncInvalid && obj != temp
    requires obj in objects || (obj.typ == InvalidType && obj.encoding == EncInvalid && obj.value == Null)
    modifies h, obj, temp
    ensures Owned(h, objects + {obj}) && temp.encoding == EncInvalid
    ensures Holds(h, objects + {obj}, c[obj := old(temp.Content(h))])
  {
    hide Owned, Holds, TagsAgree, YEncode.Owning, YEncode.Type, Heap.Valid, YObject.Content, YObject.Tagged;
    ghost var live := objects + {temp} + {obj};
    CountTarget(h, objects + {temp}, obj);
    OwnedTags(h, live);
    HoldsKeys(h, objects, c);
    ghost var v := temp.Content(h);
    obj.MoveFrom(h, temp, live);
    assert live == objects + {obj} + {temp};
    CountInvalid(h, objects + {obj}, temp);
    OwnedTags(h, objects + {obj});
    OthersKept(h, obj, c);
    HoldsPut(h, objects, c, obj, v);
  }

  lemma HoldsPut(h: Heap, objects: set<YObject>, c: map<YObject, Value>, obj: YObject, v: Value)
    requires Holds(h, objects - {obj}, c - {obj}) && c.Keys == objects
    requires obj.Tagged(h) && obj.encoding != EncInvalid && obj.Content(h) == v
    ensures Holds(h, objects + {obj}, c[obj := v])
  {
    forall o | o in objects + {obj} ensures o.Tagged(h) && o.encoding != EncInvalid && o.Content(h) == c[obj := v][o] {
      assert o != obj ==> o in objects - {obj};
    }
  }

  lemma HoldsKeys(h: Heap, objects: set<YObject>, c: map<YObject, Value>)
    requires Holds(h, objects, c)
    ensures c.Keys == objects
  {}

  /** Destroys one object: the other contents stay, and its payload is freed. */
  method DestroyOne(h: Heap, obj: YObject, ghost objects: set<YObject>, ghost c: map<YObject, Value>)
    requires Owned(h, objects) && Holds(h, objects, c) && obj in objects
    modifies h
    ensures Owned(h, objects - {obj}) && Holds(h, objects - {obj}, c - {obj})
  {
    OwnedTags(h, objects);
    obj.Destroy(h, objects);
    OthersKept(h, obj, c);
  }

  /** Writes a payload of the same kind through an object's pointer: the other contents stay. */
  method WriteThrough(h: Heap, obj: YObject, p: Payload, ghost objects: set<YObject>, ghost c: map<YObject, Value>)
    requires Owned(h, objects) && Holds(h, objects, c) && obj in objects && obj.encoding == p.Encoding()
    modifies h`cells
    ensures Owned(h, objects) && Holds(h, objects, c[obj := p.Value()])
  {
    hide Holds, Owned, Heap.Valid, YEncode.Type;
    OwnedTags(h, objects);
    HoldsKeys(h, objects, c);
    h.cells := h.cells[obj.value.addr := p];
    Rewritten(h, obj, objects, p);
    OthersKept(h, obj, c);
    assert objects + {obj} == objects;
    HoldsPut(h, objects, c, obj, p.Value());
  }
}
