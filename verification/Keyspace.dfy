/** The meaning of the string, list and set commands on one database. */
module Keyspace {
  import opened ByteStrings
  import opened RespRequests
  import opened RespFormat
  import opened YStrings

  datatype YType = InvalidType | StringType | ListType | SetType | SortedSetType | HashType

  datatype YError = ErrorOk | ErrorType | ErrorNotExist | ErrorSyntax

  /** What a key holds; the contents of sorted sets and hashes are not commanded here. */
  datatype Value =
    | RawV(text: Bytes)
    | IntV(n: int)
    | ListV(items: seq<Bytes>)
    | SetV(members: set<Bytes>)
    | SortedSetV
    | HashV
  {
    function Type(): YType {
      match this
      case RawV(_) => StringType
      case IntV(_) => StringType
      case ListV(_) => ListType
      case SetV(_) => SetType
      case SortedSetV => SortedSetType
      case HashV => HashType
    }

    /** The text of a string value. */
    function Text(): Bytes
      requires Type() == StringType
    {
      match this
      case RawV(s) => s
      case IntV(n) => Dec(n)
    }
  }

  type Store = map<Bytes, Value>

  function ErrorAt(ks: Store, key: Bytes, t: YType): YError {
    if key !in ks then ErrorNotExist else if t != InvalidType && ks[key].Type() != t then ErrorType else ErrorOk
  }

  /** The value SET stores for a text. */
  function StoredString(v: Bytes): (r: Value)
    ensures r.Type() == StringType && r.Text() == Normalise(v)
  {
    match StringToLong(v)
    case Some(n) => IntV(n)
    case None => RawV(v)
  }

  // ---------------------------------------------------------------- commands

  datatype ListPosition = Head | Tail

  datatype Command =
    | Set(key: Bytes, value: Bytes)
    | SetNx(key: Bytes, value: Bytes)
    | Get(key: Bytes)
    | Push(key: Bytes, values: seq<Bytes>, pos: ListPosition, createIfNotExist: bool)
    | Pop(key: Bytes, pos: ListPosition)
    | LLen(key: Bytes)
    | LRange(key: Bytes, start: Bytes, end: Bytes)
    | SAdd(key: Bytes, values: seq<Bytes>)
    | SCard(key: Bytes)
    | SMembers(key: Bytes)
    | SPop(key: Bytes)
    | Unknown

  datatype Effect = Effect(store: Store, err: YError, reply: Bytes)

  const NO_SUCH_KEY: Bytes := Ascii("-ERR no such key\r\n")
  const UNKNOWN_COMMAND: Bytes := Ascii("-ERR Unknown command\r\n")
  // The type error is sent without its CR LF: the length given to the buffer leaves them out.
  const WRONG_TYPE: Bytes := Ascii("-ERR error type")

  function Reverse(s: seq<Bytes>): (r: seq<Bytes>)
    ensures |r| == |s| && forall i :: 0 <= i < |s| ==> r[i] == s[|s| - 1 - i]
  {
    if s == [] then [] else Reverse(s[1..]) + [s[0]]
  }

  function Pushed(items: seq<Bytes>, values: seq<Bytes>, pos: ListPosition): (r: seq<Bytes>)
    ensures |r| == |items| + |values|
  {
    match pos
    case Head => Reverse(values) + items
    case Tail => items + values
  }

  function ToSet(s: seq<Bytes>): set<Bytes> {
    set x | x in s
  }

  /** The index of a list that a signed index from LRANGE names: negative ones count from the tail. */
  function FromTail(i: int, size: nat): int {
    if i < 0 then i + size else i
  }

  /** Among the first `n` items, those whose index lies between the two bounds. */
  function Selected(items: seq<Bytes>, start: int, end: int, n: nat): seq<Bytes>
    requires n <= |items|
  {
    if n == 0 then []
    else Selected(items, start, end, n - 1)
         + if FromTail(start, |items|) <= n - 1 <= FromTail(end, |items|) then [items[n - 1]] else []
  }

  /** The Redis meaning of LRANGE. */
  function RedisRange(items: seq<Bytes>, start: int, end: int): seq<Bytes> {
    Selected(items, start, end, |items|)
  }

  function PushEffect(ks: Store, key: Bytes, values: seq<Bytes>, pos: ListPosition, create: bool): Effect {
    match ErrorAt(ks, key, ListType)
    case ErrorNotExist =>
      if create then Effect(ks[key := ListV(Pushed([], values, pos))], ErrorOk, IntReply(|values|))
      else Effect(ks, ErrorNotExist, NO_SUCH_KEY)
    case ErrorOk =>
      var items := Pushed(ks[key].items, values, pos);
      Effect(ks[key := ListV(items)], ErrorOk, IntReply(|items|))
    case _ => Effect(ks, ErrorType, NO_SUCH_KEY)
  }

  /** `assert(!list->empty())` would stop the server here. */
  predicate PopAborts(ks: Store, key: Bytes) {
    key in ks && ks[key].ListV? && ks[key].items == []
  }

  function Front(items: seq<Bytes>, pos: ListPosition): Bytes
    requires items != []
  {
    match pos case Head => items[0] case Tail => items[|items| - 1]
  }

  function Rest(items: seq<Bytes>, pos: ListPosition): seq<Bytes>
    requires items != []
  {
    match pos case Head => items[1..] case Tail => items[..|items| - 1]
  }

  function PopEffect(ks: Store, key: Bytes, pos: ListPosition): Effect
    requires !PopAborts(ks, key)
  {
    var err := ErrorAt(ks, key, ListType);
    if err != ErrorOk then Effect(ks, err, [])
    else
      var items := ks[key].items;
      var rest := Rest(items, pos);
      Effect(if rest == [] then ks - {key} else ks[key := ListV(rest)], ErrorOk, Bulk(Front(items, pos)))
  }

  function LRangeEffect(ks: Store, key: Bytes, start: Bytes, end: Bytes): Effect {
    var err := ErrorAt(ks, key, ListType);
    if err != ErrorOk then Effect(ks, err, [])
    else match (StringToLong(start), StringToLong(end))
      case (Some(a), Some(b)) => Effect(ks, ErrorOk, Encode(RedisRange(ks[key].items, a, b)))
      case _ => Effect(ks, ErrorOk, [])
  }

  /** The set at a key, empty when there is none. */
  function SetAt(ks: Store, key: Bytes): set<Bytes> {
    if key in ks && ks[key].SetV? then ks[key].members else {}
  }

  function SAddEffect(ks: Store, key: Bytes, values: seq<Bytes>): Effect {
    match ErrorAt(ks, key, SetType)
    case ErrorNotExist => Effect(ks[key := SetV(ToSet(values))], ErrorOk, IntReply(|ToSet(values)|))
    case ErrorOk =>
      var s := ks[key].members + ToSet(values);
      Effect(ks[key := SetV(s)], ErrorOk, IntReply(|s| - |ks[key].members|))
    case _ => Effect(ks, ErrorType, WRONG_TYPE + WRONG_TYPE)
  }

  /** The reply of a set command that needs an existing set, when there is none. */
  function NoSetReply(ks: Store, key: Bytes): Bytes {
    (if key in ks then WRONG_TYPE else NULL_BULK) + WRONG_TYPE
  }

  /** An order in which the members of a hash set may be visited. */
  predicate Enumerates(order: seq<Bytes>, s: set<Bytes>) {
    && (forall x | x in order :: x in s)
    && (forall x | x in s :: x in order)
    && (forall i, j :: 0 <= i < j < |order| ==> order[i] != order[j])
  }

  /** The choices the hash table makes: the order SMEMBERS visits, the member SPOP draws. */
  predicate ValidChoice(ks: Store, cmd: Command, choice: seq<Bytes>) {
    match cmd
    case SMembers(key) => ErrorAt(ks, key, SetType) == ErrorOk ==> Enumerates(choice, ks[key].members)
    case SPop(key) => ErrorAt(ks, key, SetType) == ErrorOk && ks[key].members != {} ==>
                        |choice| == 1 && choice[0] in ks[key].members
    case _ => true
  }

  function SCardEffect(ks: Store, key: Bytes): Effect {
    if ErrorAt(ks, key, SetType) == ErrorOk then Effect(ks, ErrorOk, IntReply(|ks[key].members|))
    else Effect(ks, ErrorType, NoSetReply(ks, key))
  }

  function SMembersEffect(ks: Store, key: Bytes, choice: seq<Bytes>): Effect {
    if ErrorAt(ks, key, SetType) == ErrorOk then Effect(ks, ErrorOk, Encode(choice))
    else Effect(ks, ErrorType, NoSetReply(ks, key))
  }

  function SPopEffect(ks: Store, key: Bytes, choice: seq<Bytes>): Effect
    requires ValidChoice(ks, SPop(key), choice)
  {
    if ErrorAt(ks, key, SetType) != ErrorOk then Effect(ks, ErrorType, NoSetReply(ks, key))
    else if ks[key].members == {} then Effect(ks, ErrorNotExist, NULL_BULK)
    else
      var rest := ks[key].members - {choice[0]};
      Effect(if rest == {} then ks - {key} else ks[key := SetV(rest)], ErrorOk, Bulk(choice[0]))
  }

  /** A command can run: the server does not stop, and the hash table chose among what is there. */
  predicate Enabled(ks: Store, cmd: Command, choice: seq<Bytes>) {
    ValidChoice(ks, cmd, choice) && (cmd.Pop? ==> !PopAborts(ks, cmd.key))
  }

  function Exec(ks: Store, cmd: Command, choice: seq<Bytes>): Effect
    requires Enabled(ks, cmd, choice)
  {
    match cmd
    case Set(key, value) => Effect(ks[key := StoredString(value)], ErrorOk, OK_REPLY)
    case SetNx(key, value) =>
      if key in ks then Effect(ks, ErrorOk, IntReply(0))
      else Effect(ks[key := StoredString(value)], ErrorOk, IntReply(1))
    case Get(key) =>
      (match ErrorAt(ks, key, StringType)
       case ErrorOk => Effect(ks, ErrorOk, Bulk(ks[key].Text()))
       case ErrorNotExist => Effect(ks, ErrorNotExist, NULL_BULK)
       case e => Effect(ks, e, NO_SUCH_KEY))
    case Push(key, values, pos, create) => PushEffect(ks, key, values, pos, create)
    case Pop(key, pos) => PopEffect(ks, key, pos)
    case LLen(key) =>
      (match ErrorAt(ks, key, ListType)
       case ErrorOk => Effect(ks, ErrorOk, IntReply(|ks[key].items|))
       case ErrorNotExist => Effect(ks, ErrorNotExist, IntReply(0))
       case e => Effect(ks, e, UNKNOWN_COMMAND))
    case LRange(key, start, end) => LRangeEffect(ks, key, start, end)
    case SAdd(key, values) => SAddEffect(ks, key, values)
    case SCard(key) => SCardEffect(ks, key)
    case SMembers(key) => SMembersEffect(ks, key, choice)
    case SPop(key) => SPopEffect(ks, key, choice)
    case Unknown => Effect(ks, ErrorOk, UNKNOWN_COMMAND)
  }
}
