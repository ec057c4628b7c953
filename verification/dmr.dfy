/**
 * The management document tree: a closed tagged union standing in for the
 * dynamically typed `ModelNode`. Object members keep insertion order, and
 * `Put` never introduces a second member with the same key.
 */
module Dmr {
  import opened Wrappers

  newtype byte = x: int | 0 <= x < 256

  datatype Node =
    | Undefined
    | Str(text: string)
    | Bool(flag: bool)
    | Bytes(bytes: seq<byte>)
    | List(items: seq<Node>)
    | Object(members: seq<Member>)

  datatype Member = Member(key: string, value: Node)

  datatype Kind = UndefinedKind | StringKind | BooleanKind | BytesKind | ListKind | ObjectKind

  /** Failures of the typed accessors. */
  datatype NodeError =
    | TypeError(expected: Kind, actual: Kind)
    | NoSuchKey(key: string)

  /** Keys of the operation envelope (`OP`, `OP_ADDR`). */
  const OperationKey := "operation"
  const AddressKey := "address"

  function KindOf(n: Node): Kind {
    match n
    case Undefined => UndefinedKind
    case Str(_) => StringKind
    case Bool(_) => BooleanKind
    case Bytes(_) => BytesKind
    case List(_) => ListKind
    case Object(_) => ObjectKind
  }

  // ---------------------------------------------------------------- keys

  function KeysOf(ms: seq<Member>): (keys: seq<string>)
    ensures |keys| == |ms|
    ensures forall i :: 0 <= i < |ms| ==> keys[i] == ms[i].key
  {
    if ms == [] then [] else [ms[0].key] + KeysOf(ms[1..])
  }

  predicate Distinct(ks: seq<string>) {
    forall i, j :: 0 <= i < j < |ks| ==> ks[i] != ks[j]
  }

  /** The object invariant: no key occurs twice. */
  predicate UniqueKeys(ms: seq<Member>) {
    Distinct(KeysOf(ms))
  }

  /** `keys()`: an Object's member names in insertion order, empty for every other kind. */
  function Keys(n: Node): seq<string> {
    if n.Object? then KeysOf(n.members) else []
  }

  /** An Object's members in order; no other kind has any. */
  function MembersOf(n: Node): seq<Member> {
    if n.Object? then n.members else []
  }

  /** `has(name)`: structural existence, true even when the member is Undefined. */
  predicate Has(n: Node, key: string) {
    key in Keys(n)
  }

  // ---------------------------------------------------------------- lookup

  /** The value of the first member called `key`, Undefined when there is none. */
  function Find(ms: seq<Member>, key: string): (v: Node)
    ensures key !in KeysOf(ms) ==> v == Undefined
  {
    if ms == [] then Undefined
    else if ms[0].key == key then ms[0].value
    else Find(ms[1..], key)
  }

  /** The child `get(name)` would return without creating anything: Undefined when absent. */
  function Lookup(n: Node, key: string): (r: Node)
    ensures !Has(n, key) ==> r == Undefined
  {
    if n.Object? then Find(n.members, key) else Undefined
  }

  /** `hasDefined(name)`: the member exists and is not Undefined. */
  predicate HasDefined(n: Node, key: string)
    ensures HasDefined(n, key) <==> !Lookup(n, key).Undefined?
  {
    Has(n, key) && !Lookup(n, key).Undefined?
  }

  lemma {:induction false} FindAt(ms: seq<Member>, i: nat)
    requires UniqueKeys(ms) && i < |ms|
    ensures Find(ms, ms[i].key) == ms[i].value
  {
    if i > 0 {
      assert KeysOf(ms)[0] != KeysOf(ms)[i];
      assert KeysOf(ms[1..]) == KeysOf(ms)[1..];
      FindAt(ms[1..], i - 1);
    }
  }

  lemma {:induction false} FindAppend(ms: seq<Member>, m: Member, key: string)
    ensures Find(ms + [m], key) ==
      if key in KeysOf(ms) then Find(ms, key) else if key == m.key then m.value else Undefined
  {
    if ms != [] {
      assert (ms + [m])[1..] == ms[1..] + [m];
      assert KeysOf(ms) == [ms[0].key] + KeysOf(ms[1..]);
      FindAppend(ms[1..], m, key);
    }
  }

  lemma KeysAppend(ms: seq<Member>, m: Member)
    ensures KeysOf(ms + [m]) == KeysOf(ms) + [m.key]
  {
    assert |KeysOf(ms + [m])| == |KeysOf(ms) + [m.key]|;
    assert forall i :: 0 <= i < |ms| + 1 ==> KeysOf(ms + [m])[i] == (KeysOf(ms) + [m.key])[i];
  }

  /** `ms` with the value of its first member called `key` replaced by `v`. */
  function Replace(ms: seq<Member>, key: string, v: Node): (r: seq<Member>)
    requires key in KeysOf(ms)
    ensures KeysOf(r) == KeysOf(ms)
    ensures Find(r, key) == v
    ensures forall k :: k != key ==> Find(r, k) == Find(ms, k)
  {
    if ms[0].key == key then
      var r := [Member(key, v)] + ms[1..];
      assert r[1..] == ms[1..];
      assert KeysOf(r) == [key] + KeysOf(ms[1..]);
      r
    else
      var r := [ms[0]] + Replace(ms[1..], key, v);
      assert r[1..] == Replace(ms[1..], key, v);
      assert KeysOf(r) == [ms[0].key] + KeysOf(r[1..]);
      r
  }

  /**
   * `get(key).set(v)` on a node that is Undefined (it becomes an Object) or an
   * Object: an existing member keeps its position, a new one goes last.
   */
  function Put(n: Node, key: string, v: Node): (r: Node)
    requires n.Undefined? || n.Object?
    ensures r.Object?
    ensures Lookup(r, key) == v
    ensures forall k :: k != key ==> Lookup(r, k) == Lookup(n, k)
    ensures Keys(r) == if Has(n, key) then Keys(n) else Keys(n) + [key]
    ensures forall k :: Has(r, k) <==> Has(n, k) || k == key
    ensures (n.Undefined? || UniqueKeys(n.members)) ==> UniqueKeys(r.members)
    ensures !Has(n, key) ==> r.members == MembersOf(n) + [Member(key, v)]
  {
    if n.Undefined? then
      Object([Member(key, v)])
    else if Has(n, key) then
      Object(Replace(n.members, key, v))
    else
      var ms := n.members + [Member(key, v)];
      KeysAppend(n.members, Member(key, v));
      forall k ensures Find(ms, k) == if k == key then v else Find(n.members, k) {
        FindAppend(n.members, Member(key, v), k);
      }
      Object(ms)
  }

  /** Two puts of distinct keys into a fresh node give the two members in order. */
  lemma PutSecondMember(k1: string, v1: Node, k2: string, v2: Node)
    requires k1 != k2
    ensures Put(Put(Undefined, k1, v1), k2, v2) == Object([Member(k1, v1), Member(k2, v2)])
  {
    assert Keys(Put(Undefined, k1, v1)) == [k1];
  }

  /** Putting the second of two members again replaces its value in place. */
  lemma PutReplaceSecond(k1: string, v1: Node, k2: string, v2: Node, v3: Node)
    requires k1 != k2
    ensures Put(Object([Member(k1, v1), Member(k2, v2)]), k2, v3) == Object([Member(k1, v1), Member(k2, v3)])
  {
    var ms := [Member(k1, v1), Member(k2, v2)];
    assert KeysOf(ms) == [k1, k2];
    assert ms[1..] == [Member(k2, v2)];
  }

  /** A key that two puts do not touch keeps its value. */
  lemma LookupPastTwoPuts(n: Node, k1: string, v1: Node, k2: string, v2: Node, k: string)
    requires n.Undefined? || n.Object?
    requires k != k1 && k != k2
    ensures Lookup(Put(Put(n, k1, v1), k2, v2), k) == Lookup(n, k)
  {
  }

  // ---------------------------------------------------------------- typed access

  /** `get(key)` as a read: Undefined auto-vivifies into an Object, other defined kinds fail. */
  function Get(n: Node, key: string): (r: Result<Node, NodeError>)
    ensures r.Ok? <==> n.Undefined? || n.Object?
    ensures r.Ok? ==> r.value == Lookup(n, key)
    ensures r.Err? ==> r.error == TypeError(ObjectKind, KindOf(n))
  {
    match n
    case Undefined => Ok(Undefined)
    case Object(ms) => Ok(Find(ms, key))
    case _ => Err(TypeError(ObjectKind, KindOf(n)))
  }

  /** `require(key)`: the member, which must exist. */
  function Require(n: Node, key: string): (r: Result<Node, NodeError>)
    ensures r.Ok? <==> Has(n, key)
    ensures r.Ok? ==> r.value == Lookup(n, key)
    ensures r.Err? ==> r.error == if n.Object? then NoSuchKey(key) else TypeError(ObjectKind, KindOf(n))
  {
    if !n.Object? then Err(TypeError(ObjectKind, KindOf(n)))
    else if key in KeysOf(n.members) then Ok(Find(n.members, key))
    else Err(NoSuchKey(key))
  }

  /** `asString()`: defined for the string and boolean kinds only. */
  function AsString(n: Node): (r: Result<string, NodeError>)
    ensures r.Ok? <==> n.Str? || n.Bool?
    ensures n.Str? ==> r == Ok(n.text)
    ensures r.Err? ==> r.error == TypeError(StringKind, KindOf(n))
  {
    match n
    case Str(s) => Ok(s)
    case Bool(b) => Ok(if b then "true" else "false")
    case _ => Err(TypeError(StringKind, KindOf(n)))
  }

  /** `asList()`: the items of a List node. */
  function AsList(n: Node): (r: Result<seq<Node>, NodeError>)
    ensures r.Ok? <==> n.List?
    ensures r.Ok? ==> r.value == n.items
  {
    if n.List? then Ok(n.items) else Err(TypeError(ListKind, KindOf(n)))
  }

  /** `asBytes()`: the content of a Bytes node. */
  function AsBytes(n: Node): (r: Result<seq<byte>, NodeError>)
    ensures r.Ok? <==> n.Bytes?
    ensures r.Ok? ==> r.value == n.bytes
  {
    if n.Bytes? then Ok(n.bytes) else Err(TypeError(BytesKind, KindOf(n)))
  }

  /** `asPropertyList()`: an Object's members as ordered (name, value) pairs. */
  function AsPropertyList(n: Node): (r: Result<seq<Member>, NodeError>)
    ensures r.Ok? <==> n.Object?
    ensures r.Ok? ==> KeysOf(r.value) == Keys(n)
  {
    if n.Object? then Ok(n.members) else Err(TypeError(ObjectKind, KindOf(n)))
  }

  /** `keys()` as the writer uses it: only an Object has keys to iterate. */
  function ObjectKeys(n: Node): (r: Result<seq<string>, NodeError>)
    ensures r.Ok? <==> n.Object?
    ensures r.Ok? ==> r.value == Keys(n)
  {
    if n.Object? then Ok(KeysOf(n.members)) else Err(TypeError(ObjectKind, KindOf(n)))
  }

  /** One address segment, the pair `add(type, name)` appends: an Object with a single member. */
  function Segment(segmentType: string, name: string): Node {
    Object([Member(segmentType, Str(name))])
  }

  /** `add(item)` on a node that is Undefined (it becomes a List) or a List. */
  function Append(list: Node, item: Node): (r: Node)
    requires list.Undefined? || list.List?
    ensures r.List?
    ensures r.items == (if list.List? then list.items else []) + [item]
  {
    if list.Undefined? then List([item]) else List(list.items + [item])
  }
}
