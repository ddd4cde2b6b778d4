/**
 The JSON codec of tcbot/database/cache.py: `_MongoJSONEncoder` and `_mongo_object_hook`.

 Values are trees of lists and string-keyed dicts. JSON text itself is left to the library,
 so encoding and decoding are functions between such trees and JSON trees. How datetimes and
 ObjectIds are written and read is the library's too, and a parameter here.
 */
module MongoJson {
  import opened Wrappers

  const TYPE_KEY := "__tcbot_type__"
  const VALUE_KEY := "value"
  const DATETIME_TYPE := "datetime"
  const OBJECT_ID_TYPE := "objectid"

  /** `Opaque` is a value of a type unknown to the encoder, given by its `str`. */
  datatype Value =
    | Null
    | Bool(b: bool)
    | Num(n: int)
    | Str(s: string)
    | List(items: seq<Value>)
    | Dict(entries: map<string, Value>)
    | DateTime(instant: int)
    | ObjectId(oid: int)
    | Opaque(text: string)

  datatype Json =
    | JNull
    | JBool(b: bool)
    | JNum(n: int)
    | JStr(s: string)
    | JList(items: seq<Json>)
    | JDict(entries: map<string, Json>)

  /** The library's conversions: `isoformat`, `fromisoformat`, `str(ObjectId)`, `ObjectId(str)`. */
  datatype Scalars = Scalars(
    showInstant: int -> string,
    readInstant: string -> Option<int>,
    showOid: int -> string,
    readOid: string -> Option<int>)

  /** What is written can be read again. */
  ghost predicate Faithful(k: Scalars) {
    && (forall t :: k.readInstant(k.showInstant(t)) == Some(t))
    && (forall o :: k.readOid(k.showOid(o)) == Some(o))
  }

  function Tagged(typeName: string, text: string): Json {
    JDict(map[TYPE_KEY := JStr(typeName), VALUE_KEY := JStr(text)])
  }

  function Encode(k: Scalars, v: Value): Json {
    match v
    case Null => JNull
    case Bool(b) => JBool(b)
    case Num(n) => JNum(n)
    case Str(s) => JStr(s)
    case List(items) => JList(seq(|items|, i requires 0 <= i < |items| => Encode(k, items[i])))
    case Dict(entries) => JDict(map key | key in entries :: Encode(k, entries[key]))
    case DateTime(t) => Tagged(DATETIME_TYPE, k.showInstant(t))
    case ObjectId(o) => Tagged(OBJECT_ID_TYPE, k.showOid(o))
    case Opaque(text) => JStr(text)
  }

  /** The hook that `json.loads` calls on every dict, innermost first. */
  function ObjectHook(k: Scalars, entries: map<string, Value>): Value {
    var raw := if VALUE_KEY in entries && entries[VALUE_KEY].Str? then Some(entries[VALUE_KEY].s) else None;
    var tag := if TYPE_KEY in entries then entries[TYPE_KEY] else Null;
    if tag == Str(DATETIME_TYPE) && raw.Some? then
      match k.readInstant(raw.value)
      case Some(t) => DateTime(t)
      case None => Dict(entries)
    else if tag == Str(OBJECT_ID_TYPE) && raw.Some? then
      match k.readOid(raw.value)
      case Some(o) => ObjectId(o)
      case None => Dict(entries)
    else Dict(entries)
  }

  function Decode(k: Scalars, j: Json): Value {
    match j
    case JNull => Null
    case JBool(b) => Bool(b)
    case JNum(n) => Num(n)
    case JStr(s) => Str(s)
    case JList(items) => List(seq(|items|, i requires 0 <= i < |items| => Decode(k, items[i])))
    case JDict(entries) => ObjectHook(k, map key | key in entries :: Decode(k, entries[key]))
  }

  /** A dict of the application that looks like an encoded datetime or ObjectId. */
  predicate Forged(k: Scalars, entries: map<string, Value>) {
    && TYPE_KEY in entries && VALUE_KEY in entries && entries[VALUE_KEY].Str?
    && ((entries[TYPE_KEY] == Str(DATETIME_TYPE) && k.readInstant(entries[VALUE_KEY].s).Some?)
        || (entries[TYPE_KEY] == Str(OBJECT_ID_TYPE) && k.readOid(entries[VALUE_KEY].s).Some?))
  }

  /** No forged dict and no value of an unknown type anywhere in the tree. */
  predicate Clean(k: Scalars, v: Value) {
    match v
    case List(items) => forall i :: 0 <= i < |items| ==> Clean(k, items[i])
    case Dict(entries) => !Forged(k, entries) && forall key :: key in entries ==> Clean(k, entries[key])
    case Opaque(_) => false
    case _ => true
  }

  /** No dict anywhere in the tree uses the tag key, and every leaf has a known type. */
  predicate Untagged(v: Value) {
    match v
    case List(items) => forall i :: 0 <= i < |items| ==> Untagged(items[i])
    case Dict(entries) => TYPE_KEY !in entries && forall key :: key in entries ==> Untagged(entries[key])
    case Opaque(_) => false
    case _ => true
  }

  lemma {:induction false} HookKeepsUnlessForged(k: Scalars, entries: map<string, Value>)
    ensures ObjectHook(k, entries) == Dict(entries) <==> !Forged(k, entries)
  {
  }

  /** Decoding gives an encoded value back unchanged exactly when the value is clean. */
  lemma {:induction false} RoundTrip(k: Scalars, v: Value)
    requires Faithful(k)
    ensures Decode(k, Encode(k, v)) == v <==> Clean(k, v)
    decreases v, 1
  {
    match v {
      case List(items) =>
        var back := Decode(k, Encode(k, v));
        forall i | 0 <= i < |items| ensures back.items[i] == items[i] <==> Clean(k, items[i]) {
          RoundTrip(k, items[i]);
        }
        if Clean(k, v) {
          assert back.items == items;
        }
      case Dict(entries) => DictRoundTrip(k, entries);
      case DateTime(t) => TaggedDecodes(k, DATETIME_TYPE, k.showInstant(t));
      case ObjectId(o) => TaggedDecodes(k, OBJECT_ID_TYPE, k.showOid(o));
      case _ =>
    }
  }

  /** The entries of a dict, each written and read again. */
  function Reread(k: Scalars, entries: map<string, Value>): map<string, Value> {
    map key | key in entries :: Decode(k, Encode(k, entries[key]))
  }

  lemma {:induction false} DictDecodes(k: Scalars, entries: map<string, Value>)
    ensures Decode(k, Encode(k, Dict(entries))) == ObjectHook(k, Reread(k, entries))
  {
    var encoded := map key | key in entries :: Encode(k, entries[key]);
    assert Encode(k, Dict(entries)) == JDict(encoded);
    assert (map key | key in encoded :: Decode(k, encoded[key])) == Reread(k, entries);
  }

  lemma {:induction false} HookGivesDictOrLeaf(k: Scalars, entries: map<string, Value>)
    ensures ObjectHook(k, entries) == Dict(entries) || !ObjectHook(k, entries).Dict?
  {
  }

  lemma {:induction false} CleanDict(k: Scalars, entries: map<string, Value>)
    ensures Clean(k, Dict(entries)) <==> !Forged(k, entries) && forall key :: key in entries ==> Clean(k, entries[key])
  {
  }

  lemma {:induction false} DictRoundTrip(k: Scalars, entries: map<string, Value>)
    requires Faithful(k)
    ensures Decode(k, Encode(k, Dict(entries))) == Dict(entries) <==> Clean(k, Dict(entries))
    decreases Dict(entries), 0
  {
    var reread := Reread(k, entries);
    forall key | key in entries ensures reread[key] == entries[key] <==> Clean(k, entries[key]) {
      RoundTrip(k, entries[key]);
    }
    DictDecodes(k, entries);
    HookKeepsUnlessForged(k, entries);
    HookGivesDictOrLeaf(k, reread);
    CleanDict(k, entries);
    hide Decode, Encode, ObjectHook, Clean, Forged;
    if forall key :: key in entries ==> Clean(k, entries[key]) {
      assert reread == entries;
    } else {
      assert reread != entries;
    }
  }

  lemma {:induction false} TaggedDecodes(k: Scalars, typeName: string, text: string)
    ensures Decode(k, Tagged(typeName, text)) == ObjectHook(k, map[TYPE_KEY := Str(typeName), VALUE_KEY := Str(text)])
  {
    var entries := map[TYPE_KEY := JStr(typeName), VALUE_KEY := JStr(text)];
    assert (map key | key in entries :: Decode(k, entries[key]))
        == map[TYPE_KEY := Str(typeName), VALUE_KEY := Str(text)];
  }

  lemma {:induction false} UntaggedIsClean(k: Scalars, v: Value)
    requires Untagged(v)
    ensures Clean(k, v)
  {
    match v {
      case List(items) =>
        forall i | 0 <= i < |items| ensures Clean(k, items[i]) {
          UntaggedIsClean(k, items[i]);
        }
      case Dict(entries) =>
        forall key | key in entries ensures Clean(k, entries[key]) {
          UntaggedIsClean(k, entries[key]);
        }
      case _ =>
    }
  }

  /** What a datetime and an ObjectId look like in the cache. */
  lemma {:induction false} WireFormat(k: Scalars, t: int, o: int)
    ensures Encode(k, DateTime(t))
         == JDict(map["__tcbot_type__" := JStr("datetime"), "value" := JStr(k.showInstant(t))])
    ensures Encode(k, ObjectId(o)) == JDict(map["__tcbot_type__" := JStr("objectid"), "value" := JStr(k.showOid(o))])
  {
  }

  /** In particular every tree whose dicts leave the tag key alone survives the cache. */
  lemma {:induction false} UntaggedRoundTrip(k: Scalars, v: Value)
    requires Faithful(k) && Untagged(v)
    ensures Decode(k, Encode(k, v)) == v
  {
    UntaggedIsClean(k, v);
    RoundTrip(k, v);
  }
}
