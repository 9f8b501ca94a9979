/** JSON values as Python holds them; `Null` is Python's `None`. */
module Json {
  import opened Common

  /** One key of a dictionary, in insertion order. */
  datatype Entry<+V> = Entry(key: string, value: V)

  datatype Value =
    | Null
    | Bool(b: bool)
    | Int(n: int)
    | Num(r: real)
    | Str(s: string)
    | Arr(items: seq<Value>)
    | Obj(entries: seq<Entry<Value>>)

  predicate HasKey<V>(entries: seq<Entry<V>>, key: string) {
    exists i :: 0 <= i < |entries| && entries[i].key == key
  }

  /** `dict.get`. */
  function Find<V>(entries: seq<Entry<V>>, key: string): (r: Option<V>)
    ensures r.Some? <==> HasKey(entries, key)
    ensures r.Some? ==> Entry(key, r.value) in entries
  {
    if entries == [] then None
    else if entries[0].key == key then Some(entries[0].value)
    else Find(entries[1..], key)
  }

  /** `dict[key] = value`. */
  function Put<V>(entries: seq<Entry<V>>, key: string, value: V): (r: seq<Entry<V>>)
    ensures HasKey(r, key)
  {
    if entries == [] then
      var r := [Entry(key, value)];
      assert r[0].key == key;
      r
    else if entries[0].key == key then
      var r := [Entry(key, value)] + entries[1..];
      assert r[0].key == key;
      r
    else
      var r := [entries[0]] + Put(entries[1..], key, value);
      assert r[1..] == Put(entries[1..], key, value);
      assert exists i :: 0 <= i < |r[1..]| && r[1..][i].key == key;
      r
  }

  predicate DistinctKeys<V>(entries: seq<Entry<V>>) {
    forall i, j :: 0 <= i < j < |entries| ==> entries[i].key != entries[j].key
  }

  lemma {:induction false} PutThenFind<V>(entries: seq<Entry<V>>, key: string, value: V)
    ensures forall k :: Find(Put(entries, key, value), k) == if k == key then Some(value) else Find(entries, k)
    ensures DistinctKeys(entries) ==> DistinctKeys(Put(entries, key, value))
    ensures forall e :: e in Put(entries, key, value) ==> e == Entry(key, value) || e in entries
  {
    if entries != [] && entries[0].key != key {
      PutThenFind(entries[1..], key, value);
      var r := Put(entries, key, value);
      assert r[0] == entries[0] && r[1..] == Put(entries[1..], key, value);
      if DistinctKeys(entries) {
        forall j | 1 <= j < |r| ensures r[j].key != r[0].key {
          assert r[1..][j - 1] == Entry(key, value) || r[1..][j - 1] in entries[1..];
        }
      }
    }
  }

  /** In a dictionary each key finds its value. */
  lemma {:induction false} FindAt<V>(entries: seq<Entry<V>>, i: nat)
    requires i < |entries| && DistinctKeys(entries)
    ensures Find(entries, entries[i].key) == Some(entries[i].value)
  {
    if i > 0 {
      FindAt(entries[1..], i - 1);
    }
  }

  /** Python truth. */
  predicate Truthy(v: Value) {
    match v
    case Null => false
    case Bool(b) => b
    case Int(n) => n != 0
    case Num(r) => r != 0.0
    case Str(s) => s != ""
    case Arr(items) => items != []
    case Obj(entries) => entries != []
  }

  predicate IsNumber(v: Value) {
    v.Bool? || v.Int? || v.Num?
  }

  function NumberOf(v: Value): real
    requires IsNumber(v)
  {
    match v
    case Bool(b) => if b then 1.0 else 0.0
    case Int(n) => n as real
    case Num(r) => r
  }

  /** Python `==`: numbers and booleans compare by value, dictionaries ignore order. */
  predicate Equal(a: Value, b: Value) {
    if IsNumber(a) && IsNumber(b) then NumberOf(a) == NumberOf(b)
    else match a
      case Arr(xs) => b.Arr? && |xs| == |b.items| && forall i :: 0 <= i < |xs| ==> Equal(xs[i], b.items[i])
      case Obj(xs) =>
        b.Obj? && |xs| == |b.entries| &&
        forall i :: 0 <= i < |xs| ==>
          Find(b.entries, xs[i].key).Some? && Equal(xs[i].value, Find(b.entries, xs[i].key).value)
      case _ => a == b
  }
}
