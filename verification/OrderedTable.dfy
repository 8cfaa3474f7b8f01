/**
 Insertion-ordered tables of bounded size, keyed by C strings: what the fixed arrays of
 backend options implement.
 */
module OrderedTable {
  import opened MachineInts
  import opened Wrappers

  datatype Error = Ok | InvalidArgument | NotFound

  // ---- C strings ----

  /** The string held by a buffer: everything before the first NUL. */
  function CStr(bytes: seq<Byte>): seq<Byte> {
    if bytes == [] || bytes[0] == 0 then [] else [bytes[0]] + CStr(bytes[1..])
  }

  /** The bytes of a string without its terminator. */
  predicate NoNul(s: seq<Byte>) {
    0 !in s
  }

  lemma {:induction false} CStrOfCopy(key: seq<Byte>, rest: seq<Byte>)
    requires NoNul(key)
    ensures CStr(key + [0] + rest) == key
  {
    if key == [] {
    } else {
      assert (key + [0] + rest)[1..] == key[1..] + [0] + rest;
      CStrOfCopy(key[1..], rest);
      assert key[0] in key;
    }
  }

  /** What copying a string over an old buffer leaves in it. */
  function Overwrite(old_: seq<Byte>, s: seq<Byte>): (r: seq<Byte>)
    requires |s| < |old_|
    ensures |r| == |old_|
  {
    s + [0] + old_[|s| + 1..]
  }

  // ---- The abstract table ----

  datatype Item<+V> = Item(key: seq<Byte>, value: V)

  ghost predicate DistinctKeys<V>(t: seq<Item<V>>) {
    forall i, j :: 0 <= i < j < |t| ==> t[i].key != t[j].key
  }

  /** The position of a key, or the size of the table. */
  function Find<V>(t: seq<Item<V>>, key: seq<Byte>): (i: nat)
    ensures i <= |t| && (i < |t| ==> t[i].key == key)
    ensures forall j :: 0 <= j < i ==> t[j].key != key
  {
    if t == [] then 0
    else if t[0].key == key then 0
    else
      var r := Find(t[1..], key);
      assert forall j :: 1 <= j < 1 + r ==> t[j] == t[1..][j - 1];
      1 + r
  }

  function Lookup<V>(t: seq<Item<V>>, key: seq<Byte>): Option<V> {
    var i := Find(t, key);
    if i < |t| then Some(t[i].value) else None
  }

  /** Update in place, else append, else (None) refuse when full. */
  function Put<V>(t: seq<Item<V>>, key: seq<Byte>, value: V, capacity: nat): Option<seq<Item<V>>> {
    var i := Find(t, key);
    if i < |t| then Some(t[i := Item(key, value)])
    else if |t| < capacity then Some(t + [Item(key, value)])
    else None
  }

  lemma FindUnique<V>(t: seq<Item<V>>, key: seq<Byte>, i: nat)
    requires i <= |t| && (i < |t| ==> t[i].key == key)
    requires forall j :: 0 <= j < i ==> t[j].key != key
    ensures Find(t, key) == i
  {
  }

  /**
   A table behaves as a map: a put keeps the keys distinct and the table within capacity, is
   found again under its key, changes no other key and does not reorder. It is refused exactly
   when the key is new and the table full.
   */
  lemma PutLaws<V>(t: seq<Item<V>>, key: seq<Byte>, value: V, capacity: nat, other: seq<Byte>)
    requires DistinctKeys(t) && |t| <= capacity
    ensures Put(t, key, value, capacity).None? <==> Lookup(t, key).None? && |t| == capacity
    ensures Put(t, key, value, capacity).Some? ==>
      var t' := Put(t, key, value, capacity).value;
      && DistinctKeys(t') && |t| <= |t'| <= capacity
      && Lookup(t', key) == Some(value)
      && (other != key ==> Lookup(t', other) == Lookup(t, other))
      && forall i :: 0 <= i < |t| ==> t'[i].key == t[i].key
  {
    var r := Put(t, key, value, capacity);
    if r.Some? {
      var t' := r.value;
      FindUnique(t', key, Find(t, key));
      if other != key {
        var i := Find(t, other);
        if i < |t| {
          FindUnique(t', other, i);
        } else {
          FindUnique(t', other, |t'|);
        }
      }
    }
  }
}
