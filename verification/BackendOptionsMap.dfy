/**
 LoadBackendOptionsMap: the options of up to eight backends, by backend id, and their
 transactional installation into a module.
 */
module BackendOptionsMap {
  import opened MachineInts
  import opened OrderedTable
  import opened BackendOptions
  import opened Wrappers

  const MAX_BACKENDS: nat := 8
  const MAX_ID_LENGTH: nat := 64

  /** A view of options owned elsewhere. */
  datatype Span = Span(data: array?<BackendOption>, size: nat) {
    ghost predicate Readable() {
      size > 0 ==> data != null && size <= data.Length
    }

    /** The options seen through the span. */
    ghost function Values(): seq<BackendOption>
      requires Readable()
      reads data
    {
      if size == 0 then [] else data[..size]
    }
  }

  datatype Slot = Slot(id: seq<Byte>, options: Span)

  const EMPTY_SPAN: Span := Span(null, 0)

  function EntryTable(slots: seq<Slot>): (t: seq<Item<Span>>)
    ensures |t| == |slots|
    ensures forall i :: 0 <= i < |t| ==> t[i] == Item(CStr(slots[i].id), slots[i].options)
  {
    seq(|slots|, i requires 0 <= i < |slots| => Item(CStr(slots[i].id), slots[i].options))
  }

  /** What every id accepted by SetOptions satisfies. */
  predicate GoodId(id: seq<Byte>) {
    NoNul(id) && 0 < |id| < MAX_ID_LENGTH
  }

  class LoadBackendOptionsMap {
    const entries: array<Slot>
    var size: nat

    constructor ()
      ensures Valid() && fresh(entries) && Table() == []
    {
      entries := new Slot[MAX_BACKENDS](_ => Slot(Zeros(MAX_ID_LENGTH), EMPTY_SPAN));
      size := 0;
    }

    ghost predicate Valid()
      reads this, entries
    {
      && entries.Length == MAX_BACKENDS && size <= MAX_BACKENDS
      && (forall i :: 0 <= i < MAX_BACKENDS ==> |entries[i].id| == MAX_ID_LENGTH)
      && DistinctKeys(Table())
      && forall i :: 0 <= i < size ==> GoodId(Table()[i].key)
    }

    ghost function Table(): (t: seq<Item<Span>>)
      requires size <= entries.Length
      reads this, entries
      ensures |t| == size
    {
      EntryTable(entries[..size])
    }

    method Scan(id: seq<Byte>) returns (i: nat)
      requires size <= entries.Length
      ensures i == Find(Table(), id)
    {
      i := 0;
      while i < size && CStr(entries[i].id) != id
        invariant i <= size
        invariant forall j :: 0 <= j < i ==> Table()[j].key != id
      {
        i := i + 1;
      }
      FindUnique(Table(), id, i);
    }

    /** A null id is None. Succeeds exactly for a known id, or a new one of 1 to 63 characters while there is room. */
    method SetOptions(id: Option<seq<Byte>>, options: Span) returns (err: Error)
      requires Valid() && (id.Some? ==> NoNul(id.value))
      modifies this, entries
      ensures Valid()
      ensures err.Ok? <==>
        && id.Some? && 0 < |id.value| < 64
        && ((exists i :: 0 <= i < old(size) && old(Table())[i].key == id.value) || old(size) < 8)
      ensures err.Ok? ==> Table() == Put(old(Table()), id.value, options, MAX_BACKENDS).value
      ensures !err.Ok? ==> err == InvalidArgument && Table() == old(Table())
    {
      if id.None? || id.value == [] {
        return InvalidArgument;
      }
      err := SetOptionsImpl(id.value, options);
    }

    /** Replaces the options of an occupied slot. */
    method Update(i: nat, options: Span)
      requires Valid() && i < size
      modifies entries
      ensures Valid() && Table() == old(Table())[i := Item(old(Table())[i].key, options)]
    {
      ghost var before := Table();
      entries[i] := entries[i].(options := options);
      assert Table() == before[i := Item(before[i].key, options)];
    }

    /** Occupies the next slot, copying the id over whatever the slot held. */
    method Append(id: seq<Byte>, options: Span)
      requires Valid() && size < MAX_BACKENDS && GoodId(id) && Find(Table(), id) == size
      modifies this, entries
      ensures Valid() && Table() == old(Table()) + [Item(id, options)]
    {
      ghost var before := Table();
      var stale := entries[size].id;
      entries[size] := Slot(Overwrite(stale, id), options);
      CStrOfCopy(id, stale[|id| + 1..]);
      size := size + 1;
      assert Table() == before + [Item(id, options)];
    }

    method SetOptionsImpl(id: seq<Byte>, options: Span) returns (err: Error)
      requires Valid() && NoNul(id) && id != []
      modifies this, entries
      ensures Valid()
      ensures err.Ok? <==> |id| < MAX_ID_LENGTH && Put(old(Table()), id, options, MAX_BACKENDS).Some?
      ensures err.Ok? ==> Table() == Put(old(Table()), id, options, MAX_BACKENDS).value
      ensures !err.Ok? ==> err == InvalidArgument && Table() == old(Table())
    {
      var i := Scan(id);
      if i < size {
        Update(i, options);
        return Ok;
      }
      if size >= MAX_BACKENDS {
        return InvalidArgument;
      }
      if |id| >= MAX_ID_LENGTH {
        return InvalidArgument;
      }
      Append(id, options);
      return Ok;
    }

    method GetOptions(id: Option<seq<Byte>>) returns (options: Span)
      requires Valid()
      ensures options == if id.Some? then Lookup<Span>(Table(), id.value).GetOr(EMPTY_SPAN) else EMPTY_SPAN
    {
      if id.None? {
        return EMPTY_SPAN;
      }
      var i := Scan(id.value);
      return if i < size then entries[i].options else EMPTY_SPAN;
    }

    method HasOptions(id: Option<seq<Byte>>) returns (has: bool)
      requires Valid()
      ensures has <==> id.Some? && Lookup<Span>(Table(), id.value).Some?
    {
      if id.None? {
        return false;
      }
      var i := Scan(id.value);
      return i < size;
    }

    /** Enumeration in insertion order. */
    method EntryAt(index: nat) returns (id: seq<Byte>, options: Span)
      requires Valid() && index < size
      ensures Item(id, options) == Table()[index]
    {
      return CStr(entries[index].id), entries[index].options;
    }
  }

  // ---- Installation into a module ----

  /** The same ids in the same order, with equal option values. */
  ghost predicate SameOptions(t: seq<Item<Span>>, u: seq<Item<Span>>)
    requires forall i :: 0 <= i < |t| ==> t[i].value.Readable()
    requires forall i :: 0 <= i < |u| ==> u[i].value.Readable()
    reads set i | 0 <= i < |t| :: t[i].value.data
    reads set i | 0 <= i < |u| :: u[i].value.data
  {
    && |t| == |u|
    && forall i :: 0 <= i < |t| ==> t[i].key == u[i].key && t[i].value.Values() == u[i].value.Values()
  }

  /** The array holds the options of the span, one by one. */
  ghost predicate HoldsCopy(owned: array<BackendOption>, options: Span)
    reads owned, options.data
  {
    && owned.Length == options.size
    && forall j :: 0 <= j < owned.Length ==>
         options.data != null && j < options.data.Length && owned[j] == options.data[j]
  }

  /** A fresh copy of the options seen through a span. */
  method CopyOptions(options: Span) returns (owned: array<BackendOption>)
    requires options.Readable()
    ensures fresh(owned) && owned.Length == options.size && owned[..] == options.Values()
  {
    owned := new BackendOption[options.size](_ => EmptyOption());
    for j := 0 to options.size
      invariant owned[..j] == options.Values()[..j]
    {
      owned[j] := options.data[j];
    }
  }

  /** Copies entry i of the input to the end of a map that holds the earlier ones; this cannot fail. */
  method CopyEntry(input: LoadBackendOptionsMap, i: nat, localMap: LoadBackendOptionsMap)
    returns (err: Error, owned: array<BackendOption>)
    requires input.Valid() && i < input.size && input.Table()[i].value.Readable()
    requires localMap.Valid() && localMap.size == i
    requires localMap != input && localMap.entries != input.entries
    requires forall j :: 0 <= j < i ==> localMap.Table()[j].key == input.Table()[j].key
    modifies localMap, localMap.entries
    ensures err.Ok? && localMap.Valid() && fresh(owned)
    ensures localMap.Table() == old(localMap.Table()) + [Item(input.Table()[i].key, Span(owned, owned.Length))]
    ensures owned.Length == input.Table()[i].value.size && owned[..] == input.Table()[i].value.Values()
  {
    var id, options := input.EntryAt(i);
    owned := CopyOptions(options);
    NewId(localMap.Table(), input.Table(), i);
    err := localMap.SetOptions(Some(id), Span(owned, owned.Length));
  }

  /** The entry covers an owned array that holds the values of the other entry, under the same id. */
  ghost predicate OwnedCopy(copy: Item<Span>, owned: array<BackendOption>, original: Item<Span>)
    requires original.value.Readable()
    reads owned, original.value.data
  {
    copy == Item(original.key, Span(owned, owned.Length)) && owned[..] == original.value.Values()
  }

  /** The map and its arrays hold copies of the first entries of another map. */
  ghost predicate CopiesOf(copy: LoadBackendOptionsMap, storage: seq<array<BackendOption>>, entries: seq<Item<Span>>)
    requires forall i :: 0 <= i < |entries| ==> entries[i].value.Readable()
    reads copy, copy.entries, storage, set i | 0 <= i < |entries| :: entries[i].value.data
  {
    && copy.Valid() && |storage| == copy.size <= |entries|
    && forall i :: 0 <= i < |storage| ==> OwnedCopy(copy.Table()[i], storage[i], entries[i])
  }

  /** Copies one more entry. */
  method CopyNext(input: LoadBackendOptionsMap, copy: LoadBackendOptionsMap, storage: seq<array<BackendOption>>)
    returns (err: Error, owned: array<BackendOption>)
    requires input.Valid() && copy != input && copy.entries != input.entries
    requires forall i :: 0 <= i < input.size ==> input.Table()[i].value.Readable()
    requires CopiesOf(copy, storage, input.Table()) && |storage| < input.size
    modifies copy, copy.entries
    ensures err.Ok? && fresh(owned)
    ensures CopiesOf(copy, storage + [owned], input.Table())
  {
    ghost var before := copy.Table();
    err, owned := CopyEntry(input, |storage|, copy);
    assert forall i :: 0 <= i < |storage| ==> copy.Table()[i] == before[i];
  }

  /** Deep copies of all entries; the copies back the spans of the new map. */
  method CopyEntries(input: LoadBackendOptionsMap)
    returns (err: Error, storage: seq<array<BackendOption>>, copy: LoadBackendOptionsMap)
    requires input.Valid()
    requires forall i :: 0 <= i < input.size ==> input.Table()[i].value.Readable()
    ensures err.Ok? && fresh(copy) && fresh(copy.entries) && forall i :: 0 <= i < |storage| ==> fresh(storage[i])
    ensures |storage| == input.size && CopiesOf(copy, storage, input.Table())
  {
    storage := [];
    copy := new LoadBackendOptionsMap();
    for i := 0 to input.size
      invariant |storage| == i && CopiesOf(copy, storage, input.Table())
      invariant fresh(copy) && fresh(copy.entries)
      invariant forall j :: 0 <= j < i ==> fresh(storage[j])
    {
      var owned;
      err, owned := CopyNext(input, copy, storage);
      storage := storage + [owned];
    }
    err := Ok;
  }

  lemma CopiesAgree(input: LoadBackendOptionsMap, copy: LoadBackendOptionsMap, storage: seq<array<BackendOption>>)
    requires input.Valid() && forall i :: 0 <= i < input.size ==> input.Table()[i].value.Readable()
    requires CopiesOf(copy, storage, input.Table()) && |storage| == input.size
    ensures SameOptions(copy.Table(), input.Table())
    ensures forall i :: 0 <= i < |storage| ==> HoldsCopy(storage[i], input.entries[i].options)
    ensures forall i :: 0 <= i < |storage| ==> copy.Table()[i].value == Span(storage[i], storage[i].Length)
  {
    forall i | 0 <= i < |storage|
      ensures HoldsCopy(storage[i], input.entries[i].options)
      ensures copy.Table()[i] == Item(input.Table()[i].key, Span(storage[i], storage[i].Length))
    {
      assert OwnedCopy(copy.Table()[i], storage[i], input.Table()[i]);
      assert forall j :: 0 <= j < storage[i].Length ==> storage[i][j] == storage[i][..][j];
    }
  }

  class Module {
    var storage: seq<array<BackendOption>>
    var installed: LoadBackendOptionsMap

    constructor ()
      ensures fresh(installed) && installed.Valid() && installed.Table() == [] && storage == []
    {
      installed := new LoadBackendOptionsMap();
      storage := [];
    }

    /** Every installed span covers an array that the module owns. */
    ghost predicate Owned()
      reads this, installed, installed.entries
    {
      && installed.Valid() && |storage| == installed.size
      && forall i :: 0 <= i < |storage| ==> installed.Table()[i].value == Span(storage[i], storage[i].Length)
    }

    /**
     Loads the program (`loadError` is how that goes) and installs deep copies of the options.
     A failing load leaves the installed options alone. Otherwise the call cannot fail, since
     the input map already holds good ids: the result lists the same ids and values in the same
     order, in arrays that belong to nobody else.
     */
    method LoadWithBackendOptions(input: LoadBackendOptionsMap, loadError: Option<Error>) returns (err: Option<Error>)
      requires input.Valid()
      requires forall i :: 0 <= i < input.size ==> input.Table()[i].value.Readable()
      modifies this
      ensures err == loadError
      ensures err.Some? ==> installed == old(installed) && storage == old(storage)
      ensures err.None? ==>
        && fresh(installed) && fresh(installed.entries) && Owned()
        && (forall i :: 0 <= i < |storage| ==> fresh(storage[i]))
        && SameOptions(installed.Table(), input.Table())
      ensures err.None? ==> |storage| == input.size && forall i :: 0 <= i < |storage| ==>
        HoldsCopy(storage[i], input.entries[i].options)
    {
      if loadError.Some? {
        return loadError;
      }
      var e, localStorage, localMap := CopyEntries(input);
      if !e.Ok? {
        return Some(e);
      }
      CopiesAgree(input, localMap, localStorage);
      storage := localStorage;
      installed := localMap;
      return None;
    }
  }

  /** The next id of a map is new to a copy of the earlier ones, so putting it appends. */
  lemma NewId(t: seq<Item<Span>>, input: seq<Item<Span>>, i: nat)
    requires DistinctKeys(input) && i < |input| <= MAX_BACKENDS && |t| == i
    requires forall j :: 0 <= j < i ==> t[j].key == input[j].key
    ensures forall v :: Put(t, input[i].key, v, MAX_BACKENDS) == Some(t + [Item(input[i].key, v)])
  {
    FindUnique(t, input[i].key, i);
  }
}
