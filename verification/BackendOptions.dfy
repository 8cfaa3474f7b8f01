/**
 BackendOptions: typed options of one backend in a fixed array.
 */
module BackendOptions {
  import opened Arith
  import opened MachineInts
  import opened OrderedTable
  import opened Wrappers

  const MAX_KEY_LENGTH: nat := 64
  const MAX_VALUE_LENGTH: nat := 256

  datatype OptionValue = Bool(b: bool) | Int(i: int) | CharArray(chars: seq<Byte>)

  datatype BackendOption = BackendOption(key: seq<Byte>, value: OptionValue)

  function Zeros(n: nat): (r: seq<Byte>)
    ensures |r| == n
  {
    seq(n, _ => 0)
  }

  function EmptyOption(): BackendOption {
    BackendOption(Zeros(MAX_KEY_LENGTH), Bool(false))
  }

  /** The table held by the first n slots. */
  function OptionTable(slots: seq<BackendOption>): (t: seq<Item<OptionValue>>)
    ensures |t| == |slots|
    ensures forall i :: 0 <= i < |t| ==> t[i] == Item(CStr(slots[i].key), slots[i].value)
  {
    seq(|slots|, i requires 0 <= i < |slots| => Item(CStr(slots[i].key), slots[i].value))
  }

  class BackendOptions {
    const options: array<BackendOption>
    var size: nat

    constructor (capacity: nat)
      ensures Valid() && fresh(options) && options.Length == capacity && Table() == []
    {
      options := new BackendOption[capacity](_ => EmptyOption());
      size := 0;
    }

    ghost predicate Valid()
      reads this, options
    {
      && size <= options.Length
      && (forall i :: 0 <= i < options.Length ==> |options[i].key| == MAX_KEY_LENGTH)
      && DistinctKeys(Table())
    }

    /** What can be observed; slots from `size` on never matter. */
    ghost function Table(): seq<Item<OptionValue>>
      requires size <= options.Length
      reads this, options
    {
      OptionTable(options[..size])
    }

    /** The scan over the occupied slots by strcmp. */
    method Scan(key: seq<Byte>) returns (i: nat)
      requires size <= options.Length
      ensures i == Find(Table(), key)
    {
      i := 0;
      while i < size && CStr(options[i].key) != key
        invariant i <= size
        invariant forall j :: 0 <= j < i ==> Table()[j].key != key
      {
        i := i + 1;
      }
      FindUnique(Table(), key, i);
    }

    method Update(i: nat, value: OptionValue)
      requires Valid() && i < size
      modifies options
      ensures Valid() && Table() == old(Table())[i := Item(old(Table())[i].key, value)]
    {
      ghost var before := Table();
      options[i] := options[i].(value := value);
      assert Table() == before[i := Item(before[i].key, value)];
    }

    method Append(key: seq<Byte>, value: OptionValue)
      requires Valid() && size < options.Length && NoNul(key) && |key| < MAX_KEY_LENGTH
      requires Find(Table(), key) == size
      modifies this, options
      ensures Valid() && Table() == old(Table()) + [Item(key, value)]
    {
      ghost var before := Table();
      var copyLen := Min(|key|, MAX_KEY_LENGTH - 1);
      assert key[..copyLen] == key;
      options[size] := BackendOption(Overwrite(Zeros(MAX_KEY_LENGTH), key[..copyLen]), value);
      CStrOfCopy(key, Zeros(MAX_KEY_LENGTH)[|key| + 1..]);
      size := size + 1;
      assert Table() == before + [Item(key, value)];
    }

    /** Keys come from arrays of at most 64 characters including the NUL. */
    method SetOption(key: seq<Byte>, value: OptionValue) returns (err: Error)
      requires Valid() && NoNul(key) && |key| < MAX_KEY_LENGTH
      modifies this, options
      ensures Valid()
      ensures err.Ok? <==> Put(old(Table()), key, value, options.Length).Some?
      ensures err.Ok? ==> Table() == Put(old(Table()), key, value, options.Length).value
      ensures !err.Ok? ==> err == InvalidArgument && Table() == old(Table())
    {
      var i := Scan(key);
      if i < size {
        Update(i, value);
        return Ok;
      }
      if size < options.Length {
        Append(key, value);
        return Ok;
      }
      return InvalidArgument;
    }

    /** The stored form of a string value: at most 255 characters, padded with NULs. */
    static function StoredString(value: seq<Byte>): seq<Byte> {
      var kept := value[..Min(|value|, MAX_VALUE_LENGTH - 1)];
      kept + Zeros(MAX_VALUE_LENGTH - |kept|)
    }

    static lemma StoredStringReadsBack(value: seq<Byte>)
      requires NoNul(value)
      ensures |StoredString(value)| == MAX_VALUE_LENGTH
      ensures CStr(StoredString(value)) == value[..Min(|value|, MAX_VALUE_LENGTH - 1)]
    {
      var kept := value[..Min(|value|, MAX_VALUE_LENGTH - 1)];
      CStrOfCopy(kept, Zeros(MAX_VALUE_LENGTH - |kept| - 1));
      assert StoredString(value) == kept + [0] + Zeros(MAX_VALUE_LENGTH - |kept| - 1);
    }

    /** Ok with the value, InvalidArgument when the type differs, NotFound when the key is absent. */
    method GetBool(key: seq<Byte>, initial: bool) returns (err: Error, out: bool)
      requires Valid()
      ensures match Lookup<OptionValue>(Table(), key)
        case None => err == NotFound && out == initial
        case Some(Bool(b)) => err == Ok && out == b
        case Some(_) => err == InvalidArgument && out == initial
    {
      var i := Scan(key);
      if i == size {
        return NotFound, initial;
      }
      if options[i].value.Bool? {
        return Ok, options[i].value.b;
      }
      return InvalidArgument, initial;
    }

    method GetInt(key: seq<Byte>, initial: int) returns (err: Error, out: int)
      requires Valid()
      ensures match Lookup<OptionValue>(Table(), key)
        case None => err == NotFound && out == initial
        case Some(Int(n)) => err == Ok && out == n
        case Some(_) => err == InvalidArgument && out == initial
    {
      var i := Scan(key);
      if i == size {
        return NotFound, initial;
      }
      if options[i].value.Int? {
        return Ok, options[i].value.i;
      }
      return InvalidArgument, initial;
    }

    method GetStr(key: seq<Byte>, initial: seq<Byte>) returns (err: Error, out: seq<Byte>)
      requires Valid()
      ensures match Lookup<OptionValue>(Table(), key)
        case None => err == NotFound && out == initial
        case Some(CharArray(chars)) => err == Ok && out == CStr(chars)
        case Some(_) => err == InvalidArgument && out == initial
    {
      var i := Scan(key);
      if i == size {
        return NotFound, initial;
      }
      if options[i].value.CharArray? {
        return Ok, CStr(options[i].value.chars);
      }
      return InvalidArgument, initial;
    }

    /** A copy shows the same table whatever its unused slots hold. */
    method Clone() returns (copy: BackendOptions)
      requires Valid()
      ensures fresh(copy) && copy.Valid() && copy.Table() == Table() && copy.options.Length == options.Length
    {
      copy := new BackendOptions(options.Length);
      copy.CopySlots(this);
    }

    method CloneFrom(other: BackendOptions)
      requires Valid() && other.Valid() && other.options.Length == options.Length
      requires other == this || other.options != options
      modifies this, options
      ensures Valid() && Table() == old(other.Table())
    {
      if other != this {
        CopySlots(other);
      }
    }

    /** Takes over size and occupied slots; slots beyond keep their stale content. */
    method CopySlots(other: BackendOptions)
      requires Valid() && other.Valid() && other != this && other.options != options
      requires other.options.Length == options.Length
      modifies this, options
      ensures Valid() && Table() == other.Table()
    {
      size := other.size;
      for i := 0 to size
        invariant size == other.size
        invariant forall j :: 0 <= j < i ==> options[j] == other.options[j]
        invariant forall j :: 0 <= j < options.Length ==> |options[j].key| == MAX_KEY_LENGTH
      {
        options[i] := other.options[i];
      }
      assert options[..size] == other.options[..size];
    }
  }
}
