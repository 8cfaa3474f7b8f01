/**
 The operator registry and the merge of optimised over portable kernels.
 */
module KernelRegistry {
  import opened Wrappers

  const MAX_KERNELS: nat := 2000

  /** An implementation of an operator; without a key it is the fallback for every input. */
  datatype Kernel = Kernel(name: string, key: Option<string>, op: nat)

  /** Aborted stands for the fatal abort that ends the process. */
  datatype Outcome = Ok | Aborted

  predicate IsFallback(k: Kernel, name: string) {
    k.key.None? && k.name == name
  }

  predicate HasFallback(t: seq<Kernel>, name: string) {
    exists i :: 0 <= i < |t| && IsFallback(t[i], name)
  }

  /** No two entries have the same name and the same key. */
  ghost predicate NoDuplicates(t: seq<Kernel>) {
    forall i, j :: 0 <= i < j < |t| ==> !(t[i].name == t[j].name && t[i].key == t[j].key)
  }

  /** At most one fallback per name. */
  ghost predicate UniqueFallbacks(t: seq<Kernel>) {
    forall i, j :: 0 <= i < j < |t| && t[i].key.None? && t[j].key.None? ==> t[i].name != t[j].name
  }

  /** The registry after registering a list of fallback kernels, each only if its name has none yet. */
  function Merge(t: seq<Kernel>, batch: seq<Kernel>): seq<Kernel>
    decreases |batch|
  {
    if batch == [] then t
    else Merge(if HasFallback(t, batch[0].name) then t else t + [batch[0]], batch[1..])
  }

  ghost predicate Fallbacks(batch: seq<Kernel>) {
    forall i :: 0 <= i < |batch| ==> batch[i].key.None?
  }

  class Registry {
    const table: array<Kernel>
    var count: nat

    constructor ()
      ensures Valid() && fresh(table) && Kernels() == []
    {
      table := new Kernel[MAX_KERNELS](_ => Kernel("", None, 0));
      count := 0;
    }

    /** Holds in every registry that registrations of any kind lead to. */
    ghost predicate Valid()
      reads this, table
    {
      table.Length == MAX_KERNELS && count <= MAX_KERNELS && NoDuplicates(table[..count])
    }

    /** In particular no name ever has two fallbacks. */
    lemma FallbacksAreUnique()
      requires Valid()
      ensures UniqueFallbacks(Kernels())
    {
      DistinctFallbacks(Kernels());
    }

    ghost function Kernels(): (t: seq<Kernel>)
      requires count <= table.Length
      reads this, table
      ensures |t| == count
    {
      table[..count]
    }

    /** Aborts when the table is full or the same name and key are already registered. */
    method RegisterKernel(k: Kernel) returns (r: Outcome)
      requires Valid()
      modifies this, table
      ensures Valid()
      ensures r.Ok? <==>
        && old(count) < 2000
        && forall i :: 0 <= i < old(count) ==> !(old(table[i]).name == k.name && old(table[i]).key == k.key)
      ensures Kernels() == if r.Ok? then old(Kernels()) + [k] else old(Kernels())
    {
      if 1 + count > MAX_KERNELS {
        return Aborted;
      }
      for i := 0 to count
        invariant forall j :: 0 <= j < i ==> !(table[j].name == k.name && table[j].key == k.key)
      {
        if table[i].name == k.name && table[i].key == k.key {
          assert Kernels()[i] == table[i];
          return Aborted;
        }
      }
      ghost var before := Kernels();
      table[count] := k;
      count := count + 1;
      assert Kernels() == before + [k];
      return Ok;
    }

    method RegistryHasFallbackKernel(name: string) returns (has: bool)
      requires Valid()
      ensures has <==> HasFallback(Kernels(), name)
      ensures has <==> exists i :: 0 <= i < count && table[i].name == name && table[i].key.None?
    {
      for i := 0 to count
        invariant forall j :: 0 <= j < i ==> !IsFallback(table[j], name)
      {
        if table[i].key.Some? {
          continue;
        }
        if table[i].name == name {
          assert IsFallback(Kernels()[i], name);
          return true;
        }
      }
      return false;
    }

    /** Submits a fallback kernel only when its name has none, so it is never a duplicate. */
    method RegisterIfAbsent(k: Kernel) returns (r: Outcome)
      requires Valid() && k.key.None?
      modifies this, table
      ensures Valid()
      ensures r.Ok? <==> HasFallback(old(Kernels()), k.name) || old(count) < MAX_KERNELS
      ensures Kernels() ==
        if HasFallback(old(Kernels()), k.name) || r.Aborted? then old(Kernels()) else old(Kernels()) + [k]
    {
      var has := RegistryHasFallbackKernel(k.name);
      if has {
        return Ok;
      }
      r := RegisterKernel(k);
    }

    /** Registers a list in order. It goes through exactly when the merged registry fits the table. */
    method RegisterAll(batch: seq<Kernel>) returns (r: Outcome)
      requires Valid() && Fallbacks(batch)
      modifies this, table
      ensures Valid()
      ensures r.Ok? <==> |Merge(old(Kernels()), batch)| <= MAX_KERNELS
      ensures r.Ok? ==> Kernels() == Merge(old(Kernels()), batch)
      ensures Kernels() <= Merge(old(Kernels()), batch)
    {
      for i := 0 to |batch|
        invariant Valid()
        invariant Merge(Kernels(), batch[i..]) == Merge(old(Kernels()), batch)
      {
        var k := batch[i];
        assert batch[i..][0] == k && batch[i..][1..] == batch[i + 1..];
        ghost var before := Kernels();
        r := RegisterIfAbsent(k);
        if r.Aborted? {
          MergeExtends(before + [k], batch[i + 1..]);
          return;
        }
      }
      assert batch[|batch|..] == [];
      return Ok;
    }

    /** Optimised kernels first, then the portable ones. */
    method Register(optimized: seq<Kernel>, portable: seq<Kernel>) returns (r: Outcome)
      requires Valid() && Fallbacks(optimized) && Fallbacks(portable)
      modifies this, table
      ensures Valid()
      ensures r.Ok? <==> |Merge(old(Kernels()), optimized + portable)| <= MAX_KERNELS
      ensures r.Ok? ==> Kernels() == Merge(old(Kernels()), optimized + portable)
    {
      MergeConcat(Kernels(), optimized, portable);
      MergeExtends(Merge(Kernels(), optimized), portable);
      r := RegisterAll(optimized);
      if r.Aborted? {
        return;
      }
      r := RegisterAll(portable);
    }
  }

  lemma DistinctFallbacks(t: seq<Kernel>)
    requires NoDuplicates(t)
    ensures UniqueFallbacks(t)
  {
  }

  // ---- What a merge does ----

  /** Earlier entries stay in place, in front. */
  lemma {:induction false} MergeExtends(t: seq<Kernel>, batch: seq<Kernel>)
    ensures t <= Merge(t, batch)
    decreases |batch|
  {
    if batch == [] {
    } else {
      MergeExtends(if HasFallback(t, batch[0].name) then t else t + [batch[0]], batch[1..]);
    }
  }

  lemma {:induction false} MergeConcat(t: seq<Kernel>, a: seq<Kernel>, b: seq<Kernel>)
    ensures Merge(t, a + b) == Merge(Merge(t, a), b)
    decreases |a|
  {
    if a == [] {
      assert a + b == b;
    } else {
      assert (a + b)[1..] == a[1..] + b;
      MergeConcat(if HasFallback(t, a[0].name) then t else t + [a[0]], a[1..], b);
    }
  }

  lemma FallbackKept(t: seq<Kernel>, t': seq<Kernel>, name: string)
    requires t <= t' && HasFallback(t, name)
    ensures HasFallback(t', name)
  {
    var i :| 0 <= i < |t| && IsFallback(t[i], name);
    assert IsFallback(t'[i], name);
  }

  /** Uniqueness survives, so it holds in every registry reached by merges. */
  lemma {:induction false} MergeKeepsUnique(t: seq<Kernel>, batch: seq<Kernel>)
    requires UniqueFallbacks(t) && Fallbacks(batch)
    ensures UniqueFallbacks(Merge(t, batch))
    decreases |batch|
  {
    if batch == [] {
    } else {
      if HasFallback(t, batch[0].name) {
        MergeKeepsUnique(t, batch[1..]);
      } else {
        var t' := t + [batch[0]];
        forall i, j | 0 <= i < j < |t'| && t'[i].key.None? && t'[j].key.None? ensures t'[i].name != t'[j].name {
          if j == |t| {
            assert !IsFallback(t[i], batch[0].name);
          }
        }
        MergeKeepsUnique(t', batch[1..]);
      }
    }
  }

  /** Every name of the list is bound afterwards. */
  lemma {:induction false} MergeBinds(t: seq<Kernel>, batch: seq<Kernel>, i: nat)
    requires Fallbacks(batch) && i < |batch|
    ensures HasFallback(Merge(t, batch), batch[i].name)
    decreases |batch|
  {
    var t' := if HasFallback(t, batch[0].name) then t else t + [batch[0]];
    if i > 0 {
      MergeBinds(t', batch[1..], i - 1);
    } else {
      assert t' == t + [batch[0]] ==> IsFallback(t'[|t|], batch[0].name);
      MergeExtends(t', batch[1..]);
      FallbackKept(t', Merge(t', batch[1..]), batch[0].name);
    }
  }

  lemma {:induction false} MergeNothingNew(t: seq<Kernel>, batch: seq<Kernel>)
    requires forall i :: 0 <= i < |batch| ==> HasFallback(t, batch[i].name)
    ensures Merge(t, batch) == t
    decreases |batch|
  {
    if batch == [] {
    } else {
      MergeNothingNew(t, batch[1..]);
    }
  }

  /** Registering a second time changes nothing. */
  lemma RegisterTwice(t: seq<Kernel>, optimized: seq<Kernel>, portable: seq<Kernel>)
    requires Fallbacks(optimized) && Fallbacks(portable)
    ensures Merge(Merge(t, optimized + portable), optimized + portable) == Merge(t, optimized + portable)
  {
    var batch := optimized + portable;
    forall i | 0 <= i < |batch| ensures HasFallback(Merge(t, batch), batch[i].name) {
      MergeBinds(t, batch, i);
    }
    MergeNothingNew(Merge(t, batch), batch);
  }

  // ---- What callers see ----

  /** The kernel chosen for an operator and an input key: an exact match, else the last fallback. */
  function Dispatch(t: seq<Kernel>, name: string, key: string): Option<nat> {
    var e := FirstExact(t, name, key);
    if e.Some? then e else LastFallback(t, name)
  }

  function FirstExact(t: seq<Kernel>, name: string, key: string): Option<nat> {
    if t == [] then None
    else if t[0].name == name && t[0].key == Some(key) then Some(t[0].op)
    else FirstExact(t[1..], name, key)
  }

  function LastFallback(t: seq<Kernel>, name: string): Option<nat> {
    if t == [] then None
    else if IsFallback(t[|t| - 1], name) then Some(t[|t| - 1].op)
    else LastFallback(t[..|t| - 1], name)
  }

  lemma {:induction false} FirstExactAt(t: seq<Kernel>, name: string, key: string, i: nat)
    requires i < |t| && t[i].name == name && t[i].key == Some(key)
    requires forall j :: 0 <= j < i ==> !(t[j].name == name && t[j].key == Some(key))
    ensures FirstExact(t, name, key) == Some(t[i].op)
  {
    if i > 0 {
      FirstExactAt(t[1..], name, key, i - 1);
    }
  }

  lemma {:induction false} NoExact(t: seq<Kernel>, name: string, key: string)
    requires forall j :: 0 <= j < |t| ==> !(t[j].name == name && t[j].key == Some(key))
    ensures FirstExact(t, name, key).None?
  {
    if t != [] {
      NoExact(t[1..], name, key);
    }
  }

  lemma {:induction false} LastFallbackAt(t: seq<Kernel>, name: string, i: nat)
    requires i < |t| && IsFallback(t[i], name)
    requires forall j :: i < j < |t| ==> !IsFallback(t[j], name)
    ensures LastFallback(t, name) == Some(t[i].op)
  {
    if i < |t| - 1 {
      LastFallbackAt(t[..|t| - 1], name, i);
    }
  }

  /**
   Looks an operator up in a list of kernels: the first entry made for the input key, else the last
   fallback of the name, else None (the operator is missing).
   */
  method GetOpFunction(t: seq<Kernel>, name: string, key: string) returns (op: Option<nat>)
    ensures op == Dispatch(t, name, key)
    ensures forall i :: 0 <= i < |t| && t[i].name == name && t[i].key == Some(key) ==>
      (forall j :: 0 <= j < i && t[j].name == name ==> t[j].key != Some(key)) ==> op == Some(t[i].op)
    ensures (forall j :: 0 <= j < |t| && t[j].name == name ==> t[j].key != Some(key)) ==>
      forall i :: 0 <= i < |t| && t[i].name == name && t[i].key == None ==>
        (forall j :: i < j < |t| && t[j].name == name ==> t[j].key != None) ==> op == Some(t[i].op)
    ensures op.None? <==>
      forall j :: 0 <= j < |t| && t[j].name == name ==> t[j].key != Some(key) && t[j].key != None
  {
    var fallback := -1;
    for idx := 0 to |t|
      invariant -1 <= fallback < idx
      invariant forall j :: 0 <= j < idx ==> !(t[j].name == name && t[j].key == Some(key))
      invariant fallback >= 0 ==> IsFallback(t[fallback], name)
      invariant forall j :: fallback < j < idx ==> !IsFallback(t[j], name)
    {
      if t[idx].name == name {
        if t[idx].key == Some(key) {
          FirstExactAt(t, name, key, idx);
          return Some(t[idx].op);
        }
        if t[idx].key.None? {
          fallback := idx;
        }
      }
    }
    NoExact(t, name, key);
    FallbackFound(t, name);
    if fallback != -1 {
      LastFallbackAt(t, name, fallback);
      return Some(t[fallback].op);
    }
    return None;
  }

  /** The first kernel of a list with a given name. */
  function FirstNamed(batch: seq<Kernel>, name: string): Option<nat> {
    if batch == [] then None
    else if batch[0].name == name then Some(batch[0].op)
    else FirstNamed(batch[1..], name)
  }

  function OrElse(x: Option<nat>, y: Option<nat>): Option<nat> {
    if x.Some? then x else y
  }

  lemma {:induction false} FallbackFound(t: seq<Kernel>, name: string)
    ensures LastFallback(t, name).Some? <==> HasFallback(t, name)
  {
    if t == [] {
    } else {
      var n := |t| - 1;
      FallbackFound(t[..n], name);
      if HasFallback(t, name) && !IsFallback(t[n], name) {
        var i :| 0 <= i < |t| && IsFallback(t[i], name);
        assert IsFallback(t[..n][i], name);
      }
      if HasFallback(t[..n], name) {
        FallbackKept(t[..n], t, name);
      }
    }
  }

  lemma {:induction false} ExactUnchanged(t: seq<Kernel>, k: Kernel, name: string, key: string)
    requires k.key.None?
    ensures FirstExact(t + [k], name, key) == FirstExact(t, name, key)
  {
    if t != [] {
      assert (t + [k])[1..] == t[1..] + [k];
      ExactUnchanged(t[1..], k, name, key);
    } else {
      assert (t + [k])[1..] == [];
    }
  }

  /**
   Dispatch after a merge: a kernel specialised for the input wins as before; otherwise the
   fallback that was registered before; otherwise the first one in the list with that name.
   */
  lemma {:induction false} MergeDispatch(t: seq<Kernel>, batch: seq<Kernel>, name: string, key: string)
    requires Fallbacks(batch)
    ensures FirstExact(Merge(t, batch), name, key) == FirstExact(t, name, key)
    ensures LastFallback(Merge(t, batch), name) == OrElse(LastFallback(t, name), FirstNamed(batch, name))
    decreases |batch|
  {
    if batch == [] {
    } else {
      var k := batch[0];
      FallbackFound(t, name);
      FallbackFound(t, k.name);
      ExactUnchanged(t, k, name, key);
      assert (t + [k])[..|t|] == t;
      MergeDispatch(if HasFallback(t, k.name) then t else t + [k], batch[1..], name, key);
    }
  }

  lemma {:induction false} FirstNamedConcat(a: seq<Kernel>, b: seq<Kernel>, name: string)
    ensures FirstNamed(a + b, name) == OrElse(FirstNamed(a, name), FirstNamed(b, name))
  {
    if a == [] {
      assert a + b == b;
    } else {
      assert (a + b)[1..] == a[1..] + b;
      FirstNamedConcat(a[1..], b, name);
    }
  }

  /**
   The optimised kernel wins over the portable one, and whatever was registered before wins
   over both.
   */
  lemma RegisterDispatch(t: seq<Kernel>, optimized: seq<Kernel>, portable: seq<Kernel>, name: string, key: string)
    requires Fallbacks(optimized) && Fallbacks(portable)
    ensures Dispatch(Merge(t, optimized + portable), name, key)
         == OrElse(Dispatch(t, name, key), OrElse(FirstNamed(optimized, name), FirstNamed(portable, name)))
  {
    MergeDispatch(t, optimized + portable, name, key);
    FirstNamedConcat(optimized, portable, name);
  }
}
