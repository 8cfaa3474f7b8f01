/**
 Planned memory of loaded methods, with the first arenas shared between methods.
 */
module ModulePlanning {
  import opened Arith
  import opened MachineInts
  import opened Wrappers

  /** Aborted stands for a failed check that ends the process. */
  datatype Error = NotSupported | InvalidArgument | LoadFailed | Aborted

  /** A method's planned buffer sizes, and which of the buffers live on a device. */
  datatype MethodMeta = MethodMeta(sizes: seq<nat>, onDevice: seq<bool>)

  type Program = map<string, MethodMeta>

  /** Only the first two buffers are shared. */
  const MAX_SHARED: nat := 2

  // ---- The largest size of each buffer ----

  ghost predicate Attains(meta: MethodMeta, i: nat, size: nat) {
    i < |meta.sizes| && meta.sizes[i] == size
  }

  ghost predicate SomeAttains(program: Program, names: set<string>, i: nat, size: nat)
    requires names <= program.Keys
  {
    exists m :: m in names && Attains(program[m], i, size)
  }

  /** The sizes are the pointwise maximum over the named methods. */
  ghost predicate IsMaximum(program: Program, names: set<string>, max: seq<nat>)
    requires names <= program.Keys
  {
    && (forall m :: m in names ==> |program[m].sizes| <= |max|)
    && (forall m, i :: m in names && 0 <= i < |program[m].sizes| ==> program[m].sizes[i] <= max[i])
    && forall i :: 0 <= i < |max| ==> SomeAttains(program, names, i, max[i])
  }

  /** There is only one, so the order in which the methods are visited does not matter. */
  lemma MaximumIsUnique(program: Program, names: set<string>, a: seq<nat>, b: seq<nat>)
    requires names <= program.Keys && IsMaximum(program, names, a) && IsMaximum(program, names, b)
    ensures a == b
  {
    NotLonger(program, names, a, b);
    NotLonger(program, names, b, a);
    forall i | 0 <= i < |a| ensures a[i] == b[i] {
      assert SomeAttains(program, names, i, a[i]) && SomeAttains(program, names, i, b[i]);
      var m :| m in names && Attains(program[m], i, a[i]);
      var n :| n in names && Attains(program[n], i, b[i]);
    }
  }

  lemma NotLonger(program: Program, names: set<string>, a: seq<nat>, b: seq<nat>)
    requires names <= program.Keys && IsMaximum(program, names, a) && IsMaximum(program, names, b)
    ensures |a| <= |b|
  {
    if a != [] {
      assert SomeAttains(program, names, |a| - 1, a[|a| - 1]);
      var m :| m in names && Attains(program[m], |a| - 1, a[|a| - 1]);
    }
  }

  function Max(x: nat, y: nat): nat {
    if x >= y then x else y
  }

  /** r is the pointwise maximum of two size lists, the shorter one padded with 0. */
  ghost predicate IsRaised(a: seq<nat>, b: seq<nat>, r: seq<nat>) {
    && |r| == Max(|a|, |b|)
    && forall i :: 0 <= i < |r| ==> r[i] == Max(if i < |a| then a[i] else 0, if i < |b| then b[i] else 0)
  }

  method Raise(result: seq<nat>, sizes: seq<nat>) returns (r: seq<nat>)
    ensures IsRaised(result, sizes, r)
  {
    r := result;
    if |sizes| > |r| {
      r := r + seq(|sizes| - |r|, _ => 0);
    }
    for i := 0 to |sizes|
      invariant |r| == Max(|result|, |sizes|)
      invariant forall j :: i <= j < |r| ==> r[j] == if j < |result| then result[j] else 0
      invariant forall j :: 0 <= j < i ==> r[j] == Max(if j < |result| then result[j] else 0, sizes[j])
    {
      if sizes[i] > r[i] {
        r := r[i := sizes[i]];
      }
    }
  }

  /** `names` lists the program's methods in whatever order the hash set yields them. */
  method GetMaxSizes(program: Program, names: seq<string>) returns (result: seq<nat>)
    requires forall m :: m in names <==> m in program
    ensures IsMaximum(program, program.Keys, result)
  {
    result := [];
    ghost var seen: set<string> := {};
    for k := 0 to |names|
      invariant seen == (set m | m in names[..k]) && seen <= program.Keys
      invariant IsMaximum(program, seen, result)
    {
      assert names[..k + 1] == names[..k] + [names[k]];
      var raised := Raise(result, program[names[k]].sizes);
      RaisedIsMaximum(program, seen, names[k], result, raised);
      result, seen := raised, seen + {names[k]};
    }
    assert names[..|names|] == names;
    assert seen == program.Keys;
  }

  lemma RaisedIsMaximum(program: Program, names: set<string>, m: string, max: seq<nat>, r: seq<nat>)
    requires names <= program.Keys && m in program && IsMaximum(program, names, max)
    requires IsRaised(max, program[m].sizes, r)
    ensures IsMaximum(program, names + {m}, r)
  {
    forall i | 0 <= i < |r|
      ensures SomeAttains(program, names + {m}, i, r[i])
    {
      if Attains(program[m], i, r[i]) {
        assert m in names + {m};
      } else {
        assert SomeAttains(program, names, i, max[i]);
        var n :| n in names && Attains(program[n], i, max[i]);
        assert n in names + {m};
      }
    }
  }

  // ---- Planned memory ----

  /** The spans that a method executes in; spans alias buffers by reference. */
  type Spans = seq<array<Byte>>

  /** Shares the leading spans with the arenas and allocates the others. */
  method MakePlannedMemory(sizes: seq<nat>, arenas: Spans) returns (spans: Spans)
    ensures |spans| == |sizes|
    ensures forall i :: 0 <= i < |sizes| && i < |arenas| ==> spans[i] == arenas[i]
    ensures forall i :: |arenas| <= i < |sizes| ==> fresh(spans[i]) && spans[i].Length == sizes[i]
    ensures forall i, j :: |arenas| <= i < j < |sizes| ==> spans[i] != spans[j]
  {
    spans := [];
    for i := 0 to |sizes|
      invariant |spans| == i
      invariant forall j :: 0 <= j < i && j < |arenas| ==> spans[j] == arenas[j]
      invariant forall j :: |arenas| <= j < i ==> fresh(spans[j]) && spans[j].Length == sizes[j]
      invariant forall j, k :: |arenas| <= j < k < i ==> spans[j] != spans[k]
    {
      if i < |arenas| {
        spans := spans + [arenas[i]];
      } else {
        var buffer := new Byte[sizes[i]](_ => 0);
        spans := spans + [buffer];
      }
    }
  }

  /** The arenas are as many and as large as the maximal sizes demand. */
  ghost predicate ArenasFit(program: Program, arenas: Spans) {
    exists max :: IsMaximum(program, program.Keys, max) && ArenasFor(max, arenas)
  }

  ghost predicate ArenasFor(max: seq<nat>, arenas: Spans) {
    && |arenas| == Min(|max|, MAX_SHARED)
    && (forall i :: 0 <= i < |arenas| ==> arenas[i].Length == max[i])
    && forall i, j :: 0 <= i < j < |arenas| ==> arenas[i] != arenas[j]
  }

  /** One span per planned size, each large enough; the leading ones are the arenas, the others exact. */
  ghost predicate SpansFit(sizes: seq<nat>, arenas: Spans, spans: Spans) {
    && |spans| == |sizes|
    && (forall i :: 0 <= i < |sizes| ==> spans[i].Length >= sizes[i])
    && (forall i :: 0 <= i < |sizes| && i < |arenas| ==> spans[i] == arenas[i])
    && forall i :: |arenas| <= i < |sizes| ==> spans[i].Length == sizes[i] && spans[i] !in arenas
  }

  /**
   What a module keeps of a loaded method: its spans, the device flags passed on to the runtime
   (none when all memory is on the host), and whether the spans are the caller's.
   */
  datatype Holder = Holder(spans: Spans, devices: seq<bool>, external: bool)

  /** Spans past the arenas that the module allocated belong to one method and one index only. */
  ghost predicate PrivateSpans(methods: map<string, Holder>, shared: nat) {
    forall m, i, n, j ::
      && m in methods && n in methods && !methods[m].external && !methods[n].external
      && shared <= i < |methods[m].spans| && shared <= j < |methods[n].spans| && (m, i) != (n, j)
      ==> methods[m].spans[i] != methods[n].spans[j]
  }

  /** The private spans of a new method are its own, also towards memory that callers brought. */
  ghost predicate NewSpans(methods: map<string, Holder>, shared: nat, spans: Spans) {
    && (forall m, i, j :: m in methods && shared <= i < |spans| && 0 <= j < |methods[m].spans| ==>
          spans[i] != methods[m].spans[j])
    && forall i, j :: shared <= i < j < |spans| ==> spans[i] != spans[j]
  }

  lemma AddMethod(methods: map<string, Holder>, shared: nat, name: string, h: Holder)
    requires PrivateSpans(methods, shared) && (h.external || NewSpans(methods, shared, h.spans))
    ensures PrivateSpans(methods[name := h], shared)
  {
  }

  /** Allocates the arenas; only the first two buffers are shared. */
  method CreateArenas(max: seq<nat>) returns (created: Spans)
    ensures ArenasFor(max, created)
    ensures forall a :: a in created ==> fresh(a)
  {
    var shared := if |max| > MAX_SHARED then MAX_SHARED else |max|;
    created := [];
    for i := 0 to shared
      invariant |created| == i
      invariant forall j :: 0 <= j < i ==> fresh(created[j]) && created[j].Length == max[j]
      invariant forall j, k :: 0 <= j < k < i ==> created[j] != created[k]
    {
      var arena := new Byte[max[i]](_ => 0);
      created := created + [arena];
    }
  }

  class Module {
    const program: Program
    const share: bool
    var arenas: Spans
    var methods: map<string, Holder>

    constructor (program: Program, share: bool)
      ensures Valid() && this.program == program && this.share == share && methods == map[] && arenas == []
    {
      this.program, this.share := program, share;
      arenas, methods := [], map[];
    }

    ghost predicate Valid()
      reads this
    {
      && (!share ==> arenas == [])
      && (share ==> ArenasFit(program, arenas) || (arenas == [] && forall m :: m in methods ==> methods[m].external))
      && (forall m :: m in methods ==>
            m in program && (!methods[m].external ==> SpansFit(program[m].sizes, arenas, methods[m].spans)))
      && PrivateSpans(methods, |arenas|)
    }

    /** Creates the arenas on the first shared load; later loads find them unchanged. */
    method EnsureArenas(names: seq<string>)
      requires Valid() && share && forall m :: m in names <==> m in program
      modifies this
      ensures Valid() && methods == old(methods)
      ensures ArenasFit(program, arenas)
      ensures old(arenas) != [] ==> arenas == old(arenas)
    {
      if arenas == [] {
        var max := GetMaxSizes(program, names);
        var created := CreateArenas(max);
        if ArenasFit(program, arenas) {
          EmptyArenas(program, max, arenas);
        }
        arenas := created;
      }
    }

    /** Memory for one more method of the program. */
    method PlanMethod(name: string) returns (spans: Spans)
      requires Valid() && name in program && (share ==> ArenasFit(program, arenas))
      ensures SpansFit(program[name].sizes, arenas, spans)
      ensures NewSpans(methods, |arenas|, spans)
    {
      spans := MakePlannedMemory(program[name].sizes, arenas);
      if share {
        ArenasAreLargeEnough(program, arenas, name);
      }
    }

    /** How preparing the memory of a method goes wrong, if it does. */
    function PlanError(name: string, deviceMemory: bool): Option<Error> {
      if name !in program then Some(InvalidArgument)
      else if true !in program[name].onDevice then None
      else if share then Some(NotSupported)
      else if !deviceMemory then Some(Aborted)
      else None
    }

    /** Prepares the memory of a method that comes without its own. */
    method Prepare(name: string, names: seq<string>, deviceMemory: bool) returns (err: Option<Error>, h: Holder)
      requires Valid() && forall m :: m in names <==> m in program
      modifies this
      ensures Valid() && methods == old(methods)
      ensures old(arenas) != [] ==> arenas == old(arenas)
      ensures err == PlanError(name, deviceMemory)
      ensures err.None? ==>
        && !h.external && h.devices == (if true in program[name].onDevice then program[name].onDevice else [])
        && SpansFit(program[name].sizes, arenas, h.spans) && NewSpans(methods, |arenas|, h.spans)
        && (share ==> ArenasFit(program, arenas))
    {
      h := Holder([], [], false);
      err := PlanError(name, deviceMemory);
      if err.Some? {
        return;
      }
      if share {
        EnsureArenas(names);
      }
      var spans := PlanMethod(name);
      h := Holder(spans, if true in program[name].onDevice then program[name].onDevice else [], false);
    }

    /**
     Loads a method. `memory` is what the caller brings, if anything; `loadError` is how loading
     the program goes, `deviceMemory` whether the device has memory and `methodLoads` whether the
     runtime accepts the method. Loaded methods keep their spans, arenas keep their identity and
     size, and every span that the module makes is large enough.
     */
    method LoadMethod(name: string, names: seq<string>, memory: Option<Spans>, loadError: Option<Error>,
                      deviceMemory: bool, methodLoads: bool)
      returns (err: Option<Error>)
      requires Valid() && (forall m :: m in names <==> m in program) && (methodLoads ==> name in program)
      modifies this
      ensures Valid()
      ensures old(arenas) != [] ==> arenas == old(arenas)
      ensures err ==
        if name in old(methods) then None
        else if loadError.Some? then loadError
        else if memory.None? && name !in program then Some(InvalidArgument)
        else if memory.None? && true in program[name].onDevice && share then Some(NotSupported)
        else if memory.None? && true in program[name].onDevice && !deviceMemory then Some(Aborted)
        else if !methodLoads then Some(LoadFailed)
        else None
      ensures err.Some? || name in old(methods) ==> methods == old(methods)
      ensures err.None? ==> name in methods && methods == old(methods)[name := methods[name]]
      ensures err.None? && name !in old(methods) ==>
        && methods[name].external == memory.Some?
        && (memory.Some? ==> methods[name].spans == memory.value && arenas == old(arenas))
        && (memory.None? && share ==> ArenasFit(program, arenas))
        && (memory.None? && true in program[name].onDevice ==> methods[name].devices == program[name].onDevice)
    {
      if name in methods {
        return None;
      }
      if loadError.Some? {
        return loadError;
      }
      var h;
      if memory.Some? {
        h := Holder(memory.value, [], true);
      } else {
        err, h := Prepare(name, names, deviceMemory);
        if err.Some? {
          return;
        }
      }
      if !methodLoads {
        return Some(LoadFailed);
      }
      AddMethod(methods, |arenas|, name, h);
      methods := methods[name := h];
      return None;
    }

    method UnloadMethod(name: string) returns (removed: bool)
      requires Valid()
      modifies this
      ensures Valid() && arenas == old(arenas)
      ensures removed <==> name in old(methods)
      ensures methods == old(methods) - {name}
    {
      removed := name in methods;
      methods := methods - {name};
    }

    /** With sharing, any two loaded methods see the same arenas in front and nothing else in common. */
    lemma LoadedMethodsShareOnlyArenas(m: string, n: string, i: nat, j: nat)
      requires Valid() && share && m in methods && n in methods && m != n
      requires !methods[m].external && !methods[n].external
      requires i < |methods[m].spans| && j < |methods[n].spans|
      ensures methods[m].spans[i] == methods[n].spans[j] <==> i == j && i < 2
      ensures methods[m].spans[i].Length >= program[m].sizes[i]
    {
      var max :| IsMaximum(program, program.Keys, max) && ArenasFor(max, arenas);
      assert |program[m].sizes| <= |max| && |program[n].sizes| <= |max|;
    }

    /** Without sharing no two spans are the same, and each is as large as planned. */
    lemma UnsharedSpansArePrivate(m: string, n: string, i: nat, j: nat)
      requires Valid() && !share && m in methods && n in methods
      requires !methods[m].external && !methods[n].external
      requires i < |methods[m].spans| && j < |methods[n].spans|
      ensures methods[m].spans[i] == methods[n].spans[j] <==> m == n && i == j
      ensures |methods[m].spans| == |program[m].sizes| && methods[m].spans[i].Length == program[m].sizes[i]
    {
      assert SpansFit(program[m].sizes, [], methods[m].spans);
    }
  }

  lemma ArenasAreLargeEnough(program: Program, arenas: Spans, m: string)
    requires ArenasFit(program, arenas) && m in program
    ensures forall i :: 0 <= i < |program[m].sizes| && i < |arenas| ==> arenas[i].Length >= program[m].sizes[i]
  {
    var max :| IsMaximum(program, program.Keys, max) && ArenasFor(max, arenas);
  }

  /** If no arena was needed, none is needed now. */
  lemma EmptyArenas(program: Program, max: seq<nat>, arenas: Spans)
    requires IsMaximum(program, program.Keys, max) && ArenasFit(program, arenas) && arenas == []
    ensures max == []
  {
    var max' :| IsMaximum(program, program.Keys, max') && ArenasFor(max', arenas);
    MaximumIsUnique(program, program.Keys, max, max');
  }
}
