/** The registry of renderers: built-in ones and those plugins load, kept
  * unique by identifier; the cached list of renderers the device supports;
  * and the renderer chosen for the next launch. */
module Renderers {
  import opened Wrappers
  import opened KotlinText
  import opened Sequences

  /** The parts of a renderer the registry reads. */
  datatype Renderer = Renderer(rendererId: Str, uniqueId: Str, name: Str)

  /** What the device offers: Vulkan, and whether it is 32-bit x86 (the only
    * platform without the Zink binary). */
  datatype Device = Device(hasVulkan: bool, is32Bit: bool, isX86: bool)

  predicate HasZinkBinary(d: Device)
  {
    !(d.is32Bit && d.isX86)
  }

  /** The pair `getCompatibleRenderers` caches: identifiers and names, in
    * the order of the renderers. */
  datatype RenderersList = RenderersList(identifiers: seq<Str>, names: seq<Str>)

  datatype Manager = Manager(
    renderers: seq<Renderer>,
    compatible: Option<seq<Renderer>>,
    current: Option<Renderer>,
    initialized: bool)

  datatype RendererError =
    | Uninitialized          // IllegalStateException("Uninitialized renderer!")
    | NoCompatibleRenderer   // the fallback indexes an empty list
    | NotSet                 // IllegalStateException("Current renderer not set")

  const Empty: Manager := Manager([], None, None, false)

  function Ids(rs: seq<Renderer>): (r: seq<Str>)
    ensures |r| == |rs|
    ensures forall i :: 0 <= i < |rs| ==> r[i] == rs[i].uniqueId
  {
    seq(|rs|, i requires 0 <= i < |rs| => rs[i].uniqueId)
  }

  predicate UniqueIds(rs: seq<Renderer>)
  {
    forall i, j :: 0 <= i < j < |rs| ==> rs[i].uniqueId != rs[j].uniqueId
  }

  // ---------------------------------------------------------------------
  // Registration
  // ---------------------------------------------------------------------

  /** `addRenderer`: a renderer whose identifier is taken is refused
    * (false); otherwise it is appended (true). */
  function AddRenderer(m: Manager, r: Renderer): (res: (Manager, bool))
    ensures res.1 <==> r.uniqueId !in Ids(m.renderers)
    ensures res.1 ==> res.0 == m.(renderers := m.renderers + [r])
    ensures !res.1 ==> res.0 == m
  {
    if r.uniqueId in Ids(m.renderers) then (m, false)
    else (m.(renderers := m.renderers + [r]), true)
  }

  /** Adding keeps identifiers unique. */
  lemma AddKeepsUnique(m: Manager, r: Renderer)
    requires UniqueIds(m.renderers)
    ensures UniqueIds(AddRenderer(m, r).0.renderers)
  {
    var rs := AddRenderer(m, r).0.renderers;
    if AddRenderer(m, r).1 {
      forall i, j | 0 <= i < j < |rs| ensures rs[i].uniqueId != rs[j].uniqueId {
        if j == |m.renderers| {
          assert Ids(m.renderers)[i] == rs[i].uniqueId;
        }
      }
    }
  }

  /** `addRenderers`: each in turn. */
  function AddRenderers(m: Manager, rs: seq<Renderer>): (r: Manager)
    ensures r.compatible == m.compatible && r.current == m.current && r.initialized == m.initialized
    ensures |m.renderers| <= |r.renderers| && r.renderers[..|m.renderers|] == m.renderers
    decreases |rs|
  {
    if |rs| == 0 then m
    else AddRenderers(AddRenderer(m, rs[0]).0, rs[1..])
  }

  /** After adding, every added identifier is registered, the identifiers
    * stay unique, and nothing but the added renderers appears. */
  lemma {:induction false} AddRenderersRegisters(m: Manager, rs: seq<Renderer>)
    requires UniqueIds(m.renderers)
    ensures UniqueIds(AddRenderers(m, rs).renderers)
    ensures forall i :: 0 <= i < |rs| ==> rs[i].uniqueId in Ids(AddRenderers(m, rs).renderers)
    ensures forall x :: x in AddRenderers(m, rs).renderers ==> x in m.renderers || x in rs
    decreases |rs|
  {
    if |rs| > 0 {
      var m1 := AddRenderer(m, rs[0]).0;
      AddKeepsUnique(m, rs[0]);
      AddRenderersRegisters(m1, rs[1..]);
      var r := AddRenderers(m1, rs[1..]);
      assert rs[0].uniqueId in Ids(m1.renderers) by {
        if !AddRenderer(m, rs[0]).1 {
        } else {
          assert Ids(m1.renderers)[|m.renderers|] == rs[0].uniqueId;
        }
      }
      assert rs[0].uniqueId in Ids(r.renderers) by {
        var k :| 0 <= k < |m1.renderers| && Ids(m1.renderers)[k] == rs[0].uniqueId;
        assert r.renderers[..|m1.renderers|][k] == r.renderers[k];
        assert Ids(r.renderers)[k] == rs[0].uniqueId;
      }
      forall i | 1 <= i < |rs| ensures rs[i].uniqueId in Ids(r.renderers) {
        assert rs[1..][i - 1] == rs[i];
      }
      forall x | x in r.renderers ensures x in m.renderers || x in rs {
        if x in m1.renderers && x !in m.renderers {
          assert x == rs[0];
        }
        if x in rs[1..] {
          var k :| 0 <= k < |rs[1..]| && rs[1..][k] == x;
          assert rs[k + 1] == x;
        }
      }
    }
  }

  /** `init`: nothing happens once initialised unless `reset`, which first
    * drops every renderer, the cached list and the current renderer; then
    * the built-in renderers are added. */
  function Init(m: Manager, reset: bool, builtins: seq<Renderer>): (r: Manager)
    ensures m.initialized && !reset ==> r == m
    ensures r.initialized
    ensures reset ==> r.compatible.None? && r.current.None?
    ensures !m.initialized && !reset ==> r == AddRenderers(m.(initialized := true), builtins)
  {
    if m.initialized && !reset then m
    else
      var start := if reset then Empty.(initialized := true) else m.(initialized := true);
      AddRenderers(start, builtins)
  }

  /** A reset leaves exactly the built-in renderers, each identifier once. */
  lemma ResetRebuilds(m: Manager, builtins: seq<Renderer>)
    ensures var r := Init(m, true, builtins);
      UniqueIds(r.renderers)
      && (forall i :: 0 <= i < |builtins| ==> builtins[i].uniqueId in Ids(r.renderers))
      && (forall x :: x in r.renderers ==> x in builtins)
  {
    AddRenderersRegisters(Empty.(initialized := true), builtins);
  }

  /** A second `init` without reset changes nothing. */
  lemma InitIdempotent(m: Manager, reset: bool, builtins: seq<Renderer>)
    ensures Init(Init(m, reset, builtins), false, builtins) == Init(m, reset, builtins)
  {
  }

  // ---------------------------------------------------------------------
  // Compatibility
  // ---------------------------------------------------------------------

  /** A renderer the device can run: "vulkan" renderers need Vulkan and
    * "zink" renderers need the Zink binary. */
  predicate Supported(r: Renderer, d: Device)
  {
    !(Contains(r.rendererId, "vulkan") && !d.hasVulkan)
    && !(Contains(r.rendererId, "zink") && !HasZinkBinary(d))
  }

  /** The renderers the device supports, in registry order: each as often
    * as it is registered, none it does not support, and first the first
    * supported one. */
  function CompatibleWith(rs: seq<Renderer>, d: Device): (r: seq<Renderer>)
    ensures |r| <= |rs|
    ensures forall x :: x in r <==> x in rs && Supported(x, d)
    ensures IsSubsequence(r, rs)
    ensures forall x :: multiset(r)[x] == if Supported(x, d) then multiset(rs)[x] else 0
    ensures |r| > 0 ==> FirstSupported(rs, d, r[0])
  {
    KeepSupportedInOrder(rs, d);
    KeepSupportedCounts(rs, d);
    KeepSupportedFirst(rs, d);
    KeepSupported(rs, d)
  }

  /** The registry filtered by support, head first. */
  function KeepSupported(rs: seq<Renderer>, d: Device): seq<Renderer>
    decreases |rs|
  {
    if |rs| == 0 then []
    else (if Supported(rs[0], d) then [rs[0]] else []) + KeepSupported(rs[1..], d)
  }

  lemma {:induction false} KeepSupportedInOrder(rs: seq<Renderer>, d: Device)
    ensures |KeepSupported(rs, d)| <= |rs|
    ensures IsSubsequence(KeepSupported(rs, d), rs)
    decreases |rs|
  {
    if |rs| > 0 {
      var rest := KeepSupported(rs[1..], d);
      KeepSupportedInOrder(rs[1..], d);
      if Supported(rs[0], d) {
        assert KeepSupported(rs, d) == [rs[0]] + rest;
        assert ([rs[0]] + rest)[1..] == rest;
      } else {
        assert KeepSupported(rs, d) == rest;
        SkipHead(rest, rs);
      }
    }
  }

  lemma {:induction false} KeepSupportedCounts(rs: seq<Renderer>, d: Device)
    ensures forall x :: multiset(KeepSupported(rs, d))[x] == if Supported(x, d) then multiset(rs)[x] else 0
    decreases |rs|
  {
    if |rs| > 0 {
      KeepSupportedCounts(rs[1..], d);
      assert rs == [rs[0]] + rs[1..];
      assert multiset(rs) == multiset([rs[0]]) + multiset(rs[1..]);
    }
  }

  lemma {:induction false} KeepSupportedFirst(rs: seq<Renderer>, d: Device)
    ensures var r := KeepSupported(rs, d); |r| > 0 ==> FirstSupported(rs, d, r[0])
    decreases |rs|
  {
    if |rs| > 0 {
      if Supported(rs[0], d) {
        assert KeepSupported(rs, d)[0] == rs[0];
      } else {
        KeepSupportedFirst(rs[1..], d);
        FirstShift(rs, KeepSupported(rs[1..], d), d);
      }
    }
  }

  /** `x` is registered, and no renderer registered before it is
    * supported. */
  predicate FirstSupported(rs: seq<Renderer>, d: Device, x: Renderer)
  {
    exists i :: 0 <= i < |rs| && rs[i] == x && forall k :: 0 <= k < i ==> !Supported(rs[k], d)
  }

  /** Past an unsupported head, the first supported renderer of the tail is
    * that of the whole list. */
  lemma FirstShift(rs: seq<Renderer>, rest: seq<Renderer>, d: Device)
    requires |rs| > 0 && !Supported(rs[0], d)
    requires |rest| > 0 ==> FirstSupported(rs[1..], d, rest[0])
    ensures |rest| > 0 ==> FirstSupported(rs, d, rest[0])
  {
    if |rest| > 0 {
      var i :| 0 <= i < |rs| - 1 && rs[1..][i] == rest[0] && forall k :: 0 <= k < i ==> !Supported(rs[1..][k], d);
      assert forall k :: 1 <= k < i + 1 ==> rs[k] == rs[1..][k - 1];
      assert rs[i + 1] == rest[0];
    }
  }

  /** On a device with Vulkan and the Zink binary every renderer is
    * compatible. */
  lemma FullDeviceKeepsAll(rs: seq<Renderer>, d: Device)
    requires d.hasVulkan && HasZinkBinary(d)
    ensures CompatibleWith(rs, d) == rs
  {
    KeepAllSupported(rs, d);
  }

  lemma {:induction false} KeepAllSupported(rs: seq<Renderer>, d: Device)
    requires d.hasVulkan && HasZinkBinary(d)
    ensures KeepSupported(rs, d) == rs
    decreases |rs|
  {
    if |rs| > 0 {
      KeepAllSupported(rs[1..], d);
      assert rs == [rs[0]] + rs[1..];
    }
  }

  /** `getCompatibleRenderers`: the cached list if there is one, otherwise
    * the list computed now, which is cached. */
  function GetCompatible(m: Manager, d: Device): (res: (Manager, seq<Renderer>))
    ensures m.compatible.Some? ==> res == (m, m.compatible.value)
    ensures m.compatible.None? ==> res.0 == m.(compatible := Some(res.1))
    ensures m.compatible.None? ==> forall x :: x in res.1 <==> x in m.renderers && Supported(x, d)
  {
    if m.compatible.Some? then (m, m.compatible.value)
    else
      var list := CompatibleWith(m.renderers, d);
      (m.(compatible := Some(list)), list)
  }

  /** The identifiers and names of a list, position by position. */
  function ListOf(rs: seq<Renderer>): (r: RenderersList)
    ensures |r.identifiers| == |rs| && |r.names| == |rs|
    ensures forall i :: 0 <= i < |rs| ==> r.identifiers[i] == rs[i].uniqueId && r.names[i] == rs[i].name
  {
    RenderersList(Ids(rs), seq(|rs|, i requires 0 <= i < |rs| => rs[i].name))
  }

  /** Once computed, the list does not follow the registry: a renderer
    * added later is not offered until a reset. */
  lemma CacheIgnoresLaterRenderers(m: Manager, d: Device, r: Renderer)
    ensures var m1 := GetCompatible(m, d).0;
      GetCompatible(AddRenderer(m1, r).0, d).1 == GetCompatible(m, d).1
  {
  }

  // ---------------------------------------------------------------------
  // The current renderer
  // ---------------------------------------------------------------------

  /** The first renderer of the list with that identifier. */
  function FindById(rs: seq<Renderer>, uid: Str): (r: Option<Renderer>)
    ensures r.Some? ==> r.value in rs && r.value.uniqueId == uid
    ensures r.None? <==> uid !in Ids(rs)
  {
    if |rs| == 0 then None
    else if rs[0].uniqueId == uid then Some(rs[0])
    else
      assert forall k :: 0 <= k < |rs| - 1 ==> Ids(rs[1..])[k] == Ids(rs)[k + 1];
      assert uid in Ids(rs) <==> uid in Ids(rs[1..]) by {
        if uid in Ids(rs) {
          var k :| 0 <= k < |rs| && Ids(rs)[k] == uid;
          assert k > 0 && Ids(rs[1..])[k - 1] == uid;
        }
      }
      FindById(rs[1..], uid)
  }

  /** `setCurrentRenderer`: the compatible renderer with that identifier;
    * if there is none, the first compatible one when `retry` is on (an
    * empty list fails there), else no renderer. */
  function SetCurrent(m: Manager, d: Device, uid: Str, retry: bool): (r: Result<Manager, RendererError>)
    ensures !m.initialized <==> r == Err(Uninitialized)
    ensures r.Ok? ==> (r.value.renderers == m.renderers && r.value.initialized
      && r.value.compatible == Some(GetCompatible(m, d).1))
    ensures r.Ok? && r.value.current.Some? ==> r.value.current.value in GetCompatible(m, d).1
    ensures r.Ok? && uid in Ids(GetCompatible(m, d).1) ==> r.value.current.Some? && r.value.current.value.uniqueId == uid
    ensures m.initialized && uid !in Ids(GetCompatible(m, d).1) && retry ==>
      (if |GetCompatible(m, d).1| == 0 then r == Err(NoCompatibleRenderer)
       else r.Ok? && r.value.current == Some(GetCompatible(m, d).1[0]))
    ensures m.initialized && uid !in Ids(GetCompatible(m, d).1) && !retry ==> r.Ok? && r.value.current.None?
  {
    if !m.initialized then Err(Uninitialized)
    else
      var (m1, list) := GetCompatible(m, d);
      match FindById(list, uid)
      case Some(x) => Ok(m1.(current := Some(x)))
      case None =>
        if !retry then Ok(m1.(current := None))
        else if |list| == 0 then Err(NoCompatibleRenderer)
        else Ok(m1.(current := Some(list[0])))
  }

  /** `getCurrentRenderer`. */
  function GetCurrent(m: Manager): (r: Result<Renderer, RendererError>)
    ensures !m.initialized ==> r == Err(Uninitialized)
    ensures m.initialized && m.current.None? ==> r == Err(NotSet)
    ensures r.Ok? ==> Some(r.value) == m.current
  {
    if !m.initialized then Err(Uninitialized)
    else if m.current.None? then Err(NotSet)
    else Ok(m.current.value)
  }

  /** `isCurrentRendererValid`. */
  predicate IsCurrentValid(m: Manager)
  {
    m.initialized && m.current.Some?
  }

  /** The validity test says exactly whether reading the current renderer
    * succeeds. */
  lemma ValidIffReadable(m: Manager)
    ensures IsCurrentValid(m) <==> GetCurrent(m).Ok?
  {
  }

  // ---------------------------------------------------------------------
  // The registry's invariant
  // ---------------------------------------------------------------------

  /** Identifiers are unique, the cached list holds registered renderers,
    * and a current renderer is one of the cached list. */
  predicate Wf(m: Manager)
  {
    UniqueIds(m.renderers)
    && (m.compatible.Some? ==> forall x :: x in m.compatible.value ==> x in m.renderers)
    && (m.current.Some? ==> m.compatible.Some? && m.current.value in m.compatible.value)
  }

  datatype Op =
    | InitOp(reset: bool)
    | Add(renderer: Renderer)
    | ListCompatible
    | Select(uid: Str, retry: bool)

  /** One call on the registry. A selection on an uninitialised registry
    * changes nothing; one that fails on an empty compatible list has
    * already cached that list. */
  function Step(m: Manager, op: Op, d: Device, builtins: seq<Renderer>): Manager
  {
    match op
    case InitOp(reset) => Init(m, reset, builtins)
    case Add(r) => AddRenderer(m, r).0
    case ListCompatible => GetCompatible(m, d).0
    case Select(uid, retry) =>
      var r := SetCurrent(m, d, uid, retry);
      if r.Ok? then r.value
      else if m.initialized then GetCompatible(m, d).0
      else m
  }

  /** A selection that fails for want of a compatible renderer still
    * caches the empty list, so a renderer added afterwards is not offered
    * until a reset. */
  lemma FailedSelectCaches(m: Manager, d: Device, uid: Str, r: Renderer)
    requires SetCurrent(m, d, uid, true) == Err(NoCompatibleRenderer)
    ensures var m1 := Step(m, Select(uid, true), d, []);
      m1.compatible == Some([]) && m1.current == m.current
      && GetCompatible(Step(m1, Add(r), d, []), d).1 == []
  {
  }

  lemma AddRenderersKeepsWf(m: Manager, rs: seq<Renderer>)
    requires Wf(m)
    ensures Wf(AddRenderers(m, rs))
  {
    AddRenderersRegisters(m, rs);
    var r := AddRenderers(m, rs);
    forall x | x in m.renderers ensures x in r.renderers {
      var k :| 0 <= k < |m.renderers| && m.renderers[k] == x;
      assert r.renderers[..|m.renderers|][k] == x;
    }
  }

  /** Every call keeps the invariant. */
  lemma StepKeepsWf(m: Manager, op: Op, d: Device, builtins: seq<Renderer>)
    requires Wf(m)
    ensures Wf(Step(m, op, d, builtins))
  {
    match op
    case InitOp(reset) =>
      if reset {
        AddRenderersKeepsWf(Empty.(initialized := true), builtins);
      } else if !m.initialized {
        AddRenderersKeepsWf(m.(initialized := true), builtins);
      }
    case Add(r) =>
      AddKeepsUnique(m, r);
    case ListCompatible =>
    case Select(uid, retry) =>
  }

  /** Any sequence of calls from the empty registry keeps the invariant. */
  lemma {:induction false} RunKeepsWf(m: Manager, ops: seq<Op>, d: Device, builtins: seq<Renderer>)
    requires Wf(m)
    ensures Wf(Run(m, ops, d, builtins))
    decreases |ops|
  {
    if |ops| > 0 {
      StepKeepsWf(m, ops[0], d, builtins);
      RunKeepsWf(Step(m, ops[0], d, builtins), ops[1..], d, builtins);
    }
  }

  function Run(m: Manager, ops: seq<Op>, d: Device, builtins: seq<Renderer>): Manager
    decreases |ops|
  {
    if |ops| == 0 then m else Run(Step(m, ops[0], d, builtins), ops[1..], d, builtins)
  }
}
