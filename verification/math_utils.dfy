/** The nearest-value search used to pick a Java runtime: the object whose
  * value is the smallest one at or above a target. */
module MathUtils {
  import opened Wrappers
  import opened KotlinText

  /** An object together with its distance from the target. */
  datatype Ranked<T> = Ranked(value: T, rank: int)

  /** The distance of `v` above `target`, as a JVM `Int` subtraction. */
  function Delta(target: int, v: int): int
  {
    WrapInt(v - target)
  }

  /** A value the search can select: at or above the target, and with a
    * distance below `Int.MAX_VALUE`, the starting bound that a distance
    * must beat. */
  predicate Eligible(target: int, v: int)
  {
    v >= target && Delta(target, v) < IntMax
  }

  /** Scans the objects in order. An exact hit is returned at once with rank
    * 0; otherwise the first object with the strictly smallest distance is
    * kept. Nothing eligible gives `None`. */
  method FindNearestPositive<T>(target: int, objects: seq<T>, valueOf: T -> int)
    returns (r: Option<Ranked<T>>)
    requires InInt(target)
    requires forall i :: 0 <= i < |objects| ==> InInt(valueOf(objects[i]))
    ensures r.None? <==> forall i :: 0 <= i < |objects| ==> !Eligible(target, valueOf(objects[i]))
    ensures r.Some? ==>
      exists i :: 0 <= i < |objects| && objects[i] == r.value.value
        && Eligible(target, valueOf(objects[i]))
        && r.value.rank == Delta(target, valueOf(objects[i]))
    ensures r.Some? && r.value.rank != 0 ==>
      forall j :: 0 <= j < |objects| && valueOf(objects[j]) >= target ==>
        r.value.rank <= Delta(target, valueOf(objects[j])) && Delta(target, valueOf(objects[j])) != 0
    ensures r.Some? ==>
      exists i :: 0 <= i < |objects| && objects[i] == r.value.value
        && r.value.rank == Delta(target, valueOf(objects[i]))
        && forall j :: 0 <= j < i && valueOf(objects[j]) >= target ==>
             Delta(target, valueOf(objects[j])) != 0
             && (r.value.rank != 0 ==> Delta(target, valueOf(objects[j])) > r.value.rank)
    ensures r.Some? && target >= 0 ==>
      forall j :: 0 <= j < |objects| && valueOf(objects[j]) >= target ==>
        r.value.rank <= valueOf(objects[j]) - target
    ensures r.Some? && target >= 0 ==>
      exists i :: 0 <= i < |objects| && objects[i] == r.value.value
        && valueOf(objects[i]) - target == r.value.rank
        && forall j :: 0 <= j < i && valueOf(objects[j]) >= target ==>
             valueOf(objects[j]) - target > r.value.rank
  {
    var minDelta := IntMax;
    var selected: Option<nat> := None;
    var i := 0;
    while i < |objects|
      invariant 0 <= i <= |objects|
      invariant selected.None? ==> minDelta == IntMax
      invariant selected.None? ==> forall j :: 0 <= j < i ==> !Eligible(target, valueOf(objects[j]))
      invariant selected.Some? ==> selected.value < i
      invariant selected.Some? ==> Eligible(target, valueOf(objects[selected.value]))
      invariant selected.Some? ==> minDelta == Delta(target, valueOf(objects[selected.value]))
      invariant forall j :: 0 <= j < i && valueOf(objects[j]) >= target ==>
        minDelta <= Delta(target, valueOf(objects[j])) && Delta(target, valueOf(objects[j])) != 0
      invariant selected.Some? ==> forall j :: 0 <= j < selected.value && valueOf(objects[j]) >= target ==>
        minDelta < Delta(target, valueOf(objects[j]))
    {
      var v := valueOf(objects[i]);
      if v >= target {
        var delta := Delta(target, v);
        if delta == 0 {
          return Some(Ranked(objects[i], 0));
        }
        if delta < minDelta {
          minDelta := delta;
          selected := Some(i);
        }
      }
      i := i + 1;
    }
    if selected.Some? {
      r := Some(Ranked(objects[selected.value], minDelta));
    } else {
      r := None;
    }
  }

  /** Without wrap-around, a non-negative target makes every distance the
    * plain difference, so the search is exact: an object is found iff some
    * value lies in [target, target + Int.MAX_VALUE). */
  lemma EligibleWithoutWrap(target: int, v: int)
    requires 0 <= target && InInt(v)
    ensures Eligible(target, v) <==> target <= v && v - target < IntMax
  {
    if v >= target {
      assert InInt(v - target);
    }
  }
}
