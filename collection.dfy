/** `CollectionObject::hit` (crate/src/raytracer/object/collection.rs:13-37):
    the closest hit among a list of child objects. Each child is asked for a
    hit between `t_min` and the current bound, and every accepted hit lowers
    the bound to its own `t`. Positions along the ray (`f32` in the source) are
    reals here, and the child hit test is a parameter. */
module Collection {
  import opened Wrappers

  /** The upper end of a query: a finite `t` or the `INFINITY` of `bounce_ray`. */
  datatype Bound = Finite(value: real) | Unbounded

  /** `t` lies in the closed range `[tMin, tMax]`. */
  predicate Within(t: real, tMin: real, tMax: Bound)
  {
    tMin <= t && (tMax.Finite? ==> t <= tMax.value)
  }

  /** Bound `a` is no larger than bound `b`. */
  predicate AtMost(a: Bound, b: Bound)
  {
    b.Unbounded? || (a.Finite? && a.value <= b.value)
  }

  /** A hit: its position `t` along the ray and everything else the source
      records (position, normal, side, material, texture coordinates). */
  datatype Hit<A> = Hit(t: real, attrs: A)

  /** What a child's hit test must promise: a hit lies within the range it was asked about. */
  ghost predicate Honest<O, A>(objects: seq<O>, test: (O, real, Bound) -> Option<Hit<A>>, tMin: real)
  {
    forall o, b :: o in objects && test(o, tMin, b).Some? ==> Within(test(o, tMin, b).value.t, tMin, b)
  }

  /** The reduction the loop performs from some point on: `bound` is the
      current `closest_t` and `acc` the current `closest_hit`. */
  function Reduce<O, A>(objects: seq<O>, test: (O, real, Bound) -> Option<Hit<A>>, tMin: real,
                        bound: Bound, acc: Option<Hit<A>>): Option<Hit<A>>
    decreases |objects|
  {
    if objects == [] then acc
    else
      match test(objects[0], tMin, bound)
      case Some(h) => Reduce(objects[1..], test, tMin, Finite(h.t), Some(h))
      case None => Reduce(objects[1..], test, tMin, bound, acc)
  }

  /** The upper bound each child is queried with, in iteration order. */
  function Queries<O, A>(objects: seq<O>, test: (O, real, Bound) -> Option<Hit<A>>, tMin: real, bound: Bound): (q: seq<Bound>)
    ensures |q| == |objects|
    decreases |objects|
  {
    if objects == [] then []
    else
      match test(objects[0], tMin, bound)
      case Some(h) => [bound] + Queries(objects[1..], test, tMin, Finite(h.t))
      case None => [bound] + Queries(objects[1..], test, tMin, bound)
  }

  /** The loop of `CollectionObject::hit`, with the source's three locals.
      `queried` records the bound each child was given. */
  method CollectionHit<O, A>(objects: seq<O>, test: (O, real, Bound) -> Option<Hit<A>>, tMin: real, tMax: Bound)
    returns (r: Option<Hit<A>>, ghost queried: seq<Bound>)
    ensures objects == [] ==> r == None
    ensures r == Reduce(objects, test, tMin, tMax, None)
    ensures queried == Queries(objects, test, tMin, tMax)
  {
    if |objects| == 0 {
      return None, [];
    }
    var closestHit: Option<Hit<A>> := None;
    var didHit := false;
    var closestT := tMax;
    queried := [];
    for i := 0 to |objects|
      invariant didHit <==> closestHit.Some?
      invariant closestHit.Some? ==> closestT == Finite(closestHit.value.t)
      invariant closestHit.None? ==> closestT == tMax
      invariant Reduce(objects, test, tMin, tMax, None) == Reduce(objects[i..], test, tMin, closestT, closestHit)
      invariant Queries(objects, test, tMin, tMax) == queried + Queries(objects[i..], test, tMin, closestT)
    {
      assert objects[i..][1..] == objects[i + 1..];
      queried := queried + [closestT];
      var hit := test(objects[i], tMin, closestT);
      if hit.Some? {
        didHit := true;
        closestT := Finite(hit.value.t);
        closestHit := hit;
      }
    }
    if !didHit {
      return None, queried;
    }
    r := Some(closestHit.value);
  }

  /** Once a hit has been accepted the reduction keeps some hit. */
  lemma {:induction false} ReduceKeeps<O, A>(objects: seq<O>, test: (O, real, Bound) -> Option<Hit<A>>, tMin: real,
                                             bound: Bound, acc: Option<Hit<A>>)
    requires acc.Some?
    ensures Reduce(objects, test, tMin, bound, acc).Some?
    decreases |objects|
  {
    if objects != [] {
      var h := test(objects[0], tMin, bound);
      if h.Some? {
        ReduceKeeps(objects[1..], test, tMin, Finite(h.value.t), h);
      } else {
        ReduceKeeps(objects[1..], test, tMin, bound, acc);
      }
    }
  }

  /** There is no hit exactly when every child misses the whole range
      `[tMin, tMax]` (the bound never shrinks while nothing is hit). */
  lemma {:induction false} NoHitIff<O, A>(objects: seq<O>, test: (O, real, Bound) -> Option<Hit<A>>, tMin: real, tMax: Bound)
    ensures Reduce(objects, test, tMin, tMax, None).None?
        <==> forall i :: 0 <= i < |objects| ==> test(objects[i], tMin, tMax).None?
    decreases |objects|
  {
    if objects != [] {
      var h := test(objects[0], tMin, tMax);
      if h.Some? {
        ReduceKeeps(objects[1..], test, tMin, Finite(h.value.t), h);
      } else {
        NoHitIff(objects[1..], test, tMin, tMax);
        assert forall i :: 1 <= i < |objects| ==> objects[1..][i - 1] == objects[i];
      }
    }
  }

  /** The reduction never leaves the range it started with. */
  lemma {:induction false} ReduceWithin<O, A>(objects: seq<O>, test: (O, real, Bound) -> Option<Hit<A>>, tMin: real,
                                              bound: Bound, acc: Option<Hit<A>>)
    requires Honest(objects, test, tMin)
    requires acc.Some? ==> Within(acc.value.t, tMin, bound)
    ensures Reduce(objects, test, tMin, bound, acc).Some? ==> Within(Reduce(objects, test, tMin, bound, acc).value.t, tMin, bound)
    decreases |objects|
  {
    if objects != [] {
      var h := test(objects[0], tMin, bound);
      assert objects[0] in objects;
      assert Honest(objects[1..], test, tMin) by {
        forall o | o in objects[1..] ensures o in objects { }
      }
      if h.Some? {
        ReduceWithin(objects[1..], test, tMin, Finite(h.value.t), h);
      } else {
        ReduceWithin(objects[1..], test, tMin, bound, acc);
      }
    }
  }

  /** A returned hit lies in `[tMin, tMax]`, provided every child keeps to its range. */
  lemma HitWithin<O, A>(objects: seq<O>, test: (O, real, Bound) -> Option<Hit<A>>, tMin: real, tMax: Bound)
    requires Honest(objects, test, tMin)
    ensures Reduce(objects, test, tMin, tMax, None).Some? ==> Within(Reduce(objects, test, tMin, tMax, None).value.t, tMin, tMax)
  {
    ReduceWithin(objects, test, tMin, tMax, None);
  }

  /** The first child is asked about `[tMin, tMax]`, and the bound never grows:
      each child is queried with a bound no larger than its predecessor's. */
  lemma {:induction false} QueriesShrink<O, A>(objects: seq<O>, test: (O, real, Bound) -> Option<Hit<A>>, tMin: real, tMax: Bound)
    requires Honest(objects, test, tMin)
    ensures var q := Queries(objects, test, tMin, tMax);
      (|q| > 0 ==> q[0] == tMax) &&
      (forall i :: 0 <= i < |q| ==> AtMost(q[i], tMax)) &&
      (forall i, j :: 0 <= i < j < |q| ==> AtMost(q[j], q[i]))
    decreases |objects|
  {
    var q := Queries(objects, test, tMin, tMax);
    if objects != [] {
      var h := test(objects[0], tMin, tMax);
      assert objects[0] in objects;
      assert Honest(objects[1..], test, tMin) by {
        forall o | o in objects[1..] ensures o in objects { }
      }
      var next := if h.Some? then Finite(h.value.t) else tMax;
      assert AtMost(next, tMax);
      QueriesShrink(objects[1..], test, tMin, next);
      var rest := Queries(objects[1..], test, tMin, next);
      assert q == [tMax] + rest;
      forall i | 0 <= i < |q| ensures AtMost(q[i], tMax) {
        if i > 0 {
          assert q[i] == rest[i - 1];
        }
      }
      forall i, j | 0 <= i < j < |q| ensures AtMost(q[j], q[i]) {
        assert q[j] == rest[j - 1];
        if i > 0 {
          assert q[i] == rest[i - 1];
        }
      }
    }
  }

  /** The result is the hit of the last child that accepted, each child being
      asked with the bound it was given; `j == -1` means no child accepted
      and the result is what had been found before. */
  lemma {:induction false} LastAcceptedFrom<O, A>(objects: seq<O>, test: (O, real, Bound) -> Option<Hit<A>>, tMin: real,
                                                  bound: Bound, acc: Option<Hit<A>>)
    returns (j: int)
    ensures var r, q := Reduce(objects, test, tMin, bound, acc), Queries(objects, test, tMin, bound);
      -1 <= j < |objects| &&
      (j == -1 ==> r == acc && forall i :: 0 <= i < |objects| ==> test(objects[i], tMin, q[i]).None?) &&
      (j >= 0 ==> r.Some? && test(objects[j], tMin, q[j]) == r &&
                  forall i :: j < i < |objects| ==> test(objects[i], tMin, q[i]).None?)
    decreases |objects|
  {
    if objects == [] {
      return -1;
    }
    var h := test(objects[0], tMin, bound);
    var next := if h.Some? then Finite(h.value.t) else bound;
    var acc' := if h.Some? then h else acc;
    var j' := LastAcceptedFrom(objects[1..], test, tMin, next, acc');
    var q := Queries(objects, test, tMin, bound);
    var rest := Queries(objects[1..], test, tMin, next);
    assert q == [bound] + rest;
    assert forall i :: 1 <= i < |objects| ==> objects[1..][i - 1] == objects[i] && q[i] == rest[i - 1];
    if j' >= 0 {
      j := j' + 1;
    } else if h.Some? {
      j := 0;
    } else {
      j := -1;
    }
  }

  /** `CollectionObject::hit` returns the last hit accepted in iteration order. */
  lemma LastAccepted<O, A>(objects: seq<O>, test: (O, real, Bound) -> Option<Hit<A>>, tMin: real, tMax: Bound)
    returns (j: nat)
    ensures var r, q := Reduce(objects, test, tMin, tMax, None), Queries(objects, test, tMin, tMax);
      r.Some? ==> j < |objects| && test(objects[j], tMin, q[j]) == r &&
                  forall i :: j < i < |objects| ==> test(objects[i], tMin, q[i]).None?
  {
    var k := LastAcceptedFrom(objects, test, tMin, tMax, None);
    j := if k < 0 then 0 else k;
  }

  // ---------------------------------------------------------------------------
  // Children with an intrinsic nearest `t`: a child hits exactly when that
  // `t` lies in the queried range (as a sphere's nearest root does).

  datatype Child<A> = Child(t: real, attrs: A)

  function Intrinsic<A>(c: Child<A>, tMin: real, bound: Bound): Option<Hit<A>>
  {
    if Within(c.t, tMin, bound) then Some(Hit(c.t, c.attrs)) else None
  }

  /** Such children keep to their range. */
  lemma IntrinsicHonest<A>(children: seq<Child<A>>, tMin: real)
    ensures Honest(children, Intrinsic, tMin)
  {
  }

  /** From any point of the loop on, the result is the nearest in-range child
      (or what was found before, if it is nearer). */
  lemma {:induction false} ReduceMinimum<A>(children: seq<Child<A>>, tMin: real, bound: Bound, acc: Option<Hit<A>>)
    requires acc.Some? ==> bound == Finite(acc.value.t) && tMin <= acc.value.t
    ensures var r := Reduce(children, Intrinsic, tMin, bound, acc);
      (r.None? <==> acc.None? && forall i :: 0 <= i < |children| ==> !Within(children[i].t, tMin, bound)) &&
      (r.Some? ==> Within(r.value.t, tMin, bound)) &&
      (r.Some? ==> forall i :: 0 <= i < |children| && Within(children[i].t, tMin, bound) ==> r.value.t <= children[i].t) &&
      (r.Some? ==> r == acc || exists i :: 0 <= i < |children| && r.value == Hit(children[i].t, children[i].attrs))
    decreases |children|
  {
    if children != [] {
      var c := children[0];
      var rest := children[1..];
      assert forall i :: 1 <= i < |children| ==> rest[i - 1] == children[i];
      if Within(c.t, tMin, bound) {
        var h := Hit(c.t, c.attrs);
        ReduceMinimum(rest, tMin, Finite(c.t), Some(h));
        var r := Reduce(children, Intrinsic, tMin, bound, acc);
        assert r == Reduce(rest, Intrinsic, tMin, Finite(c.t), Some(h));
        forall i | 0 <= i < |children| && Within(children[i].t, tMin, bound) ensures r.value.t <= children[i].t {
          if i > 0 && children[i].t <= c.t {
            assert Within(rest[i - 1].t, tMin, Finite(c.t));
          }
        }
      } else {
        ReduceMinimum(rest, tMin, bound, acc);
      }
    }
  }

  /** For such children the closest hit is the in-range child of least `t`:
      there is none exactly when no child lies in `[tMin, tMax]`, and
      otherwise the result is one of the in-range children and no in-range
      child is nearer. */
  lemma ClosestIsMinimum<A>(children: seq<Child<A>>, tMin: real, tMax: Bound)
    ensures var r := Reduce(children, Intrinsic, tMin, tMax, None);
      (r.None? <==> forall i :: 0 <= i < |children| ==> !Within(children[i].t, tMin, tMax)) &&
      (r.Some? ==> Within(r.value.t, tMin, tMax)) &&
      (r.Some? ==> forall i :: 0 <= i < |children| && Within(children[i].t, tMin, tMax) ==> r.value.t <= children[i].t) &&
      (r.Some? ==> exists i :: 0 <= i < |children| && r.value == Hit(children[i].t, children[i].attrs))
  {
    ReduceMinimum(children, tMin, tMax, None);
  }

  /** From any point of the loop with such children, the result is the last
      in-range child (for the bound at that point) whose `t` no later in-range
      child undercuts or equals; `j == -1` means no child was in range and the
      earlier result stands. */
  lemma {:induction false} ReduceLastMinimal<A>(children: seq<Child<A>>, tMin: real, bound: Bound, acc: Option<Hit<A>>)
    returns (j: int)
    requires acc.Some? ==> bound == Finite(acc.value.t)
    ensures var r := Reduce(children, Intrinsic, tMin, bound, acc);
      -1 <= j < |children| &&
      (j == -1 ==> r == acc && forall i :: 0 <= i < |children| ==> !Within(children[i].t, tMin, bound)) &&
      (j >= 0 ==> Within(children[j].t, tMin, bound) && r == Some(Hit(children[j].t, children[j].attrs)) &&
                  forall i :: j < i < |children| && Within(children[i].t, tMin, bound) ==> children[j].t < children[i].t)
    decreases |children|
  {
    if children == [] {
      return -1;
    }
    var c := children[0];
    var rest := children[1..];
    assert forall i :: 1 <= i < |children| ==> rest[i - 1] == children[i];
    if Within(c.t, tMin, bound) {
      var j' := ReduceLastMinimal(rest, tMin, Finite(c.t), Some(Hit(c.t, c.attrs)));
      j := if j' >= 0 then j' + 1 else 0;
    } else {
      var j' := ReduceLastMinimal(rest, tMin, bound, acc);
      j := if j' >= 0 then j' + 1 else -1;
    }
  }

  /** For such children the closest hit is the LAST in-range child of least
      `t`: no in-range child is nearer, and every later in-range child is
      strictly farther. */
  lemma ClosestIsLastMinimal<A>(children: seq<Child<A>>, tMin: real, tMax: Bound)
    returns (j: nat)
    ensures var r := Reduce(children, Intrinsic, tMin, tMax, None);
      r.Some? ==>
        j < |children| && Within(children[j].t, tMin, tMax) &&
        r == Some(Hit(children[j].t, children[j].attrs)) &&
        (forall i :: 0 <= i < |children| && Within(children[i].t, tMin, tMax) ==> children[j].t <= children[i].t) &&
        (forall i :: j < i < |children| && Within(children[i].t, tMin, tMax) ==> children[j].t < children[i].t)
  {
    ClosestIsMinimum(children, tMin, tMax);
    var k := ReduceLastMinimal(children, tMin, tMax, None);
    j := if k < 0 then 0 else k;
  }

  /** Ties go to the later child: a child whose `t` equals the current bound
      is still accepted, so of two in-range children at the same `t` the
      second one's hit is returned. */
  lemma LaterTieWins<A>(c1: Child<A>, c2: Child<A>, tMin: real, tMax: Bound)
    requires c1.t == c2.t && Within(c1.t, tMin, tMax)
    ensures Reduce([c1, c2], Intrinsic, tMin, tMax, None) == Some(Hit(c2.t, c2.attrs))
  {
    var children := [c1, c2];
    assert children[1..] == [c2];
    assert Intrinsic(c1, tMin, tMax) == Some(Hit(c1.t, c1.attrs));
    assert Within(c2.t, tMin, Finite(c1.t));
    assert [c2][1..] == [];
    assert Intrinsic(c2, tMin, Finite(c1.t)) == Some(Hit(c2.t, c2.attrs));
    assert Reduce(children, Intrinsic, tMin, tMax, None) == Reduce([c2], Intrinsic, tMin, Finite(c1.t), Some(Hit(c1.t, c1.attrs)));
  }
}
