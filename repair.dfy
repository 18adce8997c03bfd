/** The geometry repair filter: valid geometries pass through, an invalid
    one is replaced by its zero-buffer repair, and a repair that falls apart
    into several parts contributes only its parts larger than minArea. */
module Repair {
  import opened Geometry

  /** The parts of a multi-part repair whose area is strictly above minArea,
      in part order. */
  function LargeParts<G>(ops: GeoOps<G>, ps: seq<G>, minArea: real): seq<G>
  {
    if |ps| == 0 then []
    else
      var last := ps[|ps| - 1];
      LargeParts(ops, ps[..|ps| - 1], minArea) + (if ops.area(last) > minArea then [last] else [])
  }

  /** What one input geometry contributes to the output. */
  function Contribution<G>(ops: GeoOps<G>, g: G, minArea: real): seq<G>
  {
    if ops.isValid(g) then [g]
    else
      var repaired := ops.buffer0(g);
      if ops.isPolygon(repaired) then [repaired]
      else LargeParts(ops, ops.parts(repaired), minArea)
  }

  /** The output for the whole list: the contributions, in input order. */
  function Resolved<G>(ops: GeoOps<G>, gs: seq<G>, minArea: real): seq<G>
  {
    if |gs| == 0 then []
    else Resolved(ops, gs[..|gs| - 1], minArea) + Contribution(ops, gs[|gs| - 1], minArea)
  }

  method ResolveGeometries<G>(ops: GeoOps<G>, gs: seq<G>, minArea: real) returns (out: seq<G>)
    ensures out == Resolved(ops, gs, minArea)
  {
    out := [];
    var i := 0;
    while i < |gs|
      invariant i <= |gs|
      invariant out == Resolved(ops, gs[..i], minArea)
    {
      var g := gs[i];
      ghost var before := out;
      if ops.isValid(g) {
        out := out + [g];
      } else {
        var repaired := ops.buffer0(g);
        if ops.isPolygon(repaired) {
          out := out + [repaired];
        } else {
          out := AppendLargeParts(ops, out, ops.parts(repaired), minArea);
        }
      }
      assert out == before + Contribution(ops, g, minArea);
      assert gs[..i + 1][..i] == gs[..i] && gs[..i + 1][i] == g;
      i := i + 1;
    }
    assert gs[..i] == gs;
  }

  /** The inner loop over the parts of a multi-part repair: appends, in
      order, the parts whose area is above minArea. */
  method AppendLargeParts<G>(ops: GeoOps<G>, out: seq<G>, ps: seq<G>, minArea: real) returns (out': seq<G>)
    ensures out' == out + LargeParts(ops, ps, minArea)
  {
    out' := out;
    var j := 0;
    while j < |ps|
      invariant j <= |ps|
      invariant out' == out + LargeParts(ops, ps[..j], minArea)
    {
      if ops.area(ps[j]) > minArea {
        out' := out' + [ps[j]];
      }
      assert ps[..j + 1][..j] == ps[..j];
      j := j + 1;
    }
    assert ps[..j] == ps;
  }

  /** A part survives exactly when it is a part with area above minArea. */
  lemma {:induction false} LargePartsExact<G>(ops: GeoOps<G>, ps: seq<G>, minArea: real)
    ensures forall x :: x in LargeParts(ops, ps, minArea) <==> x in ps && ops.area(x) > minArea
  {
    if |ps| > 0 {
      LargePartsExact(ops, ps[..|ps| - 1], minArea);
      assert ps == ps[..|ps| - 1] + [ps[|ps| - 1]];
    }
  }

  /** Filtering parts keeps their relative order: filtering a concatenation
      is the concatenation of the filtered halves. */
  lemma {:induction false} LargePartsAppend<G>(ops: GeoOps<G>, a: seq<G>, b: seq<G>, minArea: real)
    ensures LargeParts(ops, a + b, minArea) == LargeParts(ops, a, minArea) + LargeParts(ops, b, minArea)
  {
    if |b| > 0 {
      var b' := b[..|b| - 1];
      LargePartsAppend(ops, a, b', minArea);
      assert (a + b)[..|a + b| - 1] == a + b';
    } else {
      assert a + b == a;
    }
  }

  /** The filter works input by input: resolving a concatenation is the
      concatenation of the resolved halves, so every input's contribution
      stays in the input's position relative to the others. */
  lemma {:induction false} ResolvedAppend<G>(ops: GeoOps<G>, a: seq<G>, b: seq<G>, minArea: real)
    ensures Resolved(ops, a + b, minArea) == Resolved(ops, a, minArea) + Resolved(ops, b, minArea)
  {
    if |b| == 0 {
      assert a + b == a;
    } else {
      var b', x := b[..|b| - 1], b[|b| - 1];
      calc {
        Resolved(ops, a + b, minArea);
        { assert (a + b)[..|a + b| - 1] == a + b';
          assert (a + b)[|a + b| - 1] == x; }
        Resolved(ops, a + b', minArea) + Contribution(ops, x, minArea);
        { ResolvedAppend(ops, a, b', minArea); }
        (Resolved(ops, a, minArea) + Resolved(ops, b', minArea)) + Contribution(ops, x, minArea);
        Resolved(ops, a, minArea) + (Resolved(ops, b', minArea) + Contribution(ops, x, minArea));
        Resolved(ops, a, minArea) + Resolved(ops, b, minArea);
      }
    }
  }

  /** A valid input passes through unchanged, exactly at its place between
      the outputs of the inputs before it and of the inputs after it. */
  lemma ValidPassThrough<G>(ops: GeoOps<G>, gs: seq<G>, minArea: real, i: nat)
    requires i < |gs| && ops.isValid(gs[i])
    ensures Resolved(ops, gs, minArea) ==
      Resolved(ops, gs[..i], minArea) + [gs[i]] + Resolved(ops, gs[i + 1..], minArea)
  {
    assert gs == gs[..i] + [gs[i]] + gs[i + 1..];
    ResolvedAppend(ops, gs[..i] + [gs[i]], gs[i + 1..], minArea);
    ResolvedAppend(ops, gs[..i], [gs[i]], minArea);
    assert Resolved(ops, [gs[i]], minArea) == [gs[i]] by {
      assert [gs[i]][..0] == [];
    }
  }

  /** On a list of valid geometries the filter is the identity. */
  lemma {:induction false} ResolvedAllValid<G>(ops: GeoOps<G>, gs: seq<G>, minArea: real)
    requires forall k :: 0 <= k < |gs| ==> ops.isValid(gs[k])
    ensures Resolved(ops, gs, minArea) == gs
  {
    if |gs| > 0 {
      ResolvedAllValid(ops, gs[..|gs| - 1], minArea);
      assert gs == gs[..|gs| - 1] + [gs[|gs| - 1]];
    }
  }

  /** An invalid input whose repair is a single polygon contributes that
      polygon whatever its area; one whose repair has several parts
      contributes exactly its parts with area above minArea, in part order. */
  lemma InvalidContribution<G>(ops: GeoOps<G>, g: G, minArea: real)
    requires !ops.isValid(g)
    ensures ops.isPolygon(ops.buffer0(g)) ==> Contribution(ops, g, minArea) == [ops.buffer0(g)]
    ensures !ops.isPolygon(ops.buffer0(g)) ==>
      forall x :: x in Contribution(ops, g, minArea) <==> x in ops.parts(ops.buffer0(g)) && ops.area(x) > minArea
  {
    LargePartsExact(ops, ops.parts(ops.buffer0(g)), minArea);
  }

  /** Every output geometry comes from some input: the input itself when it
      is valid, its single-polygon repair, or a part of its repair larger
      than minArea. */
  lemma {:induction false} ResolvedOrigin<G>(ops: GeoOps<G>, gs: seq<G>, minArea: real)
    ensures forall x :: x in Resolved(ops, gs, minArea) ==>
      exists i :: 0 <= i < |gs| && FromInput(ops, gs[i], x, minArea)
  {
    if |gs| > 0 {
      var init := gs[..|gs| - 1];
      var g := gs[|gs| - 1];
      ResolvedOrigin(ops, init, minArea);
      LargePartsExact(ops, ops.parts(ops.buffer0(g)), minArea);
      forall x | x in Resolved(ops, gs, minArea)
        ensures exists i :: 0 <= i < |gs| && FromInput(ops, gs[i], x, minArea)
      {
        if x in Resolved(ops, init, minArea) {
          var i :| 0 <= i < |init| && FromInput(ops, init[i], x, minArea);
          assert gs[i] == init[i];
        } else {
          assert FromInput(ops, gs[|gs| - 1], x, minArea);
        }
      }
    }
  }

  /** x is what input g may contribute. */
  ghost predicate FromInput<G>(ops: GeoOps<G>, g: G, x: G, minArea: real)
  {
    if ops.isValid(g) then x == g
    else if ops.isPolygon(ops.buffer0(g)) then x == ops.buffer0(g)
    else x in ops.parts(ops.buffer0(g)) && ops.area(x) > minArea
  }
}
