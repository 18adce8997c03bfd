/** Assembly of polygons from a two-level contour hierarchy: parentless
    contours are shells, contours with a parent are holes of that parent,
    and both are filtered by a minimum area. */
module Hierarchy {
  import opened Geometry

  /** A polygon assembled from one trace: the index of its shell contour and
      the indices of its hole contours, all indices into the trace. */
  datatype Shape = Shape(shell: nat, holes: seq<nat>)

  predicate IsShell(cs: seq<Traced>, i: nat, minArea: real)
    requires i < |cs|
  {
    cs[i].parent == NoParent && cs[i].area >= minArea
  }

  predicate IsHoleOf(cs: seq<Traced>, j: nat, i: nat, minArea: real)
    requires j < |cs|
  {
    cs[j].parent == i && cs[j].area >= minArea
  }

  /** The indices below n whose recorded parent is p, in index order. */
  function ChildrenBelow(cs: seq<Traced>, p: int, n: nat): (r: seq<nat>)
    requires n <= |cs|
    ensures forall k :: 0 <= k < |r| ==> r[k] < n && cs[r[k]].parent == p
  {
    if n == 0 then []
    else ChildrenBelow(cs, p, n - 1) + (if cs[n - 1].parent == p then [n - 1] else [])
  }

  /** The indices below n of the holes of contour i, in index order. */
  function HolesBelow(cs: seq<Traced>, i: nat, minArea: real, n: nat): (r: seq<nat>)
    requires n <= |cs|
    ensures forall k :: 0 <= k < |r| ==> r[k] < n
  {
    if n == 0 then []
    else HolesBelow(cs, i, minArea, n - 1) + (if IsHoleOf(cs, n - 1, i, minArea) then [n - 1] else [])
  }

  function Holes(cs: seq<Traced>, i: nat, minArea: real): seq<nat>
  {
    HolesBelow(cs, i, minArea, |cs|)
  }

  /** The given contour indices whose area is at least minArea, in order. */
  function KeepLarge(cs: seq<Traced>, js: seq<nat>, minArea: real): (r: seq<nat>)
    requires forall k :: 0 <= k < |js| ==> js[k] < |cs|
    ensures forall k :: 0 <= k < |r| ==> r[k] < |cs|
  {
    if |js| == 0 then []
    else
      var last := js[|js| - 1];
      KeepLarge(cs, js[..|js| - 1], minArea) + (if cs[last].area >= minArea then [last] else [])
  }

  /** The polygons whose shell index is below n, in shell order. */
  function PolygonsBelow(cs: seq<Traced>, minArea: real, n: nat): (r: seq<Shape>)
    requires n <= |cs|
    ensures forall k :: 0 <= k < |r| ==> r[k].shell < n
    ensures forall k, h :: 0 <= k < |r| && 0 <= h < |r[k].holes| ==> r[k].holes[h] < |cs|
  {
    if n == 0 then []
    else
      PolygonsBelow(cs, minArea, n - 1) +
      (if IsShell(cs, n - 1, minArea) then [Shape(n - 1, Holes(cs, n - 1, minArea))] else [])
  }

  /** The polygons a trace yields. */
  function Polygons(cs: seq<Traced>, minArea: real): (r: seq<Shape>)
    ensures forall k :: 0 <= k < |r| ==> r[k].shell < |cs|
    ensures forall k, h :: 0 <= k < |r| && 0 <= h < |r[k].holes| ==> r[k].holes[h] < |cs|
  {
    PolygonsBelow(cs, minArea, |cs|)
  }

  /** The trace-to-polygons step: a first pass records, for every contour with
      a parent, that it is a child and appends it to its parent's bucket; a
      second pass emits a polygon for every parentless contour that is large
      enough, with the large enough members of its bucket as holes. */
  method MaskToPolygons(cs: seq<Traced>, minArea: real) returns (polys: seq<Shape>)
    ensures |cs| == 0 ==> polys == []
    ensures polys == Polygons(cs, minArea)
  {
    if |cs| == 0 {
      return [];
    }
    var children, childSet := RecordChildren(cs);
    polys := EmitPolygons(cs, minArea, children, childSet);
  }

  /** The first pass: every contour with a parent is marked as a child and
      appended to its parent's bucket. */
  method RecordChildren(cs: seq<Traced>) returns (children: map<int, seq<nat>>, childSet: set<nat>)
    ensures forall j :: 0 <= j < |cs| ==> (j in childSet <==> cs[j].parent != NoParent)
    ensures children == Buckets(cs, |cs|)
  {
    children := map[];
    childSet := {};
    var idx := 0;
    while idx < |cs|
      invariant idx <= |cs|
      invariant forall j :: 0 <= j < |cs| ==> (j in childSet <==> j < idx && cs[j].parent != NoParent)
      invariant children == Buckets(cs, idx)
    {
      var parent := cs[idx].parent;
      if parent != NoParent {
        childSet := childSet + {idx};
        var bucket := if parent in children then children[parent] else [];
        children := children[parent := bucket + [idx]];
      }
      idx := idx + 1;
    }
  }

  /** The second pass: a polygon for every contour that is not a child and
      is large enough, with the large enough members of its bucket as holes. */
  method EmitPolygons(cs: seq<Traced>, minArea: real, children: map<int, seq<nat>>, childSet: set<nat>)
    returns (polys: seq<Shape>)
    requires forall j :: 0 <= j < |cs| ==> (j in childSet <==> cs[j].parent != NoParent)
    requires children == Buckets(cs, |cs|)
    ensures polys == Polygons(cs, minArea)
  {
    polys := [];
    var idx := 0;
    while idx < |cs|
      invariant idx <= |cs|
      invariant polys == PolygonsBelow(cs, minArea, idx)
    {
      if idx !in childSet && cs[idx].area >= minArea {
        var bucket := if idx in children then children[idx] else [];
        assert bucket == ChildrenBelow(cs, idx, |cs|) by {
          BucketsExact(cs, |cs|);
        }
        HolesFromChildren(cs, idx, minArea, |cs|);
        polys := polys + [Shape(idx, KeepLarge(cs, bucket, minArea))];
      }
      idx := idx + 1;
    }
  }

  /** The children buckets after the first n contours: every parent index
      other than -1 seen so far, mapped to its children in index order. */
  function Buckets(cs: seq<Traced>, n: nat): map<int, seq<nat>>
    requires n <= |cs|
  {
    if n == 0 then map[]
    else
      var m := Buckets(cs, n - 1);
      var p := cs[n - 1].parent;
      if p == NoParent then m
      else m[p := (if p in m then m[p] else []) + [n - 1]]
  }

  /** A bucket holds exactly the children of its key; a missing key has none. */
  lemma {:induction false} BucketsExact(cs: seq<Traced>, n: nat)
    requires n <= |cs|
    ensures forall p :: p in Buckets(cs, n) ==> p != NoParent && Buckets(cs, n)[p] == ChildrenBelow(cs, p, n)
    ensures forall p :: p != NoParent && p !in Buckets(cs, n) ==> ChildrenBelow(cs, p, n) == []
  {
    if n > 0 {
      BucketsExact(cs, n - 1);
    }
  }

  /** Filtering a contour's children by area gives exactly its holes. */
  lemma {:induction false} HolesFromChildren(cs: seq<Traced>, i: nat, minArea: real, n: nat)
    requires n <= |cs|
    ensures KeepLarge(cs, ChildrenBelow(cs, i, n), minArea) == HolesBelow(cs, i, minArea, n)
  {
    if n > 0 {
      HolesFromChildren(cs, i, minArea, n - 1);
      var before := ChildrenBelow(cs, i, n - 1);
      if cs[n - 1].parent == i {
        assert (before + [n - 1])[..|before|] == before;
      } else {
        assert ChildrenBelow(cs, i, n) == before;
      }
    }
  }

  /** The holes below n of contour i are exactly the contours below n with
      parent i and area at least minArea, in strictly increasing order. */
  lemma {:induction false} HolesBelowExact(cs: seq<Traced>, i: nat, minArea: real, n: nat)
    requires n <= |cs|
    ensures forall j: nat :: j in HolesBelow(cs, i, minArea, n) <==> j < n && IsHoleOf(cs, j, i, minArea)
    ensures forall k1, k2 :: 0 <= k1 < k2 < |HolesBelow(cs, i, minArea, n)| ==>
      HolesBelow(cs, i, minArea, n)[k1] < HolesBelow(cs, i, minArea, n)[k2]
  {
    if n > 0 {
      HolesBelowExact(cs, i, minArea, n - 1);
    }
  }

  /** Every polygon below n has a large parentless shell and that shell's
      holes, and shells come in strictly increasing order. */
  lemma {:induction false} PolygonsBelowSound(cs: seq<Traced>, minArea: real, n: nat)
    requires n <= |cs|
    ensures forall k :: 0 <= k < |PolygonsBelow(cs, minArea, n)| ==>
      IsShell(cs, PolygonsBelow(cs, minArea, n)[k].shell, minArea) &&
      PolygonsBelow(cs, minArea, n)[k].holes == Holes(cs, PolygonsBelow(cs, minArea, n)[k].shell, minArea)
    ensures forall k1, k2 :: 0 <= k1 < k2 < |PolygonsBelow(cs, minArea, n)| ==>
      PolygonsBelow(cs, minArea, n)[k1].shell < PolygonsBelow(cs, minArea, n)[k2].shell
  {
    if n > 0 {
      PolygonsBelowSound(cs, minArea, n - 1);
      var before := PolygonsBelow(cs, minArea, n - 1);
      if !IsShell(cs, n - 1, minArea) {
        assert PolygonsBelow(cs, minArea, n) == before;
      }
    }
  }

  /** Every large parentless contour below n is the shell of a polygon below n. */
  lemma {:induction false} PolygonsBelowComplete(cs: seq<Traced>, minArea: real, n: nat)
    requires n <= |cs|
    ensures forall i :: 0 <= i < n && IsShell(cs, i, minArea) ==>
      exists k :: 0 <= k < |PolygonsBelow(cs, minArea, n)| && PolygonsBelow(cs, minArea, n)[k].shell == i
  {
    if n > 0 {
      PolygonsBelowComplete(cs, minArea, n - 1);
      var before := PolygonsBelow(cs, minArea, n - 1);
      var r := PolygonsBelow(cs, minArea, n);
      assert r == before + (if IsShell(cs, n - 1, minArea) then [Shape(n - 1, Holes(cs, n - 1, minArea))] else []);
      forall i | 0 <= i < n && IsShell(cs, i, minArea)
        ensures exists k :: 0 <= k < |r| && r[k].shell == i
      {
        if i < n - 1 {
          var k :| 0 <= k < |before| && before[k].shell == i;
          assert r[k] == before[k];
        } else {
          assert r[|before|].shell == i;
        }
      }
      assert r == PolygonsBelow(cs, minArea, n);
    }
  }

  /** A contour becomes a shell exactly when it has no parent and its area is
      at least minArea; in particular a contour with a parent never does. */
  lemma ShellsExact(cs: seq<Traced>, minArea: real)
    ensures forall k :: 0 <= k < |Polygons(cs, minArea)| ==>
      Polygons(cs, minArea)[k].shell < |cs| &&
      cs[Polygons(cs, minArea)[k].shell].parent == NoParent &&
      cs[Polygons(cs, minArea)[k].shell].area >= minArea
    ensures forall i :: 0 <= i < |cs| && cs[i].parent == NoParent && cs[i].area >= minArea ==>
      exists k :: 0 <= k < |Polygons(cs, minArea)| && Polygons(cs, minArea)[k].shell == i
  {
    PolygonsBelowSound(cs, minArea, |cs|);
    PolygonsBelowComplete(cs, minArea, |cs|);
    assert Polygons(cs, minArea) == PolygonsBelow(cs, minArea, |cs|);
    forall i | 0 <= i < |cs| && cs[i].parent == NoParent && cs[i].area >= minArea
      ensures exists k :: 0 <= k < |Polygons(cs, minArea)| && Polygons(cs, minArea)[k].shell == i
    {
      assert IsShell(cs, i, minArea);
    }
  }

  /** Polygons come out in the order of their shell contours' indices. */
  lemma ShellsInContourOrder(cs: seq<Traced>, minArea: real)
    ensures forall k1, k2 :: 0 <= k1 < k2 < |Polygons(cs, minArea)| ==>
      Polygons(cs, minArea)[k1].shell < Polygons(cs, minArea)[k2].shell
  {
    PolygonsBelowSound(cs, minArea, |cs|);
  }

  /** The holes of an emitted polygon are exactly the contours recorded with
      its shell as parent and with area at least minArea, in index order. */
  lemma HolesExact(cs: seq<Traced>, minArea: real, k: nat)
    requires k < |Polygons(cs, minArea)|
    ensures forall j :: j in Polygons(cs, minArea)[k].holes <==>
      0 <= j < |cs| && cs[j].parent == Polygons(cs, minArea)[k].shell && cs[j].area >= minArea
    ensures forall h1, h2 :: 0 <= h1 < h2 < |Polygons(cs, minArea)[k].holes| ==>
      Polygons(cs, minArea)[k].holes[h1] < Polygons(cs, minArea)[k].holes[h2]
  {
    PolygonsBelowSound(cs, minArea, |cs|);
    HolesBelowExact(cs, Polygons(cs, minArea)[k].shell, minArea, |cs|);
  }

  /** A contour whose recorded parent is not the shell of an emitted polygon
      (a parent that was filtered out, or that is itself a child) appears
      nowhere in the output, neither as a shell nor as a hole. */
  lemma OrphansDropped(cs: seq<Traced>, minArea: real, j: nat)
    requires j < |cs| && cs[j].parent != NoParent
    requires forall k :: 0 <= k < |Polygons(cs, minArea)| ==> Polygons(cs, minArea)[k].shell != cs[j].parent
    ensures forall k :: 0 <= k < |Polygons(cs, minArea)| ==>
      Polygons(cs, minArea)[k].shell != j && j !in Polygons(cs, minArea)[k].holes
  {
    ShellsExact(cs, minArea);
    forall k | 0 <= k < |Polygons(cs, minArea)|
      ensures Polygons(cs, minArea)[k].shell != j && j !in Polygons(cs, minArea)[k].holes
    {
      HolesExact(cs, minArea, k);
    }
  }

  /** A ring-shaped region traces as an outer contour and an inner contour
      whose parent is the outer one: one polygon with one hole, not two
      polygons. A speck inside the hole, below the minimum area, is dropped. */
  lemma RingWithHoleExample()
    ensures var cs := [Traced([(0, 0), (0, 20), (20, 20), (20, 0)], 400.0, NoParent),
                       Traced([(5, 5), (15, 5), (15, 15), (5, 15)], 100.0, 0),
                       Traced([(9, 9), (9, 10), (10, 10)], 0.5, NoParent)];
      Polygons(cs, 10.0) == [Shape(0, [1])]
  {
    var cs := [Traced([(0, 0), (0, 20), (20, 20), (20, 0)], 400.0, NoParent),
               Traced([(5, 5), (15, 5), (15, 15), (5, 15)], 100.0, 0),
               Traced([(9, 9), (9, 10), (10, 10)], 0.5, NoParent)];
    assert HolesBelow(cs, 0, 10.0, 1) == [];
    assert HolesBelow(cs, 0, 10.0, 2) == [1];
    assert Holes(cs, 0, 10.0) == [1];
    assert PolygonsBelow(cs, 10.0, 1) == [Shape(0, [1])];
    assert PolygonsBelow(cs, 10.0, 2) == [Shape(0, [1])];
  }
}
