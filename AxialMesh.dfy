/** The axial mesh of a core (`Core.meshing`, core.py): the distinct section bounds in
    ascending order are grouped into clusters of heights that lie within the tolerance of the
    cluster's least and greatest member, each cluster becomes one mesh height (its mean), and
    section bounds close to a mesh height are moved onto it. */
module AxialMesh {
  import opened Base
  import opened SectionDef

  // ---------------------------------------------------------------------------------------------
  // Distinct bounds in ascending order: `sorted(set(...))` over both bounds of every section.

  /** Every bound of every section. */
  ghost function BoundSet(ss: seq<Section>): set<real>
    reads ss`bounds
  {
    (set i | 0 <= i < |ss| :: ss[i].bounds.0) + (set i | 0 <= i < |ss| :: ss[i].bounds.1)
  }

  /** `hs` holds exactly the bounds of the sections. */
  ghost predicate HeightsOf(hs: seq<real>, ss: seq<Section>)
    reads ss`bounds
  {
    forall x :: x in hs <==> x in BoundSet(ss)
  }

  /** `x` goes into an ascending sequence of distinct reals at its place, unless it is there. */
  method InsertDistinct(hs: seq<real>, x: real) returns (r: seq<real>)
    requires StrictlyIncreasing(hs)
    ensures StrictlyIncreasing(r)
    ensures forall y :: y in r <==> y in hs || y == x
  {
    var i := 0;
    while i < |hs| && hs[i] < x
      invariant 0 <= i <= |hs|
      invariant forall j :: 0 <= j < i ==> hs[j] < x
    {
      i := i + 1;
    }
    if i < |hs| && hs[i] == x {
      r := hs;
    } else {
      r := hs[..i] + [x] + hs[i..];
      assert forall j :: 0 <= j < |r| ==> r[j] == if j < i then hs[j] else if j == i then x else hs[j - 1];
      assert forall y :: y in hs <==> y in hs[..i] || y in hs[i..] by {
        assert hs == hs[..i] + hs[i..];
      }
    }
  }

  /** The heights the mesh is built from: the distinct section bounds, ascending. */
  method SortedBounds(ss: seq<Section>) returns (hs: seq<real>)
    ensures StrictlyIncreasing(hs)
    ensures forall x :: x in hs <==> x in BoundSet(ss)
    ensures |hs| == 0 <==> |ss| == 0
  {
    hs := [];
    var i := 0;
    while i < |ss|
      invariant 0 <= i <= |ss|
      invariant StrictlyIncreasing(hs)
      invariant forall x :: x in hs <==> x in BoundSet(ss[..i])
      invariant |hs| == 0 <==> i == 0
    {
      hs := InsertDistinct(hs, ss[i].bounds.0);
      assert ss[i].bounds.0 in hs;
      hs := InsertDistinct(hs, ss[i].bounds.1);
      assert ss[..i + 1] == ss[..i] + [ss[i]];
      BoundSetSnoc(ss[..i], ss[i]);
      i := i + 1;
    }
    assert ss[..i] == ss;
  }

  lemma BoundSetSnoc(ss: seq<Section>, s: Section)
    ensures BoundSet(ss + [s]) == BoundSet(ss) + {s.bounds.0, s.bounds.1}
  {
    var t := ss + [s];
    assert forall i :: 0 <= i < |ss| ==> t[i] == ss[i];
    assert t[|ss|] == s;
  }

  // ---------------------------------------------------------------------------------------------
  // Clustering.

  function SeqMin(s: seq<real>): (m: real)
    requires |s| > 0
    ensures m in s && forall i :: 0 <= i < |s| ==> m <= s[i]
  {
    if |s| == 1 then s[0]
    else
      var m := SeqMin(s[..|s| - 1]);
      if s[|s| - 1] < m then s[|s| - 1] else m
  }

  function SeqMax(s: seq<real>): (m: real)
    requires |s| > 0
    ensures m in s && forall i :: 0 <= i < |s| ==> m >= s[i]
  {
    if |s| == 1 then s[0]
    else
      var m := SeqMax(s[..|s| - 1]);
      if s[|s| - 1] > m then s[|s| - 1] else m
  }

  /** The joining test of the scan: `h` is within `tol` of both the least and the greatest
      height of the cluster being built. */
  predicate Joins(buffer: seq<real>, h: real, tol: real)
    requires |buffer| > 0
  {
    Abs(h - SeqMin(buffer)) <= tol && Abs(h - SeqMax(buffer)) <= tol
  }

  function Flatten(cs: seq<seq<real>>): seq<real>
  {
    if cs == [] then [] else Flatten(cs[..|cs| - 1]) + cs[|cs| - 1]
  }

  /** One scan step: the height `h` joins the last cluster when it passes the joining test
      against it, and opens a new cluster otherwise. */
  function Gather(cs: seq<seq<real>>, h: real, tol: real): (r: seq<seq<real>>)
    requires forall i :: 0 <= i < |cs| ==> |cs[i]| > 0
    ensures forall i :: 0 <= i < |r| ==> |r[i]| > 0
    ensures Flatten(r) == Flatten(cs) + [h]
    ensures r != []
  {
    if cs != [] && Joins(cs[|cs| - 1], h, tol) then
      var r := cs[..|cs| - 1] + [cs[|cs| - 1] + [h]];
      assert r[..|r| - 1] == cs[..|cs| - 1];
      assert cs == cs[..|cs| - 1] + [cs[|cs| - 1]];
      assert Flatten(cs) == Flatten(cs[..|cs| - 1]) + cs[|cs| - 1];
      r
    else
      var r := cs + [[h]];
      assert r[..|r| - 1] == cs;
      r
  }

  /** The clusters the scan builds over `hs`, left to right. Together they are `hs`, split
      into non-empty pieces. */
  function Clusters(hs: seq<real>, tol: real): (cs: seq<seq<real>>)
    ensures forall i :: 0 <= i < |cs| ==> |cs[i]| > 0
    ensures Flatten(cs) == hs
    ensures hs != [] <==> cs != []
  {
    if hs == [] then []
    else
      assert hs == hs[..|hs| - 1] + [hs[|hs| - 1]];
      Gather(Clusters(hs[..|hs| - 1], tol), hs[|hs| - 1], tol)
  }

  /** The mesh heights: one mean per cluster. */
  function Means(cs: seq<seq<real>>): (m: seq<real>)
    requires forall i :: 0 <= i < |cs| ==> |cs[i]| > 0
    ensures |m| == |cs|
  {
    if cs == [] then [] else Means(cs[..|cs| - 1]) + [Mean(cs[|cs| - 1])]
  }

  /** The mesh height of a cluster is that cluster's mean. */
  lemma {:induction false} MeansAt(cs: seq<seq<real>>, i: nat)
    requires forall c :: 0 <= c < |cs| ==> |cs[c]| > 0
    requires i < |cs|
    ensures Means(cs)[i] == Mean(cs[i])
  {
    if i < |cs| - 1 {
      MeansAt(cs[..|cs| - 1], i);
    }
  }

  /** Every cluster is non-empty and ascending. */
  ghost predicate ClustersAscending(cs: seq<seq<real>>)
  {
    forall i :: 0 <= i < |cs| ==> |cs[i]| > 0 && StrictlyIncreasing(cs[i])
  }

  /** Every later member of a cluster lies within `tol` above the cluster's first height. */
  ghost predicate ClustersNarrow(cs: seq<seq<real>>, tol: real)
  {
    forall i, j :: 0 <= i < |cs| && 0 < j < |cs[i]| ==> cs[i][j] - cs[i][0] <= tol
  }

  /** Consecutive clusters do not overlap, and each cluster starts more than `tol` above the
      first height of the cluster before it. */
  ghost predicate ClustersApart(cs: seq<seq<real>>, tol: real)
    requires ClustersAscending(cs)
  {
    forall i :: 0 < i < |cs| ==>
      cs[i - 1][|cs[i - 1]| - 1] < cs[i][0] && cs[i][0] - cs[i - 1][0] > tol
  }

  /** The shape of the clusters over ascending distinct heights. */
  ghost predicate Clustered(cs: seq<seq<real>>, tol: real)
  {
    ClustersAscending(cs) && ClustersNarrow(cs, tol) && ClustersApart(cs, tol)
  }

  lemma FlattenLast(cs: seq<seq<real>>)
    requires cs != [] && |cs[|cs| - 1]| > 0
    ensures |Flatten(cs)| > 0
    ensures Flatten(cs)[|Flatten(cs)| - 1] == cs[|cs| - 1][|cs[|cs| - 1]| - 1]
  {
  }

  lemma AscendingMinMax(s: seq<real>)
    requires |s| > 0 && StrictlyIncreasing(s)
    ensures SeqMin(s) == s[0] && SeqMax(s) == s[|s| - 1]
  {
  }

  /** A height above the last cluster that stays within `tol` of its first height keeps the
      shape when it joins that cluster. */
  lemma JoinKeepsShape(cs: seq<seq<real>>, h: real, tol: real)
    requires Clustered(cs, tol) && cs != []
    requires cs[|cs| - 1][|cs[|cs| - 1]| - 1] < h && h - cs[|cs| - 1][0] <= tol
    ensures Clustered(cs[..|cs| - 1] + [cs[|cs| - 1] + [h]], tol)
  {
    var n := |cs| - 1;
    var r := cs[..n] + [cs[n] + [h]];
    forall i | 0 <= i < |r| ensures |r[i]| > 0 && StrictlyIncreasing(r[i]) {
      if i < n {
        assert r[i] == cs[i];
      } else {
        assert r[i] == cs[n] + [h];
      }
    }
    assert ClustersAscending(r);
    forall i, j | 0 <= i < |r| && 0 < j < |r[i]| ensures r[i][j] - r[i][0] <= tol {
      if i < n {
        assert r[i] == cs[i];
      } else {
        assert r[i] == cs[n] + [h];
      }
    }
    forall i | 0 < i < |r|
      ensures r[i - 1][|r[i - 1]| - 1] < r[i][0] && r[i][0] - r[i - 1][0] > tol
    {
      assert r[i - 1] == cs[i - 1];
      if i < n {
        assert r[i] == cs[i];
      } else {
        assert r[i] == cs[n] + [h];
      }
    }
  }

  /** A height more than `tol` above the last cluster's first height keeps the shape when it
      opens a new cluster. */
  lemma OpenKeepsShape(cs: seq<seq<real>>, h: real, tol: real)
    requires Clustered(cs, tol)
    requires cs != [] ==>
      cs[|cs| - 1][|cs[|cs| - 1]| - 1] < h && h - cs[|cs| - 1][0] > tol
    ensures Clustered(cs + [[h]], tol)
  {
    OpenAscending(cs, h);
    OpenNarrow(cs, h, tol);
    OpenApart(cs, h, tol);
  }

  lemma OpenAscending(cs: seq<seq<real>>, h: real)
    requires ClustersAscending(cs)
    ensures ClustersAscending(cs + [[h]])
  {
    var r := cs + [[h]];
    forall i | 0 <= i < |r| ensures |r[i]| > 0 && StrictlyIncreasing(r[i]) {
      if i < |cs| {
        assert r[i] == cs[i];
      }
    }
  }

  lemma OpenNarrow(cs: seq<seq<real>>, h: real, tol: real)
    requires ClustersNarrow(cs, tol)
    ensures ClustersNarrow(cs + [[h]], tol)
  {
    var r := cs + [[h]];
    forall i, j | 0 <= i < |r| && 0 < j < |r[i]| ensures r[i][j] - r[i][0] <= tol {
      assert i < |cs| && r[i] == cs[i];
    }
  }

  lemma OpenApart(cs: seq<seq<real>>, h: real, tol: real)
    requires ClustersAscending(cs) && ClustersApart(cs, tol)
    requires cs != [] ==>
      cs[|cs| - 1][|cs[|cs| - 1]| - 1] < h && h - cs[|cs| - 1][0] > tol
    ensures ClustersAscending(cs + [[h]]) && ClustersApart(cs + [[h]], tol)
  {
    OpenAscending(cs, h);
    var r := cs + [[h]];
    forall i | 0 < i < |r|
      ensures r[i - 1][|r[i - 1]| - 1] < r[i][0] && r[i][0] - r[i - 1][0] > tol
    {
      assert r[i - 1] == cs[i - 1];
      if i < |cs| {
        assert r[i] == cs[i];
      }
    }
  }

  /** One scan step keeps the shape, given that the new height lies above all earlier ones. */
  lemma GatherKeepsShape(cs: seq<seq<real>>, h: real, tol: real)
    requires Clustered(cs, tol)
    requires cs != [] ==> cs[|cs| - 1][|cs[|cs| - 1]| - 1] < h
    ensures Clustered(Gather(cs, h, tol), tol)
  {
    if cs != [] {
      var last := cs[|cs| - 1];
      AscendingMinMax(last);
      if Joins(last, h, tol) {
        JoinKeepsShape(cs, h, tol);
      } else {
        assert last[0] <= last[|last| - 1];
        OpenKeepsShape(cs, h, tol);
      }
    } else {
      OpenKeepsShape(cs, h, tol);
    }
  }

  /** Over ascending distinct heights the scan's clusters have the `Clustered` shape. */
  lemma {:induction false} ClustersShape(hs: seq<real>, tol: real)
    requires StrictlyIncreasing(hs)
    ensures Clustered(Clusters(hs, tol), tol)
  {
    if hs != [] {
      var pre, h := hs[..|hs| - 1], hs[|hs| - 1];
      assert StrictlyIncreasing(pre);
      ClustersShape(pre, tol);
      var cs := Clusters(pre, tol);
      if cs != [] {
        FlattenLast(cs);
      }
      GatherKeepsShape(cs, h, tol);
    }
  }

  /** The mesh over the heights `hs`: one mean per cluster. It has no more points than there
      are heights, and one at least when there is a height. */
  function Mesh(hs: seq<real>, tol: real): (m: seq<real>)
    ensures |m| <= |hs|
    ensures hs != [] <==> m != []
  {
    var cs := Clusters(hs, tol);
    FlattenLength(cs);
    Means(cs)
  }

  /** Over ascending distinct heights the mesh is strictly increasing. */
  lemma MeshIncreasing(hs: seq<real>, tol: real)
    requires StrictlyIncreasing(hs)
    ensures StrictlyIncreasing(Mesh(hs, tol))
  {
    ClustersShape(hs, tol);
    MeansIncreasing(Clusters(hs, tol), tol);
  }

  /** Over ascending distinct heights the mesh lies between the least and the greatest height. */
  lemma MeshWithin(hs: seq<real>, tol: real)
    requires StrictlyIncreasing(hs)
    ensures forall i :: 0 <= i < |Mesh(hs, tol)| ==> hs[0] <= Mesh(hs, tol)[i] <= hs[|hs| - 1]
  {
    var cs := Clusters(hs, tol);
    ClustersShape(hs, tol);
    MeansWithin(cs);
    forall i | 0 <= i < |cs|
      ensures hs[0] <= cs[i][0] && cs[i][|cs[i]| - 1] <= hs[|hs| - 1]
    {
      FlattenSpan(cs, i);
    }
  }

  /** A cluster's mean lies between its first and last heights. */
  lemma MeansWithin(cs: seq<seq<real>>)
    requires ClustersAscending(cs)
    ensures forall i :: 0 <= i < |cs| ==> cs[i][0] <= Means(cs)[i] <= cs[i][|cs[i]| - 1]
  {
    forall i | 0 <= i < |cs|
      ensures cs[i][0] <= Means(cs)[i] <= cs[i][|cs[i]| - 1]
    {
      MeanBetween(cs[i], cs[i][0], cs[i][|cs[i]| - 1]);
      MeansAt(cs, i);
    }
  }

  /** Non-overlapping ascending clusters have ascending means. */
  lemma MeansIncreasing(cs: seq<seq<real>>, tol: real)
    requires Clustered(cs, tol)
    ensures StrictlyIncreasing(Means(cs))
  {
    var m := Means(cs);
    MeansWithin(cs);
    forall i | 0 < i < |m| ensures m[i - 1] < m[i] {
      assert m[i - 1] <= cs[i - 1][|cs[i - 1]| - 1] < cs[i][0] <= m[i];
    }
    AdjacentIncreasing(m);
  }

  lemma {:induction false} AdjacentIncreasing(m: seq<real>)
    requires forall i :: 0 < i < |m| ==> m[i - 1] < m[i]
    ensures StrictlyIncreasing(m)
  {
    if |m| > 1 {
      var pre := m[..|m| - 1];
      assert forall i :: 0 < i < |pre| ==> pre[i - 1] < pre[i];
      AdjacentIncreasing(pre);
      forall i, j | 0 <= i < j < |m| ensures m[i] < m[j] {
        if j < |m| - 1 {
          assert pre[i] < pre[j];
        } else if i < |m| - 2 {
          assert pre[i] < pre[|m| - 2];
        }
      }
    }
  }

  /** Each cluster holds at least one height, so there are no more clusters than heights. */
  lemma {:induction false} FlattenLength(cs: seq<seq<real>>)
    requires forall i :: 0 <= i < |cs| ==> |cs[i]| > 0
    ensures |cs| <= |Flatten(cs)|
  {
    if cs != [] {
      FlattenLength(cs[..|cs| - 1]);
    }
  }

  /** The first and last height of a cluster of an ascending sequence lie between the
      sequence's first and last heights. */
  lemma {:induction false} FlattenSpan(cs: seq<seq<real>>, i: nat)
    requires i < |cs| && forall j :: 0 <= j < |cs| ==> |cs[j]| > 0
    requires StrictlyIncreasing(Flatten(cs))
    ensures var f := Flatten(cs);
      f[0] <= cs[i][0] && cs[i][|cs[i]| - 1] <= f[|f| - 1]
  {
    var f := Flatten(cs);
    var pre := Flatten(cs[..|cs| - 1]);
    assert f == pre + cs[|cs| - 1];
    if i == |cs| - 1 {
      assert cs[i][0] == f[|pre|];
      assert cs[i][|cs[i]| - 1] == f[|f| - 1];
    } else {
      assert cs[..|cs| - 1][i] == cs[i];
      assert StrictlyIncreasing(pre) by {
        assert forall a :: 0 <= a < |pre| ==> pre[a] == f[a];
      }
      FlattenSpan(cs[..|cs| - 1], i);
      FlattenLength(cs[..|cs| - 1]);
      assert pre[0] == f[0] && pre[|pre| - 1] == f[|pre| - 1];
    }
  }

  /** The scan's state: the mesh heights flushed so far and the buffer being filled. */
  type ScanState = (seq<real>, seq<real>)

  /** The scan's step for one height: it joins the buffer when it passes the joining test,
      otherwise the buffer's mean is flushed into the mesh and the height starts a new
      buffer. */
  function ScanOne(st: ScanState, h: real, tol: real): ScanState
  {
    if st.1 == [] then (st.0, [h])
    else if Joins(st.1, h, tol) then (st.0, st.1 + [h])
    else (st.0 + [Mean(st.1)], [h])
  }

  function Scan(hs: seq<real>, tol: real): ScanState
  {
    if hs == [] then ([], []) else ScanOne(Scan(hs[..|hs| - 1], tol), hs[|hs| - 1], tol)
  }

  /** The buffer left at the end is flushed too. */
  function Flushed(st: ScanState): seq<real>
  {
    if st.1 == [] then st.0 else st.0 + [Mean(st.1)]
  }

  /** The scan's state is the means of all clusters but the last, and the last cluster. */
  lemma {:induction false} ScanClusters(hs: seq<real>, tol: real)
    ensures hs == [] ==> Scan(hs, tol) == ([], [])
    ensures hs != [] ==>
      var cs := Clusters(hs, tol);
      Scan(hs, tol) == (Means(cs[..|cs| - 1]), cs[|cs| - 1])
  {
    if hs != [] {
      var pre, h := hs[..|hs| - 1], hs[|hs| - 1];
      ScanClusters(pre, tol);
      GatherScan(Clusters(pre, tol), h, tol);
    }
  }

  /** One scan step on the state of clusters `cs` is the state of `Gather(cs, h, tol)`. */
  lemma GatherScan(cs: seq<seq<real>>, h: real, tol: real)
    requires forall i :: 0 <= i < |cs| ==> |cs[i]| > 0
    ensures var r := Gather(cs, h, tol);
      ScanOne(if cs == [] then ([], []) else (Means(cs[..|cs| - 1]), cs[|cs| - 1]), h, tol)
        == (Means(r[..|r| - 1]), r[|r| - 1])
  {
    var r := Gather(cs, h, tol);
    if cs != [] {
      var init, last := cs[..|cs| - 1], cs[|cs| - 1];
      if Joins(last, h, tol) {
        assert r[..|r| - 1] == init;
      } else {
        assert r[..|r| - 1] == cs;
        MeansSnoc(init, last);
        assert init + [last] == cs;
      }
    } else {
      assert r[..|r| - 1] == [];
    }
  }

  /** Flushing the scan's final state gives the mesh. */
  lemma ScanMesh(hs: seq<real>, tol: real)
    ensures Flushed(Scan(hs, tol)) == Mesh(hs, tol)
  {
    ScanClusters(hs, tol);
    if hs != [] {
      var cs := Clusters(hs, tol);
      MeansSnoc(cs[..|cs| - 1], cs[|cs| - 1]);
      assert cs[..|cs| - 1] + [cs[|cs| - 1]] == cs;
    }
  }

  /** The cluster scan: walk the ascending heights with a buffer; a height that fails the
      joining test flushes the buffer's mean into the mesh and starts a new buffer; the last
      buffer is flushed at the end. */
  method ClusterMeans(hs: seq<real>, tol: real) returns (mesh: seq<real>)
    ensures mesh == Mesh(hs, tol)
  {
    var buffer: seq<real> := [];
    mesh := [];
    var i := 0;
    while i < |hs|
      invariant 0 <= i <= |hs|
      invariant (mesh, buffer) == Scan(hs[..i], tol)
    {
      mesh, buffer := ScanHeight(mesh, buffer, hs[i], tol);
      assert hs[..i + 1][..i] == hs[..i];
      i := i + 1;
    }
    assert hs[..i] == hs;
    ScanMesh(hs, tol);
    if |buffer| > 0 {
      mesh := mesh + [Mean(buffer)];
    }
  }

  /** The loop body of the scan for one height. */
  method ScanHeight(mesh: seq<real>, buffer: seq<real>, height: real, tol: real)
    returns (mesh': seq<real>, buffer': seq<real>)
    ensures (mesh', buffer') == ScanOne((mesh, buffer), height, tol)
  {
    mesh', buffer' := mesh, buffer;
    if |buffer| == 0 {
      buffer' := [height];
    } else {
      var lower, higher := SeqMin(buffer), SeqMax(buffer);
      var close := Abs(height - lower) <= tol && Abs(height - higher) <= tol;
      assert close == Joins(buffer, height, tol);
      if close {
        buffer' := buffer + [height];
      } else {
        mesh' := mesh + [Mean(buffer)];
        buffer' := [height];
      }
    }
  }

  lemma MeansSnoc(cs: seq<seq<real>>, c: seq<real>)
    requires forall i :: 0 <= i < |cs| ==> |cs[i]| > 0
    requires |c| > 0
    ensures Means(cs + [c]) == Means(cs) + [Mean(c)]
  {
    assert (cs + [c])[..|cs|] == cs;
  }

  // ---------------------------------------------------------------------------------------------
  // Snapping section bounds onto the mesh.

  /** One snapping test: a bound at distance in `(0, tol]` from the mesh height `g` becomes `g`. */
  function SnapStep(b: real, g: real, tol: real): (r: real)
    ensures r == b || r == g
    ensures r != b <==> 0.0 < Abs(g - b) <= tol
  {
    if 0.0 < Abs(g - b) && Abs(g - b) <= tol then g else b
  }

  /** A bound after the mesh heights are visited in order. */
  function SnapBound(b: real, mesh: seq<real>, tol: real): real
  {
    if mesh == [] then b else SnapStep(SnapBound(b, mesh[..|mesh| - 1], tol), mesh[|mesh| - 1], tol)
  }

  function SnapPair(p: (real, real), mesh: seq<real>, tol: real): (real, real)
  {
    (SnapBound(p.0, mesh, tol), SnapBound(p.1, mesh, tol))
  }

  /** A second test against the same height changes nothing. */
  lemma SnapStepTwice(b: real, g: real, tol: real)
    ensures SnapStep(SnapStep(b, g, tol), g, tol) == SnapStep(b, g, tol)
  {
  }

  /** A snapped bound either kept its value or equals one of the mesh heights. */
  lemma {:induction false} SnapBoundOnMesh(b: real, mesh: seq<real>, tol: real)
    ensures SnapBound(b, mesh, tol) == b || SnapBound(b, mesh, tol) in mesh
  {
    if mesh != [] {
      SnapBoundOnMesh(b, mesh[..|mesh| - 1], tol);
    }
  }

  /** A bound with no mesh height at distance in `(0, tol]` is left untouched. */
  lemma {:induction false} SnapBoundUntouched(b: real, mesh: seq<real>, tol: real)
    requires forall i :: 0 <= i < |mesh| ==> !(0.0 < Abs(mesh[i] - b) <= tol)
    ensures SnapBound(b, mesh, tol) == b
  {
    if mesh != [] {
      SnapBoundUntouched(b, mesh[..|mesh| - 1], tol);
    }
  }

  /** Moves chain: a bound moved onto one mesh height can be moved again onto a later one and
      end further than `tol` from where it was. With mesh `[0.05, 0.2]` and tolerance `0.15`,
      the bound `0` goes to `0.05` and then to `0.2`. */
  lemma SnapCanMoveFurtherThanTolerance()
    ensures SnapBound(0.0, [0.05, 0.2], 0.15) == 0.2
    ensures Abs(SnapBound(0.0, [0.05, 0.2], 0.15) - 0.0) > 0.15
  {
    assert [0.05, 0.2][..1] == [0.05];
    assert [0.05][..0] == [];
  }

  /** One pass of the snapping loop for the mesh height `g`: every section's two bounds are
      compared with `g`. A section listed twice is compared twice, which changes nothing more. */
  method SnapToHeight(ss: seq<Section>, g: real, tol: real)
    modifies ss`bounds
    ensures forall t :: 0 <= t < |ss| ==>
      ss[t].bounds == (SnapStep(old(ss[t].bounds.0), g, tol), SnapStep(old(ss[t].bounds.1), g, tol))
  {
    var j := 0;
    while j < |ss|
      invariant 0 <= j <= |ss|
      invariant forall t :: 0 <= t < |ss| ==>
        ss[t].bounds == if ss[t] in ss[..j]
          then (SnapStep(old(ss[t].bounds.0), g, tol), SnapStep(old(ss[t].bounds.1), g, tol))
          else old(ss[t].bounds)
    {
      var sec := ss[j];
      var lo, hi := sec.bounds.0, sec.bounds.1;
      if Abs(g - lo) > 0.0 && Abs(g - lo) <= tol {
        lo := g;
      }
      if Abs(g - hi) > 0.0 && Abs(g - hi) <= tol {
        hi := g;
      }
      sec.bounds := (lo, hi);
      assert ss[..j + 1] == ss[..j] + [sec];
      j := j + 1;
    }
    assert forall t :: 0 <= t < |ss| ==> ss[t] in ss[..j] by {
      assert ss[..j] == ss;
    }
  }

  /** The snapping loop: mesh heights in ascending order, then sections, then the two bounds. */
  method Snap(ss: seq<Section>, mesh: seq<real>, tol: real)
    modifies ss`bounds
    ensures forall t :: 0 <= t < |ss| ==> ss[t].bounds == SnapPair(old(ss[t].bounds), mesh, tol)
  {
    var gi := 0;
    while gi < |mesh|
      invariant 0 <= gi <= |mesh|
      invariant forall t :: 0 <= t < |ss| ==> ss[t].bounds == SnapPair(old(ss[t].bounds), mesh[..gi], tol)
    {
      SnapToHeight(ss, mesh[gi], tol);
      assert mesh[..gi + 1][..gi] == mesh[..gi];
      gi := gi + 1;
    }
    assert mesh[..gi] == mesh;
  }
}
