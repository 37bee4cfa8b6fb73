/** An assembly: a stack of sections placed along the core's axis (assembly.py). */
module AssemblyDef {
  import opened Base
  import opened Text
  import opened RunLength
  import opened Sorting
  import opened SectionDef

  // ---------------------------------------------------------------------------------------------
  // Python slices of a height list, as `setRefPlane` uses them.

  /** `xs[a:b]` with Python's rules for negative and out-of-range bounds. */
  function PySlice(xs: seq<real>, a: int, b: int): (s: seq<real>)
    ensures 0 <= a <= b <= |xs| ==> s == xs[a..b]
    ensures 0 <= b <= a ==> s == []
  {
    var lo, hi := SliceIndex(a, |xs|), SliceIndex(b, |xs|);
    if lo < hi then xs[lo..hi] else []
  }

  /** The bounds `setRefPlane` gives section `i` of a stack with heights `h`, reference index
      `ref` and bias `bias`: sections below the reference hang down from it, the others stack up
      from it, and the reference plane itself sits at `bias` above the reference's lower bound. */
  function PlacedBounds(h: seq<real>, ref: int, bias: real, i: int): (real, real)
  {
    if i < ref then (-Sum(PySlice(h, i, ref)) - bias, -Sum(PySlice(h, i + 1, ref)) - bias)
    else (Sum(PySlice(h, ref, i)) - bias, Sum(PySlice(h, ref, i + 1)) - bias)
  }

  lemma SumSplit(h: seq<real>, a: int, b: int, c: int)
    requires 0 <= a <= b <= c <= |h|
    ensures Sum(h[a..c]) == Sum(h[a..b]) + Sum(h[b..c])
  {
    assert h[a..c] == h[a..b] + h[b..c];
    SumAppend(h[a..b], h[b..c]);
  }

  /** With a reference index inside the stack, every section's width is its height, consecutive
      sections touch, and the reference section's lower bound is `-bias`. */
  lemma PlacementStacks(h: seq<real>, ref: int, bias: real, i: int)
    requires 0 <= ref < |h| && 0 <= i < |h|
    ensures PlacedBounds(h, ref, bias, i).1 - PlacedBounds(h, ref, bias, i).0 == h[i]
    ensures i + 1 < |h| ==> PlacedBounds(h, ref, bias, i).1 == PlacedBounds(h, ref, bias, i + 1).0
    ensures PlacedBounds(h, ref, bias, ref).0 == -bias
  {
    assert h[i..i + 1] == [h[i]];
    assert Sum([h[i]]) == h[i] by {
      assert [h[i]][..0] == [];
    }
    if i < ref {
      SumSplit(h, i, i + 1, ref);
    } else {
      SumSplit(h, ref, i, i + 1);
    }
  }

  /** A negative reference index is accepted by the list lookup but then compared with
      non-negative positions: with two sections of height 1 and `ref == -1`, the first section
      is placed with zero width. */
  lemma PlacementNegativeIndex()
    ensures PlacedBounds([1.0, 1.0], -1, 0.0, 0) == (0.0, 0.0)
    ensures PlacedBounds([1.0, 1.0], -1, 0.0, 0).1 - PlacedBounds([1.0, 1.0], -1, 0.0, 0).0 != 1.0
  {
    assert PySlice([1.0, 1.0], -1, 0) == [];
    assert PySlice([1.0, 1.0], -1, 1) == [];
  }

  /** The placement with a negative reference index read as counting from the top, as the list
      lookup that selects the reference section reads it. */
  function PlacedBoundsFromEnd(h: seq<real>, ref: int, bias: real, i: int): (b: (real, real))
    requires -(|h| as int) <= ref < |h| && 0 <= i < |h|
    ensures b.1 - b.0 == h[i]
    ensures i + 1 < |h| ==> b.1 == PlacedBounds(h, SliceIndex(ref, |h|), bias, i + 1).0
    ensures i == SliceIndex(ref, |h|) ==> b.0 == -bias
  {
    var r := SliceIndex(ref, |h|);
    PlacementStacks(h, r, bias, i);
    PlacedBounds(h, r, bias, i)
  }

  // ---------------------------------------------------------------------------------------------
  // The cell classification of `toLAVENDER`.

  /** What `toLAVENDER` reads of a section: its bounds and its id. */
  datatype SecView = SecView(lo: real, hi: real, id: int)

  function Views(ss: seq<Section>): (vs: seq<SecView>)
    reads ss`bounds, ss`id
    ensures |vs| == |ss|
    ensures forall i :: 0 <= i < |ss| ==>
      vs[i] == SecView(ss[i].bounds.0, ss[i].bounds.1, ss[i].id)
  {
    if ss == [] then [] else [SecView(ss[0].bounds.0, ss[0].bounds.1, ss[0].id)] + Views(ss[1..])
  }

  predicate Contains(v: SecView, a: real, b: real)
  {
    v.lo <= a && v.hi >= b
  }

  /** The index of the first section, in list order, that contains the cell `[a, b]`. */
  function FirstContaining(vs: seq<SecView>, a: real, b: real): (k: Option<nat>)
    ensures k.Some? ==> (k.value < |vs| && Contains(vs[k.value], a, b) &&
                         forall i :: 0 <= i < k.value ==> !Contains(vs[i], a, b))
    ensures k.None? ==> forall i :: 0 <= i < |vs| ==> !Contains(vs[i], a, b)
  {
    if vs == [] then None
    else if Contains(vs[0], a, b) then Some(0)
    else match FirstContaining(vs[1..], a, b)
      case None => None
      case Some(k) => Some(k + 1)
  }

  /** Every section starts above the cell's lower edge. */
  predicate Under(vs: seq<SecView>, a: real)
  {
    forall i :: 0 <= i < |vs| ==> a < vs[i].lo
  }

  /** Every section ends below the cell's upper edge. */
  predicate Above(vs: seq<SecView>, b: real)
  {
    forall i :: 0 <= i < |vs| ==> b > vs[i].hi
  }

  /** The id a mesh cell `[a, b]` gets: the first containing section's, else the coolant's when
      the cell is under or above the whole assembly, else none (a gap). */
  function CellId(vs: seq<SecView>, a: real, b: real, coolant: int): (c: Option<int>)
    ensures c.Some? <==> FirstContaining(vs, a, b).Some? || Under(vs, a) || Above(vs, b)
    ensures FirstContaining(vs, a, b).Some? ==> c == Some(vs[FirstContaining(vs, a, b).value].id)
    ensures FirstContaining(vs, a, b).None? && (Under(vs, a) || Above(vs, b)) ==> c == Some(coolant)
  {
    match FirstContaining(vs, a, b)
    case Some(k) => Some(vs[k].id)
    case None => if Under(vs, a) || Above(vs, b) then Some(coolant) else None
  }

  /** The ids of the first `n` cells of the mesh, gaps dropped. */
  function CellIds(vs: seq<SecView>, m: seq<real>, coolant: int, n: nat): seq<int>
    requires n < |m| || n == 0
  {
    if n == 0 then [] else
      var c := CellId(vs, m[n - 1], m[n], coolant);
      CellIds(vs, m, coolant, n - 1) + (if c.Some? then [c.value] else [])
  }

  function CellCount(m: seq<real>): nat
  {
    if |m| == 0 then 0 else |m| - 1
  }

  /** Cells that got an id (gaps are left out). */
  predicate Classified(vs: seq<SecView>, m: seq<real>, coolant: int, i: nat)
    requires i + 1 < |m|
  {
    CellId(vs, m[i], m[i + 1], coolant).Some?
  }

  /** The per-cell id list has one entry per classified cell, so it covers the mesh exactly when
      no cell is a gap. */
  lemma {:induction false} CellIdsLength(vs: seq<SecView>, m: seq<real>, coolant: int, n: nat)
    requires n < |m| || n == 0
    ensures |CellIds(vs, m, coolant, n)| <= n
    ensures |CellIds(vs, m, coolant, n)| == n <==> forall i :: 0 <= i < n ==> Classified(vs, m, coolant, i)
  {
    if n > 0 {
      CellIdsLength(vs, m, coolant, n - 1);
      var c := CellId(vs, m[n - 1], m[n], coolant);
      assert CellIds(vs, m, coolant, n) == CellIds(vs, m, coolant, n - 1) + (if c.Some? then [c.value] else []);
      if forall i :: 0 <= i < n ==> Classified(vs, m, coolant, i) {
        assert Classified(vs, m, coolant, n - 1);
      }
    }
  }

  /** The record written for an assembly compresses its per-cell ids: expanding it gives them
      back, no two adjacent runs carry the same id, and it has a cell per mesh interval exactly
      when no interval is a gap. */
  lemma LayerRecordCorrect(vs: seq<SecView>, m: seq<real>, coolant: int)
    ensures Expand(Encode(CellIds(vs, m, coolant, CellCount(m)))) == CellIds(vs, m, coolant, CellCount(m))
    ensures Canonical(Encode(CellIds(vs, m, coolant, CellCount(m))))
    ensures |Expand(Encode(CellIds(vs, m, coolant, CellCount(m))))| == CellCount(m) <==>
      forall i :: 0 <= i < CellCount(m) ==> Classified(vs, m, coolant, i)
  {
    EncodeCorrect(CellIds(vs, m, coolant, CellCount(m)));
    CellIdsLength(vs, m, coolant, CellCount(m));
  }

  /** A mesh cell strictly below every section gets the coolant id. */
  lemma UnderIsCoolant(vs: seq<SecView>, a: real, b: real, coolant: int)
    requires a < b && Under(vs, a)
    ensures CellId(vs, a, b, coolant) == Some(coolant)
  {
    assert forall i :: 0 <= i < |vs| ==> !Contains(vs[i], a, b);
  }

  /** The `FA_type` line: keyword and id in 16-wide columns, then the run tokens. */
  function FaLine(id: int, runs: seq<Run<int>>): string
  {
    PadRight("FA_type", 16) + PadRight(IntToString(id), 16) + Join(RunTokens(runs))
  }

  /** The in-place edit `toLAVENDER` makes when a section contains the cell: lengthen the last
      run if it carries the same id, else open a new one. */
  method PushSection(runs: seq<Run<int>>, id: int) returns (r: seq<Run<int>>)
    ensures r == Push(runs, id)
  {
    if |runs| == 0 {
      r := runs + [Run(1, id)];
    } else if runs[|runs| - 1].value == id {
      r := runs[..|runs| - 1] + [Run(runs[|runs| - 1].count + 1, id)];
    } else {
      r := runs + [Run(1, id)];
    }
  }

  /** The edit `toLAVENDER` makes for a coolant cell: append a run, then fold it into the one
      before when that one is also coolant. */
  method PushCoolant(runs: seq<Run<int>>, id: int) returns (r: seq<Run<int>>)
    ensures r == Push(runs, id)
  {
    r := runs + [Run(1, id)];
    if |r| > 1 && r[|r| - 2].value == id {
      r := r[..|r| - 2] + [Run(r[|r| - 2].count + 1, id)];
    }
  }

  lemma ScanSnoc(vs: seq<SecView>, j: nat, a: real, b: real)
    requires j < |vs|
    ensures Under(vs[..j + 1], a) == (Under(vs[..j], a) && a < vs[j].lo)
    ensures Above(vs[..j + 1], b) == (Above(vs[..j], b) && b > vs[j].hi)
  {
    assert vs[..j + 1] == vs[..j] + [vs[j]];
  }

  /** The section scan of `toLAVENDER` for the cell `[a, b]`: visit the sections' bounds in order,
      tracking whether the cell is under or above every section seen, and stop at the first
      one that contains it. */
  method ScanSections(vs: seq<SecView>, a: real, b: real)
    returns (under: bool, above: bool, hit: Option<nat>)
    ensures hit == FirstContaining(vs, a, b)
    ensures hit.Some? ==> !under && !above
    ensures hit.None? ==> under == Under(vs, a) && above == Above(vs, b)
  {
    under, above, hit := true, true, None;
    var j := 0;
    while j < |vs|
      invariant 0 <= j <= |vs|
      invariant under == Under(vs[..j], a) && above == Above(vs[..j], b)
      invariant NoneBefore(vs, j, a, b)
    {
      var lo, hi := vs[j].lo, vs[j].hi;
      ScanSnoc(vs, j, a, b);
      if under && a >= lo {
        under := false;
      }
      if above && b <= hi {
        above := false;
      }
      if lo <= a && hi >= b {
        hit := Some(j);
        FirstFound(vs, j, a, b);
        return;
      }
      j := j + 1;
    }
    assert vs[..j] == vs;
    NoneFound(vs, a, b);
  }

  /** No section before the `j`-th contains the cell `[a, b]`. */
  predicate NoneBefore(vs: seq<SecView>, j: nat, a: real, b: real)
    requires j <= |vs|
  {
    forall k :: 0 <= k < j ==> !Contains(vs[k], a, b)
  }

  /** A scan that passes every section without finding one containing the cell finds none. */
  lemma NoneFound(vs: seq<SecView>, a: real, b: real)
    requires NoneBefore(vs, |vs|, a, b)
    ensures FirstContaining(vs, a, b) == None
  {
  }

  /** The scan stops at `j` when no section before it contains the cell and section `j` does. */
  lemma FirstFound(vs: seq<SecView>, j: nat, a: real, b: real)
    requires j < |vs| && Contains(vs[j], a, b)
    requires NoneBefore(vs, j, a, b)
    ensures FirstContaining(vs, a, b) == Some(j)
  {
  }

  /** The body of the cell loop of `toLAVENDER` for the cell `[a, b]`: the first containing
      section's id is pushed; a cell under or above all of the sections is coolant. */
  method AddCell(sections: seq<Section>, a: real, b: real, coolantId: int, runs: seq<Run<int>>)
    returns (r: seq<Run<int>>)
    ensures r == CellStep(Views(sections), a, b, coolantId, runs)
  {
    var under, above, hit := ScanSections(Views(sections), a, b);
    r := runs;
    if hit.Some? {
      r := PushSection(r, sections[hit.value].id);
    }
    if under || above {
      r := PushCoolant(r, coolantId);
    }
  }

  /** The run list after the cell `[a, b]`: its id pushed, or nothing for a gap. */
  function CellStep(vs: seq<SecView>, a: real, b: real, coolant: int, runs: seq<Run<int>>): seq<Run<int>>
  {
    match CellId(vs, a, b, coolant)
    case Some(c) => Push(runs, c)
    case None => runs
  }

  lemma CellRunsStep(vs: seq<SecView>, m: seq<real>, coolant: int, n: nat)
    requires n + 1 < |m|
    ensures Encode(CellIds(vs, m, coolant, n + 1)) == CellStep(vs, m[n], m[n + 1], coolant, Encode(CellIds(vs, m, coolant, n)))
  {
    var c := CellId(vs, m[n], m[n + 1], coolant);
    if c.Some? {
      EncodeSnoc(CellIds(vs, m, coolant, n), c.value);
    } else {
      assert CellIds(vs, m, coolant, n + 1) == CellIds(vs, m, coolant, n);
    }
  }

  /** The cell loop of `toLAVENDER`: each mesh cell is classified against the sections in list
      order and its id pushed onto the run list, merging with the last run when the id repeats. */
  method LayerRuns(sections: seq<Section>, meshgrid: seq<real>, coolantId: int) returns (runs: seq<Run<int>>)
    ensures runs == Encode(CellIds(Views(sections), meshgrid, coolantId, CellCount(meshgrid)))
  {
    runs := [];
    var idx := 0;
    var n := CellCount(meshgrid);
    assert runs == LayerRecord(Views(sections), meshgrid, coolantId, 0);
    while idx < n
      invariant 0 <= idx <= n
      invariant runs == LayerRecord(Views(sections), meshgrid, coolantId, idx)
    {
      runs := LayerStep(sections, meshgrid, coolantId, idx, runs);
      idx := idx + 1;
    }
  }

  function LayerRecord(vs: seq<SecView>, m: seq<real>, coolant: int, n: nat): seq<Run<int>>
    requires n < |m| || n == 0
  {
    Encode(CellIds(vs, m, coolant, n))
  }

  /** One pass of the cell loop: the run list for the first `idx` cells becomes the one for the
      first `idx + 1`. */
  method LayerStep(sections: seq<Section>, meshgrid: seq<real>, coolantId: int, idx: nat,
                   runs: seq<Run<int>>) returns (r: seq<Run<int>>)
    requires idx < CellCount(meshgrid)
    requires runs == LayerRecord(Views(sections), meshgrid, coolantId, idx)
    ensures r == LayerRecord(Views(sections), meshgrid, coolantId, idx + 1)
  {
    r := AddCell(sections, meshgrid[idx], meshgrid[idx + 1], coolantId, runs);
    CellRunsStep(Views(sections), meshgrid, coolantId, idx);
  }

  // ---------------------------------------------------------------------------------------------
  // Sorting sections by lower bound, as `check` does.

  function RealLe(a: real, b: real): bool
  {
    a <= b
  }

  lemma RealLeTotal()
    ensures TotalPreorder(RealLe)
  {
  }

  function KeyByLower(ss: seq<Section>): (ps: seq<(real, Section)>)
    reads ss`bounds
    ensures |ps| == |ss|
    ensures forall i :: 0 <= i < |ss| ==> ps[i] == (ss[i].bounds.0, ss[i])
  {
    if ss == [] then [] else [(ss[0].bounds.0, ss[0])] + KeyByLower(ss[1..])
  }

  /** `sorted(ss, key=lambda x: x.bounds[0])`: a stable sort on the lower bound. */
  function SortByLower(ss: seq<Section>): seq<Section>
    reads ss`bounds
  {
    Items(SortByKey(KeyByLower(ss), RealLe))
  }

  /** The sections of `ss` whose lower bound is `v`, in stack order. */
  function WithLower(ss: seq<Section>, v: real): (ws: seq<Section>)
    reads ss`bounds
    ensures |ws| <= |ss|
  {
    if ss == [] then []
    else (if ss[0].bounds.0 == v then [ss[0]] else []) + WithLower(ss[1..], v)
  }

  /** On a sequence keyed by lower bound, the key class of `v` is the sections starting at `v`. */
  lemma {:induction false} EqKeyLower(ps: seq<(real, Section)>, v: real)
    requires forall i :: 0 <= i < |ps| ==> ps[i].0 == ps[i].1.bounds.0
    ensures Items(EqKey(ps, v, RealLe)) == WithLower(Items(ps), v)
  {
    if ps != [] {
      EqKeyLower(ps[1..], v);
      var head := if ps[0].0 == v then [ps[0]] else [];
      assert EqKey(ps, v, RealLe) == head + EqKey(ps[1..], v, RealLe);
      assert Items(ps)[1..] == Items(ps[1..]);
      assert Items(head + EqKey(ps[1..], v, RealLe)) == Items(head) + Items(EqKey(ps[1..], v, RealLe));
    }
  }

  /** The sorted stack holds the same section objects, ordered by lower bound. */
  lemma SortByLowerCorrect(ss: seq<Section>)
    ensures multiset(SortByLower(ss)) == multiset(ss)
    ensures OrderedByLower(SortByLower(ss))
  {
    var keyed := KeyByLower(ss);
    var sorted := SortByKey(keyed, RealLe);
    RealLeTotal();
    SortCorrect(keyed, RealLe);
    SortItemsPerm(keyed, RealLe);
    assert Items(keyed) == ss;
    forall i | 0 <= i < |sorted| ensures sorted[i].0 == sorted[i].1.bounds.0 {
      assert sorted[i] in multiset(keyed);
    }
  }

  /** Sections with the same lower bound keep their stack order. */
  lemma SortByLowerStable(ss: seq<Section>)
    ensures forall v :: WithLower(SortByLower(ss), v) == WithLower(ss, v)
  {
    var keyed := KeyByLower(ss);
    var sorted := SortByKey(keyed, RealLe);
    RealLeTotal();
    SortPerm(keyed, RealLe);
    forall i | 0 <= i < |sorted| ensures sorted[i].0 == sorted[i].1.bounds.0 {
      assert sorted[i] in multiset(keyed);
    }
    assert Items(keyed) == ss;
    forall v ensures WithLower(SortByLower(ss), v) == WithLower(ss, v) {
      SortStable(keyed, v, RealLe);
      EqKeyLower(sorted, v);
      EqKeyLower(keyed, v);
    }
  }

  /** Sorting an already sorted stack changes nothing. */
  lemma SortByLowerTwice(ss: seq<Section>)
    ensures SortByLower(SortByLower(ss)) == SortByLower(ss)
  {
    var once := SortByLower(ss);
    SortByLowerCorrect(ss);
    var keyed := KeyByLower(once);
    assert SortedBy(keyed, RealLe);
    SortSortedIdentity(keyed, RealLe);
    assert Items(keyed) == once;
  }

  /** Section `i` begins where section `i - 1` ends, all along the stack. */
  ghost predicate Contiguous(ss: seq<Section>)
    reads ss`bounds
  {
    forall i :: 0 < i < |ss| ==> ss[i - 1].bounds.1 == ss[i].bounds.0
  }

  /** Sections ordered by lower bound. */
  ghost predicate OrderedByLower(ss: seq<Section>)
    reads ss`bounds
  {
    forall i, j :: 0 <= i < j < |ss| ==> ss[i].bounds.0 <= ss[j].bounds.0
  }

  /** The last position below `n` at which `ss` holds the object `s`, or -1. */
  function LastBelow(ss: seq<Section>, s: Section, n: nat): (k: int)
    requires n <= |ss|
    ensures -1 <= k < n
    ensures k >= 0 ==> ss[k] == s && forall m :: k < m < n ==> ss[m] != s
    ensures k == -1 ==> forall m :: 0 <= m < n ==> ss[m] != s
  {
    if n == 0 then -1 else if ss[n - 1] == s then n - 1 else LastBelow(ss, s, n - 1)
  }

  /** The check loop of `setRefPlane`: whether every section has a height. */
  method HeightsSet(ss: seq<Section>) returns (ok: bool)
    ensures ok <==> AllHeightsSet(ss)
  {
    var i := 0;
    while i < |ss|
      invariant 0 <= i <= |ss|
      invariant forall j :: 0 <= j < i ==> ss[j].height.Some?
    {
      if ss[i].height.None? {
        return false;
      }
      i := i + 1;
    }
    return true;
  }

  /** The placement loop of `setRefPlane`: section `i` is given `bound(i)` (the height sums
      around the reference), so a section listed more than once ends with the bounds of its last
      position. */
  method Place(ss: seq<Section>, bound: int -> (real, real))
    modifies ss`bounds
    ensures forall j :: 0 <= j < |ss| ==> ss[j].bounds == bound(LastBelow(ss, ss[j], |ss|))
  {
    var i := 0;
    while i < |ss|
      invariant 0 <= i <= |ss|
      invariant forall j :: 0 <= j < i ==> ss[j].bounds == bound(LastBelow(ss, ss[j], i))
    {
      ss[i].bounds := bound(i);
      i := i + 1;
    }
  }

  /** Every section of the stack carries the `PlacedBounds` of its last position. */
  ghost predicate PlacedStack(ss: seq<Section>, ref: int, bias: real)
    reads ss`height, ss`bounds
    requires AllHeightsSet(ss)
  {
    forall j :: 0 <= j < |ss| ==>
      ss[j].bounds == PlacedBounds(Heights(ss), ref, bias, LastBelow(ss, ss[j], |ss|))
  }

  /** The placement loop run with the heights of the stack and the reference index `ref`. */
  method PlaceStack(ss: seq<Section>, ref: int, bias: real)
    requires AllHeightsSet(ss)
    modifies ss`bounds
    ensures AllHeightsSet(ss) && PlacedStack(ss, ref, bias)
  {
    var h := Heights(ss);
    Place(ss, i => PlacedBounds(h, ref, bias, i));
    assert Heights(ss) == h;
  }

  /** The `bounds` argument of `addSection`: omitted, a pair, or something else. */
  datatype BoundsArg = NoBounds | TupleBounds(lo: real, hi: real) | OtherBounds

  /** The reference argument of `setRefPlane`: an index, a section, or something else. */
  datatype RefArg = RefIndex(i: int) | RefSection(s: Section) | RefOther

  ghost predicate AllHeightsSet(ss: seq<Section>)
    reads ss`height
  {
    forall i :: 0 <= i < |ss| ==> ss[i].height.Some?
  }

  function Heights(ss: seq<Section>): (h: seq<real>)
    reads ss`height
    requires forall i :: 0 <= i < |ss| ==> ss[i].height.Some?
    ensures |h| == |ss| && forall i :: 0 <= i < |ss| ==> h[i] == ss[i].height.value
  {
    if ss == [] then [] else [ss[0].height.value] + Heights(ss[1..])
  }

  /** The position `setRefPlane` takes as reference in the stack `ss`: the index itself, or
      the last position of the given section. */
  function RefIndexOf(ss: seq<Section>, refSec: RefArg): (k: Option<int>)
    ensures refSec.RefIndex? ==> k == Some(refSec.i)
    ensures refSec.RefSection? ==>
      k == (var j := LastBelow(ss, refSec.s, |ss|); if j < 0 then None else Some(j))
    ensures refSec.RefOther? ==> k == None
  {
    match refSec
    case RefIndex(i) => Some(i)
    case RefSection(s) => (var j := LastBelow(ss, s, |ss|); if j < 0 then None else Some(j))
    case RefOther => None
  }

  class Assembly {
    var id: int
    const typeName: string
    const location: string
    var sections: seq<Section>

    constructor (typeName: string, location: string)
      ensures this.typeName == typeName && this.location == location
      ensures id == -1 && sections == []
    {
      this.typeName := typeName;
      this.location := location;
      id := -1;
      sections := [];
    }

    /** `addSection(section, bounds)`: a non-section, or bounds that are neither omitted nor a
        pair, raise `TypeError` and change nothing; a pair overwrites the section's bounds; the
        section goes at the top of the stack. */
    method AddSection(section: Section?, bounds: BoundsArg) returns (st: Status)
      modifies this`sections, (if section == null then {} else {section})`bounds
      ensures section == null || bounds.OtherBounds? ==>
        st == Raised(TypeError) && sections == old(sections) &&
        (section != null ==> section.bounds == old(section.bounds))
      ensures section != null && !bounds.OtherBounds? ==>
        st == Done && sections == old(sections) + [section] &&
        section.bounds == (if bounds.TupleBounds? then (bounds.lo, bounds.hi) else old(section.bounds))
    {
      if section == null {
        return Raised(TypeError);
      }
      match bounds {
        case NoBounds =>
        case TupleBounds(lo, hi) =>
          section.bounds := (lo, hi);
        case OtherBounds =>
          return Raised(TypeError);
      }
      sections := sections + [section];
      st := Done;
    }

    /** `setRefPlane(refSec, bias)`. An index outside the list raises `IndexError`; a section
        with no height raises `RuntimeError`; a reference that names no section of a non-empty
        stack raises `NameError` (the loop reads an unbound variable). Otherwise each section is
        given its `PlacedBounds` around the reference index as given, a negative one included; a
        section listed twice keeps the bounds of its last position (`LastBelow`). */
    method SetRefPlane(refSec: RefArg, bias: real) returns (st: Status)
      modifies sections`bounds
      ensures var n := |sections|;
        if refSec.RefIndex? && !(-(n as int) <= refSec.i < n) then st == Raised(IndexError)
        else if !AllHeightsSet(sections) then st == Raised(RuntimeError)
        else match RefIndexOf(sections, refSec)
          case None => st == (if n == 0 then Done else Raised(NameError))
          case Some(ref) => st == Done
      ensures st.Raised? ==> forall i :: 0 <= i < |sections| ==> sections[i].bounds == old(sections[i].bounds)
      ensures st == Done && RefIndexOf(sections, refSec).Some? ==>
        AllHeightsSet(sections) && PlacedStack(sections, RefIndexOf(sections, refSec).value, bias)
    {
      var n := |sections|;
      if refSec.RefIndex? && !(-(n as int) <= refSec.i < n) {
        return Raised(IndexError);
      }
      var allSet := HeightsSet(sections);
      if !allSet {
        return Raised(RuntimeError);
      }
      var ref := RefIndexOf(sections, refSec);
      if ref.None? {
        return if n == 0 then Done else Raised(NameError);
      }
      PlaceStack(sections, ref.value, bias);
      st := Done;
    }

    /** `copy(typeName, location)` without deep copy. Non-string arguments raise `TypeError`;
        `@ORIGEN` in the type name stands for this assembly's type. The copy has an unassigned
        id and shares this assembly's section objects. */
    method Copy(typeName: Typed<string>, location: Typed<string>) returns (res: Result<Assembly>)
      ensures typeName.WrongType? || location.WrongType? <==> res == Err(TypeError)
      ensures res.Ok? ==> (fresh(res.value) &&
                           res.value.typeName == Replace(typeName.val, "@ORIGEN", this.typeName) &&
                           res.value.location == location.val &&
                           res.value.id == -1 && res.value.sections == sections)
    {
      if typeName.WrongType? || location.WrongType? {
        return Err(TypeError);
      }
      var c := new Assembly(Replace(typeName.val, "@ORIGEN", this.typeName), location.val);
      c.id := -1;
      c.sections := sections;
      res := Ok(c);
    }

    /** `toLAVENDER(meshgrid, coolant)`: the `FA_type` line of this assembly, whose record is the
        reference compression of its per-cell ids. */
    method ToLavender(meshgrid: seq<real>, coolant: Section) returns (line: string)
      ensures line == FaLine(id, Encode(CellIds(Views(sections), meshgrid, coolant.id, CellCount(meshgrid))))
    {
      var runs := LayerRuns(sections, meshgrid, coolant.id);
      line := FaLine(id, runs);
    }

    /** `check()`: sorts the stack by lower bound (a stable sort that keeps the same section
        objects) and reports whether every section starts where the previous one ends. */
    method Check() returns (ok: bool)
      modifies this`sections
      ensures sections == old(SortByLower(sections))
      ensures ok <==> Contiguous(sections)
    {
      var ss := SortByLower(sections);
      sections := ss;
      var prev: Option<real> := None;
      ok := true;
      var i := 0;
      while i < |ss|
        invariant sections == ss
        invariant 0 <= i <= |ss|
        invariant prev == if i == 0 then None else Some(ss[i - 1].bounds.1)
        invariant ok <==> forall j :: 0 < j < i ==> ss[j - 1].bounds.1 == ss[j].bounds.0
      {
        if prev.Some? && prev.value != ss[i].bounds.0 {
          ok := false;
        }
        prev := Some(ss[i].bounds.1);
        i := i + 1;
      }
    }
  }
}
