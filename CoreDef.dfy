/** The core (core.py): a hexagonal lattice of assemblies, stored ring by ring. The core checks
    its lattice, numbers every assembly, section and material it holds, builds the axial mesh of
    the whole core, and writes the lattice-dependent parts of the TULIP and LAVENDER decks. */
module CoreDef {
  import opened Base
  import opened Text
  import opened RunLength
  import opened Sorting
  import opened SectionDef
  import opened AssemblyDef
  import opened AxialMesh
  import opened HexLattice
  import opened Format
  import opened CoreDecks

  // ---------------------------------------------------------------- what the lattice holds

  /** The assemblies of the lattice, ring by ring, each ring in clockwise order. */
  function Members(lattice: seq<seq<Assembly>>): seq<Assembly>
  {
    if lattice == [] then [] else Members(lattice[..|lattice| - 1]) + lattice[|lattice| - 1]
  }

  /** Every assembly placed in the lattice is one of its members, and nothing else is. */
  lemma {:induction false} MembersExactly(lattice: seq<seq<Assembly>>)
    ensures forall a :: a in Members(lattice) <==>
      exists r, k :: 0 <= r < |lattice| && 0 <= k < |lattice[r]| && lattice[r][k] == a
  {
    if lattice != [] {
      var n := |lattice| - 1;
      var init := lattice[..n];
      MembersExactly(init);
      forall a ensures a in Members(lattice) <==>
        exists r, k :: 0 <= r < |lattice| && 0 <= k < |lattice[r]| && lattice[r][k] == a
      {
        if a in Members(init) {
          var r, k :| 0 <= r < |init| && 0 <= k < |init[r]| && init[r][k] == a;
          assert lattice[r][k] == a;
        } else if a in lattice[n] {
          var k :| 0 <= k < |lattice[n]| && lattice[n][k] == a;
          assert lattice[n][k] == a;
        } else {
          forall r, k | 0 <= r < |lattice| && 0 <= k < |lattice[r]| ensures lattice[r][k] != a {
            if r < n {
              assert init[r][k] == lattice[r][k];
            }
          }
        }
      }
    }
  }

  /** The rings are members: what a method may change in `Members(lattice)` covers each ring. */
  lemma {:induction false} RingInMembers(lattice: seq<seq<Assembly>>, r: nat)
    requires r < |lattice|
    ensures forall a :: a in lattice[r] ==> a in Members(lattice)
  {
    var n := |lattice| - 1;
    if r < n {
      RingInMembers(lattice[..n], r);
    }
  }

  /** The sections of the given assemblies, stack after stack. */
  function Stack(xs: seq<Assembly>): seq<Section>
    reads xs`sections
  {
    if xs == [] then [] else Stack(xs[..|xs| - 1]) + xs[|xs| - 1].sections
  }

  lemma {:induction false} StackAppend(xs: seq<Assembly>, ys: seq<Assembly>)
    ensures Stack(xs + ys) == Stack(xs) + Stack(ys)
  {
    if ys != [] {
      var n := |ys| - 1;
      assert (xs + ys)[..|xs + ys| - 1] == xs + ys[..n];
      assert (xs + ys)[|xs + ys| - 1] == ys[n];
      StackAppend(xs, ys[..n]);
    } else {
      assert xs + ys == xs;
    }
  }

  lemma {:induction false} StackHas(xs: seq<Assembly>)
    ensures forall a, j :: a in xs && 0 <= j < |a.sections| ==> a.sections[j] in Stack(xs)
  {
    if xs != [] {
      StackHas(xs[..|xs| - 1]);
    }
  }

  /** Every section of a placed assembly is in the stack of the lattice's members. */
  lemma LatticeStacks(lattice: seq<seq<Assembly>>)
    ensures forall r, k :: 0 <= r < |lattice| && 0 <= k < |lattice[r]| ==> lattice[r][k] in Members(lattice)
    ensures forall r, k, j :: 0 <= r < |lattice| && 0 <= k < |lattice[r]| && 0 <= j < |lattice[r][k].sections| ==>
      lattice[r][k].sections[j] in Stack(Members(lattice))
  {
    MembersExactly(lattice);
    StackHas(Members(lattice));
  }

  /** What `specifyID` collects for one section: its supercell partner first (possibly `None`)
      when the section uses the supercell method, then the section itself. */
  function SectionEntry(s: Section): seq<Section?>
    reads s`scSection
  {
    (if s.eqMethod == "supercell" then [s.scSection] else []) + [s]
  }

  function SecList(ss: seq<Section>): seq<Section?>
    reads ss`scSection
  {
    if ss == [] then [] else SecList(ss[..|ss| - 1]) + SectionEntry(ss[|ss| - 1])
  }

  lemma {:induction false} SecListAppend(ss: seq<Section>, ts: seq<Section>)
    ensures SecList(ss + ts) == SecList(ss) + SecList(ts)
  {
    if ts != [] {
      var n := |ts| - 1;
      assert (ss + ts)[..|ss + ts| - 1] == ss + ts[..n];
      assert (ss + ts)[|ss + ts| - 1] == ts[n];
      SecListAppend(ss, ts[..n]);
    } else {
      assert ss + ts == ss;
    }
  }

  /** The materials of a list of `(size, material)` parts. */
  function PartMats(ps: seq<Part>): seq<Material>
  {
    if ps == [] then [] else PartMats(ps[..|ps| - 1]) + [ps[|ps| - 1].material]
  }

  /** The rod materials and then the region materials of a section. */
  function SectionMats(s: Section): seq<Material>
    reads s`rod, s`region
  {
    PartMats(s.rod) + PartMats(s.region)
  }

  /** The materials of each section in turn. */
  function MatList(ss: seq<Section>): seq<Material>
    reads ss`rod, ss`region
  {
    if ss == [] then []
    else MatList(ss[..|ss| - 1]) + SectionMats(ss[|ss| - 1])
  }

  lemma {:induction false} MatListAppend(ss: seq<Section>, ts: seq<Section>)
    ensures MatList(ss + ts) == MatList(ss) + MatList(ts)
  {
    if ts != [] {
      var n := |ts| - 1;
      assert (ss + ts)[..|ss + ts| - 1] == ss + ts[..n];
      assert (ss + ts)[|ss + ts| - 1] == ts[n];
      MatListAppend(ss, ts[..n]);
    } else {
      assert ss + ts == ss;
    }
  }

  // ---------------------------------------------------------------- sets as sequences

  /** No element occurs twice: a Python set held as a sequence in insertion order. */
  predicate Distinct<T(==)>(s: seq<T>)
  {
    forall i, j :: 0 <= i < j < |s| ==> s[i] != s[j]
  }

  /** Without repetitions, each element occurs at most once. */
  lemma {:induction false} DistinctCount<T>(s: seq<T>)
    requires Distinct(s)
    ensures forall x :: multiset(s)[x] <= 1
  {
    if s != [] {
      var n := |s| - 1;
      DistinctCount(s[..n]);
      assert s == s[..n] + [s[n]];
      assert s[n] !in s[..n];
      assert multiset(s) == multiset(s[..n]) + multiset{s[n]};
    }
  }

  /** An element occurring at two positions occurs twice. */
  lemma CountDistinct<T>(s: seq<T>)
    requires forall x :: multiset(s)[x] <= 1
    ensures Distinct(s)
  {
    forall i, j | 0 <= i < j < |s| ensures s[i] != s[j] {
      assert s == s[..j] + s[j..];
      assert multiset(s)[s[j]] == multiset(s[..j])[s[j]] + multiset(s[j..])[s[j]];
      assert s[j..][0] == s[j];
      assert s[..j][i] == s[i];
    }
  }

  /** `set.add`. */
  function Add<T(==)>(xs: seq<T>, x: T): seq<T>
  {
    if x in xs then xs else xs + [x]
  }

  lemma AddDistinct<T>(xs: seq<T>, x: T)
    requires Distinct(xs)
    ensures Distinct(Add(xs, x))
  {
    if x !in xs {
      var s := xs + [x];
      forall i, j | 0 <= i < j < |s| ensures s[i] != s[j] {
        if j == |xs| {
          assert s[i] == xs[i];
        }
      }
    }
  }

  /** `set.add` for each element in turn. */
  function AddAll<T(==)>(acc: seq<T>, xs: seq<T>): seq<T>
  {
    if xs == [] then acc else Add(AddAll(acc, xs[..|xs| - 1]), xs[|xs| - 1])
  }

  lemma {:induction false} AddAllAppend<T>(acc: seq<T>, xs: seq<T>, ys: seq<T>)
    ensures AddAll(acc, xs + ys) == AddAll(AddAll(acc, xs), ys)
  {
    if ys == [] {
      assert xs + ys == xs;
    } else {
      var n := |ys| - 1;
      assert (xs + ys)[..|xs + ys| - 1] == xs + ys[..n];
      assert (xs + ys)[|xs + ys| - 1] == ys[n];
      AddAllAppend(acc, xs, ys[..n]);
    }
  }

  lemma AddAllSnoc<T>(acc: seq<T>, xs: seq<T>, x: T)
    ensures AddAll(acc, xs + [x]) == Add(AddAll(acc, xs), x)
  {
    assert (xs + [x])[..|xs|] == xs;
  }

  /** Adding to a set without repetitions keeps it without repetitions. */
  lemma {:induction false} AddAllDistinct<T>(acc: seq<T>, xs: seq<T>)
    requires Distinct(acc)
    ensures Distinct(AddAll(acc, xs))
  {
    if xs != [] {
      AddAllDistinct(acc, xs[..|xs| - 1]);
      AddDistinct(AddAll(acc, xs[..|xs| - 1]), xs[|xs| - 1]);
    }
  }

  /** After adding `xs`, the set holds exactly what it held and the elements of `xs`. */
  lemma {:induction false} AddAllHas<T>(acc: seq<T>, xs: seq<T>, y: T)
    ensures y in AddAll(acc, xs) <==> y in acc || y in xs
  {
    if xs != [] {
      var n := |xs| - 1;
      AddAllHas(acc, xs[..n], y);
      assert xs == xs[..n] + [xs[n]];
    }
  }

  /** `for _, material in parts: materials.add(material)`. */
  method AddParts(mats: seq<Material>, ps: seq<Part>) returns (r: seq<Material>)
    ensures r == AddAll(mats, PartMats(ps))
  {
    r := mats;
    var i := 0;
    while i < |ps|
      invariant 0 <= i <= |ps|
      invariant r == AddAll(mats, PartMats(ps[..i]))
    {
      r := Add(r, ps[i].material);
      assert ps[..i + 1][..i] == ps[..i];
      AddAllSnoc(mats, PartMats(ps[..i]), ps[i].material);
      i := i + 1;
    }
    assert ps[..i] == ps;
  }

  /** The collection step of `specifyID` for one section: its `SectionEntry` (a missing
      supercell partner is added as `None`), then its rod and region materials. */
  method CollectSection(s: Section, secs: seq<Section?>, mats: seq<Material>)
    returns (secs': seq<Section?>, mats': seq<Material>)
    ensures secs' == AddAll(secs, SectionEntry(s))
    ensures mats' == AddAll(mats, SectionMats(s))
  {
    secs' := secs;
    if s.eqMethod == "supercell" {
      secs' := Add(secs', s.scSection);
      assert [s.scSection] + [s] == [s.scSection, s];
      AddAllSnoc(secs, [s.scSection], s);
    }
    secs' := Add(secs', s);
    var withRods := AddParts(mats, s.rod);
    mats' := AddParts(withRods, s.region);
    AddAllAppend(mats, PartMats(s.rod), PartMats(s.region));
  }

  /** The collection step of `specifyID` for one stack of sections. */
  method CollectSections(ss: seq<Section>, secs: seq<Section?>, mats: seq<Material>)
    returns (secs': seq<Section?>, mats': seq<Material>)
    ensures secs' == AddAll(secs, SecList(ss))
    ensures mats' == AddAll(mats, MatList(ss))
  {
    secs', mats' := secs, mats;
    var j := 0;
    while j < |ss|
      invariant 0 <= j <= |ss|
      invariant secs' == AddAll(secs, SecList(ss[..j]))
      invariant mats' == AddAll(mats, MatList(ss[..j]))
    {
      secs', mats' := CollectNextSection(ss, j, secs, mats, secs', mats');
      j := j + 1;
    }
    assert ss[..j] == ss;
  }

  method CollectNextSection(ss: seq<Section>, j: nat, secs: seq<Section?>, mats: seq<Material>,
                            secsSoFar: seq<Section?>, matsSoFar: seq<Material>)
    returns (secs': seq<Section?>, mats': seq<Material>)
    requires j < |ss|
    requires secsSoFar == AddAll(secs, SecList(ss[..j])) && matsSoFar == AddAll(mats, MatList(ss[..j]))
    ensures secs' == AddAll(secs, SecList(ss[..j + 1])) && mats' == AddAll(mats, MatList(ss[..j + 1]))
  {
    SectionStep(ss, j, secs, mats);
    secs', mats' := CollectSection(ss[j], secsSoFar, matsSoFar);
    assert SectionEntry(ss[j]) == old(SectionEntry(ss[j])) && SectionMats(ss[j]) == old(SectionMats(ss[j]));
    assert SecList(ss[..j + 1]) == old(SecList(ss[..j + 1]));
    assert MatList(ss[..j + 1]) == old(MatList(ss[..j + 1]));
  }

  lemma SectionStep(ss: seq<Section>, j: nat, secs: seq<Section?>, mats: seq<Material>)
    requires j < |ss|
    ensures AddAll(secs, SecList(ss[..j + 1])) == AddAll(AddAll(secs, SecList(ss[..j])), SectionEntry(ss[j]))
    ensures AddAll(mats, MatList(ss[..j + 1])) ==
      AddAll(AddAll(mats, MatList(ss[..j])), SectionMats(ss[j]))
  {
    assert ss[..j + 1][..j] == ss[..j];
    assert SecList(ss[..j + 1]) == SecList(ss[..j]) + SectionEntry(ss[j]);
    assert MatList(ss[..j + 1]) == MatList(ss[..j]) + SectionMats(ss[j]);
    AddAllAppend(secs, SecList(ss[..j]), SectionEntry(ss[j]));
    AddAllAppend(mats, MatList(ss[..j]), SectionMats(ss[j]));
  }

  /** The collection step of `specifyID` for one ring: each assembly, then its stack. */
  method CollectRing(ring: seq<Assembly>, asms: seq<Assembly>, secs: seq<Section?>, mats: seq<Material>)
    returns (asms': seq<Assembly>, secs': seq<Section?>, mats': seq<Material>)
    ensures asms' == AddAll(asms, ring)
    ensures secs' == AddAll(secs, SecList(Stack(ring)))
    ensures mats' == AddAll(mats, MatList(Stack(ring)))
  {
    asms', secs', mats' := asms, secs, mats;
    var k := 0;
    while k < |ring|
      invariant 0 <= k <= |ring|
      invariant asms' == AddAll(asms, ring[..k])
      invariant secs' == AddAll(secs, SecList(Stack(ring[..k])))
      invariant mats' == AddAll(mats, MatList(Stack(ring[..k])))
    {
      asms', secs', mats' := CollectNextAssembly(ring, k, asms, secs, mats, asms', secs', mats');
      k := k + 1;
    }
    assert ring[..k] == ring;
  }

  method CollectNextAssembly(ring: seq<Assembly>, k: nat, asms: seq<Assembly>, secs: seq<Section?>,
                             mats: seq<Material>, asmsSoFar: seq<Assembly>, secsSoFar: seq<Section?>,
                             matsSoFar: seq<Material>)
    returns (asms': seq<Assembly>, secs': seq<Section?>, mats': seq<Material>)
    requires k < |ring|
    requires asmsSoFar == AddAll(asms, ring[..k])
    requires secsSoFar == AddAll(secs, SecList(Stack(ring[..k])))
    requires matsSoFar == AddAll(mats, MatList(Stack(ring[..k])))
    ensures asms' == AddAll(asms, ring[..k + 1])
    ensures secs' == AddAll(secs, SecList(Stack(ring[..k + 1])))
    ensures mats' == AddAll(mats, MatList(Stack(ring[..k + 1])))
  {
    StackStep(ring, k, asms, secs, mats);
    asms' := Add(asmsSoFar, ring[k]);
    secs', mats' := CollectSections(ring[k].sections, secsSoFar, matsSoFar);
    assert SecList(ring[k].sections) == old(SecList(ring[k].sections));
    assert Stack(ring[..k + 1]) == old(Stack(ring[..k + 1]));
    assert SecList(Stack(ring[..k + 1])) == old(SecList(Stack(ring[..k + 1])));
  }

  /** One more assembly of a ring: its stack, its sections' entries and its materials follow
      those of the assemblies before it. */
  lemma StackStep(ring: seq<Assembly>, k: nat, asms: seq<Assembly>, secs: seq<Section?>, mats: seq<Material>)
    requires k < |ring|
    ensures AddAll(asms, ring[..k + 1]) == Add(AddAll(asms, ring[..k]), ring[k])
    ensures AddAll(secs, SecList(Stack(ring[..k + 1]))) ==
      AddAll(AddAll(secs, SecList(Stack(ring[..k]))), SecList(ring[k].sections))
    ensures AddAll(mats, MatList(Stack(ring[..k + 1]))) ==
      AddAll(AddAll(mats, MatList(Stack(ring[..k]))), MatList(ring[k].sections))
  {
    assert ring[..k + 1] == ring[..k] + [ring[k]];
    AddAllSnoc(asms, ring[..k], ring[k]);
    assert ring[..k + 1][..k] == ring[..k];
    assert Stack(ring[..k + 1]) == Stack(ring[..k]) + ring[k].sections;
    SecListAppend(Stack(ring[..k]), ring[k].sections);
    MatListAppend(Stack(ring[..k]), ring[k].sections);
    AddAllAppend(secs, SecList(Stack(ring[..k])), SecList(ring[k].sections));
    AddAllAppend(mats, MatList(Stack(ring[..k])), MatList(ring[k].sections));
  }

  /** The sections `specifyID` collects, in visiting order: each placed section with its
      supercell partner, and finally the coolant. */
  ghost function SecCandidates(lattice: seq<seq<Assembly>>, coolant: Section): seq<Section?>
    reads Members(lattice)`sections, Stack(Members(lattice))`scSection
  {
    SecList(Stack(Members(lattice))) + [coolant]
  }

  /** The materials `specifyID` collects: those of the placed sections (not of their supercell
      partners), then those of the coolant's regions (not of its rods). */
  ghost function MatCandidates(lattice: seq<seq<Assembly>>, coolant: Section): seq<Material>
    reads Members(lattice)`sections, Stack(Members(lattice))`rod, Stack(Members(lattice))`region, coolant`region
  {
    MatList(Stack(Members(lattice))) + PartMats(coolant.region)
  }

  /** The traversal of `specifyID`: the sets of assemblies, sections and materials, each held in
      insertion order. */
  method CollectCore(lattice: seq<seq<Assembly>>, coolant: Section, ghost secCands: seq<Section?>,
                     ghost matCands: seq<Material>)
    returns (asms: seq<Assembly>, secs: seq<Section?>, mats: seq<Material>)
    requires secCands == SecCandidates(lattice, coolant) && matCands == MatCandidates(lattice, coolant)
    ensures asms == AddAll([], Members(lattice))
    ensures secs == AddAll([], secCands) && mats == AddAll([], matCands)
  {
    var placedSecs, placedMats;
    asms, placedSecs, placedMats := CollectLattice(lattice);
    assert Stack(Members(lattice)) == old(Stack(Members(lattice)));
    assert SecList(Stack(Members(lattice))) == old(SecList(Stack(Members(lattice))));
    assert MatList(Stack(Members(lattice))) == old(MatList(Stack(Members(lattice))));
    CoolantStep(lattice, coolant, placedSecs, placedMats);
    secs := Add(placedSecs, coolant);
    mats := AddParts(placedMats, coolant.region);
  }

  lemma CoolantStep(lattice: seq<seq<Assembly>>, coolant: Section, secs: seq<Section?>, mats: seq<Material>)
    requires secs == AddAll([], SecList(Stack(Members(lattice))))
    requires mats == AddAll([], MatList(Stack(Members(lattice))))
    ensures Add(secs, coolant) == AddAll([], SecCandidates(lattice, coolant))
    ensures AddAll(mats, PartMats(coolant.region)) == AddAll([], MatCandidates(lattice, coolant))
  {
    AddAllSnoc([], SecList(Stack(Members(lattice))), coolant);
    AddAllAppend([], MatList(Stack(Members(lattice))), PartMats(coolant.region));
  }

  /** The placed assemblies, ring by ring. */
  method CollectLattice(lattice: seq<seq<Assembly>>)
    returns (asms: seq<Assembly>, secs: seq<Section?>, mats: seq<Material>)
    ensures asms == AddAll([], Members(lattice))
    ensures secs == AddAll([], SecList(Stack(Members(lattice))))
    ensures mats == AddAll([], MatList(Stack(Members(lattice))))
  {
    asms, secs, mats := [], [], [];
    var r := 0;
    while r < |lattice|
      invariant 0 <= r <= |lattice|
      invariant asms == AddAll([], Members(lattice[..r]))
      invariant secs == AddAll([], SecList(Stack(Members(lattice[..r]))))
      invariant mats == AddAll([], MatList(Stack(Members(lattice[..r]))))
    {
      asms, secs, mats := CollectNextRing(lattice, r, asms, secs, mats);
      r := r + 1;
    }
    assert lattice[..r] == lattice;
  }

  method CollectNextRing(lattice: seq<seq<Assembly>>, r: nat, asms: seq<Assembly>, secs: seq<Section?>,
                         mats: seq<Material>)
    returns (asms': seq<Assembly>, secs': seq<Section?>, mats': seq<Material>)
    requires r < |lattice|
    requires asms == AddAll([], Members(lattice[..r]))
    requires secs == AddAll([], SecList(Stack(Members(lattice[..r]))))
    requires mats == AddAll([], MatList(Stack(Members(lattice[..r]))))
    ensures asms' == AddAll([], Members(lattice[..r + 1]))
    ensures secs' == AddAll([], SecList(Stack(Members(lattice[..r + 1]))))
    ensures mats' == AddAll([], MatList(Stack(Members(lattice[..r + 1]))))
  {
    RingStep(lattice, r);
    asms', secs', mats' := CollectRing(lattice[r], asms, secs, mats);
    assert Stack(lattice[r]) == old(Stack(lattice[r]));
    assert Stack(Members(lattice[..r + 1])) == old(Stack(Members(lattice[..r + 1])));
    assert SecList(Stack(lattice[r])) == old(SecList(Stack(lattice[r])));
    assert SecList(Stack(Members(lattice[..r + 1]))) == old(SecList(Stack(Members(lattice[..r + 1]))));
  }

  /** One more ring: its assemblies, their sections and materials follow those before it. */
  lemma RingStep(lattice: seq<seq<Assembly>>, r: nat)
    requires r < |lattice|
    ensures AddAll([], Members(lattice[..r + 1])) == AddAll(AddAll([], Members(lattice[..r])), lattice[r])
    ensures AddAll([], SecList(Stack(Members(lattice[..r + 1])))) ==
      AddAll(AddAll([], SecList(Stack(Members(lattice[..r])))), SecList(Stack(lattice[r])))
    ensures AddAll([], MatList(Stack(Members(lattice[..r + 1])))) ==
      AddAll(AddAll([], MatList(Stack(Members(lattice[..r])))), MatList(Stack(lattice[r])))
  {
    var done := Members(lattice[..r]);
    assert lattice[..r + 1][..r] == lattice[..r];
    assert Members(lattice[..r + 1]) == done + lattice[r];
    AddAllAppend([], done, lattice[r]);
    StackAppend(done, lattice[r]);
    SecListAppend(Stack(done), Stack(lattice[r]));
    MatListAppend(Stack(done), Stack(lattice[r]));
    AddAllAppend([], SecList(Stack(done)), SecList(Stack(lattice[r])));
    AddAllAppend([], MatList(Stack(done)), MatList(Stack(lattice[r])));
  }

  /** The collected sections once none of them is `None`. */
  function NonNull(xs: seq<Section?>): (ys: seq<Section>)
    requires null !in xs
    ensures |ys| == |xs| && forall i :: 0 <= i < |xs| ==> ys[i] == xs[i]
  {
    if xs == [] then [] else [xs[0]] + NonNull(xs[1..])
  }

  // ---------------------------------------------------------------- sorting by name

  lemma StrLeOrder()
    ensures TotalPreorder(StrLe)
  {
    forall a, b ensures StrLe(a, b) || StrLe(b, a) {
      StrLeTotal(a, b);
    }
    forall a, b, c | StrLe(a, b) && StrLe(b, c) ensures StrLe(a, c) {
      StrLeTransitive(a, b, c);
    }
  }

  function KeyedBy<T>(xs: seq<T>, key: T -> string): (ps: seq<(string, T)>)
    ensures |ps| == |xs| && forall i :: 0 <= i < |xs| ==> ps[i] == (key(xs[i]), xs[i])
  {
    if xs == [] then [] else [(key(xs[0]), xs[0])] + KeyedBy(xs[1..], key)
  }

  /** `sorted(xs, key=key)` for a string key; `SortByNameCorrect` states what it promises. */
  function SortByName<T(==)>(xs: seq<T>, key: T -> string): seq<T>
  {
    Items(SortByKey(KeyedBy(xs, key), StrLe))
  }

  /** The elements of `xs` whose key compares equal to `s`, in their order in `xs`. */
  function WithName<T>(xs: seq<T>, key: T -> string, s: string): (ws: seq<T>)
    ensures |ws| <= |xs|
  {
    if xs == [] then []
    else (if Equiv(key(xs[0]), s, StrLe) then [xs[0]] else []) + WithName(xs[1..], key, s)
  }

  /** On a sequence keyed by `key`, the key class of `s` is `WithName` of its items. */
  lemma {:induction false} EqKeyName<T>(ps: seq<(string, T)>, key: T -> string, s: string)
    requires forall i :: 0 <= i < |ps| ==> ps[i].0 == key(ps[i].1)
    ensures Items(EqKey(ps, s, StrLe)) == WithName(Items(ps), key, s)
  {
    if ps != [] {
      EqKeyName(ps[1..], key, s);
      var head := if Equiv(ps[0].0, s, StrLe) then [ps[0]] else [];
      assert EqKey(ps, s, StrLe) == head + EqKey(ps[1..], s, StrLe);
      assert Items(ps)[1..] == Items(ps[1..]);
      assert Items(head + EqKey(ps[1..], s, StrLe)) == Items(head) + Items(EqKey(ps[1..], s, StrLe));
    }
  }

  /** Sorting by name keeps the elements and puts their keys in ascending order. */
  lemma SortByNameCorrect<T>(xs: seq<T>, key: T -> string)
    ensures multiset(SortByName(xs, key)) == multiset(xs)
    ensures forall i, j :: 0 <= i < j < |SortByName(xs, key)| ==>
      StrLe(key(SortByName(xs, key)[i]), key(SortByName(xs, key)[j]))
  {
    var keyed := KeyedBy(xs, key);
    var sorted := SortByKey(keyed, StrLe);
    StrLeOrder();
    SortCorrect(keyed, StrLe);
    SortItemsPerm(keyed, StrLe);
    assert Items(keyed) == xs;
    forall i | 0 <= i < |sorted| ensures sorted[i].0 == key(sorted[i].1) {
      assert sorted[i] in multiset(keyed);
    }
  }

  /** Elements whose keys are equal keep their input order. */
  lemma SortByNameStable<T>(xs: seq<T>, key: T -> string)
    ensures forall s :: WithName(SortByName(xs, key), key, s) == WithName(xs, key, s)
  {
    var keyed := KeyedBy(xs, key);
    var sorted := SortByKey(keyed, StrLe);
    StrLeOrder();
    SortPerm(keyed, StrLe);
    forall i | 0 <= i < |sorted| ensures sorted[i].0 == key(sorted[i].1) {
      assert sorted[i] in multiset(keyed);
    }
    assert Items(keyed) == xs;
    forall s ensures WithName(SortByName(xs, key), key, s) == WithName(xs, key, s) {
      SortStable(keyed, s, StrLe);
      EqKeyName(sorted, key, s);
      EqKeyName(keyed, key, s);
    }
  }

  /** A permutation of a sequence without repetitions has none either. */
  lemma DistinctPermutation<T>(xs: seq<T>, ys: seq<T>)
    requires Distinct(xs) && multiset(xs) == multiset(ys)
    ensures Distinct(ys)
  {
    DistinctCount(xs);
    CountDistinct(ys);
  }


  /** A permutation holds the same elements, position by position. */
  lemma PermutationHas<T>(xs: seq<T>, ys: seq<T>)
    requires multiset(xs) == multiset(ys)
    ensures forall i :: 0 <= i < |ys| ==> ys[i] in xs
    ensures forall j :: 0 <= j < |xs| ==> xs[j] in ys
  {
    forall i | 0 <= i < |ys| ensures ys[i] in xs {
      assert ys[i] in multiset(ys);
    }
    forall j | 0 <= j < |xs| ensures xs[j] in ys {
      assert xs[j] in multiset(xs);
    }
  }

  // ---------------------------------------------------------------- numbering

  method NumberAssemblies(xs: seq<Assembly>, ghost cands: seq<Assembly>)
    requires Distinct(xs) && forall i :: 0 <= i < |xs| ==> xs[i] in cands
    modifies cands`id
    ensures forall i :: 0 <= i < |xs| ==> xs[i].id == i + 1
  {
    var i := 0;
    while i < |xs|
      invariant 0 <= i <= |xs|
      invariant forall j :: 0 <= j < i ==> xs[j].id == j + 1
    {
      xs[i].id := i + 1;
      i := i + 1;
    }
  }

  method NumberSections(xs: seq<Section>, ghost cands: seq<Section?>)
    requires Distinct(xs) && forall i :: 0 <= i < |xs| ==> xs[i] in cands
    modifies cands`id
    ensures forall i :: 0 <= i < |xs| ==> xs[i].id == i + 1
  {
    var i := 0;
    while i < |xs|
      invariant 0 <= i <= |xs|
      invariant forall j :: 0 <= j < i ==> xs[j].id == j + 1
    {
      xs[i].id := i + 1;
      i := i + 1;
    }
  }

  method NumberMaterials(xs: seq<Material>, ghost cands: seq<Material>)
    requires Distinct(xs) && forall i :: 0 <= i < |xs| ==> xs[i] in cands
    modifies cands`id
    ensures forall i :: 0 <= i < |xs| ==> xs[i].id == i + 1
  {
    var i := 0;
    while i < |xs|
      invariant 0 <= i <= |xs|
      invariant forall j :: 0 <= j < i ==> xs[j].id == j + 1
    {
      xs[i].id := i + 1;
      i := i + 1;
    }
  }

  /** The key `specifyID` sorts sections by: the equivalence method, a space, the name. */
  function SectionKey(s: Section): string
  {
    s.eqMethod + " " + s.name
  }

  function Location(a: Assembly): string
  {
    a.location
  }

  function MaterialName(m: Material): string
  {
    m.name
  }

  /** `xs` holds each of `cands` once, in ascending order of location. */
  ghost predicate SortedAssemblies(xs: seq<Assembly>, cands: seq<Assembly>)
  {
    && Distinct(xs) && (forall i :: 0 <= i < |xs| ==> xs[i] in cands)
    && (forall j :: 0 <= j < |cands| ==> cands[j] in xs)
    && forall i, j :: 0 <= i < j < |xs| ==> StrLe(xs[i].location, xs[j].location)
  }

  /** `xs` holds each of `cands` once, in ascending order of `SectionKey`. */
  ghost predicate SortedSections(xs: seq<Section>, cands: seq<Section?>)
  {
    && Distinct(xs) && (forall i :: 0 <= i < |xs| ==> xs[i] in cands)
    && (forall j :: 0 <= j < |cands| ==> cands[j] in xs)
    && forall i, j :: 0 <= i < j < |xs| ==> StrLe(SectionKey(xs[i]), SectionKey(xs[j]))
  }

  /** `xs` holds each of `cands` once, in ascending order of name. */
  ghost predicate SortedMaterials(xs: seq<Material>, cands: seq<Material>)
  {
    && Distinct(xs) && (forall i :: 0 <= i < |xs| ==> xs[i] in cands)
    && (forall j :: 0 <= j < |cands| ==> cands[j] in xs)
    && forall i, j :: 0 <= i < j < |xs| ==> StrLe(xs[i].name, xs[j].name)
  }

  /** `sorted(assemblies, key=location)` on the collected set holds each placed assembly once, in
      order. */
  lemma SortAssembliesCorrect(collected: seq<Assembly>, cands: seq<Assembly>)
    requires collected == AddAll([], cands)
    ensures SortedAssemblies(SortByName(collected, Location), cands)
  {
    var ys := SortByName(collected, Location);
    Collected(collected, cands);
    SortByNameCorrect(collected, Location);
    DistinctPermutation(collected, ys);
    PermutationHas(collected, ys);
    forall i, j | 0 <= i < j < |ys| ensures StrLe(ys[i].location, ys[j].location) {
      assert StrLe(Location(ys[i]), Location(ys[j]));
    }
  }


  /** `sorted(sections, key=eqMethod + ' ' + name)` on the collected set holds each candidate once,
      in order, when no candidate is `None`. */
  lemma SortSectionsCorrect(collected: seq<Section?>, cands: seq<Section?>)
    requires collected == AddAll([], cands) && null !in collected
    ensures SortedSections(SortByName(NonNull(collected), SectionKey), cands)
  {
    var placed := NonNull(collected);
    var ys := SortByName(placed, SectionKey);
    Collected(collected, cands);
    NonNullCollected(collected, cands);
    SortByNameCorrect(placed, SectionKey);
    DistinctPermutation(placed, ys);
    PermutationHas(placed, ys);
    forall i | 0 <= i < |ys| ensures ys[i] in cands {
      var k :| 0 <= k < |placed| && placed[k] == ys[i];
      assert placed[k] in cands;
    }
    forall j | 0 <= j < |cands| ensures cands[j] in ys {
      var k :| 0 <= k < |placed| && placed[k] == cands[j];
      assert placed[k] in ys;
    }
  }


  /** `sorted(materials, key=name)` on the collected set holds each candidate once, in order. */
  lemma SortMaterialsCorrect(collected: seq<Material>, cands: seq<Material>)
    requires collected == AddAll([], cands)
    ensures SortedMaterials(SortByName(collected, MaterialName), cands)
  {
    var ys := SortByName(collected, MaterialName);
    Collected(collected, cands);
    SortByNameCorrect(collected, MaterialName);
    DistinctPermutation(collected, ys);
    PermutationHas(collected, ys);
    forall i, j | 0 <= i < j < |ys| ensures StrLe(ys[i].name, ys[j].name) {
      assert StrLe(MaterialName(ys[i]), MaterialName(ys[j]));
    }
  }


  /** No assembly placed in the lattice and no section or material among these has had its id
      changed. */
  twostate predicate IdsKept(lattice: seq<seq<Assembly>>, secs: seq<Section?>, mats: seq<Material>)
    reads set r, k | 0 <= r < |lattice| && 0 <= k < |lattice[r]| :: lattice[r][k]
    reads secs`id, mats`id
  {
    && (forall r, k :: 0 <= r < |lattice| && 0 <= k < |lattice[r]| ==> lattice[r][k].id == old(lattice[r][k].id))
    && (forall s :: s in secs && s != null ==> s.id == old(s.id))
    && (forall m :: m in mats ==> m.id == old(m.id))
  }

  /** The work of `specifyID` on the lattice and the coolant: collect, then sort and number, or
      raise when a `None` is among the sections. */
  method SpecifyCore(lattice: seq<seq<Assembly>>, coolant: Section, ghost secCands: seq<Section?>,
                     ghost matCands: seq<Material>)
    returns (st: Status, asms: seq<Assembly>, secs: seq<Section>, mats: seq<Material>)
    requires secCands == SecCandidates(lattice, coolant) && matCands == MatCandidates(lattice, coolant)
    modifies Members(lattice)`id, secCands`id, matCands`id
    ensures st == Done || st == Raised(AttributeError)
    ensures st.Raised? <==> null in secCands
    ensures st.Raised? ==> IdsKept(lattice, secCands, matCands)
    ensures st.Done? ==> NumberedLists(asms, secs, mats, Members(lattice), secCands, matCands)
  {
    var collectedAsms, collectedSecs, collectedMats := CollectCore(lattice, coolant, secCands, matCands);
    AddAllHas([], secCands, null);
    if null in collectedSecs {
      return Raised(AttributeError), [], [], [];
    }
    asms, secs, mats :=
      NumberCollected(collectedAsms, collectedSecs, collectedMats, Members(lattice), secCands, matCands);
    st := Done;
  }

  /** The assemblies, sections and materials `specifyID` keeps, given the candidates it drew
      them from: each list holds every candidate once, sorted by its key, and numbers it
      1, 2, ... in that order. */
  ghost predicate NumberedLists(asms: seq<Assembly>, secs: seq<Section>, mats: seq<Material>,
                                asmCands: seq<Assembly>, secCands: seq<Section?>, matCands: seq<Material>)
    reads asms`id, secs`id, mats`id
  {
    && SortedAssemblies(asms, asmCands) && SortedSections(secs, secCands) && SortedMaterials(mats, matCands)
    && (forall i :: 0 <= i < |asms| ==> asms[i].id == i + 1)
    && (forall i :: 0 <= i < |secs| ==> secs[i].id == i + 1)
    && (forall i :: 0 <= i < |mats| ==> mats[i].id == i + 1)
  }

  /** The sorting and numbering of `specifyID`, once the collected sections hold no `None`. */
  method NumberCollected(collectedAsms: seq<Assembly>, collectedSecs: seq<Section?>, collectedMats: seq<Material>,
                         ghost asmCands: seq<Assembly>, ghost secCands: seq<Section?>, ghost matCands: seq<Material>)
    returns (asms: seq<Assembly>, secs: seq<Section>, mats: seq<Material>)
    requires collectedAsms == AddAll([], asmCands)
    requires collectedSecs == AddAll([], secCands) && null !in collectedSecs
    requires collectedMats == AddAll([], matCands)
    modifies asmCands`id, secCands`id, matCands`id
    ensures NumberedLists(asms, secs, mats, asmCands, secCands, matCands)
  {
    asms := NumberAssemblyList(collectedAsms, asmCands);
    secs := NumberSectionList(collectedSecs, secCands);
    mats := NumberMaterialList(collectedMats, matCands);
  }

  /** `sorted(assemblies, key=location)`, then each numbered by its place. */
  method NumberAssemblyList(collected: seq<Assembly>, ghost cands: seq<Assembly>) returns (asms: seq<Assembly>)
    requires collected == AddAll([], cands)
    modifies cands`id
    ensures SortedAssemblies(asms, cands) && forall i :: 0 <= i < |asms| ==> asms[i].id == i + 1
  {
    asms := SortByName(collected, Location);
    SortAssembliesCorrect(collected, cands);
    NumberAssemblies(asms, cands);
  }

  /** `sorted(sections, key=eqMethod + ' ' + name)`, then each numbered by its place. */
  method NumberSectionList(collected: seq<Section?>, ghost cands: seq<Section?>) returns (secs: seq<Section>)
    requires collected == AddAll([], cands) && null !in collected
    modifies cands`id
    ensures SortedSections(secs, cands) && forall i :: 0 <= i < |secs| ==> secs[i].id == i + 1
  {
    secs := SortByName(NonNull(collected), SectionKey);
    SortSectionsCorrect(collected, cands);
    NumberSections(secs, cands);
  }

  /** `sorted(materials, key=name)`, then each numbered by its place. */
  method NumberMaterialList(collected: seq<Material>, ghost cands: seq<Material>) returns (mats: seq<Material>)
    requires collected == AddAll([], cands)
    modifies cands`id
    ensures SortedMaterials(mats, cands) && forall i :: 0 <= i < |mats| ==> mats[i].id == i + 1
  {
    mats := SortByName(collected, MaterialName);
    SortMaterialsCorrect(collected, cands);
    NumberMaterials(mats, cands);
  }

  /** What a set filled by `AddAll` holds: each candidate, once. */
  lemma Collected<T>(collected: seq<T>, cands: seq<T>)
    requires collected == AddAll([], cands)
    ensures Distinct(collected) && (forall i :: 0 <= i < |collected| ==> collected[i] in cands)
    ensures forall j :: 0 <= j < |cands| ==> cands[j] in collected
  {
    AddAllDistinct([], cands);
    forall i | 0 <= i < |collected| ensures collected[i] in cands {
      AddAllHas([], cands, collected[i]);
    }
    forall j | 0 <= j < |cands| ensures cands[j] in collected {
      AddAllHas([], cands, cands[j]);
    }
  }

  /** The collected sections, once none of them is `None`, still hold each candidate once. */
  lemma NonNullCollected(xs: seq<Section?>, cands: seq<Section?>)
    requires null !in xs && Distinct(xs)
    requires (forall i :: 0 <= i < |xs| ==> xs[i] in cands) && forall j :: 0 <= j < |cands| ==> cands[j] in xs
    ensures Distinct(NonNull(xs)) && (forall i :: 0 <= i < |NonNull(xs)| ==> NonNull(xs)[i] in cands)
    ensures forall j :: 0 <= j < |cands| ==> cands[j] in NonNull(xs)
  {
    var ys := NonNull(xs);
    assert forall i :: 0 <= i < |ys| ==> ys[i] == xs[i];
    forall j | 0 <= j < |cands| ensures cands[j] in ys {
      var i :| 0 <= i < |xs| && xs[i] == cands[j];
      assert ys[i] == cands[j];
    }
  }

  /** A section's entries and materials are among those of any sequence holding it. */
  lemma {:induction false} ListsHave(ss: seq<Section>, i: nat)
    requires i < |ss|
    ensures forall y :: y in SectionEntry(ss[i]) ==> y in SecList(ss)
    ensures forall m :: m in SectionMats(ss[i]) ==> m in MatList(ss)
  {
    var n := |ss| - 1;
    if i < n {
      ListsHave(ss[..n], i);
    }
  }

  /** Every entry and material of a sequence of sections comes from one of its sections. */
  lemma {:induction false} ListsFrom(ss: seq<Section>)
    ensures forall y :: y in SecList(ss) ==> exists i :: 0 <= i < |ss| && y in SectionEntry(ss[i])
    ensures forall m :: m in MatList(ss) ==> exists i :: 0 <= i < |ss| && m in SectionMats(ss[i])
  {
    if ss != [] {
      var n := |ss| - 1;
      ListsFrom(ss[..n]);
      forall y | y in SecList(ss) ensures exists i :: 0 <= i < |ss| && y in SectionEntry(ss[i]) {
        if y in SecList(ss[..n]) {
          var i :| 0 <= i < n && y in SectionEntry(ss[..n][i]);
          assert ss[..n][i] == ss[i];
        } else {
          assert y in SectionEntry(ss[n]);
        }
      }
      forall m | m in MatList(ss) ensures exists i :: 0 <= i < |ss| && m in SectionMats(ss[i]) {
        if m in MatList(ss[..n]) {
          var i :| 0 <= i < n && m in SectionMats(ss[..n][i]);
          assert ss[..n][i] == ss[i];
        } else {
          assert m in SectionMats(ss[n]);
        }
      }
    }
  }

  /** Entries and materials only grow with the sections they are drawn from. */
  lemma ListsSubset(ss: seq<Section>, ts: seq<Section>)
    requires forall s :: s in ss ==> s in ts
    ensures forall y :: y in SecList(ss) ==> y in SecList(ts)
    ensures forall m :: m in MatList(ss) ==> m in MatList(ts)
  {
    ListsFrom(ss);
    forall y | y in SecList(ss) ensures y in SecList(ts) {
      var i :| 0 <= i < |ss| && y in SectionEntry(ss[i]);
      assert ss[i] in ss;
      var j :| 0 <= j < |ts| && ts[j] == ss[i];
      ListsHave(ts, j);
    }
    forall m | m in MatList(ss) ensures m in MatList(ts) {
      var i :| 0 <= i < |ss| && m in SectionMats(ss[i]);
      assert ss[i] in ss;
      var j :| 0 <= j < |ts| && ts[j] == ss[i];
      ListsHave(ts, j);
    }
  }

  /** Two stacks holding the same sections yield the same entries and materials. */
  lemma StacksAgree(now: seq<Section>, before: seq<Section>, secTail: seq<Section?>, matTail: seq<Material>)
    requires forall s :: s in now <==> s in before
    ensures SameMembers(SecList(now) + secTail, SecList(before) + secTail, MatList(now) + matTail, MatList(before) + matTail)
  {
    ListsSubset(now, before);
    ListsSubset(before, now);
    SameCandidates(SecList(now) + secTail, SecList(before) + secTail, MatList(now) + matTail, MatList(before) + matTail);
  }

  /** Sorting each placed stack in place leaves the sections of the lattice where they were. */
  twostate lemma SortedLatticeHas(lattice: seq<seq<Assembly>>)
    requires forall r, k :: 0 <= r < |lattice| && 0 <= k < |lattice[r]| ==>
      lattice[r][k].sections == SortByLower(old(lattice[r][k].sections))
    ensures forall s :: s in Stack(Members(lattice)) <==> s in old(Stack(Members(lattice)))
  {
    var xs := Members(lattice);
    MembersExactly(lattice);
    forall i | 0 <= i < |xs| ensures xs[i].sections == SortByLower(old(xs[i].sections)) {
      assert xs[i] in xs;
      var r, k :| 0 <= r < |lattice| && 0 <= k < |lattice[r]| && lattice[r][k] == xs[i];
    }
    SortedStackHas(xs);
  }

  /** Sorting each stack in place leaves the sections of the lattice where they were. */
  twostate lemma {:induction false} SortedStackHas(xs: seq<Assembly>)
    requires forall i :: 0 <= i < |xs| ==> xs[i].sections == SortByLower(old(xs[i].sections))
    ensures forall s :: s in Stack(xs) <==> s in old(Stack(xs))
  {
    if xs != [] {
      var n := |xs| - 1;
      SortedStackHas(xs[..n]);
      SortByLowerCorrect(old(xs[n].sections));
      forall s ensures s in Stack(xs) <==> s in old(Stack(xs)) {
        assert s in xs[n].sections <==> s in multiset(xs[n].sections);
        assert s in old(xs[n].sections) <==> s in multiset(old(xs[n].sections));
      }
    }
  }

  /** Two candidate lists with the same members, for sections and for materials. */
  ghost predicate SameMembers(secs: seq<Section?>, secs': seq<Section?>, mats: seq<Material>, mats': seq<Material>)
  {
    && (forall j :: 0 <= j < |secs| ==> secs[j] in secs') && (forall j :: 0 <= j < |secs'| ==> secs'[j] in secs)
    && (forall j :: 0 <= j < |mats| ==> mats[j] in mats') && (forall j :: 0 <= j < |mats'| ==> mats'[j] in mats)
  }

  /** The candidates of the sorted stacks are those of the stacks as given. */
  lemma SameCandidates(secs: seq<Section?>, secs': seq<Section?>, mats: seq<Material>, mats': seq<Material>)
    requires forall y :: y in secs <==> y in secs'
    requires forall m :: m in mats <==> m in mats'
    ensures SameMembers(secs, secs', mats, mats')
  {
  }

  /** Sorted against a list of candidates is sorted against any list with the same members. */
  lemma NumberedAgainst(secs: seq<Section>, mats: seq<Material>, secCands: seq<Section?>, secCands': seq<Section?>,
                        matCands: seq<Material>, matCands': seq<Material>)
    requires SameMembers(secCands, secCands', matCands, matCands')
    requires SortedSections(secs, secCands) && SortedMaterials(mats, matCands)
    ensures SortedSections(secs, secCands') && SortedMaterials(mats, matCands')
  {
  }

  // ---------------------------------------------------------------- the lattice check

  /** Rings of the right size: one assembly in ring 0, `6r` in ring `r`, and `ring` rings. */
  predicate Shaped(ring: int, lattice: seq<seq<Assembly>>)
  {
    ring == |lattice| && forall r :: 0 <= r < |lattice| ==> |lattice[r]| == RingSize(r)
  }

  /** What the lattice check knows of an assembly `x` before it starts: `orig` holds its stack,
      `sorted` that stack sorted by lower bound (sorting that again changes nothing), and
      `contig` whether the sorted stack is contiguous. */
  ghost predicate Prepared(x: Assembly, orig: map<Assembly, seq<Section>>, sorted: map<Assembly, seq<Section>>,
                           contig: map<Assembly, bool>)
    reads (if x in orig then orig[x] else [])`bounds, (if x in sorted then sorted[x] else [])`bounds
  {
    x in orig && x in sorted && x in contig &&
    sorted[x] == SortByLower(orig[x]) && SortByLower(sorted[x]) == sorted[x] &&
    contig[x] == Contiguous(sorted[x])
  }

  /** `assembly.check()` for each placed assembly in turn, ring by ring. An assembly placed
      twice is checked twice; its second check finds the stack already sorted. */
  method CheckAll(xs: seq<Assembly>, ghost orig: map<Assembly, seq<Section>>,
                  ghost sorted: map<Assembly, seq<Section>>, ghost contig: map<Assembly, bool>)
    returns (ok: bool)
    requires forall j :: 0 <= j < |xs| ==> xs[j] in orig && xs[j] in sorted && xs[j] in contig
    requires forall j {:trigger Prepared(xs[j], orig, sorted, contig)} :: 0 <= j < |xs| ==> Prepared(xs[j], orig, sorted, contig)
    requires forall j :: 0 <= j < |xs| ==> xs[j].sections == orig[xs[j]] || xs[j].sections == sorted[xs[j]]
    modifies xs`sections
    ensures forall x :: x in xs ==> x.sections == sorted[x]
    ensures ok <==> forall x :: x in xs ==> contig[x]
  {
    ok := true;
    ghost var done: set<Assembly> := {};
    var k := 0;
    while k < |xs|
      invariant 0 <= k <= |xs|
      invariant forall j :: 0 <= j < |xs| ==> xs[j].sections == orig[xs[j]] || xs[j].sections == sorted[xs[j]]
      invariant forall j :: 0 <= j < k ==> xs[j] in done
      invariant forall x :: x in done ==> x in sorted && x.sections == sorted[x]
      invariant ok <==> forall j :: 0 <= j < k ==> contig[xs[j]]
    {
      var a := xs[k];
      assert Prepared(a, orig, sorted, contig) == old(Prepared(a, orig, sorted, contig));
      var okA := CheckOne(a, orig[a], sorted[a], contig[a]);
      ok := ok && okA;
      done := done + {a};
      k := k + 1;
    }
    assert forall x :: x in xs ==> exists j :: 0 <= j < |xs| && xs[j] == x;
  }

  /** The stacks, sorted stacks and contiguity of the given assemblies before the check. */
  lemma PrepareCheck(xs: seq<Assembly>)
    returns (orig: map<Assembly, seq<Section>>, sorted: map<Assembly, seq<Section>>, contig: map<Assembly, bool>)
    ensures forall j :: 0 <= j < |xs| ==> xs[j] in orig && xs[j] in sorted && xs[j] in contig
    ensures forall j {:trigger Prepared(xs[j], orig, sorted, contig)} :: 0 <= j < |xs| ==> Prepared(xs[j], orig, sorted, contig)
    ensures forall x :: x in xs ==> x in orig && orig[x] == x.sections
  {
    orig := map a | a in xs :: a.sections;
    sorted := map a | a in xs :: SortByLower(a.sections);
    contig := map a | a in xs :: Contiguous(SortByLower(a.sections));
    forall j | 0 <= j < |xs| ensures Prepared(xs[j], orig, sorted, contig) {
      SortByLowerTwice(xs[j].sections);
    }
  }

  /** The shape part of `check()`: `ring` rings, of one and then `6r` assemblies. */
  method RingsShaped(ring: int, lattice: seq<seq<Assembly>>) returns (ok: bool)
    ensures ok <==> Shaped(ring, lattice)
  {
    ok := ring == |lattice|;
    var r := 0;
    while r < |lattice|
      invariant 0 <= r <= |lattice|
      invariant ok <==> ring == |lattice| && forall r' :: 0 <= r' < r ==> |lattice[r']| == RingSize(r')
    {
      if |lattice[r]| != RingSize(r) {
        ok := false;
      }
      r := r + 1;
    }
  }

  /** The check `complete` insists on: the shape of the lattice, and every stack contiguous. */
  ghost predicate CheckPasses(ring: int, lattice: seq<seq<Assembly>>)
    reads Members(lattice)`sections, Stack(Members(lattice))`bounds
  {
    LatticeStacks(lattice);
    Shaped(ring, lattice) &&
    forall r, k :: 0 <= r < |lattice| && 0 <= k < |lattice[r]| ==>
      Contiguous(lattice[r][k].sections)
  }

  /** The work of `check()` on the lattice of a core with `ring` rings. */
  method CheckLattice(ring: int, lattice: seq<seq<Assembly>>) returns (ok: bool)
    modifies Members(lattice)`sections
    ensures forall r, k :: 0 <= r < |lattice| && 0 <= k < |lattice[r]| ==>
      lattice[r][k].sections == SortByLower(old(lattice[r][k].sections))
    ensures ok <==> CheckPasses(ring, lattice)
  {
    var members := Members(lattice);
    ghost var orig, sorted, contig := PrepareCheck(members);
    ok := RingsShaped(ring, lattice);
    var stacksOk := CheckAll(members, orig, sorted, contig);
    ok := ok && stacksOk;
    forall x | x in members
      ensures x.sections == old(SortByLower(x.sections)) && contig[x] == Contiguous(x.sections)
    {
      assert old(Prepared(x, orig, sorted, contig));
    }
    LatticeStacks(lattice);
    MembersExactly(lattice);
  }

  /** The work of `complete()` on the lattice and the coolant: the check, then `specifyID`. */
  method CompleteLattice(ring: int, lattice: seq<seq<Assembly>>, coolant: Section,
                         ghost secCands: seq<Section?>, ghost matCands: seq<Material>)
    returns (st: Status, asms: seq<Assembly>, secs: seq<Section>, mats: seq<Material>)
    requires secCands == SecCandidates(lattice, coolant) && matCands == MatCandidates(lattice, coolant)
    modifies Members(lattice)`sections, Members(lattice)`id, secCands`id, matCands`id
    ensures forall r, k :: 0 <= r < |lattice| && 0 <= k < |lattice[r]| ==>
      lattice[r][k].sections == SortByLower(old(lattice[r][k].sections))
    ensures st == Raised(ValueError) <==> !CheckPasses(ring, lattice)
    ensures CheckPasses(ring, lattice) ==> (st == Done <==> null !in secCands)
    ensures st == Done || st == Raised(ValueError) || st == Raised(AttributeError)
    ensures st == Done ==> NumberedLists(asms, secs, mats, Members(lattice), secCands, matCands)
    ensures st != Done ==> IdsKept(lattice, secCands, matCands)
  {
    var ok := CheckAndKeep(ring, lattice, coolant, secCands, matCands);
    if !ok {
      return Raised(ValueError), [], [], [];
    }
    st, asms, secs, mats := SpecifySorted(lattice, coolant, secCands, matCands);
  }

  /** The check of `complete()`, which sorts every stack in place; the sorted stacks still hold
      the sections and materials that `specifyID` would have collected before. */
  method CheckAndKeep(ring: int, lattice: seq<seq<Assembly>>, coolant: Section,
                      ghost secCands: seq<Section?>, ghost matCands: seq<Material>) returns (ok: bool)
    requires secCands == SecCandidates(lattice, coolant) && matCands == MatCandidates(lattice, coolant)
    modifies Members(lattice)`sections
    ensures forall r, k :: 0 <= r < |lattice| && 0 <= k < |lattice[r]| ==>
      lattice[r][k].sections == SortByLower(old(lattice[r][k].sections))
    ensures ok <==> CheckPasses(ring, lattice)
    ensures SameMembers(SecCandidates(lattice, coolant), secCands, MatCandidates(lattice, coolant), matCands)
  {
    ghost var stack := Stack(Members(lattice));
    assert secCands == SecList(stack) + [coolant] && matCands == MatList(stack) + PartMats(coolant.region);
    ok := CheckLattice(ring, lattice);
    assert SecList(stack) == old(SecList(stack)) && MatList(stack) == old(MatList(stack));
    assert coolant.region == old(coolant.region);
    assert forall s :: s in Stack(Members(lattice)) <==> s in stack by {
      SortedLatticeHas(lattice);
    }
    StacksAgree(Stack(Members(lattice)), stack, [coolant], PartMats(coolant.region));
  }

  /** `specifyID` on stacks that hold the same sections and materials as `secCands` and
      `matCands`, in another order. */
  method SpecifySorted(lattice: seq<seq<Assembly>>, coolant: Section, ghost secCands: seq<Section?>,
                       ghost matCands: seq<Material>)
    returns (st: Status, asms: seq<Assembly>, secs: seq<Section>, mats: seq<Material>)
    requires SameMembers(SecCandidates(lattice, coolant), secCands, MatCandidates(lattice, coolant), matCands)
    modifies Members(lattice)`id, secCands`id, matCands`id
    ensures st == Done || st == Raised(AttributeError)
    ensures st.Raised? <==> null in secCands
    ensures st.Done? ==> NumberedLists(asms, secs, mats, Members(lattice), secCands, matCands)
    ensures st.Raised? ==> IdsKept(lattice, secCands, matCands)
  {
    ghost var secNow, matNow := SecCandidates(lattice, coolant), MatCandidates(lattice, coolant);
    st, asms, secs, mats := SpecifyCore(lattice, coolant, secNow, matNow);
    if st == Done {
      NumberedAgainst(secs, mats, secNow, secCands, matNow, matCands);
    } else {
      forall x | x in secCands && x != null ensures x.id == old(x.id) {
        assert x in secNow;
      }
      forall m | m in matCands ensures m.id == old(m.id) {
        assert m in matNow;
      }
    }
  }

  /** `assembly.check()` on an assembly whose stack is either `orig` or already `sorted`. */
  method CheckOne(a: Assembly, ghost orig: seq<Section>, ghost sorted: seq<Section>, ghost contig: bool)
    returns (ok: bool)
    requires sorted == SortByLower(orig) && SortByLower(sorted) == sorted && contig == Contiguous(sorted)
    requires a.sections == orig || a.sections == sorted
    modifies a`sections
    ensures a.sections == sorted && (ok <==> contig)
  {
    ok := a.Check();
    assert Contiguous(sorted) == old(Contiguous(sorted));
  }

  /** The first half of `meshing`: the distinct bounds of the sections in ascending order, and
      the mesh clustered from them; the mesh is empty exactly when there are no sections. */
  method AxialHeights(ss: seq<Section>, tol: real) returns (hs: seq<real>, mesh: seq<real>)
    ensures StrictlyIncreasing(hs) && HeightsOf(hs, ss)
    ensures mesh == Mesh(hs, tol) && StrictlyIncreasing(mesh)
    ensures |mesh| == 0 <==> |ss| == 0
    ensures forall i :: 0 <= i < |mesh| ==> hs[0] <= mesh[i] <= hs[|hs| - 1]
  {
    hs := SortedBounds(ss);
    mesh := MeshOf(hs, tol);
  }

  /** The clustering half of `meshing` over ascending distinct heights. */
  method MeshOf(hs: seq<real>, tol: real) returns (mesh: seq<real>)
    requires StrictlyIncreasing(hs)
    ensures mesh == Mesh(hs, tol) && StrictlyIncreasing(mesh)
    ensures |mesh| == 0 <==> |hs| == 0
    ensures forall i :: 0 <= i < |mesh| ==> hs[0] <= mesh[i] <= hs[|hs| - 1]
  {
    mesh := ClusterMeans(hs, tol);
    MeshIncreasing(hs, tol);
    MeshWithin(hs, tol);
  }

  /** The body of `meshing` over the core's sections and its coolant: the mesh is built from
      the bounds, the bounds are snapped onto it, and the coolant spans it. */
  method MeshSections(ss: seq<Section>, coolant: Section, tol: real)
    returns (res: Result<seq<real>>, hs: seq<real>, mesh: seq<real>)
    modifies ss`bounds, coolant`bounds
    ensures StrictlyIncreasing(hs) && old(HeightsOf(hs, ss))
    ensures mesh == Mesh(hs, tol) && StrictlyIncreasing(mesh)
    ensures res.Err? <==> |ss| == 0
    ensures res.Err? ==> res == Err(ValueError) && mesh == [] && coolant.bounds == old(coolant.bounds)
    ensures res.Ok? ==>
      res.value == mesh && |mesh| > 0 &&
      coolant.bounds == (mesh[0], mesh[|mesh| - 1]) &&
      forall i :: 0 <= i < |mesh| ==> hs[0] <= mesh[i] <= hs[|hs| - 1]
    ensures forall t :: 0 <= t < |ss| && ss[t] != coolant ==>
      ss[t].bounds == SnapPair(old(ss[t].bounds), mesh, tol)
  {
    hs, mesh := AxialHeights(ss, tol);
    Snap(ss, mesh, tol);
    if |mesh| == 0 {
      return Err(ValueError), hs, mesh;
    }
    AscendingMinMax(mesh);
    coolant.bounds := (SeqMin(mesh), SeqMax(mesh));
    res := Ok(mesh);
  }

  /** The `hex_conf` loop of `toLAVENDER` over a lattice whose first `n` rings have their
      hexagonal sizes: one row per `range(2n - 1)`, each the ids of the slots its walk visits. */
  method HexConf(n: int, lattice: seq<seq<Assembly>>) returns (rows: seq<seq<int>>)
    requires n <= |lattice| && forall r :: 0 <= r < n ==> |lattice[r]| == RingSize(r)
    ensures |rows| == RowCount(n)
    ensures forall l :: 0 <= l < |rows| ==> |rows[l]| == RowLength(n, l)
    ensures forall l, c :: InRow(n, l, c) ==>
      IsSlot(n, RowSlot(n, l, c).0, RowSlot(n, l, c).1) &&
      rows[l][c] == lattice[RowSlot(n, l, c).0][RowSlot(n, l, c).1].id
  {
    rows := [];
    var l := 0;
    while l < 2 * n - 1
      invariant 0 <= l && (n >= 1 ==> l <= 2 * n - 1) && (n < 1 ==> l == 0)
      invariant |rows| == l
      invariant forall l' :: 0 <= l' < l ==> |rows[l']| == RowLength(n, l')
      invariant forall l', c :: 0 <= l' < l && InRow(n, l', c) ==>
        IsSlot(n, RowSlot(n, l', c).0, RowSlot(n, l', c).1) &&
        rows[l'][c] == lattice[RowSlot(n, l', c).0][RowSlot(n, l', c).1].id
    {
      var row := HexRow(n, l, lattice);
      rows := rows + [row];
      l := l + 1;
    }
  }

  /** One `hex_conf` row: the ids of the assemblies at the slots the walk of row `l` visits. */
  method HexRow(n: int, l: int, lattice: seq<seq<Assembly>>) returns (ids: seq<int>)
    requires n >= 1 && 0 <= l < 2 * n - 1
    requires n <= |lattice| && forall r :: 0 <= r < n ==> |lattice[r]| == RingSize(r)
    ensures |ids| == RowLength(n, l)
    ensures forall c :: 0 <= c < |ids| ==>
      InRow(n, l, c) && IsSlot(n, RowSlot(n, l, c).0, RowSlot(n, l, c).1) &&
      ids[c] == lattice[RowSlot(n, l, c).0][RowSlot(n, l, c).1].id
  {
    var walk := RowWalk(n, l);
    ids := [];
    var c := 0;
    while c < |walk|
      invariant 0 <= c <= |walk| && |ids| == c
      invariant forall c' :: 0 <= c' < c ==>
        InRow(n, l, c') && IsSlot(n, RowSlot(n, l, c').0, RowSlot(n, l, c').1) &&
        ids[c'] == lattice[RowSlot(n, l, c').0][RowSlot(n, l, c').1].id
    {
      RowSlotIsSlot(n, l, c);
      var (r, k) := walk[c];
      ids := ids + [lattice[r][k].id];
      c := c + 1;
    }
  }

  class Core {
    const name: string
    const ring: int
    const pitch: real
    const coolant: Section
    var lattice: seq<seq<Assembly>>
    var meshgrid: seq<real>
    var completed: bool
    var assemblies: seq<Assembly>
    var sections: seq<Section>
    var materials: seq<Material>

    /** Once completed, the first `ring` rings have their hexagonal sizes; rings are only ever
        appended afterwards. */
    ghost predicate Valid()
      reads this`completed, this`lattice
    {
      completed ==> 0 <= ring <= |lattice| && forall r :: 0 <= r < ring ==> |lattice[r]| == RingSize(r)
    }

    /** A core with an empty lattice and no mesh; nothing is numbered yet. */
    constructor (name: string, ring: int, pitch: real, coolant: Section)
      ensures this.name == name && this.ring == ring && this.pitch == pitch && this.coolant == coolant
      ensures lattice == [] && meshgrid == [] && !completed
      ensures assemblies == [] && sections == [] && materials == []
      ensures Valid()
    {
      this.name := name;
      this.ring := ring;
      this.pitch := pitch;
      this.coolant := coolant;
      lattice := [];
      meshgrid := [];
      completed := false;
      assemblies := [];
      sections := [];
      materials := [];
    }

    /** `addRing(ring)`: a non-assembly entry fails the assertion and nothing is added;
        otherwise the ring is appended as the next ring of the lattice. */
    method AddRing(newRing: seq<Assembly?>) returns (st: Status)
      requires Valid()
      modifies this`lattice
      ensures Valid()
      ensures (exists k :: 0 <= k < |newRing| && newRing[k] == null) ==>
        st == Raised(AssertionError) && lattice == old(lattice)
      ensures (forall k :: 0 <= k < |newRing| ==> newRing[k] != null) ==>
        st == Done && |lattice| == |old(lattice)| + 1 && lattice[..|old(lattice)|] == old(lattice) &&
        |lattice[|old(lattice)|]| == |newRing| &&
        forall k :: 0 <= k < |newRing| ==> lattice[|old(lattice)|][k] == newRing[k]
    {
      var checked: seq<Assembly> := [];
      var k := 0;
      while k < |newRing|
        invariant 0 <= k <= |newRing| && |checked| == k
        invariant forall j :: 0 <= j < k ==> newRing[j] == checked[j]
      {
        var a := newRing[k];
        if a == null {
          return Raised(AssertionError);
        }
        checked := checked + [a];
        k := k + 1;
      }
      lattice := lattice + [checked];
      st := Done;
    }

    /** `check()`: every assembly sorts its stack; the check passes when the lattice has `ring`
        rings of the hexagonal sizes and every stack is contiguous. */
    method Check() returns (ok: bool)
      modifies Members(lattice)`sections
      ensures forall r, k :: 0 <= r < |lattice| && 0 <= k < |lattice[r]| ==>
        lattice[r][k].sections == SortByLower(old(lattice[r][k].sections))
      ensures ok <==> Passed()
    {
      ok := CheckLattice(ring, lattice);
    }

    /** What `specifyID` leaves behind, given the sections and materials it collected: the placed
        assemblies, the sections and the materials, each held once, sorted by its key and
        numbered 1, 2, ... in that order. */
    ghost predicate Numbered(secCands: seq<Section?>, matCands: seq<Material>)
      reads this, assemblies`id, sections`id, materials`id
    {
      NumberedLists(assemblies, sections, materials, Members(lattice), secCands, matCands)
    }

    /** `specifyID()`: numbers everything the core holds (see `Numbered`). A supercell section
        without a partner puts `None` among the sections, and sorting them raises before any id
        is written. */
    method SpecifyID(ghost secCands: seq<Section?>, ghost matCands: seq<Material>) returns (st: Status)
      requires secCands == SecCandidates(lattice, coolant) && matCands == MatCandidates(lattice, coolant)
      modifies this`assemblies, this`sections, this`materials, Members(lattice)`id, secCands`id, matCands`id
      ensures st == Done || st == Raised(AttributeError)
      ensures st.Raised? <==> null in secCands
      ensures st.Raised? ==>
        assemblies == old(assemblies) && sections == old(sections) && materials == old(materials) &&
        IdsKept(lattice, secCands, matCands)
      ensures st.Done? ==> Numbered(secCands, matCands)
    {
      var asms, secs, mats;
      st, asms, secs, mats := SpecifyCore(lattice, coolant, secCands, matCands);
      if st == Done {
        assemblies, sections, materials := asms, secs, mats;
      }
    }

    /** `complete()`: the check (which sorts every stack) must pass, or `ValueError`; then
        `specifyID`, whose error propagates; only then is the core marked completed. */
    method Complete() returns (st: Status)
      requires Valid()
      modifies this`completed, this`assemblies, this`sections, this`materials
      modifies Members(lattice)`sections, Members(lattice)`id
      modifies SecCandidates(lattice, coolant)`id, MatCandidates(lattice, coolant)`id
      ensures Valid()
      ensures forall r, k :: 0 <= r < |lattice| && 0 <= k < |lattice[r]| ==>
        lattice[r][k].sections == SortByLower(old(lattice[r][k].sections))
      ensures st == Raised(ValueError) <==> !Passed()
      ensures Passed() ==> (st == Done <==> null !in old(SecCandidates(lattice, coolant)))
      ensures st == Done || st == Raised(ValueError) || st == Raised(AttributeError)
      ensures st == Done ==>
        completed && Numbered(old(SecCandidates(lattice, coolant)), old(MatCandidates(lattice, coolant)))
      ensures st != Done ==>
        completed == old(completed) &&
        assemblies == old(assemblies) && sections == old(sections) && materials == old(materials) &&
        IdsKept(lattice, old(SecCandidates(lattice, coolant)), old(MatCandidates(lattice, coolant)))
    {
      ghost var secCands, matCands := SecCandidates(lattice, coolant), MatCandidates(lattice, coolant);
      var asms, secs, mats;
      st, asms, secs, mats := CompleteLattice(ring, lattice, coolant, secCands, matCands);
      if st == Done {
        Adopt(asms, secs, mats, secCands, matCands);
      }
    }

    /** The end of a successful `complete()`: the numbered lists are kept and the core is marked
        completed; the lattice, its stacks and their check are as they were. */
    method Adopt(asms: seq<Assembly>, secs: seq<Section>, mats: seq<Material>,
                 ghost secCands: seq<Section?>, ghost matCands: seq<Material>)
      requires NumberedLists(asms, secs, mats, Members(lattice), secCands, matCands)
      requires CheckPasses(ring, lattice)
      modifies this`assemblies, this`sections, this`materials, this`completed
      ensures assemblies == asms && sections == secs && materials == mats && completed
      ensures Valid() && Passed() && Numbered(secCands, matCands)
      ensures forall r, k :: 0 <= r < |lattice| && 0 <= k < |lattice[r]| ==>
        lattice[r][k].sections == old(lattice[r][k].sections)
    {
      assemblies, sections, materials := asms, secs, mats;
      completed := true;
    }

    /** The check that `complete` insists on, on the current stacks. */
    ghost predicate Passed()
      reads this`lattice, Members(lattice)`sections, Stack(Members(lattice))`bounds
    {
      CheckPasses(ring, lattice)
    }

    /** `meshing(tolerance)`: the distinct bounds of the core's sections, ascending, are
        clustered into the mesh; every section bound close to a mesh height is moved onto it, the
        mesh is kept, and the coolant spans it from its least to its greatest height. Without
        sections the mesh is empty and taking its minimum raises `ValueError`. */
    method Meshing(tol: real) returns (res: Result<seq<real>>, hs: seq<real>)
      modifies this`meshgrid, sections`bounds, coolant`bounds
      ensures StrictlyIncreasing(hs) && old(HeightsOf(hs, sections))
      ensures meshgrid == Mesh(hs, tol) && StrictlyIncreasing(meshgrid)
      ensures res.Err? <==> |sections| == 0
      ensures res.Err? ==> res == Err(ValueError) && meshgrid == [] && coolant.bounds == old(coolant.bounds)
      ensures res.Ok? ==>
        res.value == meshgrid && |meshgrid| > 0 &&
        coolant.bounds == (meshgrid[0], meshgrid[|meshgrid| - 1]) &&
        forall i :: 0 <= i < |meshgrid| ==> hs[0] <= meshgrid[i] <= hs[|hs| - 1]
      ensures forall t :: 0 <= t < |sections| && sections[t] != coolant ==>
        sections[t].bounds == SnapPair(old(sections[t].bounds), meshgrid, tol)
    {
      var mesh;
      res, hs, mesh := MeshSections(sections, coolant, tol);
      meshgrid := mesh;
    }

    /** The `geom_kind` entry of `toTULIP`: an incomplete core raises `RuntimeError`; otherwise
        the codes of its sections, compressed into groups. */
    method TulipGeomKind() returns (res: Result<string>)
      ensures !completed ==> res == Err(RuntimeError)
      ensures completed ==> res == GeomKind(sections)
    {
      if !completed {
        return Err(RuntimeError);
      }
      res := WriteGeomKind(sections);
    }

    /** The lattice-dependent parts of `toLAVENDER`: an incomplete core raises `RuntimeError`;
        otherwise the `layer` line of its mesh and the `hex_conf` rows, each row the ids of the
        assemblies in the order the row walk visits their slots. */
    method LavenderGeometry() returns (res: Result<(string, seq<seq<int>>)>)
      requires Valid()
      ensures !completed ==> res == Err(RuntimeError)
      ensures completed ==> res.Ok? && res.value.0 == LayerLine(meshgrid)
      ensures completed ==> var rows := res.value.1;
        |rows| == RowCount(ring) &&
        (forall l :: 0 <= l < |rows| ==> |rows[l]| == RowLength(ring, l)) &&
        forall l, c :: InRow(ring, l, c) ==>
          IsSlot(ring, RowSlot(ring, l, c).0, RowSlot(ring, l, c).1) &&
          rows[l][c] == lattice[RowSlot(ring, l, c).0][RowSlot(ring, l, c).1].id
    {
      if !completed {
        return Err(RuntimeError);
      }
      var layer := WriteLayerLine(meshgrid);
      var rows := HexConf(ring, lattice);
      res := Ok((layer, rows));
    }
  }
}
