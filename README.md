# pySARAX core, modelled in Dafny

pySARAX builds a model of a hexagonal fast-reactor core and writes the input decks of the SARAX
codes from it. The deck formats are TULIP (cross sections) and LAVENDER (transport). The model
is built from four kinds of object:

- a `Core`: a ring-by-ring hexagonal lattice of assemblies, plus a coolant section;
- an `Assembly`: an axial stack of sections;
- a `Section`: rod and region parts, each a size and a material;
- a `Material`.

This project models the part of pySARAX that checks such a model, numbers it and lays it out
axially and radially:

- `Core.check` and `Core.complete`;
- the axial mesh `Core.meshing`, with the snapping of section bounds;
- the numbering `Core.specifyID`;
- the `geom_kind` run-length line of the TULIP deck;
- the `layer` line and the `hex_conf` row traversal of the LAVENDER deck;
- the completion guards of both deck writers;
- the sector/seat arithmetic of `rk2xy`;
- the assembly operations `addSection`, `setRefPlane`, `copy`, `toLAVENDER` (its `FA_type`
  line) and `check`;
- the section operations: construction, the three append methods, `check`, `copy` and the
  `toTULIP` guards;
- the stand-alone `cormesh` script, which densifies the axial layers of a written LAVENDER deck.

Python objects are Dafny classes; object identity is reference identity. A Python exception is a
`PyError` kind in a `Status` (`Done` / `Raised(e)`) or a `Result<T>` (`Ok` / `Err(e)`). An
argument that may have the wrong dynamic type is a `Typed<T>` (`Typed(v)` / `WrongType`), and an
object argument that may be of another class is a nullable reference. Heights are exact `real`s.
`round(x, 4)` and `{:.4f}` are modelled as round-half-even on the exact value, in `Format.dfy`.

Modules:

| module | contents |
|---|---|
| `Base` | errors, results, sums and means |
| `Text` | words, joins, padding, integer and decimal text |
| `Format` | four-decimal rounding and text |
| `RunLength` | count/value runs and their `n*v` tokens |
| `Sorting` | a stable insertion sort by key |
| `SectionDef` | `Material`, `Section` |
| `AssemblyDef` | `Assembly`, placement, the `FA_type` cells |
| `AxialMesh` | height clustering and snapping |
| `HexLattice` | ring/row geometry, `rk2xy` |
| `CoreDecks` | `geom_kind`, `layer` line |
| `CoreDef` | `Core` |
| `CorMesh` | the densifier |
| `FaTypeLink` | the `FA_type` line written by `toLAVENDER`, read back by the densifier |

Where the code and the behaviour its documentation describes part ways, the model follows the code:

- A mesh cell that no section covers, and that is neither below nor above the whole stack, gets
  no id. It is left out of the `FA_type` line; it does not raise.
- The densifier does not merge adjacent equal runs after widening them.
- Snapping bounds to the mesh is not idempotent: one bound can be moved twice, and farther than
  the tolerance (`AxialMesh.SnapCanMoveFurtherThanTolerance`).
- `print_list` writes the last run of equal heights without its count, and the densifier writes
  its `layer` line that way (see Findings).
- `setRefPlane` places the stack around a negative reference index as given, comparing it with
  non-negative positions (see Findings).
- The densifier rounds each sub-layer to four decimals after splitting, so a sub-layer can be
  taller than a limit that has more than four decimals (see Findings).

## Model

| member | source | states |
|---|---|---|
| SectionDef.Material.constructor | material.py:9-18 | a new material has the given name and the unassigned id -1 |
| SectionDef.ShapeOf | section.py:66-76 | a non-string shape is a TypeError; otherwise, after lower-casing, rod shapes select the rod list, region shapes the region list, anything else is a ValueError |
| SectionDef.ShapeIsCaseInsensitive | section.py:68-74 | "ROD" selects the rod list and "Hex" the region list; "square" is rejected |
| SectionDef.Section.constructor | section.py:9-36 | the fields take the arguments (defaults ring 0, pitch 0, no height, method "homo"); id is -1, bounds (0, 0), no parts, no supercell partner |
| SectionDef.Section.Append | section.py:38-76 | a non-material raises TypeError and changes nothing; otherwise the part is appended to exactly the list the shape selects, and a bad shape raises and changes nothing |
| SectionDef.Section.AppendRod | section.py:78-84 | appends to the rod list only, or raises TypeError for a non-material |
| SectionDef.Section.AppendRegion | section.py:86-92 | appends to the region list only, or raises TypeError for a non-material |
| SectionDef.Section.Check | section.py:94-104 | passes exactly when the ring number equals the number of rod parts |
| SectionDef.Section.TulipGuard | section.py:114-118 | `toTULIP` may proceed exactly when the id is assigned and (ring set or no rods); otherwise RuntimeError |
| SectionDef.Section.Copy | section.py:164-207 | `@ORIGIN` is replaced by the section's name; an unchanged name raises ValueError; the copy is fresh, has id -1, method "homo" and no partner, and keeps ring, pitch, bounds and height; a shallow copy has new lists holding the same parts, a deep copy has parts with equal sizes and fresh, equally named materials |
| SectionDef.DeepCopyParts | section.py:201-203 | each copied part has the original's size and a fresh material with the original material's name |
| AssemblyDef.Assembly.constructor | assembly.py:8-30 | a new assembly has the given type and location, id -1 and no sections |
| AssemblyDef.Assembly.AddSection | assembly.py:32-57 | a non-section or bounds that are neither omitted nor a tuple raise TypeError and change nothing; otherwise tuple bounds overwrite the section's bounds and the section goes on top of the stack |
| AssemblyDef.Assembly.SetRefPlane | assembly.py:59-101 | out-of-range index: IndexError; a section with no height: RuntimeError; a reference naming no section of a non-empty stack: NameError; errors change no bounds; otherwise every section gets the placed bounds of its last position, counted from the reference index as given, a negative one included |
| AssemblyDef.PySlice | assembly.py:94-101 | Python list slicing: in-range bounds give the ordinary slice, crossed bounds give the empty list |
| AssemblyDef.PlacementStacks | assembly.py:94-101 | with the reference inside the stack, each section's width is its height, consecutive sections touch, and the reference's lower bound is `-bias` |
| AssemblyDef.PlacementNegativeIndex | assembly.py:73-75 | as written, reference index -1 on two unit sections gives the first section zero width |
| AssemblyDef.PlacedBoundsFromEnd | assembly.py:94-101 | with a negative index counted from the top, every width is the height and the reference sits at `-bias` |
| AssemblyDef.LastBelow | assembly.py:94-101 | the last position of a section in the stack, or -1 when it is absent |
| AssemblyDef.RefIndexOf | assembly.py:73-80 | the reference position is the index itself, or the last position of the given section, or none |
| AssemblyDef.HeightsSet | assembly.py:83-88 | returns true exactly when every section of the stack has a height |
| AssemblyDef.Place | assembly.py:94-101 | after the loop each section holds the bounds of its last position |
| AssemblyDef.PlaceStack | assembly.py:94-101 | after placement the stack satisfies `PlacedStack` |
| AssemblyDef.Assembly.Copy | assembly.py:103-128 | a non-string type or location raises TypeError, and only then; `@ORIGEN` is replaced by the assembly's type; the copy is fresh, id -1, same location argument, a new list of the same sections |
| AssemblyDef.Views | assembly.py:144-169 | the bounds and id of each section, in stack order |
| AssemblyDef.FirstContaining | assembly.py:155-169 | the first section whose bounds contain the cell, and no earlier one does |
| AssemblyDef.CellId | assembly.py:147-183 | a cell has an id exactly when a section contains it or it lies below or above the whole stack; a containing section gives its id, otherwise the coolant's |
| AssemblyDef.ScanSections | assembly.py:144-169 | the scan finds the first containing section; without one, it reports whether the cell is below every section and above every section |
| AssemblyDef.NoneFound | assembly.py:147-169 | a scan that met no containing section means there is none |
| AssemblyDef.FirstFound | assembly.py:155-169 | the first containing section met by the scan is the first one in the stack |
| AssemblyDef.ScanSnoc | assembly.py:149-152 | "below all" and "above all" grow one section at a time |
| AssemblyDef.UnderIsCoolant | assembly.py:171-183 | a cell below the whole stack gets the coolant id |
| AssemblyDef.PushSection | assembly.py:155-169 | a section id extends the last run or opens a new one |
| AssemblyDef.PushCoolant | assembly.py:171-183 | the coolant id extends the last run or opens a new one |
| AssemblyDef.AddCell | assembly.py:144-183 | one cell adds its id, if any, to the runs |
| AssemblyDef.CellRunsStep | assembly.py:144-183 | the runs of n + 1 cells are the runs of n cells after one more cell step |
| AssemblyDef.CellIdsLength | assembly.py:144-183 | the id list has one entry per cell exactly when every cell is classified |
| AssemblyDef.LayerRuns | assembly.py:144-183 | the loop computes the run-length encoding of the cell ids |
| AssemblyDef.LayerStep | assembly.py:144-183 | one loop step extends the encoding by one cell |
| AssemblyDef.LayerRecordCorrect | assembly.py:144-186 | the written runs expand back to the cell ids, are canonical, and cover every cell exactly when no cell is a gap |
| AssemblyDef.Assembly.ToLavender | assembly.py:130-186 | the line is `FaLine` of the encoded cell ids of the mesh |
| AssemblyDef.RealLeTotal | assembly.py:192 | ordering by lower bound is a total preorder |
| AssemblyDef.KeyByLower | assembly.py:192 | each section is keyed by its lower bound |
| AssemblyDef.SortByLowerCorrect | assembly.py:192 | the sort is a permutation ordered by lower bound |
| AssemblyDef.SortByLowerStable | assembly.py:192 | sections with the same lower bound keep their stack order |
| AssemblyDef.SortByLowerTwice | assembly.py:192 | sorting a sorted stack changes nothing |
| AssemblyDef.Assembly.Check | assembly.py:188-205 | the stack is replaced by its sort by lower bound; passes exactly when each section starts where the previous one ends |
| AxialMesh.InsertDistinct | core.py:134-137 | adding a height to the sorted set keeps it strictly increasing, with exactly the old elements and the new one |
| AxialMesh.SortedBounds | core.py:133-138 | the sorted heights are strictly increasing, are exactly the bounds of all sections, and are empty only when there are no sections |
| AxialMesh.BoundSetSnoc | core.py:135-137 | one more section adds its two bounds to the set |
| AxialMesh.Gather | core.py:143-160 | a height joins the open cluster or opens a new one; the flattened clusters gain exactly that height |
| AxialMesh.Clusters | core.py:140-165 | the clusters are non-empty and flatten back to the heights |
| AxialMesh.ClustersShape | core.py:140-165 | on increasing heights the clusters are ascending, each spans at most the tolerance, and each next height is more than the tolerance above its cluster's start |
| AxialMesh.GatherKeepsShape | core.py:149-160 | one step keeps the cluster shape |
| AxialMesh.JoinKeepsShape | core.py:151-153 | a height close to both ends of the open cluster keeps the shape when it joins |
| AxialMesh.OpenKeepsShape | core.py:156-160 | a height far from the open cluster keeps the shape when it opens a new one |
| AxialMesh.Means | core.py:157-164 | one mean per cluster |
| AxialMesh.MeansAt | core.py:157-164 | mean i is the mean of cluster i |
| AxialMesh.MeansWithin | core.py:157-164 | each mean lies between its cluster's ends |
| AxialMesh.MeansIncreasing | core.py:167-169 | the means of a clustering are strictly increasing, so the later sort keeps their order |
| AxialMesh.Mesh | core.py:140-169 | no more mesh points than heights; empty only for no heights |
| AxialMesh.MeshIncreasing | core.py:167-169 | the mesh is strictly increasing |
| AxialMesh.MeshWithin | core.py:140-169 | every mesh point lies between the lowest and the highest height |
| AxialMesh.ScanClusters | core.py:143-165 | the single pass holds the means of the closed clusters and the open cluster |
| AxialMesh.ScanMesh | core.py:140-165 | flushing the pass's buffer gives the mesh |
| AxialMesh.ScanHeight | core.py:144-160 | one loop step is one step of the pass |
| AxialMesh.ClusterMeans | core.py:140-169 | the loop computes the mesh |
| AxialMesh.SnapStep | core.py:175-179 | a bound moves to the grid height exactly when it is a non-zero distance of at most the tolerance away |
| AxialMesh.SnapStepTwice | core.py:175-179 | snapping to the same grid height twice is snapping once |
| AxialMesh.SnapBoundOnMesh | core.py:171-181 | a snapped bound is unchanged or a mesh point |
| AxialMesh.SnapBoundUntouched | core.py:171-181 | a bound farther than the tolerance from every mesh point is not moved |
| AxialMesh.SnapCanMoveFurtherThanTolerance | core.py:171-181 | bound 0 with mesh 0.05, 0.2 and tolerance 0.15 ends at 0.2, more than the tolerance away |
| AxialMesh.SnapToHeight | core.py:173-181 | every section's two bounds are snapped to one grid height |
| AxialMesh.Snap | core.py:171-181 | every section's bounds are snapped to each mesh point in turn |
| HexLattice.CentreDistance | core.py:404 | the distance of row l from the centre row |
| HexLattice.RowSlotIsSlot | core.py:408-428 | every row position names a lattice slot of the core |
| HexLattice.SlotIsVisited | core.py:401-430 | every slot is visited by the traversal at its own position |
| HexLattice.RowSlotPosition | core.py:401-430 | the visited slot's position is the row position that visits it |
| HexLattice.VisitedExactlyOnce | core.py:401-430 | every slot of the core is visited exactly once |
| HexLattice.RowWalk | core.py:403-428 | the four loops of one row visit exactly the slots `RowSlot` names, in order |
| HexLattice.FloorDivMod | core.py:606-608 | Python floor division and modulo: quotient times divisor plus remainder, remainder taking the divisor's sign |
| HexLattice.SectorSeat | core.py:597-608 | non-integers raise TypeError; ring 0 is the centre, and only with k = 0; otherwise k = sector * r + seat with 0 <= seat < r, and sector < 6 for a slot of the ring |
| HexLattice.SectorBound | core.py:606 | a slot of ring r lies in one of six sectors |
| HexLattice.SectorSeatUnique | core.py:606-608 | the sector/seat pair is the unique such split of k |
| HexLattice.SectorSeatNonNegative | core.py:606-608 | for non-negative k the split is k / r and k % r |
| CoreDecks.GeomCode | core.py:261-268 | "homo", "1-D", "supercell" give codes 1, 2, 3; any other method is an error |
| CoreDecks.GeomCodes | core.py:259-268 | the codes fail exactly when some section has an unknown method, else one code per section |
| CoreDecks.GeomKindRuns | core.py:259-277 | the `geom_kind` words are the run tokens of the canonical run-length encoding of the codes, which expands back to them |
| CoreDecks.LastGroup | core.py:270-274 | the last character of a token is its code, and its count prefix parses back when it has a `*` |
| CoreDecks.CodeDigits | core.py:270 | two codes have the same digit exactly when they are equal |
| CoreDecks.SameCode | core.py:270 | comparing the last character of the last token with the new code is comparing the codes |
| CoreDecks.PushNew | core.py:275-276 | a different code appends a bare token |
| CoreDecks.PushGrowBare | core.py:271-272 | a repeated bare token becomes `2*c` |
| CoreDecks.PushGrowCount | core.py:273-274 | a repeated `n*c` token becomes `(n+1)*c` |
| CoreDecks.AddCode | core.py:269-276 | the string edits on the token list are exactly one step of the run-length encoding |
| CoreDecks.CodeOf | core.py:261-268 | the method's code and its one-digit text |
| CoreDecks.GeomCodesStep | core.py:259-268 | the codes of one more section |
| CoreDecks.WriteGeomKind | core.py:259-277 | the loop's result is `GeomKind`: the error for an unknown method, else the joined tokens |
| CoreDecks.Diffs | core.py:373 | the layer heights are the differences of consecutive mesh points |
| CoreDecks.DiffsTelescope | core.py:373 | the layer heights sum to the mesh's extent |
| CoreDecks.DiffsPositive | core.py:373 | on a strictly increasing mesh every layer height is positive |
| CoreDecks.FixedAll | core.py:373-374 | one four-decimal token per height |
| CoreDecks.FixedAllReads | core.py:374 | each token reads back as its height rounded to four decimals |
| CoreDecks.WriteLayerLine | core.py:368-376 | the loop writes `LayerLine` |
| CoreDecks.LayerLineReads | core.py:372-376 | the layer line has one token per layer, its words are those tokens, and each reads back as the rounded layer height |
| CoreDef.MembersExactly | core.py:196-200 | the assemblies met are exactly those at some (ring, position) of the lattice |
| CoreDef.LatticeStacks | core.py:196-207 | every section of every lattice assembly is met |
| CoreDef.AddAllDistinct | core.py:191-215 | adding to a set keeps its elements distinct |
| CoreDef.AddAllHas | core.py:191-215 | after adding, the set holds exactly the old elements and the added ones |
| CoreDef.AddParts | core.py:208-211 | adds every part's material to the set |
| CoreDef.CollectSection | core.py:202-211 | adds the section (and its supercell partner) and its materials |
| CoreDef.CollectSections | core.py:202-211 | adds every section of a stack, in order |
| CoreDef.CollectRing | core.py:197-211 | adds every assembly of a ring with its sections and materials |
| CoreDef.CollectLattice | core.py:196-211 | adds the whole lattice |
| CoreDef.CollectCore | core.py:191-215 | the three sets are the distinct assemblies, sections (with partners and the coolant) and materials (with the coolant's region) of the core |
| CoreDef.SortByNameCorrect | core.py:218-220 | the sort by name is a permutation ordered by name |
| CoreDef.SortByNameStable | core.py:218-220 | elements with equal names keep their input order |
| CoreDef.SortAssembliesCorrect | core.py:218 | the assemblies are sorted by location, distinct, and exactly those of the core |
| CoreDef.SortSectionsCorrect | core.py:219 | the sections are sorted by "method name", distinct, and exactly those of the core |
| CoreDef.SortMaterialsCorrect | core.py:220 | the materials are sorted by name, distinct, and exactly those of the core |
| CoreDef.NumberAssemblies | core.py:222-223 | the i-th assembly gets id i + 1 |
| CoreDef.NumberSections | core.py:224-225 | the i-th section gets id i + 1 |
| CoreDef.NumberMaterials | core.py:226-227 | the i-th material gets id i + 1 |
| CoreDef.NumberAssemblyList | core.py:218-223 | sorts the collected assemblies and numbers them 1, 2, … |
| CoreDef.NumberSectionList | core.py:219-225 | sorts the collected sections and numbers them 1, 2, … |
| CoreDef.NumberMaterialList | core.py:220-227 | sorts the collected materials and numbers them 1, 2, … |
| CoreDef.NumberCollected | core.py:217-227 | the three lists are sorted, distinct, complete and numbered from 1 |
| CoreDef.SpecifyCore | core.py:187-232 | a missing supercell partner raises AttributeError before any id is written; otherwise the three lists are sorted, complete and numbered |
| CoreDef.RingsShaped | core.py:97-109 | passes exactly when the core has its ring count of rings and ring r holds 1 (r = 0) or 6r assemblies |
| CoreDef.CheckOne | core.py:110-114 | one assembly's stack is sorted and its check result recorded |
| CoreDef.CheckAll | core.py:104-114 | every assembly's stack is sorted; passes exactly when every stack is contiguous |
| CoreDef.PrepareCheck | core.py:104-114 | the sorted stack and verdict of every assembly, fixed before the loop |
| CoreDef.CheckLattice | core.py:92-116 | every stack is sorted by lower bound; passes exactly when the lattice is shaped and every stack is contiguous |
| CoreDef.StacksAgree | core.py:196-215 | re-ordering a stack changes no set of collected sections or materials |
| CoreDef.NumberedAgainst | core.py:217-227 | lists sorted and complete for one set of candidates are so for any set with the same members |
| CoreDef.CheckAndKeep | core.py:86-89 | the check leaves the sections and materials to be numbered unchanged |
| CoreDef.SpecifySorted | core.py:89 | `specifyID` after the check numbers the same candidates, and on AttributeError writes no id |
| CoreDef.CompleteLattice | core.py:82-90 | a failed check raises ValueError; otherwise a missing partner raises AttributeError, else the lists are numbered; on either error no assembly, section or material id changes |
| CoreDef.AxialHeights | core.py:133-169 | the heights are the sorted distinct bounds and the mesh is their clustering |
| CoreDef.MeshOf | core.py:140-169 | the mesh is strictly increasing and within the heights' range |
| CoreDef.MeshSections | core.py:118-185 | heights and mesh as above; no sections raise ValueError and leave the coolant's bounds alone; otherwise the coolant spans the mesh and every other section's bounds are snapped |
| CoreDef.HexRow | core.py:403-430 | one `hex_conf` row holds the ids of the slots `RowSlot` names |
| CoreDef.HexConf | core.py:401-430 | 2n - 1 rows of the right lengths, each entry the id of the slot the traversal visits |
| CoreDef.Core.constructor | core.py:12-66 | the new core has the given name, ring count, pitch and coolant, no lattice, no mesh, and is not completed |
| CoreDef.Core.AddRing | core.py:68-80 | a ring with a non-assembly raises AssertionError and changes nothing; otherwise it is appended as the next ring |
| CoreDef.Core.Check | core.py:92-116 | every stack is sorted by lower bound; passes exactly when the lattice is shaped and every assembly passes |
| CoreDef.Core.SpecifyID | core.py:187-232 | a missing partner raises AttributeError and keeps the lists and every id; otherwise the sorted, complete, numbered lists are stored |
| CoreDef.Core.Complete | core.py:82-90 | a failed check raises ValueError; a missing partner raises AttributeError; on either error the lists, the ids and the completed flag are as they were (the stacks stay sorted); otherwise the core is numbered and completed |
| CoreDef.Core.Adopt | core.py:230-232 | stores the numbered lists and marks the core completed |
| CoreDef.Core.Meshing | core.py:118-185 | the mesh is the strictly increasing clustering of all distinct bounds and is stored; no sections raise ValueError after storing the empty mesh, with the coolant's bounds unchanged; otherwise the coolant spans the mesh; the other sections' bounds are snapped |
| CoreDef.Core.TulipGeomKind | core.py:238-278 | an incomplete core raises RuntimeError; otherwise the `geom_kind` line is `GeomKind` of the sections |
| CoreDef.Core.LavenderGeometry | core.py:299-430 | an incomplete core raises RuntimeError; otherwise the layer line is `LayerLine` of the mesh and `hex_conf` is the traversal of the lattice |
| CorMesh.SplitStarPair | cormesh.py:35 | `a*b` splits into its two parts |
| CorMesh.ReadGroups | cormesh.py:33-37 | one group per token, or the error |
| CorMesh.GroupTokenRoundTrip | cormesh.py:89-92 | a written group reads back as itself (a count of 1 or less reads as 1) |
| CorMesh.RunTokensReadBack | cormesh.py:33-37 | the run tokens `toLAVENDER` writes read back as one group per run: its count (one for a single cell) and its id |
| Text.ColumnsWords | cormesh.py:37 | splitting two left-justified columns, each wider than its text, and the joined tokens gives the two texts and the tokens |
| FaTypeLink.FaLineReadBack | assembly.py:139-186 | the `FA_type` line `toLAVENDER` writes is recognised by `cormesh`, and its words after the keyword and the id read back as one group per run of the record; the id must leave a blank in its column |
| CorMesh.ReadDeckStops | cormesh.py:26-38 | the first unreadable `FA_type` line ends the first pass |
| CorMesh.ReadDeckCountsFa | cormesh.py:32-38 | the first pass keeps one group list per `FA_type` line |
| CorMesh.ReadLines | cormesh.py:25-38 | the loop is the first pass |
| CorMesh.ReadHeights | cormesh.py:31 | one height per token, or the error of the first unreadable one |
| CorMesh.ReadHeightsFails | cormesh.py:31 | any unreadable token makes the heights fail |
| CorMesh.SplitCount | cormesh.py:49 | the factor of a layer above the limit is at least 2 |
| CorMesh.SplitCountLeast | cormesh.py:49 | the factor is the least count whose unrounded pieces `h / factor` fit under the limit |
| CorMesh.PiecesBound | cormesh.py:44-54 | a layer within the limit is kept as it is; each piece of a taller one is at most the limit rounded to four decimals |
| CorMesh.DenseBound | cormesh.py:40-54 | every dense height is at most the limit, or at most the limit rounded to four decimals; at most the limit itself when the limit has four decimals or fewer |
| CorMesh.RoundedPieceExceedsLimit | cormesh.py:49-52 | as written, a layer of 0.246916 under a limit of 0.12346 becomes two pieces of 0.1235, above the limit |
| CorMesh.ExactPiecesFit | cormesh.py:49-52 | corrected, unrounded pieces are at most the limit, equal, and add up to the layer |
| CorMesh.DenseLength | cormesh.py:40-54 | the dense list has one entry per layer plus one per extra piece |
| CorMesh.ExtrasExactlyAbove | cormesh.py:44-50 | a layer gets extra pieces exactly when it is above the limit |
| CorMesh.DenseUnchanged | cormesh.py:44-47 | with no layer above the limit, nothing changes |
| CorMesh.AppendPieces | cormesh.py:49-54 | the inner loop appends the rounded pieces of one layer |
| CorMesh.Densify | cormesh.py:40-54 | an unreadable height raises ValueError; otherwise the result is the dense list and the extra counts |
| CorMesh.RegroupStep | cormesh.py:84-92 | one loop step widens one group by the extras of its own layers |
| CorMesh.WriteGroups | cormesh.py:83-93 | the loop writes the widened groups |
| CorMesh.RegroupFollows | cormesh.py:83-92 | each group is widened by the extra pieces of exactly its own layers |
| CorMesh.FollowsStretch | cormesh.py:83-92 | the widened groups describe the old cells, each repeated once per piece |
| CorMesh.RegroupUnchanged | cormesh.py:83-92 | with no extra pieces the groups are unchanged |
| CorMesh.MaterialsFollowLayers | cormesh.py:40-92 | after densifying, every dense layer has the material of the layer it came from, and the counts match |
| CorMesh.PrintListLoop | cormesh.py:99-121 | the loop computes `print_list` as written |
| CorMesh.PrintListDropsLastCount | cormesh.py:118-119 | as written, [1.0, 1.0] prints `1.0000`, which reads back as one layer; corrected, `2*1.0000` |
| CorMesh.HeightTokenRoundTrip | cormesh.py:111-114 | a written height run reads back as its count and rounded height |
| CorMesh.PrintListRoundTrip | cormesh.py:99-121 | corrected, the printed list reads back as the rounded heights |
| CorMesh.CompressedHeightsRejected | cormesh.py:31 | a printed list with a repeated height cannot be read back by the densifier's own `float` reading |
| CorMesh.WriteDeckStops | cormesh.py:61-93 | the first failing `FA_type` line ends the second pass |
| CorMesh.WriteStep | cormesh.py:64-93 | a `layer` line becomes the dense list as `print_list` writes it (its last count dropped), an `FA_type` line its widened groups, any other line is copied; a missing group list raises IndexError |
| CorMesh.WriteLines | cormesh.py:61-93 | the loop is the second pass, writing each `layer` line with the loop of `print_list` as written |
| CorMesh.CorMesh | cormesh.py:18-96 | a missing file raises RuntimeError, a non-positive limit ValueError; otherwise the two passes, with the layer counts before and after |
| CorMesh.Rewrite | cormesh.py:40-96 | densify, then write the deck |
| RunLength.EncodeCorrect | core.py:269-276 | the run-length encoding expands back to its input and is canonical |
| RunLength.CanonicalUnique | core.py:269-276 | a canonical encoding is the only one |
| Text.WordsJoin | cormesh.py:29 | splitting the space-joined tokens gives the tokens back |
| Text.IntRoundTrip | cormesh.py:35 | an integer's text reads back as the integer |
| Format.Fixed4RoundTrip | core.py:374 | a `{:.4f}` text reads back as the value rounded to four decimals |
| Format.Round4Twice | cormesh.py:52 | rounding to four decimals is idempotent |
| Format.Round4Mono | cormesh.py:52 | rounding to four decimals keeps the order of two values |
| Sorting.SortCorrect | core.py:218-220 | the sort is ordered and a permutation |
| Sorting.SortStable | assembly.py:192 | `sorted` is stable: the elements whose key equals a given key keep their input order |

## Left out

- File and console I/O: the file system test, `open`, `mkdir`, the output path, and every warning and print are left out. `cormesh` takes the deck as a list of lines and a flag for "is a file", and returns the rewritten text and the two layer counts of its message.
- Binary floating point is not modelled: heights are exact reals, and `round`/`{:.4f}` round half to even on the exact value.
- Reading decimals: `float()` is modelled only for plain decimals (optional sign, digits, optional fraction). Exponents, `inf`/`nan`, underscores and surrounding spaces are not. `int()` is modelled for optional sign and digits, without underscores.
- The deck text around the modelled lines is left out, because it is fixed formatting of stored values: the TULIP and LAVENDER headers, the CONTROL, METHOD and MATERIAL blocks, the FA id listing, `hex_dim`, the `{:>4}`/`{:>2d}` padding of `hex_conf`, and the bodies of `Section.toTULIP` and `Material.toTULIP`. `hex_conf` is modelled as rows of ids.
- Partial output is not modelled: on an error, `cormesh` has already written part of the file, but the model returns only the error.
- Core.Meshing: converting to `np.float` and re-sorting the set of means are taken as the identity, because the means are already strictly increasing (`AxialMesh.MeansIncreasing`).
- CoreDef.SortByName: ties keep their input order (`SortByNameStable`), and the input is the order in which the model collects assemblies, sections and materials (first appearance, ring by ring). The source collects them into sets, whose iteration order Python does not define, so two sections or materials with equal keys may get their ids in the other order.
- Text.IsSpace: only the ASCII whitespace of `str.split()` is modelled. Python also splits on Unicode spaces such as U+0085 and U+00A0, which the model treats as ordinary characters.
- The `r`/`k` fields that `specifyID` writes on assemblies and sections are left out, because nothing in the modelled code reads them.
- Assembly.Copy: the `deepcopy=True` branch is not modelled. `copy.deepcopy` clones the whole object graph reachable from the sections (parts, materials, supercell partners) through one memo table.
- Assembly.AddSection: tuple bounds are modelled as a pair of reals. The source stores any tuple as it is, of any length and with entries of any type; the model has no such value, so what later code does with one is not captured.
- Core.AddRing: the ring is stored as a sequence value. The source appends the caller's list object itself, so a later change to that list also changes the lattice; this aliasing is not modelled.
- Section.Append: `size` is taken as a real already; the `float(size)` conversion of other types is left out.
- The cosine/sine part of `rk2xy` (floating point trigonometry) is left out; only its sector/seat arithmetic is modelled.
- `Core.plotRaial`, `Core.plotAxial`, `Core.copy`, `Assemblies` and the material library are not part of this model.

## Findings

| source | as written | input that shows it | evidently intended | confidence | as-written member | corrected member |
|---|---|---|---|---|---|---|
| cormesh.py:118-119 | the last run is printed without its count | heights [1.0, 1.0] print as `1.0000` (one layer) | `2*1.0000` (two layers) | not executed | CorMesh.PrintListLoop, CorMesh.PrintListDropsLastCount | CorMesh.PrintList, CorMesh.PrintListRoundTrip |
| assembly.py:73-75, 94-101 | a negative reference index is accepted by the lookup but compared with non-negative positions | heights [1.0, 1.0], reference -1, bias 0: the first section gets bounds (0, 0) | -1 is the top section, and every section is as wide as its height | not executed | AssemblyDef.PlacementNegativeIndex, AssemblyDef.Assembly.SetRefPlane | AssemblyDef.PlacedBoundsFromEnd |
| cormesh.py:49-52 | a sub-layer is `h / ceil(h / limit)` rounded to four decimals | layer 0.246916, limit 0.12346: two sub-layers of 0.1235 | every sub-layer at most the limit, as `max_cell_height` promises (cormesh.py:11) | not executed | CorMesh.Pieces, CorMesh.RoundedPieceExceedsLimit, CorMesh.DenseBound | CorMesh.ExactPieces, CorMesh.ExactPiecesFit |
