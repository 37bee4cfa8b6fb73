/** A radial section of an assembly (section.py) and the materials its rods and regions are made
    of. Material composition is outside this model: a material here is its name and the
    identifier the core assigns to it. */
module SectionDef {
  import opened Base
  import opened Text

  class Material {
    const name: string
    var id: int

    constructor (name: string)
      ensures this.name == name && id == -1
    {
      this.name := name;
      id := -1;
    }
  }

  /** One `(size, material)` entry of a section's `rod` or `region` list. */
  datatype Part = Part(size: real, material: Material)

  predicate IsRodShape(shape: string)
  {
    shape == "rod" || shape == "circ" || shape == "c"
  }

  predicate IsRegionShape(shape: string)
  {
    shape == "region" || shape == "hex" || shape == "h"
  }

  /** What `Section.append` does with a shape argument: which list it extends, or the exception
      it raises. */
  datatype ShapeTarget = RodList | RegionList | BadShape(err: PyError)

  /** The shape check of `Section.append`: a non-string is a `TypeError`; a string is lowered
      and must name a rod (`rod`, `circ`, `c`) or a region (`region`, `hex`, `h`). */
  function ShapeOf(shape: Typed<string>): (t: ShapeTarget)
    ensures shape.WrongType? ==> t == BadShape(TypeError)
    ensures shape.Typed? ==>
      (t == RodList <==> IsRodShape(AsciiLower(shape.val))) &&
      (t == RegionList <==> IsRegionShape(AsciiLower(shape.val))) &&
      (t.BadShape? <==> t == BadShape(ValueError))
  {
    match shape
    case WrongType => BadShape(TypeError)
    case Typed(s) =>
      var lowered := AsciiLower(s);
      if IsRodShape(lowered) then RodList
      else if IsRegionShape(lowered) then RegionList
      else BadShape(ValueError)
  }

  /** Upper-case spellings are accepted: `append("ROD", ..)` extends the rod list. */
  lemma ShapeIsCaseInsensitive()
    ensures ShapeOf(Typed("ROD")) == RodList
    ensures ShapeOf(Typed("Hex")) == RegionList
    ensures ShapeOf(Typed("square")) == BadShape(ValueError)
  {
    var rod, hex, square := AsciiLower("ROD"), AsciiLower("Hex"), AsciiLower("square");
    assert rod[0] == 'r' && rod[1] == 'o' && rod[2] == 'd';
    assert rod == "rod";
    assert hex[0] == 'h' && hex[1] == 'e' && hex[2] == 'x';
    assert hex == "hex";
    assert square[0] == 's' && |square| == 6;
  }

  class Section {
    const name: string
    var id: int
    const ring: int
    const pitch: real
    var height: Option<real>
    var bounds: (real, real)
    var rod: seq<Part>
    var region: seq<Part>
    const eqMethod: string
    var scSection: Section?

    /** A new section: unassigned id, bounds (0, 0), no rods, no regions, no supercell partner. */
    constructor (name: string, ring: int := 0, pitch: real := 0.0, height: Option<real> := None,
                 eqMethod: string := "homo")
      ensures this.name == name && this.ring == ring && this.pitch == pitch
      ensures this.height == height && this.eqMethod == eqMethod
      ensures id == -1 && bounds == (0.0, 0.0) && rod == [] && region == [] && scSection == null
    {
      this.name := name;
      this.ring := ring;
      this.pitch := pitch;
      this.height := height;
      this.eqMethod := eqMethod;
      id := -1;
      bounds := (0.0, 0.0);
      rod := [];
      region := [];
      scSection := null;
    }

    /** `append(shape, size, material)`: a non-material raises `TypeError`; otherwise the entry
        goes to the end of the list the shape names and the other list is left alone. */
    method Append(shape: Typed<string>, size: real, material: Material?) returns (st: Status)
      modifies this`rod, this`region
      ensures material == null ==> st == Raised(TypeError)
      ensures material != null ==> match ShapeOf(shape)
        case RodList => st == Done
        case RegionList => st == Done
        case BadShape(e) => st == Raised(e)
      ensures rod == if material != null && ShapeOf(shape) == RodList
                     then old(rod) + [Part(size, material)] else old(rod)
      ensures region == if material != null && ShapeOf(shape) == RegionList
                        then old(region) + [Part(size, material)] else old(region)
    {
      if material == null {
        return Raised(TypeError);
      }
      match ShapeOf(shape)
      case RodList =>
        rod := rod + [Part(size, material)];
        st := Done;
      case RegionList =>
        region := region + [Part(size, material)];
        st := Done;
      case BadShape(e) =>
        st := Raised(e);
    }

    /** `appendRod(size, material)`: `append` with shape `rod`. */
    method AppendRod(size: real, material: Material?) returns (st: Status)
      modifies this`rod, this`region
      ensures st == if material == null then Raised(TypeError) else Done
      ensures rod == if material != null then old(rod) + [Part(size, material)] else old(rod)
      ensures region == old(region)
    {
      assert AsciiLower("rod") == "rod";
      st := Append(Typed("rod"), size, material);
    }

    /** `appendRegion(size, material)`: `append` with shape `region`. */
    method AppendRegion(size: real, material: Material?) returns (st: Status)
      modifies this`rod, this`region
      ensures st == if material == null then Raised(TypeError) else Done
      ensures region == if material != null then old(region) + [Part(size, material)] else old(region)
      ensures rod == old(rod)
    {
      assert AsciiLower("region") == "region";
      st := Append(Typed("region"), size, material);
    }

    /** `check()`: a section is consistent when it has one rod entry per declared ring. */
    function Check(): (ok: bool)
      reads this
      ensures ok <==> ring == |rod|
    {
      ring == |rod|
    }

    /** The guards of `toTULIP`: an unassigned id, or rods without a ring count, is a
        `RuntimeError`; otherwise the section can be written. */
    function TulipGuard(): (e: Option<PyError>)
      reads this
      ensures e == None <==> id != -1 && (ring != -1 || rod == [])
      ensures e.Some? ==> e.value == RuntimeError
    {
      if id == -1 then Some(RuntimeError)
      else if ring == -1 && |rod| > 0 then Some(RuntimeError)
      else None
    }

    /** `copy(name, deepcopy)`. `@ORIGIN` in the new name stands for this section's name, and a
        copy may not carry the original's name. The copy has an unassigned id, the same ring,
        pitch, bounds and height, the default equivalence method and no supercell partner. Its
        part lists hold the same entries; a deep copy puts fresh materials in them, one per
        distinct material of each list. */
    method Copy(name: string, deep: bool) returns (res: Result<Section>)
      ensures var newName := Replace(name, "@ORIGIN", this.name);
        if newName == this.name then res == Err(ValueError)
        else res.Ok? && fresh(res.value) && res.value.name == newName
      ensures res.Ok? ==> var c := res.value;
        c.id == -1 && c.ring == ring && c.pitch == pitch && c.bounds == bounds &&
        c.height == height && c.eqMethod == "homo" && c.scSection == null
      ensures res.Ok? && !deep ==> res.value.rod == rod && res.value.region == region
      ensures res.Ok? && deep ==> DeepCopyOf(res.value.rod, rod) && DeepCopyOf(res.value.region, region)
      ensures res.Ok? && deep ==> forall i :: 0 <= i < |res.value.rod| ==> fresh(res.value.rod[i].material)
      ensures res.Ok? && deep ==> forall i :: 0 <= i < |res.value.region| ==> fresh(res.value.region[i].material)
    {
      var newName := Replace(name, "@ORIGIN", this.name);
      if newName == this.name {
        return Err(ValueError);
      }
      var c := new Section(newName, ring, pitch);
      c.id := -1;
      c.bounds := bounds;
      c.height := height;
      if deep {
        var rods := DeepCopyParts(rod);
        var regions := DeepCopyParts(region);
        c.rod := rods;
        c.region := regions;
      } else {
        c.rod := rod;
        c.region := region;
      }
      res := Ok(c);
    }
  }

  /** `copies` is a deep copy of `parts`: same sizes, materials with the same name and id, and
      two entries share a material exactly when the originals do. */
  ghost predicate DeepCopyOf(copies: seq<Part>, parts: seq<Part>)
    reads set i | 0 <= i < |copies| :: copies[i].material
    reads set i | 0 <= i < |parts| :: parts[i].material
  {
    |copies| == |parts| &&
    (forall i :: 0 <= i < |parts| ==>
      copies[i].size == parts[i].size &&
      copies[i].material.name == parts[i].material.name &&
      copies[i].material.id == parts[i].material.id) &&
    (forall i, j :: 0 <= i < |parts| && 0 <= j < |parts| ==>
      (copies[i].material == copies[j].material <==> parts[i].material == parts[j].material))
  }

  /** `copy.deepcopy` of a part list: each distinct material is cloned once (the memo table), and
      every entry refers to the clone of its material. */
  method DeepCopyParts(parts: seq<Part>) returns (copies: seq<Part>)
    ensures DeepCopyOf(copies, parts)
    ensures forall i :: 0 <= i < |copies| ==> fresh(copies[i].material)
  {
    var memo: map<Material, Material> := map[];
    copies := [];
    var i := 0;
    while i < |parts|
      invariant 0 <= i <= |parts| && |copies| == i
      invariant memo.Keys == set j | 0 <= j < i :: parts[j].material
      invariant forall m :: m in memo ==> fresh(memo[m]) && memo[m].name == m.name && memo[m].id == m.id
      invariant forall m, n :: m in memo && n in memo && m != n ==> memo[m] != memo[n]
      invariant forall j :: 0 <= j < i ==>
        copies[j].size == parts[j].size && copies[j].material == memo[parts[j].material]
    {
      var m := parts[i].material;
      var clone: Material;
      if m in memo {
        clone := memo[m];
      } else {
        clone := new Material(m.name);
        clone.id := m.id;
        memo := memo[m := clone];
      }
      copies := copies + [Part(parts[i].size, clone)];
      i := i + 1;
    }
  }
}
