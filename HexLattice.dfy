/** Hexagonal lattice coordinates of a core (core.py): a slot is `(r, k)`, ring `r` and
    clockwise position `k` in that ring. Ring 0 is the single central assembly; ring `r > 0`
    holds `6r` assemblies, starting at 60 degrees. The `hex_conf` block of the LAVENDER deck
    writes the lattice row by row: a core of `n` rings has `2n - 1` rows, and each row is walked
    in five passes (outer to inner ring on the left, along the innermost ring of the row, the
    slot on the 60/300 degree line, and inner to outer ring on the right). */
module HexLattice {
  import opened Base

  /** Assemblies in ring `r`. */
  function RingSize(r: nat): (n: nat)
    ensures n >= 1
  {
    if r == 0 then 1 else 6 * r
  }

  /** `(r, k)` names a slot of a core with `n` rings. */
  predicate IsSlot(n: int, r: int, k: int)
  {
    0 <= r < n && 0 <= k < RingSize(r)
  }

  /** Number of `hex_conf` rows: `range(2 * ring - 1)`. */
  function RowCount(n: int): (c: nat)
    ensures n >= 1 ==> c == 2 * n - 1
    ensures n < 1 ==> c == 0
  {
    if n < 1 then 0 else 2 * n - 1
  }

  /** Distance of row `l` from the centre row. */
  function CentreDistance(n: int, l: int): (d: nat)
    ensures d == n - 1 - l || d == l - (n - 1)
  {
    if n - 1 - l >= 0 then n - 1 - l else l - (n - 1)
  }

  /** `np.sign` on an integer. */
  function Sign(x: int): (s: int)
    ensures x > 0 ==> s == 1
    ensures x < 0 ==> s == -1
    ensures x == 0 ==> s == 0
  {
    if x > 0 then 1 else if x < 0 then -1 else 0
  }

  /** Entries of row `l`: the two outer passes of `n - 1 - d` slots each, the `d` slots along
      the innermost ring and the one slot on the 60/300 degree line. */
  function RowLength(n: int, l: int): int
  {
    2 * n - 1 - CentreDistance(n, l)
  }

  predicate InRow(n: int, l: int, c: int)
  {
    n >= 1 && 0 <= l < 2 * n - 1 && 0 <= c < RowLength(n, l)
  }

  /** The slot written at position `c` of row `l`, by the index formulas of the five passes. */
  function RowSlot(n: int, l: int, c: int): (int, int)
    requires InRow(n, l, c)
  {
    var d := CentreDistance(n, l);
    var m := n - 1 - d;
    if c < m then
      var r := (n - 1) - c;
      (r, 5 * r + c - l)
    else if c < m + d then
      (d, (if d > 0 then 4 * d else 1) + (d + (c - m)) * Sign(n - 1 - l))
    else if c == m + d then
      (d, if n - 1 - l < 0 then 2 * d else 0)
    else
      var r := 1 + (c - m - d - 1) + d;
      (r, l + r + 1 - n)
  }

  /** Every slot the row walk reads lies inside the lattice: `0 <= r < n` and `0 <= k < 6r`
      (`k == 0` on ring 0). */
  lemma RowSlotIsSlot(n: int, l: int, c: int)
    requires InRow(n, l, c)
    ensures IsSlot(n, RowSlot(n, l, c).0, RowSlot(n, l, c).1)
  {
    var d := CentreDistance(n, l);
    var m := n - 1 - d;
    if m <= c < m + d {
      if n - 1 - l > 0 {
        assert Sign(n - 1 - l) == 1;
      } else {
        assert Sign(n - 1 - l) == -1;
      }
    }
  }

  /** Where the row walk writes slot `(r, k)`: its row and its position in the row. */
  function SlotPosition(n: int, r: int, k: int): (int, int)
    requires IsSlot(n, r, k)
  {
    if r == 0 then (n - 1, n - 1)
    else if k == 0 then (n - 1 - r, n - 1)
    else if k <= r then (n - 1 - (r - k), n - 1 + k)
    else if k < 2 * r then (n - 1 + (k - r), n - 1 + 2 * r - k)
    else if k <= 3 * r then (n - 1 + r, n - 1 + 2 * r - k)
    else if k <= 4 * r then (n - 1 + 4 * r - k, n - 1 - r)
    else if k < 5 * r then (n - 1 - (k - 4 * r), n - 1 - r)
    else (n - 1 - r, n - 1 + k - 6 * r)
  }

  /** Every slot of the lattice is written somewhere: its position is a valid row position and
      the walk reads that very slot there. */
  lemma {:induction false} SlotIsVisited(n: int, r: int, k: int)
    requires IsSlot(n, r, k)
    ensures InRow(n, SlotPosition(n, r, k).0, SlotPosition(n, r, k).1)
    ensures RowSlot(n, SlotPosition(n, r, k).0, SlotPosition(n, r, k).1) == (r, k)
  {
    var (l, c) := SlotPosition(n, r, k);
    if r > 0 && 2 * r < k <= 3 * r {
      assert CentreDistance(n, l) == r;
      assert Sign(n - 1 - l) == -1;
    } else if r > 0 && 5 * r <= k {
      assert CentreDistance(n, l) == r;
      assert Sign(n - 1 - l) == 1;
    }
  }

  /** Each row position is the position of the slot it reads, so no slot is written twice. */
  lemma {:induction false} RowSlotPosition(n: int, l: int, c: int)
    requires InRow(n, l, c)
    ensures IsSlot(n, RowSlot(n, l, c).0, RowSlot(n, l, c).1)
    ensures SlotPosition(n, RowSlot(n, l, c).0, RowSlot(n, l, c).1) == (l, c)
  {
    RowSlotIsSlot(n, l, c);
    var d := CentreDistance(n, l);
    var m := n - 1 - d;
    if m <= c < m + d {
      if n - 1 - l > 0 {
        assert Sign(n - 1 - l) == 1;
      } else {
        assert Sign(n - 1 - l) == -1;
      }
    }
  }

  /** The row walk visits every slot of the lattice exactly once. */
  lemma VisitedExactlyOnce(n: int, r: int, k: int)
    requires IsSlot(n, r, k)
    ensures exists l, c :: InRow(n, l, c) && RowSlot(n, l, c) == (r, k)
    ensures forall l, c :: InRow(n, l, c) && RowSlot(n, l, c) == (r, k) ==> (l, c) == SlotPosition(n, r, k)
  {
    SlotIsVisited(n, r, k);
    var (l, c) := SlotPosition(n, r, k);
    assert InRow(n, l, c) && RowSlot(n, l, c) == (r, k);
    forall l', c' | InRow(n, l', c') && RowSlot(n, l', c') == (r, k)
      ensures (l', c') == SlotPosition(n, r, k)
    {
      RowSlotPosition(n, l', c');
    }
  }

  /** The index formulas of one `hex_conf` row, pass by pass: the slots of row `l` in the
      order they are written. */
  method RowWalk(n: int, l: int) returns (row: seq<(int, int)>)
    requires n >= 1 && 0 <= l < 2 * n - 1
    ensures |row| == RowLength(n, l)
    ensures forall c :: 0 <= c < |row| ==> row[c] == RowSlot(n, l, c)
  {
    var d := if n - 1 - l >= 0 then n - 1 - l else l - (n - 1);
    assert d == CentreDistance(n, l);
    row := [];
    // From the outer ring inwards.
    var j := 0;
    while j < n - 1 - d
      invariant 0 <= j <= n - 1 - d && |row| == j
      invariant forall c :: 0 <= c < j ==> row[c] == RowSlot(n, l, c)
    {
      var r := (n - 1) - j;
      var k := 5 * r + j - l;
      row := row + [(r, k)];
      j := j + 1;
    }
    // Along the innermost ring of the row.
    var r := d;
    var kCentre := if r > 0 then 4 * r else 1;
    j := 0;
    while j < d
      invariant 0 <= j <= d && |row| == n - 1 - d + j
      invariant forall c :: 0 <= c < |row| ==> row[c] == RowSlot(n, l, c)
    {
      var k := kCentre + (r + j) * Sign(n - 1 - l);
      row := row + [(r, k)];
      j := j + 1;
    }
    // The slot on the 60/300 degree line.
    var k := if n - 1 - l < 0 then 2 * d else 0;
    row := row + [(r, k)];
    // From the inner ring outwards.
    j := 0;
    while j < n - 1 - d
      invariant 0 <= j <= n - 1 - d && |row| == n + j
      invariant forall c :: 0 <= c < |row| ==> row[c] == RowSlot(n, l, c)
    {
      r := 1 + j + d;
      k := l + r + 1 - n;
      row := row + [(r, k)];
      j := j + 1;
    }
  }

  // ---------------------------------------------------------------------------------------------
  // The integer part of `rk2xy`.

  /** Python's `a // b`: the quotient rounded towards negative infinity. */
  function FloorDiv(a: int, b: int): int
    requires b != 0
  {
    if b > 0 then a / b else (-a) / (-b)
  }

  /** Python's `a % b`: the remainder that goes with `FloorDiv`, carrying the divisor's sign. */
  function FloorMod(a: int, b: int): int
    requires b != 0
  {
    a - b * FloorDiv(a, b)
  }

  lemma FloorDivMod(a: int, b: int)
    requires b != 0
    ensures a == b * FloorDiv(a, b) + FloorMod(a, b)
    ensures b > 0 ==> 0 <= FloorMod(a, b) < b
    ensures b < 0 ==> b < FloorMod(a, b) <= 0
  {
    if b < 0 {
      var q := (-a) / (-b);
      assert -a == (-b) * q + (-a) % (-b);
    }
  }

  /** The sector (which sixth of the ring, 0 = A) and the seat inside it of slot `(r, k)`. */
  datatype Seat = Centre | InSector(sector: int, seat: int)

  /** The integer part of `rk2xy(r, k)`: non-integers raise `TypeError`; ring 0 admits only
      `k == 0` (else `AssertionError`) and is the centre; otherwise the sector is `k // r` and the
      seat `k % r`, with Python's rounding of both. */
  function SectorSeat(r: Typed<int>, k: Typed<int>): (res: Result<Seat>)
    ensures r.WrongType? || k.WrongType? ==> res == Err(TypeError)
    ensures r.Typed? && k.Typed? && r.val == 0 ==>
      res == (if k.val == 0 then Ok(Centre) else Err(AssertionError))
    ensures r.Typed? && k.Typed? && r.val != 0 ==>
      res.Ok? && res.value.InSector? && k.val == res.value.sector * r.val + res.value.seat
    ensures r.Typed? && k.Typed? && r.val > 0 ==>
      res.Ok? && res.value.InSector? && 0 <= res.value.seat < r.val
    ensures r.Typed? && k.Typed? && r.val > 0 && 0 <= k.val < 6 * r.val ==>
      res.Ok? && res.value.InSector? && 0 <= res.value.sector < 6
  {
    if r.WrongType? || k.WrongType? then Err(TypeError)
    else if r.val == 0 then (if k.val == 0 then Ok(Centre) else Err(AssertionError))
    else
      FloorDivMod(k.val, r.val);
      if r.val > 0 && 0 <= k.val < 6 * r.val then
        SectorBound(k.val, r.val);
        Ok(InSector(FloorDiv(k.val, r.val), FloorMod(k.val, r.val)))
      else Ok(InSector(FloorDiv(k.val, r.val), FloorMod(k.val, r.val)))
  }

  lemma SectorBound(k: int, r: int)
    requires r > 0 && 0 <= k < 6 * r
    ensures 0 <= k / r < 6
  {
  }

  /** The sector and seat are unique: any `k == q * r + s` with `0 <= s < r` is Python's. */
  lemma SectorSeatUnique(r: int, k: int, q: int, s: int)
    requires r > 0 && 0 <= s < r && k == q * r + s
    ensures SectorSeat(Typed(r), Typed(k)) == Ok(InSector(q, s))
  {
    var res := SectorSeat(Typed(r), Typed(k));
    var q', s' := res.value.sector, res.value.seat;
    assert (q' - q) * r == s - s';
    ProductBound(q' - q, r);
  }

  lemma ProductBound(t: int, r: int)
    requires r > 0 && -r < t * r < r
    ensures t == 0
  {
  }

  /** With non-negative `k`, Python's and Dafny's division agree. */
  lemma SectorSeatNonNegative(r: int, k: int)
    requires r > 0 && k >= 0
    ensures SectorSeat(Typed(r), Typed(k)) == Ok(InSector(k / r, k % r))
  {
  }
}
