/** The axial-mesh densifier (cormesh.py). It reads a LAVENDER deck, splits every axial layer
    taller than a threshold into equal sub-layers, and rewrites the `layer` line and the
    per-assembly `FA_type` material groups so that every sub-layer keeps the material of the
    layer it came from. A deck is the sequence of its lines as read (terminators included); the
    rewritten deck is the text written to the output file. */
module CorMesh {
  import opened Base
  import opened Text
  import opened RunLength
  import opened Format

  // ---------------------------------------------------------------- reading the deck

  /** The kinds of deck line the densifier tells apart, by their first characters. */
  datatype LineKind = LayerLine | FaTypeLine | OtherLine

  function KindOf(line: string): LineKind
  {
    if "layer" <= line then LayerLine else if "FA_type" <= line then FaTypeLine else OtherLine
  }

  /** `ws[2:]`: the words after the keyword and the second field. */
  function AfterTwo(ws: seq<string>): seq<string>
  {
    if |ws| <= 2 then [] else ws[2..]
  }

  /** Python's `s.split('*')`. */
  function SplitStar(s: string): (ps: seq<string>)
    ensures |ps| >= 1
  {
    if s == [] then [""]
    else
      var rest := SplitStar(s[1..]);
      if s[0] == '*' then [""] + rest else [[s[0]] + rest[0]] + rest[1..]
  }

  lemma {:induction false} SplitStarNone(s: string)
    requires '*' !in s
    ensures SplitStar(s) == [s]
  {
    if s != [] {
      assert '*' !in s[1..] by {
        forall j | 0 <= j < |s[1..]| ensures s[1..][j] != '*' {
          assert s[1..][j] == s[j + 1];
        }
      }
      SplitStarNone(s[1..]);
      assert [s[0]] + s[1..] == s;
    }
  }

  /** Splitting `a*b` where neither part holds a `*` gives the two parts. */
  lemma {:induction false} SplitStarPair(a: string, b: string)
    requires '*' !in a && '*' !in b
    ensures SplitStar(a + "*" + b) == [a, b]
  {
    if a == [] {
      assert (a + "*" + b)[1..] == b;
      SplitStarNone(b);
    } else {
      assert (a + "*" + b)[1..] == a[1..] + "*" + b;
      assert '*' !in a[1..] by {
        forall j | 0 <= j < |a[1..]| ensures a[1..][j] != '*' {
          assert a[1..][j] == a[j + 1];
        }
      }
      SplitStarPair(a[1..], b);
      assert [a[0]] + a[1..] == a;
    }
  }

  /** `list(map(int, ps))`; `None` when some piece is not an integer. */
  function ParseInts(ps: seq<string>): (r: Option<seq<int>>)
    ensures r.Some? ==> |r.value| == |ps|
  {
    if ps == [] then Some([])
    else
      match ParseInt(ps[0])
      case None => None
      case Some(a) =>
        match ParseInts(ps[1..])
        case None => None
        case Some(rest) => Some([a] + rest)
  }

  lemma ParseIntsPair(a: string, b: string, x: int, y: int)
    requires ParseInt(a) == Some(x) && ParseInt(b) == Some(y)
    ensures ParseInts([a, b]) == Some([x, y])
  {
    assert [a, b][1..] == [b] && [b][1..] == [];
    assert ParseInts([b]) == Some([y]) by {
      assert ParseInts([]) == Some([]);
      assert [y] + [] == [y];
    }
    assert [x] + [y] == [x, y];
  }

  /** One material group of an `FA_type` line once read: a count of layers and a material id,
      or a token whose integers all parse but which holds more than one `*`, so that it cannot be
      unpacked into a pair when the line is rewritten. */
  datatype Group = Group(num: int, mat: int) | Unpackable

  /** How one `FA_type` token is read: `n*m` gives `(n, m)`, a bare `m` gives `(1, m)`; `None`
      stands for the ValueError `int()` raises. */
  function ReadGroup(x: string): Option<Group>
  {
    if '*' in x then
      match ParseInts(SplitStar(x))
      case None => None
      case Some(ns) => Some(if |ns| == 2 then Group(ns[0], ns[1]) else Unpackable)
    else
      match ParseInt(x)
      case None => None
      case Some(m) => Some(Group(1, m))
  }

  function ReadGroups(ts: seq<string>): (r: Option<seq<Group>>)
    ensures r.Some? ==> |r.value| == |ts|
  {
    if ts == [] then Some([])
    else
      match ReadGroup(ts[0])
      case None => None
      case Some(g) =>
        match ReadGroups(ts[1..])
        case None => None
        case Some(rest) => Some([g] + rest)
  }

  /** What the first pass over the deck keeps: the height tokens of the last `layer` line (their
      conversion to float is deferred, so they are kept as text) and the groups of every
      `FA_type` line, in order. */
  datatype Deck = Deck(layer: Option<seq<string>>, fa: seq<seq<Group>>)

  function ReadLine(d: Deck, line: string): Result<Deck>
  {
    match KindOf(line)
    case LayerLine => Ok(d.(layer := Some(AfterTwo(Words(line)))))
    case FaTypeLine =>
      (match ReadGroups(AfterTwo(Words(line)))
       case None => Err(ValueError)
       case Some(gs) => Ok(d.(fa := d.fa + [gs])))
    case OtherLine => Ok(d)
  }

  /** The first pass: every line in order; the first unreadable `FA_type` token raises. */
  function ReadDeck(lines: seq<string>): Result<Deck>
  {
    if lines == [] then Ok(Deck(None, []))
    else
      match ReadDeck(lines[..|lines| - 1])
      case Err(e) => Err(e)
      case Ok(d) => ReadLine(d, lines[|lines| - 1])
  }

  lemma {:induction false} ReadDeckStops(lines: seq<string>, j: nat)
    requires j <= |lines| && ReadDeck(lines[..j]).Err?
    ensures ReadDeck(lines) == ReadDeck(lines[..j])
    decreases |lines| - j
  {
    if j < |lines| {
      assert lines[..j + 1][..j] == lines[..j];
      ReadDeckStops(lines, j + 1);
    } else {
      assert lines[..j] == lines;
    }
  }

  function FaCount(lines: seq<string>): nat
  {
    if lines == [] then 0
    else FaCount(lines[..|lines| - 1]) + (if KindOf(lines[|lines| - 1]) == FaTypeLine then 1 else 0)
  }

  /** The first pass keeps exactly one group list per `FA_type` line. */
  lemma {:induction false} ReadDeckCountsFa(lines: seq<string>)
    ensures ReadDeck(lines).Ok? ==> |ReadDeck(lines).value.fa| == FaCount(lines)
  {
    if lines != [] {
      ReadDeckCountsFa(lines[..|lines| - 1]);
    }
  }

  /** The first reading loop of `cormesh`. */
  method ReadLines(lines: seq<string>) returns (res: Result<Deck>)
    ensures res == ReadDeck(lines)
  {
    var d := Deck(None, []);
    var i := 0;
    while i < |lines|
      invariant 0 <= i <= |lines|
      invariant ReadDeck(lines[..i]) == Ok(d)
    {
      assert lines[..i + 1][..i] == lines[..i];
      var line := lines[i];
      if "layer" <= line {
        d := d.(layer := Some(AfterTwo(Words(line))));
      } else if "FA_type" <= line {
        var gs := ReadGroups(AfterTwo(Words(line)));
        if gs.None? {
          ReadDeckStops(lines, i + 1);
          return Err(ValueError);
        }
        d := d.(fa := d.fa + [gs.value]);
      }
      i := i + 1;
    }
    assert lines[..i] == lines;
    return Ok(d);
  }

  // ---------------------------------------------------------------- densifying the layers

  /** `map(float, ts)` forced in order; `None` stands for the ValueError of the first token that
      is not a number. */
  function ReadHeights(ts: seq<string>): (r: Option<seq<real>>)
    ensures r.Some? ==> |r.value| == |ts|
  {
    if ts == [] then Some([])
    else
      match ReadHeights(ts[..|ts| - 1])
      case None => None
      case Some(hs) =>
        match ParseReal(ts[|ts| - 1])
        case None => None
        case Some(h) => Some(hs + [h])
  }

  lemma {:induction false} ReadHeightsStops(ts: seq<string>, j: nat)
    requires j <= |ts| && ReadHeights(ts[..j]).None?
    ensures ReadHeights(ts).None?
    decreases |ts| - j
  {
    if j < |ts| {
      assert ts[..j + 1][..j] == ts[..j];
      ReadHeightsStops(ts, j + 1);
    } else {
      assert ts[..j] == ts;
    }
  }

  /** A token that is not a number makes the whole height list unreadable. */
  lemma {:induction false} ReadHeightsFails(ts: seq<string>, j: nat)
    requires j < |ts| && ParseReal(ts[j]) == None
    ensures ReadHeights(ts) == None
  {
    assert ts[..j + 1][..j] == ts[..j];
    assert ts[..j + 1][j] == ts[j];
    ReadHeightsStops(ts, j + 1);
  }

  /** The number of equal sub-layers a layer of height `h` above the threshold `t` is split into:
      `ceil(h / t)`. */
  function SplitCount(h: real, t: real): (f: nat)
    requires 0.0 < t < h
    ensures f >= 2
  {
    var q := h / t;
    assert q > 1.0 by {
      assert q * t == h;
    }
    Ceil(q)
  }

  /** `SplitCount` is the least number of equal parts that brings the layer down to the threshold:
      the parts are no taller than `t`, and one part fewer would leave them taller than `t`. */
  lemma SplitCountLeast(h: real, t: real)
    requires 0.0 < t < h
    ensures h / (SplitCount(h, t) as real) <= t
    ensures h / ((SplitCount(h, t) - 1) as real) > t
  {
    var f := SplitCount(h, t) as real;
    var q := h / t;
    assert q * t == h;
    assert f >= q && f - 1.0 < q;
    assert f * t >= h by {
      assert f * t - h == (f - q) * t;
    }
    assert (f - 1.0) * t < h by {
      assert h - (f - 1.0) * t == (q - (f - 1.0)) * t;
    }
  }

  /** The sub-layers a layer becomes: itself when it is within the threshold, else `ceil(h / t)`
      copies of `h / ceil(h / t)` rounded to four decimals. */
  function Pieces(h: real, t: real): (p: seq<real>)
    requires t > 0.0
  {
    if h <= t then [h] else var f := SplitCount(h, t); Repeat(Round4(h / (f as real)), f)
  }

  /** The number of sub-layers a layer gains. */
  function Extra(h: real, t: real): nat
    requires t > 0.0
  {
    if h <= t then 0 else SplitCount(h, t) - 1
  }

  /** The densified layer list. */
  function Dense(hs: seq<real>, t: real): seq<real>
    requires t > 0.0
  {
    if hs == [] then [] else Dense(hs[..|hs| - 1], t) + Pieces(hs[|hs| - 1], t)
  }

  /** The gain of every layer, in order (`factors_dense`). */
  function Extras(hs: seq<real>, t: real): (ex: seq<nat>)
    requires t > 0.0
    ensures |ex| == |hs|
  {
    if hs == [] then [] else Extras(hs[..|hs| - 1], t) + [Extra(hs[|hs| - 1], t)]
  }

  /** The densified list is as long as the input plus the gains. */
  lemma {:induction false} DenseLength(hs: seq<real>, t: real)
    requires t > 0.0
    ensures |Dense(hs, t)| == |hs| + SumNat(Extras(hs, t))
  {
    if hs != [] {
      DenseLength(hs[..|hs| - 1], t);
    }
  }

  /** A layer gains sub-layers exactly when it is above the threshold. */
  lemma {:induction false} ExtrasExactlyAbove(hs: seq<real>, t: real)
    requires t > 0.0
    ensures forall i :: 0 <= i < |hs| ==> (Extras(hs, t)[i] == 0 <==> hs[i] <= t)
  {
    if hs != [] {
      var init := hs[..|hs| - 1];
      ExtrasExactlyAbove(init, t);
      assert Extras(hs, t) == Extras(init, t) + [Extra(hs[|hs| - 1], t)];
      forall i | 0 <= i < |hs|
        ensures Extras(hs, t)[i] == 0 <==> hs[i] <= t
      {
        if i < |init| {
          assert Extras(hs, t)[i] == Extras(init, t)[i] && hs[i] == init[i];
        }
      }
    }
  }

  /** A deck whose layers are all within the threshold keeps its layers: nothing is split. */
  lemma {:induction false} DenseUnchanged(hs: seq<real>, t: real)
    requires t > 0.0
    requires forall i :: 0 <= i < |hs| ==> hs[i] <= t
    ensures Dense(hs, t) == hs
    ensures SumNat(Extras(hs, t)) == 0
  {
    if hs != [] {
      var init, h := hs[..|hs| - 1], hs[|hs| - 1];
      DenseUnchanged(init, t);
      assert Pieces(h, t) == [h] && Extra(h, t) == 0;
      assert Extras(hs, t) == Extras(init, t) + [0];
      assert hs == init + [h];
    }
  }

  /** One more layer extends the densified list by its pieces and the gains by its own. */
  lemma DenseSnoc(hs: seq<real>, h: real, t: real)
    requires t > 0.0
    ensures Dense(hs + [h], t) == Dense(hs, t) + Pieces(h, t)
    ensures Extras(hs + [h], t) == Extras(hs, t) + [Extra(h, t)]
  {
    assert (hs + [h])[..|hs|] == hs;
  }

  /** A kept layer is within the threshold; a sub-layer is within the threshold rounded to four
      decimals, since it is `h / ceil(h / t) <= t` rounded. */
  lemma PiecesBound(h: real, t: real)
    requires t > 0.0
    ensures h <= t ==> forall x :: x in Pieces(h, t) ==> x == h
    ensures h > t ==> forall x :: x in Pieces(h, t) ==> x <= Round4(t)
  {
    if h <= t {
      assert Pieces(h, t) == [h];
    } else {
      var f := SplitCount(h, t);
      SplitCountLeast(h, t);
      Round4Mono(h / (f as real), t);
      assert Pieces(h, t) == Repeat(Round4(h / (f as real)), f);
    }
  }

  /** Every height of the densified list is within the threshold or, for a sub-layer, within the
      threshold rounded to four decimals; so within the threshold itself when it has at most
      four decimals. */
  lemma {:induction false} DenseBound(hs: seq<real>, t: real)
    requires t > 0.0
    ensures forall x :: x in Dense(hs, t) ==> x <= t || x <= Round4(t)
    ensures Round4(t) == t ==> forall x :: x in Dense(hs, t) ==> x <= t
  {
    if hs != [] {
      var init, h := hs[..|hs| - 1], hs[|hs| - 1];
      DenseBound(init, t);
      PiecesBound(h, t);
      assert Dense(hs, t) == Dense(init, t) + Pieces(h, t);
    }
  }

  /** As written, a sub-layer can come out taller than the threshold: a layer of 0.246916 under
      a threshold of 0.12346 is split in two, and `round(0.123458, 4)` is 0.1235. */
  lemma RoundedPieceExceedsLimit()
    ensures Pieces(0.246916, 0.12346) == [0.1235, 0.1235]
    ensures 0.1235 > 0.12346
  {
    var h, t := 0.246916, 0.12346;
    var q := h / t;
    assert 1.0 < q < 2.0 by {
      assert q * t == h;
    }
    assert SplitCount(h, t) == 2;
    assert RoundHalfEven(h / 2.0 * 10000.0) == 1235 by {
      assert h / 2.0 * 10000.0 == 1234.58;
    }
    assert Round4(h / 2.0) == 0.1235;
  }

  /** The split the densifier evidently intends: `ceil(h / t)` equal sub-layers of height
      `h / ceil(h / t)`, not rounded. */
  function ExactPieces(h: real, t: real): (p: seq<real>)
    requires t > 0.0
  {
    if h <= t then [h] else var f := SplitCount(h, t); Repeat(h / (f as real), f)
  }

  /** Unrounded, every sub-layer is within the threshold, the sub-layers of a layer are equal
      and together they are exactly as tall as the layer. */
  lemma ExactPiecesFit(h: real, t: real)
    requires t > 0.0
    ensures forall x :: x in ExactPieces(h, t) ==> x <= t
    ensures forall x :: x in ExactPieces(h, t) ==> x * (|ExactPieces(h, t)| as real) == h
  {
    if h > t {
      SplitCountLeast(h, t);
    }
  }

  /** One more readable token extends the layers read by its value. */
  lemma ReadHeightsSnoc(tokens: seq<string>, i: nat, hs: seq<real>, h: real)
    requires i < |tokens| && ReadHeights(tokens[..i]) == Some(hs) && ParseReal(tokens[i]) == Some(h)
    ensures ReadHeights(tokens[..i + 1]) == Some(hs + [h])
  {
    assert tokens[..i + 1][..i] == tokens[..i];
  }

  /** The inner loop of `cormesh` for one layer: the layer, or its sub-layers one by one. */
  method AppendPieces(dense: seq<real>, h: real, t: real) returns (dense': seq<real>, gain: nat)
    requires t > 0.0
    ensures dense' == dense + Pieces(h, t) && gain == Extra(h, t)
  {
    if h <= t {
      return dense + [h], 0;
    }
    var factor := SplitCount(h, t);
    gain := factor - 1;
    var hd := Round4(h / (factor as real));
    dense' := dense;
    var k := 0;
    while k < factor
      invariant 0 <= k <= factor
      invariant dense' == dense + Repeat(hd, k)
    {
      dense' := dense' + [hd];
      k := k + 1;
    }
  }

  /** The densifying loop of `cormesh`: each token is converted in turn, and a layer above the
      threshold is appended as its sub-layers one by one. */
  method Densify(tokens: seq<string>, t: real) returns (res: Result<(seq<real>, seq<nat>)>)
    requires t > 0.0
    ensures res == match ReadHeights(tokens)
                   case None => Err(ValueError)
                   case Some(hs) => Ok((Dense(hs, t), Extras(hs, t)))
  {
    var dense: seq<real> := [];
    var factors: seq<nat> := [];
    ghost var hs: seq<real> := [];
    var i := 0;
    while i < |tokens|
      invariant 0 <= i <= |tokens|
      invariant ReadHeights(tokens[..i]) == Some(hs)
      invariant dense == Dense(hs, t) && factors == Extras(hs, t)
    {
      var v := ParseReal(tokens[i]);
      if v.None? {
        assert tokens[..i + 1][..i] == tokens[..i];
        ReadHeightsStops(tokens, i + 1);
        return Err(ValueError);
      }
      var gain;
      dense, gain := AppendPieces(dense, v.value, t);
      factors := factors + [gain];
      ReadHeightsSnoc(tokens, i, hs, v.value);
      DenseSnoc(hs, v.value, t);
      hs := hs + [v.value];
      i := i + 1;
    }
    assert tokens[..i] == tokens;
    return Ok((dense, factors));
  }

  // ---------------------------------------------------------------- regrouping the materials

  /** The sum of the first `k` gains. */
  function SumTo(ex: seq<nat>, k: nat): nat
    requires k <= |ex|
  {
    if k == 0 then 0 else SumTo(ex, k - 1) + ex[k - 1]
  }

  /** The gains up to `b` are those up to `a` and those of the layers in between. */
  lemma {:induction false} SumToSlice(ex: seq<nat>, a: nat, b: nat)
    requires a <= b <= |ex|
    ensures SumTo(ex, b) == SumTo(ex, a) + SumNat(ex[a..b])
  {
    if b > a {
      SumToSlice(ex, a, b - 1);
      assert ex[a..b][..b - a - 1] == ex[a..b - 1];
    } else {
      assert ex[a..b] == [];
    }
  }

  /** `sum(factors[:a])`, with Python's bounds for the slice end. */
  function PrefixSum(ex: seq<nat>, a: int): nat
  {
    SumTo(ex, SliceIndex(a, |ex|))
  }

  /** The new count of a group of `num` layers that starts at layer `cnt`: the gains of the layers
      it spans are added when they are positive. */
  function Widened(num: int, cnt: int, ex: seq<nat>): int
  {
    var f := PrefixSum(ex, cnt + num) - PrefixSum(ex, cnt);
    if f > 0 then num + f else num
  }

  /** The number of layers the groups `gs` span: the sum of their counts. */
  function Span(gs: seq<Group>): int
  {
    if gs == [] then 0
    else (match gs[0] case Group(n, _) => n case Unpackable => 0) + Span(gs[1..])
  }

  /** The groups of one `FA_type` line, the first of them starting at layer `cnt`, rewritten for
      the densified layers; `None` stands for the ValueError of unpacking an `Unpackable` group. */
  function Regroup(gs: seq<Group>, ex: seq<nat>, cnt: int): Option<seq<Group>>
  {
    if gs == [] then Some([])
    else
      match gs[0]
      case Unpackable => None
      case Group(num, mat) =>
        match Regroup(gs[1..], ex, cnt + num)
        case None => None
        case Some(rest) => Some([Group(Widened(num, cnt, ex), mat)] + rest)
  }

  /** The groups written so far followed by those still to come. */
  function After(done: seq<Group>, r: Option<seq<Group>>): Option<seq<Group>>
  {
    match r
    case None => None
    case Some(rest) => Some(done + rest)
  }

  lemma AfterNothing(r: Option<seq<Group>>)
    ensures After([], r) == r
  {
    if r.Some? {
      assert [] + r.value == r.value;
    }
  }

  /** A group as `cormesh` writes it: `n*m` for more than one layer, else the bare `m`. */
  function GroupToken(num: int, mat: int): (s: string)
    ensures s != [] && NoSpace(s)
  {
    if num > 1 then IntToString(num) + "*" + IntToString(mat) else IntToString(mat)
  }

  function GroupTokens(gs: seq<Group>): (ts: seq<string>)
    ensures |ts| == |gs| && GoodTokens(ts)
  {
    if gs == [] then []
    else GroupTokens(gs[..|gs| - 1]) + [match gs[|gs| - 1] case Group(n, m) => GroupToken(n, m) case Unpackable => "*"]
  }

  /** A written group reads back as its count and material; a count below two reads back as one. */
  lemma GroupTokenRoundTrip(num: int, mat: int)
    ensures ReadGroup(GroupToken(num, mat)) == Some(Group(if num > 1 then num else 1, mat))
  {
    IntRoundTrip(num);
    IntRoundTrip(mat);
    var a, b := IntToString(num), IntToString(mat);
    if num > 1 {
      assert (a + "*" + b)[|a|] == '*';
      SplitStarPair(a, b);
      ParseIntsPair(a, b, num, mat);
    }
  }

  /** The group a run of the `FA_type` record stands for: its count (a single cell counts as
      one) and its id. */
  function RunGroup(r: Run<int>): Group
  {
    Group(if r.count > 1 then r.count else 1, r.value)
  }

  function RunGroups(runs: seq<Run<int>>): (gs: seq<Group>)
    ensures |gs| == |runs| && forall i :: 0 <= i < |runs| ==> gs[i] == RunGroup(runs[i])
  {
    if runs == [] then [] else [RunGroup(runs[0])] + RunGroups(runs[1..])
  }

  /** The run tokens `toLAVENDER` writes read back, token by token, as the groups the first
      pass of `cormesh` keeps. */
  lemma {:induction false} RunTokensReadBack(runs: seq<Run<int>>)
    ensures ReadGroups(RunTokens(runs)) == Some(RunGroups(runs))
  {
    if runs != [] {
      var ts := RunTokens(runs);
      assert ts[0] == GroupToken(runs[0].count, runs[0].value);
      GroupTokenRoundTrip(runs[0].count, runs[0].value);
      assert ts[1..] == RunTokens(runs[1..]);
      RunTokensReadBack(runs[1..]);
    }
  }

  /** `Prefixed` grows at its end one token at a time. */
  lemma {:induction false} PrefixedSnoc(ts: seq<string>, t: string)
    ensures Prefixed(ts + [t]) == Prefixed(ts) + " " + t
  {
    if ts == [] {
      assert Prefixed([t]) == " " + t + Prefixed([]);
    } else {
      assert (ts + [t])[1..] == ts[1..] + [t];
      PrefixedSnoc(ts[1..], t);
    }
  }

  /** One more group read: it is written widened, and the groups after it start `num` layers
      further on. */
  lemma RegroupStep(gs: seq<Group>, ex: seq<nat>, i: nat, cnt: int, done: seq<Group>, num: int, mat: int)
    requires i < |gs| && gs[i] == Group(num, mat)
    ensures After(done, Regroup(gs[i..], ex, cnt))
         == After(done + [Group(Widened(num, cnt, ex), mat)], Regroup(gs[i + 1..], ex, cnt + num))
    ensures GroupTokens(done + [Group(Widened(num, cnt, ex), mat)])
         == GroupTokens(done) + [GroupToken(Widened(num, cnt, ex), mat)]
  {
    assert gs[i..][0] == gs[i] && gs[i..][1..] == gs[i + 1..];
    var g := Group(Widened(num, cnt, ex), mat);
    assert (done + [g])[..|done|] == done;
    match Regroup(gs[i + 1..], ex, cnt + num)
    case None =>
    case Some(rest) =>
      assert done + ([g] + rest) == (done + [g]) + rest;
  }

  /** The inner loop of `cormesh` over the groups of one `FA_type` line. */
  method WriteGroups(gs: seq<Group>, ex: seq<nat>) returns (res: Option<string>)
    ensures res == match Regroup(gs, ex, 0)
                   case None => None
                   case Some(ng) => Some(Prefixed(GroupTokens(ng)))
  {
    var out := "";
    var cnt := 0;
    ghost var done: seq<Group> := [];
    var i := 0;
    assert gs[0..] == gs;
    AfterNothing(Regroup(gs, ex, 0));
    while i < |gs|
      invariant 0 <= i <= |gs|
      invariant Regroup(gs, ex, 0) == After(done, Regroup(gs[i..], ex, cnt))
      invariant out == Prefixed(GroupTokens(done))
    {
      match gs[i]
      case Unpackable =>
        assert gs[i..][0] == gs[i];
        return None;
      case Group(num, mat) =>
        RegroupStep(gs, ex, i, cnt, done, num, mat);
        var factor := PrefixSum(ex, cnt + num) - PrefixSum(ex, cnt);
        cnt := cnt + num;
        var n := num;
        if factor > 0 {
          n := n + factor;
        }
        PrefixedSnoc(GroupTokens(done), GroupToken(n, mat));
        if n > 1 {
          out := out + " " + (IntToString(n) + "*" + IntToString(mat));
        } else {
          out := out + " " + IntToString(mat);
        }
        done := done + [Group(n, mat)];
      i := i + 1;
    }
    assert gs[i..] == [] && done + [] == done;
    return Some(out);
  }

  /** Every group is a pair with at least one layer. */
  predicate Positive(gs: seq<Group>)
  {
    forall i :: 0 <= i < |gs| ==> gs[i].Group? && gs[i].num >= 1
  }

  lemma {:induction false} SpanNonNegative(gs: seq<Group>)
    requires Positive(gs)
    ensures Span(gs) >= 0
  {
    if gs != [] {
      assert Positive(gs[1..]);
      SpanNonNegative(gs[1..]);
    }
  }

  /** The material of every layer an `FA_type` line describes, bottom to top. */
  function Cells(gs: seq<Group>): (c: seq<int>)
    requires Positive(gs)
    ensures |c| == Span(gs)
  {
    if gs == [] then [] else Repeat(gs[0].mat, gs[0].num) + Cells(gs[1..])
  }

  /** Each material in `ids` repeated once plus the gain of its layer: the material of every
      densified layer. */
  function Stretch(ids: seq<int>, ex: seq<nat>): seq<int>
    requires |ids| == |ex|
  {
    if ids == [] then [] else Repeat(ids[0], ex[0] + 1) + Stretch(ids[1..], ex[1..])
  }

  lemma RepeatAppend(v: int, a: nat, b: nat)
    ensures Repeat(v, a) + Repeat(v, b) == Repeat(v, a + b)
  {
    var l, r := Repeat(v, a) + Repeat(v, b), Repeat(v, a + b);
    assert forall i :: 0 <= i < |l| ==> l[i] == r[i];
  }

  lemma {:induction false} StretchAppend(a: seq<int>, x: seq<nat>, b: seq<int>, y: seq<nat>)
    requires |a| == |x| && |b| == |y|
    ensures Stretch(a + b, x + y) == Stretch(a, x) + Stretch(b, y)
  {
    if a != [] {
      assert (a + b)[1..] == a[1..] + b && (x + y)[1..] == x[1..] + y;
      StretchAppend(a[1..], x[1..], b, y);
    } else {
      assert a + b == b && x + y == y;
    }
  }

  /** `n` layers of one material, with gains `y`, become `n + sum(y)` layers of it. */
  lemma {:induction false} StretchRepeat(v: int, n: nat, y: seq<nat>)
    requires |y| == n
    ensures Stretch(Repeat(v, n), y) == Repeat(v, n + SumNat(y))
  {
    if n > 0 {
      assert Repeat(v, n)[1..] == Repeat(v, n - 1);
      StretchRepeat(v, n - 1, y[1..]);
      assert y == [y[0]] + y[1..];
      SumNatAppend([y[0]], y[1..]);
      assert SumNat([y[0]]) == y[0];
      RepeatAppend(v, y[0] + 1, n - 1 + SumNat(y[1..]));
    }
  }

  lemma {:induction false} StretchLength(ids: seq<int>, ex: seq<nat>)
    requires |ids| == |ex|
    ensures |Stretch(ids, ex)| == |ids| + SumNat(ex)
  {
    if ids != [] {
      StretchLength(ids[1..], ex[1..]);
      assert ex == [ex[0]] + ex[1..];
      SumNatAppend([ex[0]], ex[1..]);
      assert SumNat([ex[0]]) == ex[0];
    }
  }

  /** The gain of a group that lies within the layers. */
  lemma WidenedInside(num: int, cnt: int, ex: seq<nat>)
    requires 0 <= cnt && 1 <= num && cnt + num <= |ex|
    ensures Widened(num, cnt, ex) == num + SumNat(ex[cnt..cnt + num])
  {
    SumToSlice(ex, cnt, cnt + num);
  }

  /** `ng` is `gs` with each group widened by the gains of the layers it spans, `e` holding the
      gains of the layers of `gs` in order. */
  predicate Follows(ng: seq<Group>, gs: seq<Group>, e: seq<nat>)
  {
    if gs == [] then ng == []
    else
      ng != [] && gs[0].Group? && 0 <= gs[0].num <= |e|
      && ng[0] == Group(gs[0].num + SumNat(e[..gs[0].num]), gs[0].mat)
      && Follows(ng[1..], gs[1..], e[gs[0].num..])
  }

  /** A group that lies within the layers is widened by the gains of the layers it spans. */
  lemma RegroupCons(gs: seq<Group>, ex: seq<nat>, cnt: nat, rest: seq<Group>)
    requires gs != [] && gs[0].Group? && gs[0].num >= 1 && cnt + gs[0].num <= |ex|
    requires Regroup(gs[1..], ex, cnt + gs[0].num) == Some(rest)
    ensures Regroup(gs, ex, cnt)
         == Some([Group(gs[0].num + SumNat(ex[cnt..cnt + gs[0].num]), gs[0].mat)] + rest)
  {
    WidenedInside(gs[0].num, cnt, ex);
  }


  lemma SliceSplit(ex: seq<nat>, a: nat, n: nat, s: nat)
    requires a + n + s <= |ex|
    ensures ex[a..a + n + s][..n] == ex[a..a + n]
    ensures ex[a..a + n + s][n..] == ex[a + n..a + n + s]
  {
  }

  /** The first group widened by the gains of its own layers, ahead of groups that follow the
      rest, follows the whole line. */
  lemma FollowsStep(gs: seq<Group>, ex: seq<nat>, cnt: nat, s: nat, ng: seq<Group>)
    requires gs != [] && gs[0].Group? && gs[0].num >= 1 && cnt + gs[0].num + s <= |ex|
    requires ng != [] && ng[0] == Group(gs[0].num + SumNat(ex[cnt..cnt + gs[0].num]), gs[0].mat)
    requires Follows(ng[1..], gs[1..], ex[cnt + gs[0].num..cnt + gs[0].num + s])
    ensures Follows(ng, gs, ex[cnt..cnt + gs[0].num + s])
  {
    SliceSplit(ex, cnt, gs[0].num, s);
  }

  /** The groups of a line that lie within the layers are each widened by exactly the gains of
      the layers they span. */
  lemma {:induction false} RegroupFollows(gs: seq<Group>, ex: seq<nat>, cnt: nat)
    requires Positive(gs) && cnt + Span(gs) <= |ex|
    ensures Span(gs) >= 0 && Regroup(gs, ex, cnt).Some?
    ensures Follows(Regroup(gs, ex, cnt).value, gs, ex[cnt..cnt + Span(gs)])
  {
    SpanNonNegative(gs);
    if gs != [] {
      var tl := gs[1..];
      assert Positive(tl);
      SpanNonNegative(tl);
      assert Span(gs) == gs[0].num + Span(tl);
      RegroupFollows(tl, ex, cnt + gs[0].num);
      var rest := Regroup(tl, ex, cnt + gs[0].num).value;
      RegroupCons(gs, ex, cnt, rest);
      var ng := Regroup(gs, ex, cnt).value;
      assert ng[0] == Group(gs[0].num + SumNat(ex[cnt..cnt + gs[0].num]), gs[0].mat);
      assert ng[1..] == rest;
      assert Follows(ng[1..], tl, ex[cnt + gs[0].num..cnt + gs[0].num + Span(tl)]);
      FollowsStep(gs, ex, cnt, Span(tl), ng);
      assert cnt + gs[0].num + Span(tl) == cnt + Span(gs);
    }
  }

  lemma PositiveCons(g: Group, rest: seq<Group>)
    requires g.Group? && g.num >= 1 && Positive(rest)
    ensures Positive([g] + rest)
  {
    assert forall i :: 1 <= i < |rest| + 1 ==> ([g] + rest)[i] == rest[i - 1];
  }

  lemma CellsCons(g: Group, rest: seq<Group>)
    requires g.Group? && g.num >= 1 && Positive(rest)
    ensures Positive([g] + rest)
    ensures Cells([g] + rest) == Repeat(g.mat, g.num) + Cells(rest)
  {
    PositiveCons(g, rest);
    assert ([g] + rest)[1..] == rest;
  }

  /** Widening each group by the gains of its layers gives every densified layer the material of
      the layer it was split from. */
  lemma {:induction false} FollowsStretch(ng: seq<Group>, gs: seq<Group>, e: seq<nat>)
    requires Positive(gs) && |e| == Span(gs) && Follows(ng, gs, e)
    ensures Positive(ng) && Cells(ng) == Stretch(Cells(gs), e)
  {
    if gs != [] {
      var num, mat, tl := gs[0].num, gs[0].mat, gs[1..];
      assert Positive(tl);
      SpanNonNegative(tl);
      FollowsStretch(ng[1..], tl, e[num..]);
      var y := e[..num];
      CellsCons(ng[0], ng[1..]);
      assert [ng[0]] + ng[1..] == ng;
      CellsCons(gs[0], tl);
      assert [gs[0]] + tl == gs;
      StretchRepeat(mat, num, y);
      StretchAppend(Repeat(mat, num), y, Cells(tl), e[num..]);
      assert y + e[num..] == e;
    }
  }

  lemma {:induction false} SumToZero(ex: seq<nat>, k: nat)
    requires SumNat(ex) == 0 && k <= |ex|
    ensures SumTo(ex, k) == 0
  {
    SumToSlice(ex, 0, k);
    assert ex == ex[0..k] + ex[k..];
    SumNatAppend(ex[0..k], ex[k..]);
  }

  /** With no layer split, every group keeps its count: the line is written with the groups it
      was read with. */
  lemma {:induction false} RegroupUnchanged(gs: seq<Group>, ex: seq<nat>, cnt: int)
    requires forall i :: 0 <= i < |gs| ==> gs[i].Group?
    requires SumNat(ex) == 0
    ensures Regroup(gs, ex, cnt) == Some(gs)
  {
    if gs != [] {
      RegroupUnchanged(gs[1..], ex, cnt + gs[0].num);
      SumToZero(ex, SliceIndex(cnt + gs[0].num, |ex|));
      SumToZero(ex, SliceIndex(cnt, |ex|));
      assert [gs[0]] + gs[1..] == gs;
    }
  }

  /** The densified deck as a whole: an `FA_type` line that covers every layer is rewritten to
      cover every densified layer, each with the material of the layer it was split from. */
  lemma MaterialsFollowLayers(gs: seq<Group>, hs: seq<real>, t: real)
    requires t > 0.0
    requires Positive(gs) && Span(gs) == |hs|
    ensures Regroup(gs, Extras(hs, t), 0).Some? && Positive(Regroup(gs, Extras(hs, t), 0).value)
    ensures Cells(Regroup(gs, Extras(hs, t), 0).value) == Stretch(Cells(gs), Extras(hs, t))
    ensures |Cells(Regroup(gs, Extras(hs, t), 0).value)| == |Dense(hs, t)|
  {
    var ex := Extras(hs, t);
    RegroupFollows(gs, ex, 0);
    assert ex[0..Span(gs)] == ex;
    FollowsStretch(Regroup(gs, ex, 0).value, gs, ex);
    StretchLength(Cells(gs), ex);
    DenseLength(hs, t);
  }

  // ---------------------------------------------------------------- the height list

  /** A run of equal heights as `print_list` writes it: `n*h` for more than one, else `h`. */
  function HeightToken(r: Run<real>): (s: string)
    ensures s != [] && NoSpace(s)
  {
    if r.count > 1 then IntToString(r.count) + "*" + Fixed4(r.value) else Fixed4(r.value)
  }

  function HeightTokens(runs: seq<Run<real>>): (ts: seq<string>)
    ensures |ts| == |runs| && GoodTokens(ts)
  {
    if runs == [] then [] else HeightTokens(runs[..|runs| - 1]) + [HeightToken(runs[|runs| - 1])]
  }

  lemma {:induction false} HeightTokensAt(runs: seq<Run<real>>, i: nat)
    requires i < |runs|
    ensures HeightTokens(runs)[i] == HeightToken(runs[i])
  {
    if i < |runs| - 1 {
      HeightTokensAt(runs[..|runs| - 1], i);
    }
  }

  /** `print_list` as written: every run but the last is written with its count; the last run is
      written as its bare height, its count dropped. */
  function PrintListAsWritten(xs: seq<real>): string
  {
    var runs := Encode(xs);
    if runs == [] then "" else Join(HeightTokens(runs[..|runs| - 1]) + [Fixed4(runs[|runs| - 1].value)])
  }

  /** `print_list` as intended: every run of equal heights is written with its count. */
  function PrintList(xs: seq<real>): string
  {
    Join(HeightTokens(Encode(xs)))
  }

  /** One more height seen by the loop of `print_list`: it either lengthens the open run or
      closes it and opens a new one. */
  lemma PrintStep(ls: seq<real>, i: nat, done: seq<Run<real>>, cnt: nat, prev: real)
    requires 0 < i < |ls| && cnt >= 1 && Encode(ls[..i]) == done + [Run(cnt, prev)]
    ensures ls[i] == prev ==> Encode(ls[..i + 1]) == done + [Run(cnt + 1, prev)]
    ensures ls[i] != prev ==> Encode(ls[..i + 1]) == (done + [Run(cnt, prev)]) + [Run(1, ls[i])]
    ensures HeightTokens(done + [Run(cnt, prev)]) == HeightTokens(done) + [HeightToken(Run(cnt, prev))]
  {
    assert ls[..i + 1][..i] == ls[..i];
    assert Encode(ls[..i + 1]) == Push(Encode(ls[..i]), ls[i]);
    assert (done + [Run(cnt, prev)])[..|done|] == done;
  }

  lemma PrintFirst(ls: seq<real>)
    requires |ls| > 0
    ensures Encode(ls[..1]) == [] + [Run(1, ls[0])]
  {
    assert ls[..1] == [] + [ls[0]];
    assert Encode(ls[..1]) == Push([], ls[0]);
  }

  /** After the loop, the open run is the last one: it is written without its count. */
  lemma PrintLast(ls: seq<real>, done: seq<Run<real>>, cnt: nat, prev: real)
    requires Encode(ls) == done + [Run(cnt, prev)]
    ensures PrintListAsWritten(ls) == Join(HeightTokens(done) + [Fixed4(prev)])
  {
    var runs := Encode(ls);
    assert runs[..|runs| - 1] == done;
  }

  /** The loop of `print_list`, as written. */
  method PrintListLoop(ls: seq<real>) returns (s: string)
    ensures s == PrintListAsWritten(ls)
  {
    if |ls| == 0 {
      return "";
    }
    var slist: seq<string> := [];
    var prev := ls[0];
    var cnt: nat := 0;
    ghost var done: seq<Run<real>> := [];
    var i := 0;
    while i < |ls|
      invariant 0 <= i <= |ls|
      invariant i == 0 ==> cnt == 0 && prev == ls[0] && done == []
      invariant i > 0 ==> cnt >= 1 && Encode(ls[..i]) == done + [Run(cnt, prev)]
      invariant slist == HeightTokens(done)
    {
      var elem := ls[i];
      if i == 0 {
        PrintFirst(ls);
      } else {
        PrintStep(ls, i, done, cnt, prev);
      }
      if elem == prev {
        cnt := cnt + 1;
      } else {
        if cnt == 1 {
          slist := slist + [Fixed4(prev)];
        } else {
          slist := slist + [IntToString(cnt) + "*" + Fixed4(prev)];
        }
        done := done + [Run(cnt, prev)];
        prev := elem;
        cnt := 1;
      }
      i := i + 1;
    }
    assert ls[..i] == ls;
    PrintLast(ls, done, cnt, prev);
    return Join(slist + [Fixed4(prev)]);
  }

  /** The reading of a height token that the rewritten `layer` line calls for: `n*h` stands for
      `n` copies of `h`, a bare `h` for one. */
  function ReadHeightRun(tok: string): Option<Run<real>>
  {
    if '*' in tok then
      var ps := SplitStar(tok);
      if |ps| != 2 then None
      else
        match ParseInt(ps[0])
        case None => None
        case Some(n) =>
          match ParseReal(ps[1])
          case None => None
          case Some(h) => if n >= 1 then Some(Run(n, h)) else None
    else
      match ParseReal(tok)
      case None => None
      case Some(h) => Some(Run(1, h))
  }

  function ReadHeightRuns(ts: seq<string>): (r: Option<seq<Run<real>>>)
  {
    if ts == [] then Some([])
    else
      match ReadHeightRuns(ts[..|ts| - 1])
      case None => None
      case Some(rs) =>
        match ReadHeightRun(ts[|ts| - 1])
        case None => None
        case Some(r) => Some(rs + [r])
  }

  function Rounded(xs: seq<real>): (ys: seq<real>)
    ensures |ys| == |xs| && forall i :: 0 <= i < |xs| ==> ys[i] == Round4(xs[i])
  {
    seq(|xs|, i requires 0 <= i < |xs| => Round4(xs[i]))
  }

  function RoundRuns(runs: seq<Run<real>>): (rs: seq<Run<real>>)
    ensures |rs| == |runs|
    ensures forall i :: 0 <= i < |runs| ==> rs[i] == Run(runs[i].count, Round4(runs[i].value))
  {
    seq(|runs|, i requires 0 <= i < |runs| => Run(runs[i].count, Round4(runs[i].value)))
  }

  lemma HeightTokenRoundTrip(r: Run<real>)
    requires r.count >= 1
    ensures ReadHeightRun(HeightToken(r)) == Some(Run(r.count, Round4(r.value)))
  {
    Fixed4RoundTrip(r.value);
    var v := Fixed4(r.value);
    if r.count > 1 {
      var c := IntToString(r.count);
      IntRoundTrip(r.count);
      assert (c + "*" + v)[|c|] == '*';
      SplitStarPair(c, v);
    }
  }

  lemma ReadRunsSnoc(ts: seq<string>, t: string, rs: seq<Run<real>>, r: Run<real>)
    requires ReadHeightRuns(ts) == Some(rs) && ReadHeightRun(t) == Some(r)
    ensures ReadHeightRuns(ts + [t]) == Some(rs + [r])
  {
    assert (ts + [t])[..|ts|] == ts;
  }

  /** Tokens that each read back as the rounded run at the same place read back as the rounded
      record. */
  lemma {:induction false} ReadEachRun(ts: seq<string>, runs: seq<Run<real>>)
    requires |ts| == |runs|
    requires forall i :: 0 <= i < |ts| ==> ReadHeightRun(ts[i]) == Some(Run(runs[i].count, Round4(runs[i].value)))
    ensures ReadHeightRuns(ts) == Some(RoundRuns(runs))
  {
    if ts == [] {
      assert RoundRuns(runs) == [];
    } else {
      var n := |ts| - 1;
      ReadEachRun(ts[..n], runs[..n]);
      ReadRunsSnoc(ts[..n], ts[n], RoundRuns(runs[..n]), Run(runs[n].count, Round4(runs[n].value)));
      assert ts[..n] + [ts[n]] == ts;
      assert RoundRuns(runs) == RoundRuns(runs[..n]) + [Run(runs[n].count, Round4(runs[n].value))];
    }
  }

  lemma ReadHeightTokens(runs: seq<Run<real>>)
    requires forall i :: 0 <= i < |runs| ==> runs[i].count >= 1
    ensures ReadHeightRuns(HeightTokens(runs)) == Some(RoundRuns(runs))
  {
    var ts := HeightTokens(runs);
    forall i | 0 <= i < |ts|
      ensures ReadHeightRun(ts[i]) == Some(Run(runs[i].count, Round4(runs[i].value)))
    {
      HeightTokensAt(runs, i);
      HeightTokenRoundTrip(runs[i]);
    }
    ReadEachRun(ts, runs);
  }

  lemma {:induction false} ExpandRounded(runs: seq<Run<real>>)
    ensures Expand(RoundRuns(runs)) == Rounded(Expand(runs))
  {
    if runs != [] {
      var init, last := runs[..|runs| - 1], runs[|runs| - 1];
      ExpandRounded(init);
      var rr := RoundRuns(runs);
      assert rr[..|rr| - 1] == RoundRuns(init);
      assert Rounded(Expand(init) + Repeat(last.value, last.count))
          == Rounded(Expand(init)) + Repeat(Round4(last.value), last.count);
    }
  }

  /** Reading back the intended height list gives every layer, rounded to four decimals, in
      order: nothing is lost or duplicated. */
  lemma PrintListRoundTrip(xs: seq<real>)
    ensures ReadHeightRuns(Words(PrintList(xs))).Some?
    ensures Expand(ReadHeightRuns(Words(PrintList(xs))).value) == Rounded(xs)
  {
    var runs := Encode(xs);
    EncodeCorrect(xs);
    WordsJoin(HeightTokens(runs));
    ReadHeightTokens(runs);
    ExpandRounded(runs);
  }

  lemma Fixed4One()
    ensures Fixed4(1.0) == "1.0000"
  {
    RoundHalfEvenInt(10000);
    assert Units4(1.0) == 10000;
    assert NatToString(1) == "1";
    assert Digits4(0) == "0000";
  }

  lemma EncodePair(x: real)
    ensures Encode([x, x]) == [Run(2, x)]
  {
    assert [x, x][..1] == [x] && [x][..0] == [];
    assert Encode([x]) == Push([], x);
  }

  /** The list `[1.0, 1.0]` (one layer of 2.0 split in two) is written by `print_list` as the
      single token `1.0000`, which reads back as one layer, where the intended text `2*1.0000`
      stands for both. */
  lemma PrintListDropsLastCount()
    ensures PrintListAsWritten([1.0, 1.0]) == "1.0000"
    ensures PrintList([1.0, 1.0]) == "2*1.0000"
    ensures ReadHeightRuns(Words(PrintListAsWritten([1.0, 1.0]))) == Some([Run(1, 1.0)])
  {
    EncodePair(1.0);
    Fixed4One();
    var runs := [Run(2, 1.0)];
    assert runs[..0] == [];
    assert PrintListAsWritten([1.0, 1.0]) == Join([] + ["1.0000"]);
    assert HeightToken(Run(2, 1.0)) == IntToString(2) + "*" + "1.0000";
    assert IntToString(2) == "2";
    assert "2" + "*" + "1.0000" == "2*1.0000";
    assert runs[..0] == [] && HeightTokens(runs) == [HeightToken(Run(2, 1.0))];
    OneTokenReadsBack(1.0);
    RoundHalfEvenInt(10000);
    assert Round4(1.0) == 1.0;
  }

  lemma OneTokenReadsBack(x: real)
    ensures ReadHeightRuns(Words(Fixed4(x))) == Some([Run(1, Round4(x))])
  {
    var v := Fixed4(x);
    HeightTokenRoundTrip(Run(1, x));
    assert HeightToken(Run(1, x)) == v;
    WordsOne(v);
    ReadOneRun(v, Run(1, Round4(x)));
  }

  lemma WordsOne(v: string)
    requires v != [] && NoSpace(v)
    ensures Words(v) == [v]
  {
    WordsJoin([v]);
    assert Join([v]) == v;
  }

  lemma ReadOneRun(v: string, r: Run<real>)
    requires ReadHeightRun(v) == Some(r)
    ensures ReadHeightRuns([v]) == Some([r])
  {
    assert [v][..0] == [] && [v][0] == v;
    assert ReadHeightRuns([]) == Some([]);
    assert [] + [r] == [r];
  }

  /** A densified list with two equal neighbours is written with an `n*h` token, which the
      deferred `float` conversion of the first pass rejects: the densifier cannot read its own
      output. */
  lemma CompressedHeightsRejected(xs: seq<real>, i: nat)
    requires i < |Encode(xs)| && Encode(xs)[i].count > 1
    ensures ReadHeights(Words(PrintList(xs))) == None
  {
    var runs := Encode(xs);
    WordsJoin(HeightTokens(runs));
    var c := IntToString(runs[i].count);
    var tok := HeightTokens(runs)[i];
    HeightTokensAt(runs, i);
    assert tok == c + "*" + Fixed4(runs[i].value);
    assert tok[|c|] == '*';
    ParseRealRejectsStar(tok, |c|);
    ReadHeightsFails(HeightTokens(runs), i);
  }

  // ---------------------------------------------------------------- writing the deck

  function LayerText(dense: seq<real>): string
  {
    PadRight("layer", 16) + PadRight(IntToString(|dense|), 16) + PrintListAsWritten(dense) + "\n"
  }

  function FaText(idx: int, ng: seq<Group>): string
  {
    PadRight("FA_type", 16) + PadRight(IntToString(idx), 15) + Prefixed(GroupTokens(ng)) + "\n"
  }

  /** The second pass: a `layer` line is replaced by the densified list; the `k`-th `FA_type`
      line (from zero) is renumbered `k + 1` and its groups rewritten; any other line is copied. */
  function WriteDeck(lines: seq<string>, fa: seq<seq<Group>>, dense: seq<real>, ex: seq<nat>): Result<string>
  {
    if lines == [] then Ok("")
    else
      var init, line := lines[..|lines| - 1], lines[|lines| - 1];
      match WriteDeck(init, fa, dense, ex)
      case Err(e) => Err(e)
      case Ok(out) =>
        match KindOf(line)
        case LayerLine => Ok(out + LayerText(dense))
        case OtherLine => Ok(out + line)
        case FaTypeLine =>
          var k := FaCount(init);
          if k >= |fa| then Err(IndexError)
          else
            match Regroup(fa[k], ex, 0)
            case None => Err(ValueError)
            case Some(ng) => Ok(out + FaText(k + 1, ng))
  }

  lemma {:induction false} WriteDeckStops(lines: seq<string>, fa: seq<seq<Group>>, dense: seq<real>, ex: seq<nat>, j: nat)
    requires j <= |lines| && WriteDeck(lines[..j], fa, dense, ex).Err?
    ensures WriteDeck(lines, fa, dense, ex) == WriteDeck(lines[..j], fa, dense, ex)
    decreases |lines| - j
  {
    if j < |lines| {
      assert lines[..j + 1][..j] == lines[..j];
      WriteDeckStops(lines, fa, dense, ex, j + 1);
    } else {
      assert lines[..j] == lines;
    }
  }

  /** One more line written by the second pass. */
  lemma WriteStep(lines: seq<string>, fa: seq<seq<Group>>, dense: seq<real>, ex: seq<nat>, i: nat, out: string)
    requires i < |lines| && WriteDeck(lines[..i], fa, dense, ex) == Ok(out)
    ensures FaCount(lines[..i + 1]) == FaCount(lines[..i]) + (if KindOf(lines[i]) == FaTypeLine then 1 else 0)
    ensures KindOf(lines[i]) == LayerLine ==> WriteDeck(lines[..i + 1], fa, dense, ex) == Ok(out + LayerText(dense))
    ensures KindOf(lines[i]) == OtherLine ==> WriteDeck(lines[..i + 1], fa, dense, ex) == Ok(out + lines[i])
    ensures KindOf(lines[i]) == FaTypeLine ==>
      var k := FaCount(lines[..i]);
      WriteDeck(lines[..i + 1], fa, dense, ex) ==
        if k >= |fa| then Err(IndexError)
        else match Regroup(fa[k], ex, 0)
             case None => Err(ValueError)
             case Some(ng) => Ok(out + FaText(k + 1, ng))
  {
    assert lines[..i + 1][..i] == lines[..i];
  }

  /** The writing loop of `cormesh`. */
  method WriteLines(lines: seq<string>, fa: seq<seq<Group>>, dense: seq<real>, ex: seq<nat>) returns (res: Result<string>)
    ensures res == WriteDeck(lines, fa, dense, ex)
  {
    var out := "";
    var faIdx := -1;
    var i := 0;
    while i < |lines|
      invariant 0 <= i <= |lines|
      invariant faIdx == FaCount(lines[..i]) - 1
      invariant WriteDeck(lines[..i], fa, dense, ex) == Ok(out)
    {
      WriteStep(lines, fa, dense, ex, i, out);
      var line := lines[i];
      if "layer" <= line {
        var list := PrintListLoop(dense);
        out := out + (PadRight("layer", 16) + PadRight(IntToString(|dense|), 16) + list + "\n");
      } else if !("FA_type" <= line) {
        out := out + line;
      } else {
        faIdx := faIdx + 1;
        if faIdx >= |fa| {
          WriteDeckStops(lines, fa, dense, ex, i + 1);
          return Err(IndexError);
        }
        var groups := WriteGroups(fa[faIdx], ex);
        if groups.None? {
          WriteDeckStops(lines, fa, dense, ex, i + 1);
          return Err(ValueError);
        }
        out := out + (PadRight("FA_type", 16) + PadRight(IntToString(faIdx + 1), 15) + groups.value + "\n");
      }
      i := i + 1;
    }
    assert lines[..i] == lines;
    return Ok(out);
  }

  // ---------------------------------------------------------------- the whole run

  /** The rewritten deck and the two layer counts of the closing message. */
  datatype Outcome = Outcome(deck: string, before: nat, after: nat)

  /** `cormesh(path, t)`; `isFile` says whether `path` names an existing regular file. */
  function Densified(isFile: bool, lines: seq<string>, t: real): Result<Outcome>
  {
    if !isFile then Err(RuntimeError)
    else if t <= 0.0 then Err(ValueError)
    else
      match ReadDeck(lines)
      case Err(e) => Err(e)
      case Ok(d) =>
        match d.layer
        case None => Err(NameError)
        case Some(ts) => Rewritten(lines, d.fa, ts, t)
  }

  /** What follows the first pass: the heights are converted and densified, then the deck is
      written again. */
  function Rewritten(lines: seq<string>, fa: seq<seq<Group>>, ts: seq<string>, t: real): Result<Outcome>
    requires t > 0.0
  {
    match ReadHeights(ts)
    case None => Err(ValueError)
    case Some(hs) =>
      var ex := Extras(hs, t);
      match WriteDeck(lines, fa, Dense(hs, t), ex)
      case Err(e) => Err(e)
      case Ok(text) => Ok(Outcome(text, |ex|, |ex| + SumNat(ex)))
  }

  method CorMesh(isFile: bool, lines: seq<string>, t: real) returns (res: Result<Outcome>)
    ensures res == Densified(isFile, lines, t)
    ensures !isFile ==> res == Err(RuntimeError)
    ensures isFile && t <= 0.0 ==> res == Err(ValueError)
  {
    if !isFile {
      return Err(RuntimeError);
    }
    if t <= 0.0 {
      return Err(ValueError);
    }
    var read := ReadLines(lines);
    if read.Err? {
      return Err(read.err);
    }
    var deck := read.value;
    if deck.layer.None? {
      return Err(NameError);
    }
    res := Rewrite(lines, deck.fa, deck.layer.value, t);
  }

  method Rewrite(lines: seq<string>, fa: seq<seq<Group>>, tokens: seq<string>, t: real) returns (res: Result<Outcome>)
    requires t > 0.0
    ensures res == Rewritten(lines, fa, tokens, t)
  {
    var densified := Densify(tokens, t);
    if densified.Err? {
      return Err(densified.err);
    }
    var (dense, factors) := densified.value;
    var text := WriteLines(lines, fa, dense, factors);
    if text.Err? {
      return Err(text.err);
    }
    return Ok(Outcome(text.value, |factors|, |factors| + SumNat(factors)));
  }
}
