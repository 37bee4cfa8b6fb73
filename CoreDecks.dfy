/** The lists the core writes into its decks (core.py): the `geom_kind` entry of the TULIP
    deck, one code per numbered section compressed into `n*v` groups, and the `layer` line of the
    LAVENDER deck, the heights of the axial mesh cells. */
module CoreDecks {
  import opened Base
  import opened Text
  import opened RunLength
  import opened Format
  import opened SectionDef

  // ---------------------------------------------------------------- geom_kind

  /** The TULIP code of an equivalence method: `homo` is 1, `1-D` is 2, `supercell` is 3; any
      other method has none. */
  function GeomCode(eqMethod: string): (c: Option<int>)
    ensures c.Some? <==> eqMethod in {"homo", "1-D", "supercell"}
    ensures c.Some? ==> 1 <= c.value <= 3
  {
    if eqMethod == "homo" then Some(1)
    else if eqMethod == "1-D" then Some(2)
    else if eqMethod == "supercell" then Some(3)
    else None
  }

  /** The codes of the sections, in order; `None` when some section has a method without a code.
      */
  function GeomCodes(ss: seq<Section>): (r: Option<seq<int>>)
    ensures r.None? <==> exists i :: 0 <= i < |ss| && GeomCode(ss[i].eqMethod).None?
    ensures r.Some? ==> |r.value| == |ss|
    ensures r.Some? ==> forall i :: 0 <= i < |ss| ==> Some(r.value[i]) == GeomCode(ss[i].eqMethod)
  {
    if ss == [] then Some([])
    else
      var init := ss[..|ss| - 1];
      assert forall i :: 0 <= i < |init| ==> init[i] == ss[i];
      match GeomCodes(init)
      case None => None
      case Some(cs) =>
        match GeomCode(ss[|ss| - 1].eqMethod)
        case None => None
        case Some(c) => Some(cs + [c])
  }

  /** The `geom_kind` entry: the codes compressed into runs, each written `n*v` or `v`, joined by
      blanks; a section with a method without a code is a `ValueError`. */
  function GeomKind(ss: seq<Section>): Result<string>
  {
    match GeomCodes(ss)
    case None => Err(ValueError)
    case Some(cs) => Ok(Join(RunTokens(Encode(cs))))
  }

  /** The written entry reads back as runs whose expansion is the codes of the sections, one per
      section, with no two adjacent runs of the same code. */
  lemma GeomKindRuns(ss: seq<Section>)
    requires GeomCodes(ss).Some?
    ensures GeomKind(ss).Ok?
    ensures var runs := Encode(GeomCodes(ss).value);
      Words(GeomKind(ss).value) == RunTokens(runs) && Canonical(runs) && Expand(runs) == GeomCodes(ss).value
  {
    var runs := Encode(GeomCodes(ss).value);
    EncodeCorrect(GeomCodes(ss).value);
    WordsJoin(RunTokens(runs));
  }

  /** How the last written group reads: its last character names its code, it holds a `*`
      exactly when it counts more than one section, and then what precedes `*v` is the count. */
  lemma LastGroup(r: Run<int>)
    requires r.count >= 1 && 1 <= r.value <= 3
    ensures var t := RunToken(r);
      |t| >= 1 && t[|t| - 1] == IntToString(r.value)[0] && |IntToString(r.value)| == 1
    ensures var t := RunToken(r);
      ('*' in t <==> r.count > 1) &&
      (r.count > 1 ==> |t| >= 2 && ParseInt(t[..|t| - 2]) == Some(r.count))
  {
    var t, g := RunToken(r), IntToString(r.value);
    assert g == [DigitChar(r.value)];
    if r.count > 1 {
      var n := IntToString(r.count);
      assert t == n + "*" + g;
      assert t[|n|] == '*';
      assert t[..|t| - 2] == n;
      IntRoundTrip(r.count);
    }
  }

  lemma CodeDigits(a: int, b: int)
    requires 1 <= a <= 3 && 1 <= b <= 3
    ensures IntToString(a)[0] == IntToString(b)[0] <==> a == b
  {
    assert IntToString(a) == [DigitChar(a)] && IntToString(b) == [DigitChar(b)];
  }

  /** The last run of the compressed codes holds the last code, and every run at least one
      section. */
  lemma EncodeLast(cs: seq<int>)
    requires cs != []
    ensures Encode(cs) != [] && Encode(cs)[|Encode(cs)| - 1].value == cs[|cs| - 1]
    ensures forall i :: 0 <= i < |Encode(cs)| ==> Encode(cs)[i].count >= 1
  {
    var init := cs[..|cs| - 1];
    assert cs == init + [cs[|cs| - 1]];
    EncodeSnoc(init, cs[|cs| - 1]);
    PushLast(Encode(init), cs[|cs| - 1]);
    EncodeCorrect(cs);
  }

  lemma TokensSnoc(runs: seq<Run<int>>, r: Run<int>)
    ensures RunTokens(runs + [r]) == RunTokens(runs) + [RunToken(r)]
  {
    var a, b := RunTokens(runs + [r]), RunTokens(runs) + [RunToken(r)];
    assert forall i :: 0 <= i < |a| ==> a[i] == b[i];
  }

  /** Replacing the last run replaces the last written group and keeps the others. */
  lemma TokensMerge(runs: seq<Run<int>>, r: Run<int>)
    requires runs != []
    ensures var init := runs[..|runs| - 1];
      RunTokens(runs) == RunTokens(init) + [RunToken(runs[|runs| - 1])] &&
      RunTokens(init + [r]) == RunTokens(init) + [RunToken(r)]
  {
    var init := runs[..|runs| - 1];
    assert runs == init + [runs[|runs| - 1]];
    TokensSnoc(init, runs[|runs| - 1]);
    TokensSnoc(init, r);
  }

  /** The group written for a run lengthened by one section, from the group written before:
      a bare `v` becomes `2*v`, and `n*v` becomes `n+1*v`. */
  lemma GrownToken(last: Run<int>, t: string)
    requires last.count >= 1 && 1 <= last.value <= 3 && t == RunToken(last)
    ensures '*' !in t ==> RunToken(Run(last.count + 1, last.value)) == "2*" + IntToString(last.value)
    ensures '*' in t ==>
      |t| >= 2 && ParseInt(t[..|t| - 2]).Some? &&
      RunToken(Run(last.count + 1, last.value)) ==
        IntToString(1 + ParseInt(t[..|t| - 2]).value) + "*" + IntToString(last.value)
  {
    LastGroup(last);
    assert IntToString(2) == "2";
  }

  /** The last run of the codes so far: at least one section of a valid code. */
  predicate ValidLast(runs: seq<Run<int>>)
  {
    runs != [] ==> runs[|runs| - 1].count >= 1 && 1 <= runs[|runs| - 1].value <= 3
  }

  /** The last written group ends with the digit of code `c` exactly when the last run is a run
      of `c`. */
  lemma SameCode(runs: seq<Run<int>>, c: int)
    requires runs != [] && ValidLast(runs) && 1 <= c <= 3
    ensures var t := RunTokens(runs)[|runs| - 1];
      t == RunToken(runs[|runs| - 1]) && |t| >= 1 &&
      (t[|t| - 1] == IntToString(c)[0] <==> runs[|runs| - 1].value == c)
  {
    LastGroup(runs[|runs| - 1]);
    CodeDigits(runs[|runs| - 1].value, c);
  }

  /** A code whose digit differs from the end of the last group opens a new group `c`. */
  lemma PushNew(runs: seq<Run<int>>, c: int)
    requires runs != [] && ValidLast(runs) && 1 <= c <= 3
    requires var t := RunTokens(runs)[|runs| - 1]; t[|t| - 1] != IntToString(c)[0]
    ensures RunTokens(Push(runs, c)) == RunTokens(runs) + [IntToString(c)]
  {
    SameCode(runs, c);
    TokensSnoc(runs, Run(1, c));
  }

  /** Lengthening the last run by a code equal to its own replaces the last group by the group
      of the longer run and keeps the others. */
  lemma PushGrow(runs: seq<Run<int>>, c: int)
    requires runs != [] && runs[|runs| - 1].value == c
    ensures var last := runs[|runs| - 1];
      RunTokens(Push(runs, c)) == RunTokens(runs)[..|runs| - 1] + [RunToken(Run(last.count + 1, c))]
  {
    var init, last := runs[..|runs| - 1], runs[|runs| - 1];
    TokensMerge(runs, Run(last.count + 1, c));
    assert RunTokens(runs)[..|runs| - 1] == RunTokens(init);
  }

  /** A code equal to the bare last group `c` turns it into `2*c`. */
  lemma PushGrowBare(runs: seq<Run<int>>, c: int)
    requires runs != [] && ValidLast(runs) && 1 <= c <= 3
    requires var t := RunTokens(runs)[|runs| - 1]; t[|t| - 1] == IntToString(c)[0] && '*' !in t
    ensures RunTokens(Push(runs, c)) == RunTokens(runs)[..|runs| - 1] + ["2*" + IntToString(c)]
  {
    SameCode(runs, c);
    var last := runs[|runs| - 1];
    GrownToken(last, RunToken(last));
    PushGrow(runs, c);
  }

  /** A code equal to the last group `n*c` turns it into `n+1*c`. */
  lemma PushGrowCount(runs: seq<Run<int>>, c: int)
    requires runs != [] && ValidLast(runs) && 1 <= c <= 3
    requires var t := RunTokens(runs)[|runs| - 1]; t[|t| - 1] == IntToString(c)[0] && '*' in t
    ensures var t := RunTokens(runs)[|runs| - 1];
      |t| >= 2 && ParseInt(t[..|t| - 2]).Some? &&
      RunTokens(Push(runs, c)) ==
        RunTokens(runs)[..|runs| - 1] + [IntToString(1 + ParseInt(t[..|t| - 2]).value) + "*" + IntToString(c)]
  {
    SameCode(runs, c);
    var last, t := runs[|runs| - 1], RunTokens(runs)[|runs| - 1];
    assert last.value == c;
    GrownToken(last, t);
    PushGrow(runs, c);
  }

  /** The body of the `geom_kind` loop for a section with code `c` (written `gk`): the code
      extends the last group when that group ends with the same code, and is appended as a new
      group otherwise; the groups are those of the runs with `c` pushed. */
  method AddCode(tokens: seq<string>, gk: string, c: int, ghost runs: seq<Run<int>>) returns (tokens': seq<string>)
    requires ValidLast(runs) && 1 <= c <= 3 && gk == IntToString(c)
    requires tokens == RunTokens(runs)
    ensures tokens' == RunTokens(Push(runs, c))
  {
    if |tokens| == 0 {
      assert Push(runs, c) == [Run(1, c)];
      return tokens + [gk];
    }
    var t := tokens[|tokens| - 1];
    if t[|t| - 1] == gk[0] {
      if '*' !in t {
        PushGrowBare(runs, c);
        tokens' := tokens[..|tokens| - 1] + ["2*" + gk];
      } else {
        PushGrowCount(runs, c);
        var n := ParseInt(t[..|t| - 2]).value;
        tokens' := tokens[..|tokens| - 1] + [IntToString(1 + n) + "*" + gk];
      }
    } else {
      PushNew(runs, c);
      tokens' := tokens + [gk];
    }
  }

  /** The branches of the `geom_kind` loop that name the code of one section's method. */
  method CodeOf(eqMethod: string) returns (code: Option<int>, gk: string)
    ensures code == GeomCode(eqMethod)
    ensures code.Some? ==> gk == IntToString(code.value)
  {
    if eqMethod == "homo" {
      code, gk := Some(1), "1";
    } else if eqMethod == "1-D" {
      code, gk := Some(2), "2";
    } else if eqMethod == "supercell" {
      code, gk := Some(3), "3";
    } else {
      code, gk := None, "";
    }
    assert code.Some? ==> gk == [DigitChar(code.value)];
  }

  /** One more section extends the codes by its own, and the last run so far is a run of a
      valid code. */
  lemma GeomCodesStep(ss: seq<Section>, i: nat, cs: seq<int>, c: int)
    requires i < |ss| && GeomCodes(ss[..i]) == Some(cs) && GeomCode(ss[i].eqMethod) == Some(c)
    ensures GeomCodes(ss[..i + 1]) == Some(cs + [c])
    ensures ValidLast(Encode(cs))
  {
    assert ss[..i + 1][..i] == ss[..i];
    if cs != [] {
      EncodeLast(cs);
      assert Some(cs[|cs| - 1]) == GeomCode(ss[|cs| - 1].eqMethod);
    }
  }

  /** The `geom_kind` loop of `toTULIP`: each section's method is turned into its code, which is
      added to the groups written so far; a method without a code raises `ValueError`. */
  method WriteGeomKind(ss: seq<Section>) returns (res: Result<string>)
    ensures res == GeomKind(ss)
  {
    var tokens: seq<string> := [];
    ghost var cs: seq<int> := [];
    var i := 0;
    while i < |ss|
      invariant 0 <= i <= |ss|
      invariant GeomCodes(ss[..i]) == Some(cs)
      invariant tokens == RunTokens(Encode(cs))
    {
      var code, gk := CodeOf(ss[i].eqMethod);
      if code.None? {
        return Err(ValueError);
      }
      GeomCodesStep(ss, i, cs, code.value);
      EncodeSnoc(cs, code.value);
      tokens := AddCode(tokens, gk, code.value, Encode(cs));
      cs := cs + [code.value];
      i := i + 1;
    }
    assert ss[..i] == ss;
    return Ok(Join(tokens));
  }

  // ---------------------------------------------------------------- the layer line

  /** `np.diff(meshgrid)`: the height of every mesh cell. */
  function Diffs(m: seq<real>): (d: seq<real>)
    ensures |d| == if m == [] then 0 else |m| - 1
    ensures forall i :: 0 <= i < |d| ==> d[i] == m[i + 1] - m[i]
  {
    if |m| <= 1 then [] else Diffs(m[..|m| - 1]) + [m[|m| - 1] - m[|m| - 2]]
  }

  /** The cell heights add up to the height of the whole mesh. */
  lemma {:induction false} DiffsTelescope(m: seq<real>)
    requires |m| >= 1
    ensures Sum(Diffs(m)) == m[|m| - 1] - m[0]
  {
    if |m| > 1 {
      var pre := m[..|m| - 1];
      DiffsTelescope(pre);
      assert Diffs(m)[..|Diffs(m)| - 1] == Diffs(pre);
    }
  }

  /** Over a strictly increasing mesh every cell has a positive height. */
  lemma DiffsPositive(m: seq<real>)
    requires StrictlyIncreasing(m)
    ensures forall i :: 0 <= i < |Diffs(m)| ==> Diffs(m)[i] > 0.0
  {
  }

  function FixedAll(d: seq<real>): (ts: seq<string>)
    ensures |ts| == |d| && GoodTokens(ts)
    ensures forall i :: 0 <= i < |d| ==> ts[i] == Fixed4(d[i])
  {
    if d == [] then [] else [Fixed4(d[0])] + FixedAll(d[1..])
  }

  /** The `layer` line of the LAVENDER deck: the keyword and the number of cells, each in a field
      of 16, then the cell heights with four decimals, blank-separated, in a field of 16. */
  function LayerLine(meshgrid: seq<real>): string
  {
    var d := Diffs(meshgrid);
    PadRight("layer", 16) + PadRight(IntToString(|d|), 16) + PadRight(Join(FixedAll(d)), 16)
  }

  lemma FixedAllSnoc(d: seq<real>, i: nat)
    requires i < |d|
    ensures FixedAll(d[..i + 1]) == FixedAll(d[..i]) + [Fixed4(d[i])]
  {
    var f, g := FixedAll(d[..i + 1]), FixedAll(d[..i]) + [Fixed4(d[i])];
    assert forall j :: 0 <= j < |f| ==> f[j] == g[j];
  }

  /** The layer loop of `toLAVENDER`: every cell height of `np.diff(meshgrid)` is written with
      four decimals, then the line is assembled. */
  method WriteLayerLine(meshgrid: seq<real>) returns (line: string)
    ensures line == LayerLine(meshgrid)
  {
    var d := Diffs(meshgrid);
    var sLayer: seq<string> := [];
    var i := 0;
    while i < |d|
      invariant 0 <= i <= |d|
      invariant sLayer == FixedAll(d[..i])
    {
      FixedAllSnoc(d, i);
      sLayer := sLayer + [Fixed4(d[i])];
      i := i + 1;
    }
    assert d[..i] == d;
    line := PadRight("layer", 16) + PadRight(IntToString(|sLayer|), 16) + PadRight(Join(sLayer), 16);
  }

  /** The line names one cell fewer than there are mesh heights, and its heights read back as
      the cell heights rounded to four decimals. */
  lemma LayerLineReads(meshgrid: seq<real>)
    requires |meshgrid| >= 1
    ensures |Diffs(meshgrid)| == |meshgrid| - 1
    ensures var ts := FixedAll(Diffs(meshgrid));
      Words(Join(ts)) == ts &&
      forall i :: 0 <= i < |ts| ==> ParseReal(ts[i]) == Some(Round4(meshgrid[i + 1] - meshgrid[i]))
  {
    var d := Diffs(meshgrid);
    var ts := FixedAll(d);
    WordsJoin(ts);
    FixedAllReads(d);
    forall i | 0 <= i < |ts|
      ensures ParseReal(ts[i]) == Some(Round4(meshgrid[i + 1] - meshgrid[i]))
    {
      assert ParseReal(ts[i]) == Some(Round4(d[i]));
    }
  }

  /** Every written height reads back as the height rounded to four decimals. */
  lemma FixedAllReads(d: seq<real>)
    ensures forall i :: 0 <= i < |d| ==> ParseReal(FixedAll(d)[i]) == Some(Round4(d[i]))
  {
    forall i | 0 <= i < |d|
      ensures ParseReal(FixedAll(d)[i]) == Some(Round4(d[i]))
    {
      Fixed4RoundTrip(d[i]);
    }
  }
}
