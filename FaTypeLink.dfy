/** How the two deck programs meet: the `FA_type` line that `Assembly.toLAVENDER` writes
    (assembly.py) is the line that the first pass of the densifier (cormesh.py) reads back. */
module FaTypeLink {
  import opened Base
  import opened Text
  import opened RunLength
  import opened CorMesh
  import AssemblyDef

  /** An `FA_type` line as `toLAVENDER` writes it is recognised as one by `cormesh`, and its
      words after the keyword and the id read back as one group per run of the record: the
      count and the id of the run, a single cell counted as one. The id must leave a blank in
      its 16-wide column, otherwise it runs into the first token. */
  lemma FaLineReadBack(id: int, runs: seq<Run<int>>)
    requires |IntToString(id)| < 16
    ensures KindOf(AssemblyDef.FaLine(id, runs)) == FaTypeLine
    ensures ReadGroups(AfterTwo(Words(AssemblyDef.FaLine(id, runs)))) == Some(RunGroups(runs))
  {
    var kw, idStr, ts := "FA_type", IntToString(id), RunTokens(runs);
    var line := AssemblyDef.FaLine(id, runs);
    assert line == PadRight(kw, 16) + PadRight(idStr, 16) + Join(ts);
    FaTypeKind(kw, line);
    ColumnsWords(kw, idStr, 16, ts);
    assert AfterTwo(Words(line)) == ts;
    RunTokensReadBack(runs);
  }

  lemma FaTypeKind(kw: string, line: string)
    requires kw == "FA_type" && kw <= line
    ensures KindOf(line) == FaTypeLine
  {
    assert line[0] == 'F';
  }
}
