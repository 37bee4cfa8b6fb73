/** Run-length records: the `n*v` groups that every deck list of identifiers (and the densified
    layer-height list) is written in. A record is a sequence of (count, value) runs; `Encode`
    is the reference compression, built by the same append-or-merge step that the encoders in
    the source perform on the last entry of their output list. */
module RunLength {
  import opened Text

  datatype Run<T> = Run(count: nat, value: T)

  function Repeat<T>(v: T, n: nat): (s: seq<T>)
    ensures |s| == n && forall i :: 0 <= i < n ==> s[i] == v
  {
    if n == 0 then [] else Repeat(v, n - 1) + [v]
  }

  /** The per-cell sequence a record stands for. */
  function Expand<T>(runs: seq<Run<T>>): seq<T>
  {
    if runs == [] then [] else Expand(runs[..|runs| - 1]) + Repeat(runs[|runs| - 1].value, runs[|runs| - 1].count)
  }

  /** Every run is non-empty and no two adjacent runs carry the same value. */
  predicate Canonical<T(==)>(runs: seq<Run<T>>)
  {
    (forall i :: 0 <= i < |runs| ==> runs[i].count >= 1) &&
    (forall i :: 0 < i < |runs| ==> runs[i - 1].value != runs[i].value)
  }

  /** One encoder step: the next cell either lengthens the last run (same value) or opens a new
      run of length one. */
  function Push<T(==)>(runs: seq<Run<T>>, x: T): seq<Run<T>>
  {
    if runs != [] && runs[|runs| - 1].value == x then
      runs[..|runs| - 1] + [Run(runs[|runs| - 1].count + 1, x)]
    else runs + [Run(1, x)]
  }

  /** Reference compression of a sequence, one `Push` per element from the left. */
  function Encode<T(==)>(xs: seq<T>): seq<Run<T>>
  {
    if xs == [] then [] else Push(Encode(xs[..|xs| - 1]), xs[|xs| - 1])
  }

  lemma ExpandSnoc<T>(runs: seq<Run<T>>, r: Run<T>)
    ensures Expand(runs + [r]) == Expand(runs) + Repeat(r.value, r.count)
  {
    assert (runs + [r])[..|runs + [r]| - 1] == runs;
  }

  lemma {:induction false} ExpandPush<T>(runs: seq<Run<T>>, x: T)
    ensures Expand(Push(runs, x)) == Expand(runs) + [x]
  {
    if runs != [] && runs[|runs| - 1].value == x {
      var init, last := runs[..|runs| - 1], runs[|runs| - 1];
      ExpandSnoc(init, Run(last.count + 1, x));
      assert runs == init + [last];
      ExpandSnoc(init, last);
      assert Repeat(x, last.count + 1) == Repeat(x, last.count) + [x];
    } else {
      ExpandSnoc(runs, Run(1, x));
      assert Repeat(x, 1) == [x];
    }
  }

  /** The last run of a pushed record carries the pushed value. */
  lemma PushLast<T>(runs: seq<Run<T>>, x: T)
    ensures |Push(runs, x)| > 0 && Push(runs, x)[|Push(runs, x)| - 1].value == x
  {
  }

  lemma {:induction false} PushCanonical<T>(runs: seq<Run<T>>, x: T)
    requires Canonical(runs)
    ensures Canonical(Push(runs, x))
  {
  }

  /** Expanding the reference compression gives back the input, and the compression is
      canonical. */
  lemma {:induction false} EncodeCorrect<T>(xs: seq<T>)
    ensures Expand(Encode(xs)) == xs
    ensures Canonical(Encode(xs))
    ensures |Encode(xs)| <= |xs|
  {
    if xs != [] {
      var init := xs[..|xs| - 1];
      EncodeCorrect(init);
      ExpandPush(Encode(init), xs[|xs| - 1]);
      PushCanonical(Encode(init), xs[|xs| - 1]);
      assert init + [xs[|xs| - 1]] == xs;
    }
  }

  /** A canonical record is determined by its expansion: it is the reference compression. */
  lemma {:induction false} CanonicalUnique<T>(runs: seq<Run<T>>)
    requires Canonical(runs)
    ensures Encode(Expand(runs)) == runs
  {
    if runs != [] {
      var init, last := runs[..|runs| - 1], runs[|runs| - 1];
      assert Canonical(init);
      CanonicalUnique(init);
      EncodeRepeat(init, last.value, last.count);
      assert runs == init + [last];
    }
  }

  /** Compressing a canonical prefix followed by `n >= 1` copies of a value that differs from the
      prefix's last value appends exactly the run `(n, v)`. */
  lemma {:induction false} EncodeRepeat<T>(init: seq<Run<T>>, v: T, n: nat)
    requires Canonical(init) && Encode(Expand(init)) == init
    requires n >= 1
    requires init != [] ==> init[|init| - 1].value != v
    ensures Encode(Expand(init) + Repeat(v, n)) == init + [Run(n, v)]
  {
    var pre := Expand(init);
    if n == 1 {
      calc {
        Encode(pre + Repeat(v, 1));
        { assert pre + Repeat(v, 1) == pre + [v]; }
        Encode(pre + [v]);
        { EncodeSnoc(pre, v); }
        Push(init, v);
        init + [Run(1, v)];
      }
    } else {
      var r := init + [Run(n - 1, v)];
      calc {
        Encode(pre + Repeat(v, n));
        { assert pre + Repeat(v, n) == (pre + Repeat(v, n - 1)) + [v]; }
        Encode((pre + Repeat(v, n - 1)) + [v]);
        { EncodeSnoc(pre + Repeat(v, n - 1), v); }
        Push(Encode(pre + Repeat(v, n - 1)), v);
        { EncodeRepeat(init, v, n - 1); }
        Push(r, v);
        { assert r[..|r| - 1] == init; }
        init + [Run(n, v)];
      }
    }
  }

  lemma EncodeSnoc<T>(xs: seq<T>, x: T)
    ensures Encode(xs + [x]) == Push(Encode(xs), x)
  {
    assert (xs + [x])[..|xs + [x]| - 1] == xs;
  }

  /** A run as written in a deck: `n*v` when it holds more than one cell, else the bare `v`. */
  function RunToken(r: Run<int>): (t: string)
    ensures t != [] && NoSpace(t)
  {
    if r.count > 1 then IntToString(r.count) + "*" + IntToString(r.value) else IntToString(r.value)
  }

  function RunTokens(runs: seq<Run<int>>): (ts: seq<string>)
    ensures |ts| == |runs| && GoodTokens(ts)
    ensures forall i :: 0 <= i < |runs| ==> ts[i] == RunToken(runs[i])
  {
    if runs == [] then [] else [RunToken(runs[0])] + RunTokens(runs[1..])
  }
}
