/** Shared vocabulary: the Python exception kinds the modelled code raises, outcome
    datatypes for operations that may raise, and small numeric helpers over reals. */
module Base {

  /** The exception classes raised by the modelled operations. */
  datatype PyError =
    | TypeError
    | ValueError
    | RuntimeError
    | AssertionError
    | AttributeError
    | IndexError
    | NameError          // also stands for UnboundLocalError, its subclass

  /** Outcome of an operation that returns nothing or raises. */
  datatype Status = Done | Raised(err: PyError)

  /** Outcome of an operation that returns a value or raises. */
  datatype Result<+T> = Ok(value: T) | Err(err: PyError)

  datatype Option<+T> = None | Some(value: T)

  /** A dynamically typed argument: either of the expected Python type or of some other type. */
  datatype Typed<+T> = Typed(val: T) | WrongType

  function Abs(x: real): (r: real)
    ensures r >= 0.0 && (r == x || r == -x)
  {
    if x < 0.0 then -x else x
  }

  /** Sum of a sequence of reals, left to right. */
  function Sum(s: seq<real>): real
  {
    if s == [] then 0.0 else Sum(s[..|s| - 1]) + s[|s| - 1]
  }

  /** Sum of a sequence of naturals. */
  function SumNat(s: seq<nat>): nat
  {
    if s == [] then 0 else SumNat(s[..|s| - 1]) + s[|s| - 1]
  }

  lemma {:induction false} SumAppend(a: seq<real>, b: seq<real>)
    ensures Sum(a + b) == Sum(a) + Sum(b)
  {
    if b == [] {
      assert a + b == a;
    } else {
      assert (a + b)[..|a + b| - 1] == a + b[..|b| - 1];
      SumAppend(a, b[..|b| - 1]);
    }
  }

  lemma {:induction false} SumNatAppend(a: seq<nat>, b: seq<nat>)
    ensures SumNat(a + b) == SumNat(a) + SumNat(b)
  {
    if b == [] {
      assert a + b == a;
    } else {
      assert (a + b)[..|a + b| - 1] == a + b[..|b| - 1];
      SumNatAppend(a, b[..|b| - 1]);
    }
  }

  /** Arithmetic mean of a non-empty sequence. */
  function Mean(s: seq<real>): real
    requires |s| > 0
  {
    Sum(s) / (|s| as real)
  }

  predicate StrictlyIncreasing(s: seq<real>)
  {
    forall i, j :: 0 <= i < j < |s| ==> s[i] < s[j]
  }

  predicate NonDecreasing(s: seq<real>)
  {
    forall i, j :: 0 <= i < j < |s| ==> s[i] <= s[j]
  }

  /** The mean of a non-empty sequence lies between its least and its greatest element. */
  lemma {:induction false} MeanBetween(s: seq<real>, lo: real, hi: real)
    requires |s| > 0
    requires forall i :: 0 <= i < |s| ==> lo <= s[i] <= hi
    ensures lo <= Mean(s) <= hi
  {
    SumBetween(s, lo, hi);
  }

  lemma {:induction false} SumBetween(s: seq<real>, lo: real, hi: real)
    requires forall i :: 0 <= i < |s| ==> lo <= s[i] <= hi
    ensures (|s| as real) * lo <= Sum(s) <= (|s| as real) * hi
  {
    if s != [] {
      SumBetween(s[..|s| - 1], lo, hi);
    }
  }

  /** The mean of a sequence whose elements all lie strictly above `lo` is strictly above `lo`,
      and likewise strictly below an upper bound. */
  lemma {:induction false} MeanStrict(s: seq<real>, lo: real, hi: real)
    requires |s| > 0
    requires forall i :: 0 <= i < |s| ==> lo < s[i] < hi
    ensures lo < Mean(s) < hi
  {
    SumStrict(s, lo, hi);
  }

  lemma {:induction false} SumStrict(s: seq<real>, lo: real, hi: real)
    requires |s| > 0
    requires forall i :: 0 <= i < |s| ==> lo < s[i] < hi
    ensures (|s| as real) * lo < Sum(s) < (|s| as real) * hi
  {
    if |s| > 1 {
      SumStrict(s[..|s| - 1], lo, hi);
    }
  }

  /** A slice index as Python normalises it for a sequence of length `n`. */
  function SliceIndex(i: int, n: nat): (j: nat)
    ensures j <= n
    ensures 0 <= i <= n ==> j == i
    ensures -(n as int) <= i < 0 ==> j == i + n
  {
    if i < 0 then (if i + n < 0 then 0 else i + n) else if i > n then n else i
  }

  /** Python's `math.ceil` on a real. */
  function Ceil(x: real): (c: int)
    ensures c as real >= x && (c as real) - 1.0 < x
  {
    if x.Floor as real == x then x.Floor else x.Floor + 1
  }
}
