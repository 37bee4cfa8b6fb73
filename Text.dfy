/** The small part of Python's string handling the modelled code relies on: whitespace
    splitting (`str.split()`), ASCII lower-casing, `str.replace`, string ordering, decimal
    rendering of integers, left-justified padding (`'{:<n}'`), and the `int()`/`float()`
    conversions of single tokens. */
module Text {
  import opened Base

  /** The ASCII characters `str.split()` treats as whitespace. */
  predicate IsSpace(c: char)
  {
    c == ' ' || ('\t' <= c <= '\r') || ('\U{1c}' <= c <= '\U{1f}')
  }

  predicate NoSpace(s: string)
  {
    forall i :: 0 <= i < |s| ==> !IsSpace(s[i])
  }

  predicate AllSpace(s: string)
  {
    forall i :: 0 <= i < |s| ==> IsSpace(s[i])
  }

  function DropSpaces(s: string): (t: string)
    ensures |t| <= |s| && t == s[|s| - |t|..]
    ensures t == [] || !IsSpace(t[0])
  {
    if s != [] && IsSpace(s[0]) then DropSpaces(s[1..]) else s
  }

  /** The longest prefix of `s` that holds no whitespace. */
  function TakeWord(s: string): (w: string)
    ensures w <= s && NoSpace(w)
    ensures |w| < |s| ==> IsSpace(s[|w|])
  {
    if s != [] && !IsSpace(s[0]) then [s[0]] + TakeWord(s[1..]) else []
  }

  /** Python's `s.split()`: the maximal runs of non-whitespace characters, in order. */
  function Words(s: string): seq<string>
    decreases |s|
  {
    var t := DropSpaces(s);
    if t == [] then []
    else
      var w := TakeWord(t);
      [w] + Words(t[|w|..])
  }

  lemma {:induction false} DropSpacesPrefix(sp: string, rest: string)
    requires AllSpace(sp)
    requires rest == [] || !IsSpace(rest[0])
    ensures DropSpaces(sp + rest) == rest
  {
    if sp != [] {
      assert (sp + rest)[1..] == sp[1..] + rest;
      DropSpacesPrefix(sp[1..], rest);
    } else {
      assert sp + rest == rest;
    }
  }

  lemma {:induction false} TakeWordPrefix(w: string, rest: string)
    requires NoSpace(w)
    requires rest == [] || IsSpace(rest[0])
    ensures TakeWord(w + rest) == w
  {
    if w != [] {
      assert (w + rest)[1..] == w[1..] + rest;
      TakeWordPrefix(w[1..], rest);
    } else {
      assert w + rest == rest;
    }
  }

  /** Splitting whitespace, then a word, then text that starts with whitespace (or nothing). */
  lemma {:induction false} WordsCons(sp: string, w: string, rest: string)
    requires AllSpace(sp) && w != [] && NoSpace(w)
    requires rest == [] || IsSpace(rest[0])
    ensures Words(sp + w + rest) == [w] + Words(rest)
  {
    assert sp + w + rest == sp + (w + rest);
    DropSpacesPrefix(sp, w + rest);
    TakeWordPrefix(w, rest);
    assert (w + rest)[|w|..] == rest;
  }

  /** Leading whitespace before a word (or before nothing) does not change the split. */
  lemma WordsAfterSpaces(sp: string, s: string)
    requires AllSpace(sp)
    requires s == [] || !IsSpace(s[0])
    ensures Words(sp + s) == Words(s)
  {
    DropSpacesPrefix(sp, s);
    DropSpacesPrefix("", s);
    assert "" + s == s;
  }

  lemma {:induction false} WordsOfSpaces(sp: string)
    requires AllSpace(sp)
    ensures Words(sp) == []
  {
    DropSpacesPrefix(sp, []);
    assert sp + [] == sp;
  }

  /** `' '.join(tokens)`. */
  function Join(tokens: seq<string>): string
  {
    if tokens == [] then ""
    else if |tokens| == 1 then tokens[0]
    else tokens[0] + " " + Join(tokens[1..])
  }

  /** Each token preceded by one blank, as written by `' {:d}'` in a loop. */
  function Prefixed(tokens: seq<string>): string
  {
    if tokens == [] then "" else " " + tokens[0] + Prefixed(tokens[1..])
  }

  predicate GoodTokens(tokens: seq<string>)
  {
    forall i :: 0 <= i < |tokens| ==> tokens[i] != [] && NoSpace(tokens[i])
  }

  /** Splitting a blank-joined list of tokens gives the tokens back. */
  lemma {:induction false} WordsJoin(tokens: seq<string>)
    requires GoodTokens(tokens)
    ensures Words(Join(tokens)) == tokens
  {
    if tokens == [] {
      WordsOfSpaces("");
    } else {
      JoinPrefixed(tokens);
      assert GoodTokens(tokens[1..]);
      WordsPrefixed(tokens[1..]);
      WordsLead(tokens[0], Prefixed(tokens[1..]));
    }
  }

  lemma {:induction false} WordsLead(w: string, rest: string)
    requires w != [] && NoSpace(w)
    requires rest == [] || IsSpace(rest[0])
    ensures Words(w + rest) == [w] + Words(rest)
  {
    var line := w + rest;
    assert line[0] == w[0];
    assert DropSpaces(line) == line;
    TakeWordPrefix(w, rest);
    assert line[|w|..] == rest;
  }

  /** A word left-justified in a wider column, then text that starts with a word (or nothing):
      the split gives the word, then the words of the text. */
  lemma PaddedWord(x: string, w: nat, rest: string)
    requires x != [] && NoSpace(x) && |x| < w
    requires rest == [] || !IsSpace(rest[0])
    ensures Words(PadRight(x, w) + rest) == [x] + Words(rest)
  {
    var sp := Spaces(w - |x|);
    var tail := sp + rest;
    assert PadRight(x, w) + rest == x + tail;
    assert tail[0] == sp[0];
    WordsAfterSpaces(sp, rest);
    WordsLead(x, tail);
  }

  /** The words of a line of two left-justified columns, each wider than its text, followed by
      blank-joined tokens. */
  lemma ColumnsWords(a: string, b: string, w: nat, ts: seq<string>)
    requires a != [] && NoSpace(a) && |a| < w
    requires b != [] && NoSpace(b) && |b| < w
    requires GoodTokens(ts)
    ensures Words(PadRight(a, w) + PadRight(b, w) + Join(ts)) == [a, b] + ts
  {
    var pa, pb, joined := PadRight(a, w), PadRight(b, w), Join(ts);
    ColumnWords(b, w, ts);
    PaddedWord(a, w, pb + joined);
    ConcatAssoc(pa, pb, joined);
    ConcatAssoc([a], [b], ts);
  }

  lemma ConcatAssoc<T>(x: seq<T>, y: seq<T>, z: seq<T>)
    ensures x + y + z == x + (y + z)
  {
  }

  /** One left-justified column, wider than its text, followed by blank-joined tokens. */
  lemma ColumnWords(b: string, w: nat, ts: seq<string>)
    requires b != [] && NoSpace(b) && |b| < w
    requires GoodTokens(ts)
    ensures !IsSpace((PadRight(b, w) + Join(ts))[0])
    ensures Words(PadRight(b, w) + Join(ts)) == [b] + ts
  {
    JoinLeads(ts);
    PaddedWord(b, w, Join(ts));
    WordsJoin(ts);
    assert (PadRight(b, w) + Join(ts))[0] == b[0];
  }

  /** Blank-joined tokens start with a word, or are empty. */
  lemma JoinLeads(ts: seq<string>)
    requires GoodTokens(ts)
    ensures Join(ts) == [] || !IsSpace(Join(ts)[0])
  {
    if ts != [] {
      JoinPrefixed(ts);
      assert Join(ts)[0] == ts[0][0];
    }
  }

  lemma {:induction false} JoinPrefixed(tokens: seq<string>)
    requires tokens != []
    ensures Join(tokens) == tokens[0] + Prefixed(tokens[1..])
  {
    if |tokens| == 1 {
      assert tokens[1..] == [];
    } else {
      JoinPrefixed(tokens[1..]);
      assert tokens[1..][1..] == tokens[2..];
    }
  }

  lemma {:induction false} WordsPrefixed(tokens: seq<string>)
    requires GoodTokens(tokens)
    ensures Words(Prefixed(tokens)) == tokens
  {
    if tokens == [] {
      WordsOfSpaces("");
    } else {
      var rest := Prefixed(tokens[1..]);
      assert Prefixed(tokens) == " " + tokens[0] + rest;
      assert AllSpace(" ");
      PrefixedLead(tokens[1..]);
      WordsCons(" ", tokens[0], rest);
      assert GoodTokens(tokens[1..]);
      WordsPrefixed(tokens[1..]);
      assert tokens == [tokens[0]] + tokens[1..];
    }
  }

  lemma {:induction false} PrefixedLead(tokens: seq<string>)
    ensures Prefixed(tokens) == [] || Prefixed(tokens)[0] == ' '
  {
  }

  function Spaces(n: nat): (s: string)
    ensures |s| == n && AllSpace(s)
  {
    if n == 0 then "" else " " + Spaces(n - 1)
  }

  /** `'{:<w}'.format(s)`: `s` left-justified in a field of `w` characters. */
  function PadRight(s: string, w: nat): (p: string)
    ensures p == s + Spaces(if |s| < w then w - |s| else 0)
  {
    if |s| < w then s + Spaces(w - |s|) else s
  }

  /** `'{:>w}'.format(s)`: `s` right-justified in a field of `w` characters. */
  function PadLeft(s: string, w: nat): (p: string)
    ensures |p| == if |s| < w then w else |s|
    ensures p[|p| - |s|..] == s && AllSpace(p[..|p| - |s|])
  {
    var pad := Spaces(if |s| < w then w - |s| else 0);
    assert (pad + s)[..|pad|] == pad;
    pad + s
  }

  // ---------------------------------------------------------------- case and replace

  /** Python's `str.lower()` restricted to ASCII letters. */
  function AsciiLower(s: string): (t: string)
    ensures |t| == |s|
    ensures forall i :: 0 <= i < |s| ==>
      t[i] == (if 'A' <= s[i] <= 'Z' then (s[i] as int + 32) as char else s[i])
  {
    if s == [] then ""
    else [if 'A' <= s[0] <= 'Z' then (s[0] as int + 32) as char else s[0]] + AsciiLower(s[1..])
  }

  predicate Occurs(pat: string, s: string)
  {
    exists i :: 0 <= i <= |s| && pat <= s[i..]
  }

  /** Python's `s.replace(pat, rep)` for a non-empty `pat`: every non-overlapping occurrence,
      scanning from the left, is replaced. */
  function Replace(s: string, pat: string, rep: string): string
    requires pat != []
    decreases |s|
  {
    if |s| < |pat| then s
    else if s[..|pat|] == pat then rep + Replace(s[|pat|..], pat, rep)
    else [s[0]] + Replace(s[1..], pat, rep)
  }

  /** Without an occurrence of the pattern the string is unchanged. */
  lemma {:induction false} ReplaceAbsent(s: string, pat: string, rep: string)
    requires pat != [] && !Occurs(pat, s)
    ensures Replace(s, pat, rep) == s
  {
    if |s| >= |pat| {
      assert s[0..] == s;
      assert !Occurs(pat, s[1..]) by {
        forall i | 0 <= i <= |s[1..]|
          ensures !(pat <= s[1..][i..])
        {
          assert s[1..][i..] == s[i + 1..];
        }
      }
      ReplaceAbsent(s[1..], pat, rep);
    }
  }

  /** A string that is exactly the pattern becomes exactly the replacement. */
  lemma {:induction false} ReplaceWhole(pat: string, rep: string)
    requires pat != []
    ensures Replace(pat, pat, rep) == rep
  {
    assert pat[..|pat|] == pat;
    assert pat[|pat|..] == [];
    assert rep + [] == rep;
  }

  // ---------------------------------------------------------------- ordering

  /** Python's `a <= b` on strings: lexicographic by code point. */
  predicate StrLe(a: string, b: string)
  {
    if a == [] then true
    else if b == [] then false
    else if a[0] < b[0] then true
    else if a[0] > b[0] then false
    else StrLe(a[1..], b[1..])
  }

  lemma {:induction false} StrLeTotal(a: string, b: string)
    ensures StrLe(a, b) || StrLe(b, a)
  {
    if a != [] && b != [] && a[0] == b[0] {
      StrLeTotal(a[1..], b[1..]);
    }
  }

  lemma {:induction false} StrLeTransitive(a: string, b: string, c: string)
    requires StrLe(a, b) && StrLe(b, c)
    ensures StrLe(a, c)
  {
    if a != [] && b != [] && c != [] && a[0] == b[0] && b[0] == c[0] {
      StrLeTransitive(a[1..], b[1..], c[1..]);
    }
  }

  lemma {:induction false} StrLeAntisymmetric(a: string, b: string)
    requires StrLe(a, b) && StrLe(b, a)
    ensures a == b
  {
    if a != [] && b != [] {
      StrLeAntisymmetric(a[1..], b[1..]);
      assert a == [a[0]] + a[1..] && b == [b[0]] + b[1..];
    }
  }

  // ---------------------------------------------------------------- integers

  predicate IsDigit(c: char)
  {
    '0' <= c <= '9'
  }

  predicate AllDigits(s: string)
  {
    forall i :: 0 <= i < |s| ==> IsDigit(s[i])
  }

  function DigitChar(d: nat): (c: char)
    requires d < 10
    ensures IsDigit(c) && c as int - '0' as int == d
  {
    ('0' as int + d) as char
  }

  /** The decimal value of a string of digits. */
  function DigitsValue(s: string): nat
    requires AllDigits(s)
  {
    if s == [] then 0 else 10 * DigitsValue(s[..|s| - 1]) + (s[|s| - 1] as int - '0' as int)
  }

  /** `'{:d}'.format(n)` for a natural number. */
  function NatToString(n: nat): (s: string)
    ensures s != [] && AllDigits(s)
    decreases n
  {
    if n < 10 then [DigitChar(n)] else NatToString(n / 10) + [DigitChar(n % 10)]
  }

  /** `'{:d}'.format(i)` for any integer. */
  function IntToString(i: int): (s: string)
    ensures s != [] && NoSpace(s)
    ensures forall j :: 0 <= j < |s| ==> s[j] != '*' && s[j] != '.'
  {
    var d := NatToString(if i < 0 then -i else i);
    assert forall j :: 0 <= j < |d| ==> IsDigit(d[j]);
    if i < 0 then "-" + d else d
  }

  lemma {:induction false} DigitsValueNatToString(n: nat)
    ensures DigitsValue(NatToString(n)) == n
  {
    if n >= 10 {
      DigitsValueNatToString(n / 10);
      var s := NatToString(n);
      assert s[..|s| - 1] == NatToString(n / 10);
    }
  }

  /** Python's `int(token)` on a token without whitespace: an optional sign followed by at least
      one ASCII digit. */
  function ParseInt(s: string): (r: Option<int>)
    ensures r.Some? ==> s != [] && forall j :: 0 <= j < |s| ==> s[j] != '*'
  {
    if s != [] && (s[0] == '-' || s[0] == '+') then
      var body := s[1..];
      if body != [] && AllDigits(body) then
        Some(if s[0] == '-' then -(DigitsValue(body) as int) else DigitsValue(body) as int)
      else None
    else if s != [] && AllDigits(s) then Some(DigitsValue(s))
    else None
  }

  /** Rendering an integer and reading it back gives the integer. */
  lemma {:induction false} IntRoundTrip(i: int)
    ensures ParseInt(IntToString(i)) == Some(i)
  {
    var d := NatToString(if i < 0 then -i else i);
    DigitsValueNatToString(if i < 0 then -i else i);
    if i < 0 {
      assert ("-" + d)[1..] == d;
    } else {
      assert d[0] != '-' && d[0] != '+' by { assert IsDigit(d[0]); }
    }
  }

  // ---------------------------------------------------------------- reals

  function Pow10(n: nat): (p: nat)
    ensures p > 0
  {
    if n == 0 then 1 else 10 * Pow10(n - 1)
  }

  /** The value of an unsigned decimal `int.frac`, where either part may be empty but not both. */
  function UnsignedDecimal(s: string): Option<real>
  {
    if exists i :: 0 <= i < |s| && s[i] == '.' then
      var p := DotIndex(s);
      var ip, fp := s[..p], s[p + 1..];
      if (ip != [] || fp != []) && AllDigits(ip) && AllDigits(fp) then
        Some(DigitsValue(ip) as real + (DigitsValue(fp) as real) / (Pow10(|fp|) as real))
      else None
    else if s != [] && AllDigits(s) then Some(DigitsValue(s) as real)
    else None
  }

  function DotIndex(s: string): (p: nat)
    requires exists i :: 0 <= i < |s| && s[i] == '.'
    ensures p < |s| && s[p] == '.' && forall j :: 0 <= j < p ==> s[j] != '.'
  {
    if s[0] == '.' then 0 else 1 + DotIndex(s[1..])
  }

  /** Python's `float(token)` for plain decimal notation: an optional sign, then digits with at
      most one decimal point. */
  function ParseReal(s: string): Option<real>
  {
    if s != [] && (s[0] == '-' || s[0] == '+') then
      match UnsignedDecimal(s[1..])
      case Some(v) => Some(if s[0] == '-' then -v else v)
      case None => None
    else UnsignedDecimal(s)
  }

  /** A token holding `*` is not a plain decimal: `float('2*0.5000')` raises. */
  lemma {:induction false} ParseRealRejectsStar(s: string, j: nat)
    requires j < |s| && s[j] == '*'
    ensures ParseReal(s) == None
  {
    if s != [] && (s[0] == '-' || s[0] == '+') {
      UnsignedRejectsStar(s[1..], j - 1);
    } else {
      UnsignedRejectsStar(s, j);
    }
  }

  lemma {:induction false} UnsignedRejectsStar(s: string, j: int)
    requires 0 <= j < |s| && s[j] == '*'
    ensures UnsignedDecimal(s) == None
  {
    if exists i :: 0 <= i < |s| && s[i] == '.' {
      var p := DotIndex(s);
      if j < p {
        assert s[..p][j] == '*';
      } else {
        assert s[p + 1..][j - p - 1] == '*';
      }
    }
  }
}
