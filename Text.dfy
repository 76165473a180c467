/**
 * Character classes and string operations shared by the extractors and the
 * synthesisers: the pieces of Python's `str` and `re` behaviour that the
 * source relies on, written out.
 */
module Text {

  /** An optional value; failure-compatible, so `:-` propagates `None`. */
  datatype Option<+T> = None | Some(value: T) {
    predicate IsFailure() { None? }
    function PropagateFailure<U>(): Option<U> requires None? { None }
    function Extract(): T requires Some? { value }
  }

  /** Python's `str.isspace()`, which is also what `\s` matches in a `str` pattern. */
  predicate IsSpace(c: char)
  {
    ('\t' <= c <= '\r') || ('\U{1C}' <= c <= ' ') || c == '\U{85}' || c == '\U{A0}'
    || c == '\U{1680}' || ('\U{2000}' <= c <= '\U{200A}') || c == '\U{2028}'
    || c == '\U{2029}' || c == '\U{202F}' || c == '\U{205F}' || c == '\U{3000}'
  }

  /** `\w`, restricted to ASCII letters, digits and the underscore. */
  predicate IsWordChar(c: char)
  {
    ('a' <= c <= 'z') || ('A' <= c <= 'Z') || ('0' <= c <= '9') || c == '_'
  }

  predicate IsDigit(c: char)
  {
    '0' <= c <= '9'
  }

  predicate IsUnderscore(c: char)
  {
    c == '_'
  }

  /** True when every character of `s` is whitespace, i.e. `not s.strip()`. */
  predicate IsBlank(s: string)
  {
    forall i :: 0 <= i < |s| ==> IsSpace(s[i])
  }

  /** The delimiter of a Python triple-quoted string. */
  const TripleQuote: string := "\"\"\""

  /** The delimiter of a markdown code fence. */
  const Backticks: string := "```"

  predicate StartsWith(s: string, p: string)
  {
    |p| <= |s| && s[..|p|] == p
  }

  predicate OccursAt(s: string, p: string, i: nat)
  {
    i + |p| <= |s| && s[i..i + |p|] == p
  }

  /** A slice of a slice is a slice of the whole. */
  lemma SliceOfSlice(f: string, b: nat, e: nat, i: nat, j: nat)
    requires b <= e <= |f| && i <= j <= e - b
    ensures f[b..e][i..j] == f[b + i..b + j]
  {
    forall t | 0 <= t < j - i ensures f[b..e][i..j][t] == f[b + i..b + j][t] {
      assert f[b..e][i..j][t] == f[b..e][i + t];
    }
  }

  /** Python's `p in s`, scanned left to right. */
  predicate Contains(s: string, p: string)
    decreases |s|
  {
    StartsWith(s, p) || (s != [] && Contains(s[1..], p))
  }

  lemma {:induction false} ContainsIff(s: string, p: string)
    ensures Contains(s, p) <==> exists i: nat :: OccursAt(s, p, i)
    decreases |s|
  {
    if StartsWith(s, p) {
      assert OccursAt(s, p, 0);
    } else if s != [] {
      ContainsIff(s[1..], p);
      if exists i: nat :: OccursAt(s[1..], p, i) {
        var i: nat :| OccursAt(s[1..], p, i);
        assert s[1..][i..i + |p|] == s[i + 1..i + 1 + |p|];
        assert OccursAt(s, p, i + 1);
      }
      if exists i: nat :: OccursAt(s, p, i) {
        var i: nat :| OccursAt(s, p, i);
        assert i != 0;
        assert s[1..][i - 1..i - 1 + |p|] == s[i..i + |p|];
        assert OccursAt(s[1..], p, i - 1);
      }
    }
  }

  // ---------------------------------------------------------------------------
  // Stripping: `str.strip()` and `str.strip("_")`.

  function LStripBy(s: string, drop: char -> bool): (r: string)
    ensures |r| <= |s| && r == s[|s| - |r|..]
    ensures r == [] || !drop(r[0])
    ensures forall i :: 0 <= i < |s| - |r| ==> drop(s[i])
    decreases |s|
  {
    if s != [] && drop(s[0]) then LStripBy(s[1..], drop) else s
  }

  function RStripBy(s: string, drop: char -> bool): (r: string)
    ensures |r| <= |s| && r == s[..|r|]
    ensures r == [] || !drop(r[|r| - 1])
    ensures forall i :: |r| <= i < |s| ==> drop(s[i])
    decreases |s|
  {
    if s != [] && drop(s[|s| - 1]) then RStripBy(s[..|s| - 1], drop) else s
  }

  /** `s.strip(chars)`: the largest infix of `s` that neither begins nor ends with a dropped character. */
  function StripBy(s: string, drop: char -> bool): (r: string)
  {
    RStripBy(LStripBy(s, drop), drop)
  }

  /** `s.strip()` */
  function Strip(s: string): (r: string)
  {
    StripBy(s, IsSpace)
  }

  /**
   * `s.strip()` is an infix of `s` that is empty exactly when `s` is blank, and
   * otherwise neither begins nor ends with white space.
   */
  lemma StripShape(s: string)
    ensures exists i, j :: 0 <= i <= j <= |s| && Strip(s) == s[i..j]
    ensures Strip(s) == [] <==> IsBlank(s)
    ensures Strip(s) == [] || (!IsSpace(Strip(s)[0]) && !IsSpace(Strip(s)[|Strip(s)| - 1]))
  {
    var l := LStripBy(s, IsSpace);
    var r := RStripBy(l, IsSpace);
    assert Strip(s) == r;
    var i := |s| - |l|;
    StripInfix(s, l, r);
    assert 0 <= i <= i + |r| <= |s| && r == s[i..i + |r|];
    StripEmpty(s, l, r);
    StripEnds(l, r);
  }

  lemma StripEnds(l: string, r: string)
    requires l == [] || !IsSpace(l[0])
    requires r == RStripBy(l, IsSpace)
    ensures r == [] || (!IsSpace(r[0]) && !IsSpace(r[|r| - 1]))
  {
    if r != [] {
      assert r[0] == l[0];
    }
  }

  lemma StripInfix(s: string, l: string, r: string)
    requires |l| <= |s| && l == s[|s| - |l|..]
    requires |r| <= |l| && r == l[..|r|]
    ensures r == s[|s| - |l|..|s| - |l| + |r|]
  {
  }

  lemma StripEmpty(s: string, l: string, r: string)
    requires l == LStripBy(s, IsSpace) && r == RStripBy(l, IsSpace)
    ensures r == [] <==> IsBlank(s)
  {
    if r == [] && l != [] {
      assert false;
    } else if r != [] && IsBlank(s) {
      assert false;
    }
  }

  /** Stripping twice is stripping once. */
  /** A string that neither begins nor ends with white space is its own `strip()`. */
  lemma StripUnchanged(s: string)
    requires s == [] || (!IsSpace(s[0]) && !IsSpace(s[|s| - 1]))
    ensures Strip(s) == s
  {
  }

  lemma StripIdempotent(s: string)
    ensures Strip(Strip(s)) == Strip(s)
  {
    var r := Strip(s);
    StripShape(s);
    if r != [] {
      assert LStripBy(r, IsSpace) == r;
      assert RStripBy(r, IsSpace) == r;
    }
  }

  /** `a + b in s` for two characters: they stand side by side somewhere in `s`. */
  lemma ContainsPair(s: string, a: char, b: char)
    ensures Contains(s, [a, b]) <==> exists i :: 0 <= i < |s| - 1 && s[i] == a && s[i + 1] == b
  {
    ContainsIff(s, [a, b]);
    if exists i: nat :: OccursAt(s, [a, b], i) {
      var i: nat :| OccursAt(s, [a, b], i);
      assert s[i] == s[i..i + 2][0] && s[i + 1] == s[i..i + 2][1];
    }
    if exists i :: 0 <= i < |s| - 1 && s[i] == a && s[i + 1] == b {
      var i :| 0 <= i < |s| - 1 && s[i] == a && s[i + 1] == b;
      assert OccursAt(s, [a, b], i);
    }
  }

  // ---------------------------------------------------------------------------
  // `str.replace`, `str.split` and `str.join`.

  /** `s.replace(pat, rep)`: left to right, non-overlapping. */
  function ReplaceAll(s: string, pat: string, rep: string): string
    requires pat != []
    decreases |s|
  {
    if s == [] then []
    else if StartsWith(s, pat) then rep + ReplaceAll(s[|pat|..], pat, rep)
    else [s[0]] + ReplaceAll(s[1..], pat, rep)
  }

  /** `s.split(sep)` for a one-character separator. */
  function Split(s: string, sep: char): (parts: seq<string>)
    ensures |parts| >= 1
    decreases |s|
  {
    if s == [] then [""]
    else
      var rest := Split(s[1..], sep);
      if s[0] == sep then [""] + rest else [[s[0]] + rest[0]] + rest[1..]
  }

  /** `sep.join(parts)` */
  function Join(sep: string, parts: seq<string>): string
    decreases |parts|
  {
    if parts == [] then ""
    else if |parts| == 1 then parts[0]
    else parts[0] + sep + Join(sep, parts[1..])
  }

  /** With a non-empty separator, a join is empty only when there is nothing to join but one empty part. */
  lemma {:induction false} JoinEmptyIff(sep: string, parts: seq<string>)
    requires sep != []
    ensures Join(sep, parts) == [] <==> parts == [] || (|parts| == 1 && parts[0] == [])
  {
    if |parts| >= 2 {
      assert |Join(sep, parts)| >= |sep|;
    }
  }

  lemma {:induction false} SplitPartsHaveNoSep(s: string, sep: char)
    ensures forall k :: 0 <= k < |Split(s, sep)| ==> sep !in Split(s, sep)[k]
    decreases |s|
  {
    if s != [] {
      SplitPartsHaveNoSep(s[1..], sep);
    }
  }

  lemma {:induction false} JoinSplit(s: string, sep: char)
    ensures Join([sep], Split(s, sep)) == s
    decreases |s|
  {
    if s != [] {
      JoinSplit(s[1..], sep);
      var rest := Split(s[1..], sep);
      if s[0] == sep {
        assert Split(s, sep) == [""] + rest;
        assert ([""] + rest)[1..] == rest;
      } else if |rest| == 1 {
        assert Split(s, sep) == [[s[0]] + rest[0]];
      } else {
        assert Split(s, sep) == [[s[0]] + rest[0]] + rest[1..];
        assert Join([sep], rest) == rest[0] + [sep] + Join([sep], rest[1..]);
      }
    }
  }

  lemma {:induction false} SplitJoin(parts: seq<string>, sep: char)
    requires |parts| >= 1
    requires forall k :: 0 <= k < |parts| ==> sep !in parts[k]
    ensures Split(Join([sep], parts), sep) == parts
    decreases |parts|
  {
    if |parts| == 1 {
      SplitNoSep(parts[0], sep);
    } else {
      SplitJoin(parts[1..], sep);
      SplitNoSep(parts[0], sep);
      SplitAppend(parts[0], [sep] + Join([sep], parts[1..]), sep);
      SplitCons(sep, Join([sep], parts[1..]), sep);
      assert Join([sep], parts) == parts[0] + ([sep] + Join([sep], parts[1..]));
      assert Split([sep] + Join([sep], parts[1..]), sep) == [""] + parts[1..];
      assert Fuse([parts[0]], [""] + parts[1..]) == [parts[0] + ""] + parts[1..];
      assert parts[0] + "" == parts[0];
    }
  }

  lemma {:induction false} SplitNoSep(s: string, sep: char)
    requires sep !in s
    ensures Split(s, sep) == [s]
    decreases |s|
  {
    if s != [] {
      SplitNoSep(s[1..], sep);
      assert [s[0]] + s[1..] == s;
    }
  }

  /** The parts of `a + b`: the last part of `a` and the first part of `b` fuse into one. */
  function Fuse(sa: seq<string>, sb: seq<string>): seq<string>
    requires |sa| >= 1 && |sb| >= 1
  {
    sa[..|sa| - 1] + [sa[|sa| - 1] + sb[0]] + sb[1..]
  }

  lemma FuseConsPart(x: string, sa: seq<string>, sb: seq<string>)
    requires |sa| >= 1 && |sb| >= 1
    ensures Fuse([x] + sa, sb) == [x] + Fuse(sa, sb)
  {
    assert ([x] + sa)[..|sa|] == [x] + sa[..|sa| - 1];
  }

  lemma FuseExtendFirst(c: char, sa: seq<string>, sb: seq<string>)
    requires |sa| >= 1 && |sb| >= 1
    ensures var f := Fuse(sa, sb);
      Fuse([[c] + sa[0]] + sa[1..], sb) == [[c] + f[0]] + f[1..]
  {
    var f := Fuse(sa, sb);
    var sa2 := [[c] + sa[0]] + sa[1..];
    if |sa| == 1 {
      assert f == [sa[0] + sb[0]] + sb[1..];
      assert sa2 == [[c] + sa[0]];
      assert ([c] + sa[0]) + sb[0] == [c] + (sa[0] + sb[0]);
      assert Fuse(sa2, sb) == [([c] + sa[0]) + sb[0]] + sb[1..];
    } else {
      assert f[0] == sa[0];
      assert f[1..] == sa[1..|sa| - 1] + [sa[|sa| - 1] + sb[0]] + sb[1..];
    }
  }

  lemma {:induction false} SplitAppend(a: string, b: string, sep: char)
    ensures Split(a + b, sep) == Fuse(Split(a, sep), Split(b, sep))
    decreases |a|
  {
    if a == [] {
      assert a + b == b;
      var sb := Split(b, sep);
      assert Fuse([""], sb) == [[] + sb[0]] + sb[1..];
      assert [] + sb[0] == sb[0];
      assert [sb[0]] + sb[1..] == sb;
    } else {
      var c, a' := a[0], a[1..];
      SplitAppend(a', b, sep);
      assert a + b == [c] + (a' + b);
      assert a == [c] + a';
      SplitCons(c, a' + b, sep);
      SplitCons(c, a', sep);
      if c == sep {
        FuseConsPart("", Split(a', sep), Split(b, sep));
      } else {
        FuseExtendFirst(c, Split(a', sep), Split(b, sep));
      }
    }
  }

  /** Splitting at a separator placed between two strings splits each of them. */
  lemma SplitAtSep(a: string, b: string, sep: char)
    ensures Split(a + [sep] + b, sep) == Split(a, sep) + Split(b, sep)
  {
    assert a + [sep] + b == a + ([sep] + b);
    SplitAppend(a, [sep] + b, sep);
    SplitCons(sep, b, sep);
    FuseEmptyFirst(Split(a, sep), Split(b, sep));
  }

  lemma FuseEmptyFirst(sa: seq<string>, sb: seq<string>)
    requires |sa| >= 1
    ensures Fuse(sa, [""] + sb) == sa + sb
  {
    assert sa[|sa| - 1] + "" == sa[|sa| - 1];
    assert ([""] + sb)[1..] == sb;
    assert sa[..|sa| - 1] + [sa[|sa| - 1]] == sa;
  }

  /** The parts of each string, one after the other. */
  function SplitEach(parts: seq<string>, sep: char): seq<string>
    decreases |parts|
  {
    if parts == [] then [] else Split(parts[0], sep) + SplitEach(parts[1..], sep)
  }

  /** Splitting a join splits each joined string. */
  lemma {:induction false} SplitOfJoin(parts: seq<string>, sep: char)
    requires |parts| >= 1
    ensures Split(Join([sep], parts), sep) == SplitEach(parts, sep)
    decreases |parts|
  {
    if |parts| == 1 {
      assert SplitEach(parts[1..], sep) == [];
    } else {
      SplitOfJoin(parts[1..], sep);
      SplitAtSep(parts[0], Join([sep], parts[1..]), sep);
    }
  }

  lemma {:induction false} SplitEachAppend(a: seq<string>, b: seq<string>, sep: char)
    ensures SplitEach(a + b, sep) == SplitEach(a, sep) + SplitEach(b, sep)
    decreases |a|
  {
    if a == [] {
      assert a + b == b;
    } else {
      SplitEachAppend(a[1..], b, sep);
      assert (a + b)[1..] == a[1..] + b;
      var h, ta, tb := Split(a[0], sep), SplitEach(a[1..], sep), SplitEach(b, sep);
      assert SplitEach(a + b, sep) == h + (ta + tb) by {
        assert (a + b)[0] == a[0];
      }
      assert h + (ta + tb) == (h + ta) + tb;
    }
  }

  /** Strings without the separator split into themselves. */
  lemma {:induction false} SplitEachNoSep(parts: seq<string>, sep: char)
    requires forall k :: 0 <= k < |parts| ==> sep !in parts[k]
    ensures SplitEach(parts, sep) == parts
    decreases |parts|
  {
    if parts != [] {
      SplitNoSep(parts[0], sep);
      SplitEachNoSep(parts[1..], sep);
    }
  }

  lemma SplitCons(c: char, t: string, sep: char)
    ensures Split([c] + t, sep)
      == if c == sep then [""] + Split(t, sep) else [[c] + Split(t, sep)[0]] + Split(t, sep)[1..]
  {
    assert ([c] + t)[1..] == t;
  }

  // ---------------------------------------------------------------------------
  // Decimal rendering of a natural number: `str(n)` / f"{n}".

  function DigitChar(d: nat): (c: char)
    requires d < 10
    ensures IsDigit(c)
  {
    "0123456789"[d]
  }

  function DigitValue(c: char): nat
  {
    if IsDigit(c) then (c as int - '0' as int) as nat else 0
  }

  function Decimal(n: nat): (r: string)
    ensures r != []
    ensures forall i :: 0 <= i < |r| ==> IsDigit(r[i])
    decreases n
  {
    if n < 10 then [DigitChar(n)] else Decimal(n / 10) + [DigitChar(n % 10)]
  }

  function ParseDecimal(s: string): nat
    decreases |s|
  {
    if s == [] then 0 else ParseDecimal(s[..|s| - 1]) * 10 + DigitValue(s[|s| - 1])
  }

  lemma DigitRoundTrip(d: nat)
    requires d < 10
    ensures DigitValue(DigitChar(d)) == d
  {
    assert "0123456789"[d] as int - '0' as int == d;
  }

  /** Reading back `str(n)` gives `n`; so distinct numbers have distinct renderings. */
  lemma {:induction false} DecimalRoundTrip(n: nat)
    ensures ParseDecimal(Decimal(n)) == n
    decreases n
  {
    if n < 10 {
      DigitRoundTrip(n);
    } else {
      DecimalRoundTrip(n / 10);
      DigitRoundTrip(n % 10);
      var r := Decimal(n);
      assert r[..|r| - 1] == Decimal(n / 10);
    }
  }

  lemma DecimalInjective(m: nat, n: nat)
    requires Decimal(m) == Decimal(n)
    ensures m == n
  {
    DecimalRoundTrip(m);
    DecimalRoundTrip(n);
  }
}
