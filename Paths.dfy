/**
 * The parts of a file name that the tools look at: `Path.suffix` and `Path.stem`
 * (the rule of Python's pathlib: the suffix starts at the last dot, unless that
 * dot is the first or the last character), and ASCII lower-casing.
 */
module Paths {

  /** `s.rfind(c)`: the index of the last `c`, or -1. */
  function RFind(s: string, c: char): (r: int)
    ensures -1 <= r < |s|
    ensures r >= 0 ==> s[r] == c
    ensures forall k :: r < k < |s| ==> s[k] != c
    decreases |s|
  {
    if s == [] then -1 else if s[|s| - 1] == c then |s| - 1 else RFind(s[..|s| - 1], c)
  }

  /** Where the suffix begins (the length of the name when there is none). */
  function SuffixStart(name: string): (i: nat)
    ensures i <= |name|
  {
    var d := RFind(name, '.');
    if 0 < d < |name| - 1 then d else |name|
  }

  /** `Path(name).suffix` */
  function Suffix(name: string): string
  {
    name[SuffixStart(name)..]
  }

  /** `Path(name).stem` */
  function Stem(name: string): string
  {
    name[..SuffixStart(name)]
  }

  /**
   * A name is its stem followed by its suffix; a non-empty suffix is a dot, then at
   * least one character and no further dot, and the stem before it is not empty.
   */
  lemma StemAndSuffix(name: string)
    ensures Stem(name) + Suffix(name) == name
    ensures Suffix(name) != [] ==>
      |Suffix(name)| >= 2 && Suffix(name)[0] == '.'
      && (forall k :: 1 <= k < |Suffix(name)| ==> Suffix(name)[k] != '.')
      && Stem(name) != []
  {
    assert name[..SuffixStart(name)] + name[SuffixStart(name)..] == name;
  }

  function LowerChar(c: char): (l: char)
  {
    if 'A' <= c <= 'Z' then (c as int + 32) as char else c
  }

  /** `s.lower()` for ASCII letters; every other character is kept. */
  function Lower(s: string): (r: string)
    ensures |r| == |s|
    ensures forall k :: 0 <= k < |s| ==> r[k] == LowerChar(s[k])
  {
    seq(|s|, k requires 0 <= k < |s| => LowerChar(s[k]))
  }

  /** The generated test file for a stub: `f"{pyi_file.stem}_test.py"`. */
  function TestFileName(fileName: string): string
  {
    Stem(fileName) + "_test.py"
  }

  /** The test file is a `.py` file whose stem is the stub's stem followed by `_test`. */
  lemma TestFileNameShape(fileName: string)
    ensures Suffix(TestFileName(fileName)) == ".py"
    ensures Stem(TestFileName(fileName)) == Stem(fileName) + "_test"
  {
    var s, t := Stem(fileName), TestFileName(fileName);
    assert RFind(t, '.') == |s| + 5 by {
      assert t[|s| + 5] == '.';
      assert t[..|t| - 1][..|t| - 2][..|t| - 3] == t[..|t| - 3];
    }
  }
}
