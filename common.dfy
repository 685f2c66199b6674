/** The string helpers of common.py: `split_on_last_pattern`, the `.pv` file
    readers `read_from_file`, `build_tuple` and `build_tuple_of_tuples`
    (with the file's text passed in instead of read from disk). */
module Common {
  import opened Strings

  /** `split_on_last_pattern(string, pattern)`: the text before the last occurrence of
      `pattern` and the text after it; always two pieces. */
  function SplitOnLastPattern(s: string, pattern: string): (string, string)
    requires pattern != ""
  {
    var parts := Split(s, pattern);
    (Join(pattern, parts[..|parts| - 1]), parts[|parts| - 1])
  }

  /** `remove_extension(string)` of ggcr.py and accr.py: the leading piece on the last '.'. */
  function RemoveExtension(s: string): string {
    SplitOnLastPattern(s, ".").0
  }

  /** `read_from_file(path)`: the file's text without leading and trailing newlines. */
  function ReadFromFile(text: string): string {
    StripChars(text, {'\n'})
  }

  /** `build_tuple(path)`: the lines of the stripped file. */
  function BuildTuple(text: string): seq<string> {
    Split(ReadFromFile(text), "\n")
  }

  /** `build_tuple_of_tuples(path)`: every line of the file split on ','. */
  method BuildTupleOfTuples(text: string) returns (info: seq<seq<string>>)
    ensures |info| == |BuildTuple(text)|
    ensures forall i :: 0 <= i < |info| ==> info[i] == Split(BuildTuple(text)[i], ",")
    ensures forall i :: 0 <= i < |info| ==> Join(",", info[i]) == BuildTuple(text)[i]
  {
    var lines := BuildTuple(text);
    info := [];
    for i := 0 to |lines|
      invariant |info| == i
      invariant forall j :: 0 <= j < i ==> info[j] == Split(lines[j], ",")
    {
      info := info + [Split(lines[i], ",")];
    }
    forall j | 0 <= j < |info|
      ensures Join(",", info[j]) == lines[j]
    {
      JoinSplit(lines[j], ",");
    }
  }

  // ---------------------------------------------------------------------------
  // Lemmas

  /** When `pattern` occurs in `s`, the two pieces put back together around it give `s`;
      when it does not, the leading piece is empty and the last piece is `s`.
      Either way the last piece holds no occurrence of `pattern`. */
  lemma SplitOnLastPatternSpec(s: string, pattern: string)
    requires pattern != ""
    ensures var (leading, last) := SplitOnLastPattern(s, pattern);
      && (Contains(s, pattern) ==> leading + pattern + last == s)
      && (!Contains(s, pattern) ==> leading == "" && last == s)
      && !Contains(last, pattern)
  {
    var parts := Split(s, pattern);
    var n := |parts|;
    SplitManyIff(s, pattern);
    SplitPiecesFree(s, pattern);
    JoinSplit(s, pattern);
    if n > 1 {
      JoinSnoc(pattern, parts[..n - 1], parts[n - 1]);
      assert parts[..n - 1] + [parts[n - 1]] == parts;
    } else {
      assert parts[..0] == [];
    }
  }

  /** Without `pattern`, the leading piece is empty and the last piece is all of `s`. */
  lemma SplitOnLastPatternWithout(s: string, pattern: string)
    requires pattern != "" && !Contains(s, pattern)
    ensures SplitOnLastPattern(s, pattern) == ("", s)
  {
    SplitOnLastPatternSpec(s, pattern);
  }

  /** `s.split(sep)[-1]` is the last piece of `split_on_last_pattern`: it holds no
      `sep`, and when `sep` occurs it ends `s` right after an occurrence of `sep`. */
  lemma LastPieceSpec(s: string, sep: string)
    requires sep != ""
    ensures !Contains(LastPiece(s, sep), sep)
    ensures Contains(s, sep) ==> s == SplitOnLastPattern(s, sep).0 + sep + LastPiece(s, sep)
    ensures !Contains(s, sep) ==> LastPiece(s, sep) == s
  {
    SplitOnLastPatternSpec(s, sep);
  }

  /** The last piece is a suffix, so it keeps every absence of characters. */
  lemma FreeOfLastPiece(s: string, sep: string, cs: set<char>)
    requires sep != "" && FreeOf(s, cs)
    ensures FreeOf(LastPiece(s, sep), cs)
  {
    LastPieceSpec(s, sep);
    var last := LastPiece(s, sep);
    if Contains(s, sep) {
      assert last == s[|s| - |last|..];
    }
  }

  /** Stripping cuts out a slice, so it keeps every absence of characters. */
  lemma FreeOfStripChars(s: string, strip: set<char>, cs: set<char>)
    requires FreeOf(s, cs)
    ensures FreeOf(StripChars(s, strip), cs)
  {
    StripCharsSpec(s, strip);
  }

  /** For a one-character pattern, splitting `a + c + b` with no `c` in `b`
      gives back exactly `(a, b)`. */
  lemma SplitOnLastCharOf(a: string, c: char, b: string)
    requires forall k :: 0 <= k < |b| ==> b[k] != c
    ensures SplitOnLastPattern(a + [c] + b, [c]) == (a, b)
  {
    SplitAroundChar(a, c, b);
    NotContainsChar(b, c);
    SplitWithout(b, [c]);
    var pa := Split(a, [c]);
    var parts := pa + [b];
    assert Split(a + [c] + b, [c]) == parts;
    assert parts[..|parts| - 1] == pa;
    JoinSplit(a, [c]);
  }

  /** `remove_extension` keeps exactly the name before the last '.',
      so the name is the stem, '.', and a '.'-free extension. */
  lemma RemoveExtensionSpec(s: string)
    ensures Contains(s, ".") ==>
      s == RemoveExtension(s) + "." + SplitOnLastPattern(s, ".").1
    ensures !Contains(s, ".") ==> RemoveExtension(s) == ""
  {
    SplitOnLastPatternSpec(s, ".");
  }

  /** `build_tuple` is undone by joining on '\n', has one element more than the
      stripped text has newlines, and no element holds a newline. */
  lemma BuildTupleSpec(text: string)
    ensures Join("\n", BuildTuple(text)) == ReadFromFile(text)
    ensures |BuildTuple(text)| == CountChar(ReadFromFile(text), '\n') + 1
    ensures forall i :: 0 <= i < |BuildTuple(text)| ==> !Contains(BuildTuple(text)[i], "\n")
  {
    JoinSplit(ReadFromFile(text), "\n");
    SplitCharCount(ReadFromFile(text), '\n');
    SplitPiecesFree(ReadFromFile(text), "\n");
  }
}
