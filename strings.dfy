/** The few Python `str` operations the scrapers are built from, on `seq<char>`:
    `in` (Contains), `startswith`, `split(sep)`, `sep.join`, `strip`, `strip(chars)`
    and single-character `replace`. */
module Strings {

  /** `s.startswith(p)` */
  predicate StartsWith(s: string, p: string) {
    |p| <= |s| && s[..|p|] == p
  }

  /** `p in s`: `p` occurs somewhere in `s` (the empty pattern occurs everywhere). */
  predicate Contains(s: string, p: string)
    decreases |s|
  {
    StartsWith(s, p) || (|s| > 0 && Contains(s[1..], p))
  }

  /** `s.split(sep)` for a non-empty separator: the pieces between the leftmost
      non-overlapping occurrences of `sep`, scanning from the left. */
  function Split(s: string, sep: string): (r: seq<string>)
    requires sep != ""
    ensures |r| >= 1
    decreases |s|
  {
    if |s| < |sep| then [s]
    else if s[..|sep|] == sep then [""] + Split(s[|sep|..], sep)
    else
      var rest := Split(s[1..], sep);
      [[s[0]] + rest[0]] + rest[1..]
  }

  /** `sep.join(parts)` */
  function Join(sep: string, parts: seq<string>): string
    decreases |parts|
  {
    if |parts| == 0 then ""
    else if |parts| == 1 then parts[0]
    else parts[0] + sep + Join(sep, parts[1..])
  }

  /** `s.split(sep)[-1]` */
  function LastPiece(s: string, sep: string): string
    requires sep != ""
  {
    var parts := Split(s, sep);
    parts[|parts| - 1]
  }

  /** `s.split(sep)[0]` */
  function FirstPiece(s: string, sep: string): string
    requires sep != ""
  {
    Split(s, sep)[0]
  }

  /** Number of occurrences of character `c` in `s`. */
  function CountChar(s: string, c: char): nat {
    if s == [] then 0 else (if s[0] == c then 1 else 0) + CountChar(s[1..], c)
  }

  /** The characters Python's `str.isspace` accepts, which `str.strip()` removes. */
  const WHITESPACE: set<char> :=
    {' ', '\t', '\n', '\r', '\U{000B}', '\U{000C}', '\U{001C}', '\U{001D}', '\U{001E}', '\U{001F}',
     '\U{0085}', '\U{00A0}', '\U{1680}', '\U{2000}', '\U{2001}', '\U{2002}', '\U{2003}', '\U{2004}',
     '\U{2005}', '\U{2006}', '\U{2007}', '\U{2008}', '\U{2009}', '\U{200A}', '\U{2028}', '\U{2029}',
     '\U{202F}', '\U{205F}', '\U{3000}'}

  /** `s.lstrip(chars)`: drops the longest prefix made of characters in `cs`. */
  function TrimLeft(s: string, cs: set<char>): (r: string)
    ensures |r| <= |s| && r == s[|s| - |r|..]
    ensures forall k :: 0 <= k < |s| - |r| ==> s[k] in cs
    ensures r == [] || r[0] !in cs
    decreases |s|
  {
    if |s| > 0 && s[0] in cs then TrimLeft(s[1..], cs) else s
  }

  /** `s.rstrip(chars)`: drops the longest suffix made of characters in `cs`. */
  function TrimRight(s: string, cs: set<char>): (r: string)
    ensures |r| <= |s| && r == s[..|r|]
    ensures forall k :: |r| <= k < |s| ==> s[k] in cs
    ensures r == [] || r[|r| - 1] !in cs
    decreases |s|
  {
    if |s| > 0 && s[|s| - 1] in cs then TrimRight(s[..|s| - 1], cs) else s
  }

  /** `s.strip(chars)` */
  function StripChars(s: string, cs: set<char>): string {
    TrimRight(TrimLeft(s, cs), cs)
  }

  /** `s.strip()` */
  function Strip(s: string): string {
    StripChars(s, WHITESPACE)
  }

  /** `s.replace(a, b)` for one-character `a` and `b`. */
  function ReplaceChar(s: string, a: char, b: char): (r: string)
    ensures |r| == |s|
    ensures forall k :: 0 <= k < |s| ==> r[k] == (if s[k] == a then b else s[k])
  {
    if s == [] then [] else [if s[0] == a then b else s[0]] + ReplaceChar(s[1..], a, b)
  }

  /** `s` has no character in `cs`. */
  predicate FreeOf(s: string, cs: set<char>) {
    forall k :: 0 <= k < |s| ==> s[k] !in cs
  }

  // ---------------------------------------------------------------------------
  // Lemmas

  /** `strip(chars)` removes characters of `cs` at both ends and nothing else. */
  lemma StripCharsSpec(s: string, cs: set<char>)
    ensures var r := StripChars(s, cs);
      exists i, j :: 0 <= i <= j <= |s| && r == s[i..j]
        && (forall k :: 0 <= k < i ==> s[k] in cs)
        && (forall k :: j <= k < |s| ==> s[k] in cs)
        && (r == [] || (r[0] !in cs && r[|r| - 1] !in cs))
  {
    var l := TrimLeft(s, cs);
    var r := TrimRight(l, cs);
    var i := |s| - |l|;
    var j := i + |r|;
    assert l == s[i..] && r == l[..|r|];
    assert r == s[i..j];
    forall k | j <= k < |s|
      ensures s[k] in cs
    {
      assert s[k] == l[k - i];
    }
  }

  /** `strip(chars)` leaves a string alone whose two ends are outside `cs`. */
  lemma StripCharsKeeps(s: string, cs: set<char>)
    requires |s| > 0 && s[0] !in cs && s[|s| - 1] !in cs
    ensures StripChars(s, cs) == s
  {
    assert TrimLeft(s, cs) == s;
  }

  /** Stripping twice is stripping once. */
  /** `lstrip` passes over a prefix made of stripped characters. */
  lemma {:induction false} TrimLeftPadded(pad: string, s: string, cs: set<char>)
    requires forall k :: 0 <= k < |pad| ==> pad[k] in cs
    ensures TrimLeft(pad + s, cs) == TrimLeft(s, cs)
    decreases |pad|
  {
    if pad == [] {
      assert pad + s == s;
    } else {
      assert (pad + s)[1..] == pad[1..] + s;
      TrimLeftPadded(pad[1..], s, cs);
    }
  }

  /** `rstrip` passes over a suffix made of stripped characters. */
  lemma {:induction false} TrimRightPadded(s: string, pad: string, cs: set<char>)
    requires forall k :: 0 <= k < |pad| ==> pad[k] in cs
    ensures TrimRight(s + pad, cs) == TrimRight(s, cs)
    decreases |pad|
  {
    if pad == [] {
      assert s + pad == s;
    } else {
      var last := |pad| - 1;
      assert (s + pad)[..|s + pad| - 1] == s + pad[..last];
      TrimRightPadded(s, pad[..last], cs);
    }
  }

  /** `strip()` gives back a string padded with whitespace on both sides, when its
      own ends are not whitespace. */
  lemma StripPadded(pad: string, s: string)
    requires forall k :: 0 <= k < |pad| ==> pad[k] in WHITESPACE
    requires |s| > 0 && s[0] !in WHITESPACE && s[|s| - 1] !in WHITESPACE
    ensures Strip(pad + s + pad) == s
  {
    assert pad + s + pad == pad + (s + pad);
    TrimLeftPadded(pad, s + pad, WHITESPACE);
    assert TrimLeft(s + pad, WHITESPACE) == s + pad;
    TrimRightPadded(s, pad, WHITESPACE);
    assert TrimRight(s, WHITESPACE) == s;
  }

  lemma StripCharsIdempotent(s: string, cs: set<char>)
    ensures StripChars(StripChars(s, cs), cs) == StripChars(s, cs)
  {
    var r := StripChars(s, cs);
    if r != [] {
      assert r[0] !in cs;
      assert TrimLeft(r, cs) == r;
      assert TrimRight(r, cs) == r;
    }
  }

  lemma {:induction false} ContainsTooShort(s: string, p: string)
    requires |s| < |p|
    ensures !Contains(s, p)
    decreases |s|
  {
    if |s| > 0 {
      ContainsTooShort(s[1..], p);
    }
  }

  /** Every piece of `split` is a prefix of what is left of the input at that point;
      in particular the first piece is a prefix of the input. */
  lemma {:induction false} FirstPieceIsPrefix(s: string, sep: string)
    requires sep != ""
    ensures var p := Split(s, sep)[0]; |p| <= |s| && p == s[..|p|]
    decreases |s|
  {
    if |s| < |sep| {
    } else if s[..|sep|] == sep {
    } else {
      FirstPieceIsPrefix(s[1..], sep);
    }
  }

  /** No piece of `s.split(sep)` contains `sep`. */
  lemma {:induction false} SplitPiecesFree(s: string, sep: string)
    requires sep != ""
    ensures forall k :: 0 <= k < |Split(s, sep)| ==> !Contains(Split(s, sep)[k], sep)
    decreases |s|
  {
    if |s| < |sep| {
      ContainsTooShort(s, sep);
    } else if s[..|sep|] == sep {
      SplitPiecesFree(s[|sep|..], sep);
      assert !Contains("", sep) by { ContainsTooShort("", sep); }
    } else {
      var rest := Split(s[1..], sep);
      SplitPiecesFree(s[1..], sep);
      FirstPieceIsPrefix(s[1..], sep);
      var p := [s[0]] + rest[0];
      assert p == s[..|p|];
      assert !StartsWith(p, sep);
      assert p[1..] == rest[0];
      assert !Contains(p, sep);
      var r := Split(s, sep);
      forall k | 0 <= k < |r| ensures !Contains(r[k], sep) {
        if k > 0 { assert r[k] == rest[k]; }
      }
    }
  }

  lemma JoinConsHead(sep: string, c: char, parts: seq<string>)
    requires |parts| >= 1
    ensures Join(sep, [[c] + parts[0]] + parts[1..]) == [c] + Join(sep, parts)
  {
    var q := [[c] + parts[0]] + parts[1..];
    if |parts| > 1 {
      assert q[1..] == parts[1..];
    }
  }

  /** `sep.join(s.split(sep)) == s` */
  lemma {:induction false} JoinSplit(s: string, sep: string)
    requires sep != ""
    ensures Join(sep, Split(s, sep)) == s
    decreases |s|
  {
    if |s| < |sep| {
    } else if s[..|sep|] == sep {
      JoinSplit(s[|sep|..], sep);
      JoinSplitAtSep(s, sep);
    } else {
      JoinSplit(s[1..], sep);
      JoinSplitAtChar(s, sep);
    }
  }

  /** The step of `JoinSplit` where `s` starts with `sep`. */
  lemma {:induction false} JoinSplitAtSep(s: string, sep: string)
    requires sep != "" && |sep| <= |s| && s[..|sep|] == sep
    requires Join(sep, Split(s[|sep|..], sep)) == s[|sep|..]
    ensures Join(sep, Split(s, sep)) == s
  {
    var rest := Split(s[|sep|..], sep);
    assert Split(s, sep) == [""] + rest;
    assert ([""] + rest)[1..] == rest;
    assert s == sep + s[|sep|..];
  }

  /** The step of `JoinSplit` where `s` does not start with `sep`. */
  lemma {:induction false} JoinSplitAtChar(s: string, sep: string)
    requires sep != "" && |sep| <= |s| && s[..|sep|] != sep
    requires Join(sep, Split(s[1..], sep)) == s[1..]
    ensures Join(sep, Split(s, sep)) == s
  {
    var rest := Split(s[1..], sep);
    assert Split(s, sep) == [[s[0]] + rest[0]] + rest[1..];
    JoinConsHead(sep, s[0], rest);
    assert s == [s[0]] + s[1..];
  }

  /** `s.split(sep)` has more than one piece exactly when `sep in s`. */
  lemma {:induction false} SplitManyIff(s: string, sep: string)
    requires sep != ""
    ensures |Split(s, sep)| > 1 <==> Contains(s, sep)
    decreases |s|
  {
    if |s| < |sep| {
      ContainsTooShort(s, sep);
    } else if s[..|sep|] == sep {
      assert StartsWith(s, sep);
    } else {
      SplitManyIff(s[1..], sep);
      assert !StartsWith(s, sep);
    }
  }

  /** Joining with one more part at the end. */
  lemma {:induction false} JoinSnoc(sep: string, parts: seq<string>, last: string)
    requires |parts| >= 1
    ensures Join(sep, parts + [last]) == Join(sep, parts) + sep + last
    decreases |parts|
  {
    if |parts| == 1 {
      assert (parts + [last])[1..] == [last];
    } else {
      JoinSnoc(sep, parts[1..], last);
      assert (parts + [last])[1..] == parts[1..] + [last];
    }
  }

  /** `s.endswith(p)` */
  predicate EndsWith(s: string, p: string) {
    |p| <= |s| && s[|s| - |p|..] == p
  }

  lemma EndsWithAppend(pre: string, p: string)
    ensures EndsWith(pre + p, p)
  {
    assert (pre + p)[|pre|..] == p;
  }

  /** Joined pieces end in the last two pieces with the separator between them. */
  lemma {:induction false} JoinTail(sep: string, parts: seq<string>)
    requires |parts| >= 2
    ensures EndsWith(Join(sep, parts), parts[|parts| - 2] + sep + parts[|parts| - 1])
    decreases |parts|
  {
    var rest := parts[1..];
    if |parts| == 2 {
      assert Join(sep, rest) == parts[1];
      EndsWithAppend("", parts[0] + sep + parts[1]);
    } else {
      JoinTail(sep, rest);
      assert rest[|rest| - 2] == parts[|parts| - 2] && rest[|rest| - 1] == parts[|parts| - 1];
      EndsWithLonger(parts[0] + sep, Join(sep, rest), parts[|parts| - 2] + sep + parts[|parts| - 1]);
    }
  }

  lemma EndsWithLonger(pre: string, s: string, p: string)
    requires EndsWith(s, p)
    ensures EndsWith(pre + s, p)
  {
    assert (pre + s)[|pre + s| - |p|..] == s[|s| - |p|..];
  }

  /** For a one-character separator, splitting distributes over the separator:
      `(a + c + b).split(c) == a.split(c) + b.split(c)`. */
  lemma {:induction false} SplitAroundChar(a: string, c: char, b: string)
    ensures Split(a + [c] + b, [c]) == Split(a, [c]) + Split(b, [c])
    decreases |a|
  {
    var s := a + [c] + b;
    if a == [] {
      assert s[..1] == [c];
      assert s[1..] == b;
    } else {
      assert s[0] == a[0] && s[1..] == a[1..] + [c] + b;
      SplitAroundChar(a[1..], c, b);
      SplitCons(s, a, c, Split(b, [c]));
    }
  }

  /** Two strings with the same first character, whose tails split alike up to
      trailing pieces `more`, split alike up to `more`. */
  lemma {:induction false} SplitCons(s: string, a: string, c: char, more: seq<string>)
    requires a != [] && s != [] && s[0] == a[0]
    requires Split(s[1..], [c]) == Split(a[1..], [c]) + more
    ensures Split(s, [c]) == Split(a, [c]) + more
  {
    if a[0] == c {
      SplitConsSep(s, a, c, more);
    } else {
      SplitConsOther(s, a, c, more);
    }
  }

  lemma {:induction false} SplitConsSep(s: string, a: string, c: char, more: seq<string>)
    requires a != [] && s != [] && s[0] == a[0] && a[0] == c
    requires Split(s[1..], [c]) == Split(a[1..], [c]) + more
    ensures Split(s, [c]) == Split(a, [c]) + more
  {
    SplitAtSep(s, c);
    SplitAtSep(a, c);
    var ra := Split(a[1..], [c]);
    assert [""] + (ra + more) == ([""] + ra) + more;
  }

  lemma {:induction false} SplitConsOther(s: string, a: string, c: char, more: seq<string>)
    requires a != [] && s != [] && s[0] == a[0] && a[0] != c
    requires Split(s[1..], [c]) == Split(a[1..], [c]) + more
    ensures Split(s, [c]) == Split(a, [c]) + more
  {
    SplitAtOther(s, c);
    SplitAtOther(a, c);
    var ra := Split(a[1..], [c]);
    var head := [a[0]] + ra[0];
    assert (ra + more)[0] == ra[0] && (ra + more)[1..] == ra[1..] + more;
    assert [head] + (ra[1..] + more) == ([head] + ra[1..]) + more;
  }

  /** Splitting on a character at the start of `s` yields an empty first piece. */
  lemma SplitAtSep(s: string, c: char)
    requires s != [] && s[0] == c
    ensures Split(s, [c]) == [""] + Split(s[1..], [c])
  {
    assert s[..1] == [c];
  }

  /** A first character other than the separator begins the first piece. */
  lemma SplitAtOther(s: string, c: char)
    requires s != [] && s[0] != c
    ensures var rest := Split(s[1..], [c]); Split(s, [c]) == [[s[0]] + rest[0]] + rest[1..]
  {
    assert s[..1] != [c];
  }

  /** A string without `sep` splits into itself alone. */
  lemma SplitWithout(s: string, sep: string)
    requires sep != "" && !Contains(s, sep)
    ensures Split(s, sep) == [s]
  {
    SplitManyIff(s, sep);
    JoinSplit(s, sep);
  }

  /** `s.split('\n')` has one more element than `s` has newlines (for any one character). */
  lemma {:induction false} SplitCharCount(s: string, c: char)
    ensures |Split(s, [c])| == CountChar(s, c) + 1
    decreases |s|
  {
    if s != [] {
      SplitCharCount(s[1..], c);
      if s[0] == c {
        assert s[..1] == [c];
      } else {
        assert s[..1] != [c];
      }
    }
  }

  /** A character that does not occur in `s` is not contained in it as a pattern. */
  lemma {:induction false} NotContainsChar(s: string, c: char)
    requires forall k :: 0 <= k < |s| ==> s[k] != c
    ensures !Contains(s, [c])
    decreases |s|
  {
    if |s| > 0 {
      NotContainsChar(s[1..], c);
      assert s[0] != c;
      assert s[..1][0] == s[0];
    }
  }

  /** A string that does not contain the one-character pattern `[c]` has no `c`. */
  lemma {:induction false} ContainsCharAt(s: string, c: char, k: nat)
    requires k < |s| && s[k] == c
    ensures Contains(s, [c])
    decreases k
  {
    if k == 0 {
      assert s[..1] == [c];
    } else {
      ContainsCharAt(s[1..], c, k - 1);
    }
  }

  /** The first piece of `s.split(sep)` runs up to the first occurrence of `sep`:
      it is a prefix of `s` without `sep`, and when it is shorter than `s`, `sep`
      follows it. */
  lemma {:induction false} FirstPieceCut(s: string, sep: string)
    requires sep != ""
    ensures var p := Split(s, sep)[0];
      && |p| <= |s| && p == s[..|p|] && !Contains(p, sep)
      && (|p| < |s| ==> StartsWith(s[|p|..], sep))
    decreases |s|
  {
    FirstPieceIsPrefix(s, sep);
    SplitPiecesFree(s, sep);
    if |s| < |sep| {
    } else if s[..|sep|] == sep {
    } else {
      var rest := Split(s[1..], sep);
      FirstPieceCut(s[1..], sep);
      var p := Split(s, sep)[0];
      assert p == [s[0]] + rest[0];
      if |p| < |s| {
        assert s[|p|..] == s[1..][|rest[0]|..];
      }
    }
  }

  /** A string that does not contain `[c]` has no character `c`. */
  lemma NotContainsFree(s: string, c: char)
    requires !Contains(s, [c])
    ensures FreeOf(s, {c})
  {
    forall k | 0 <= k < |s| ensures s[k] != c {
      if s[k] == c {
        ContainsCharAt(s, c, k);
      }
    }
  }

  /** `p in a + p + b` */
  lemma {:induction false} ContainsAt(a: string, p: string, b: string)
    ensures Contains(a + p + b, p)
    decreases |a|
  {
    if a == [] {
      assert (a + p + b)[..|p|] == p;
    } else {
      ContainsAt(a[1..], p, b);
      assert (a + p + b)[1..] == a[1..] + p + b;
    }
  }
}
