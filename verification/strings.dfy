/** Character classes and the handful of Python `str` operations the
    section splitter and the highlighter rely on (`strip`, `lower`,
    `"sep".join`, `splitlines`, substring `in`), restricted to ASCII. */
module Strings {

  /** The optional value returned by the scanners and the heading parser. */
  datatype Option<T> = None | Some(value: T)

  /** Whitespace as `str.isspace()` and the regex class `\s` see it, for the
      ASCII range: tab, line feed, vertical tab, form feed, carriage return,
      the four separators 0x1C..0x1F, and space. */
  predicate IsSpace(c: char) {
    c == ' ' || ('\t' <= c <= '\r') || ('\U{1C}' <= c <= '\U{1F}')
  }

  predicate AllSpace(s: string) {
    forall i :: 0 <= i < |s| ==> IsSpace(s[i])
  }

  /** Neither end of `s` is whitespace. */
  predicate IsStripped(s: string) {
    s == [] || (!IsSpace(s[0]) && !IsSpace(s[|s| - 1]))
  }

  /** The end of the run of whitespace starting at `i`. */
  function SpacesFrom(s: string, i: nat): (n: nat)
    requires i <= |s|
    ensures i <= n <= |s|
    ensures forall k :: i <= k < n ==> IsSpace(s[k])
    ensures n == |s| || !IsSpace(s[n])
    decreases |s| - i
  {
    if i < |s| && IsSpace(s[i]) then SpacesFrom(s, i + 1) else i
  }

  /** The start of the run of whitespace ending just before `j`. */
  function SpacesBefore(s: string, j: nat): (n: nat)
    requires j <= |s|
    ensures n <= j
    ensures forall k :: n <= k < j ==> IsSpace(s[k])
    ensures n == 0 || !IsSpace(s[n - 1])
  {
    if j > 0 && IsSpace(s[j - 1]) then SpacesBefore(s, j - 1) else j
  }

  /** `s.strip()`: the slice of `s` left when the whitespace at both ends is
      removed. */
  function Strip(s: string): (r: string)
    ensures IsStripped(r)
  {
    var i := SpacesFrom(s, 0);
    if i == |s| then []
    else s[i..SpacesBefore(s, |s|)]
  }

  /** What `Strip` cuts is whitespace: its result is the slice of `s`
      between a whitespace prefix and a whitespace suffix. */
  lemma StripSlice(s: string)
    ensures exists i, j :: 0 <= i <= j <= |s| && Strip(s) == s[i..j] && AllSpace(s[..i]) && AllSpace(s[j..])
  {
    var i := SpacesFrom(s, 0);
    if i == |s| {
      assert AllSpace(s[..|s|]) && s[|s|..] == [] && Strip(s) == s[|s|..|s|];
    } else {
      var j := SpacesBefore(s, |s|);
      assert AllSpace(s[..i]) && AllSpace(s[j..]) && Strip(s) == s[i..j];
    }
  }

  lemma {:induction false} SpacesFromSkip(s: string, i: nat, n: nat)
    requires i <= n <= |s|
    requires forall k :: i <= k < n ==> IsSpace(s[k])
    requires n == |s| || !IsSpace(s[n])
    ensures SpacesFrom(s, i) == n
    decreases n - i
  {
    if i < n {
      SpacesFromSkip(s, i + 1, n);
    }
  }

  lemma {:induction false} SpacesBeforeSkip(s: string, j: nat, n: nat)
    requires n <= j <= |s|
    requires forall k :: n <= k < j ==> IsSpace(s[k])
    requires n == 0 || !IsSpace(s[n - 1])
    ensures SpacesBefore(s, j) == n
    decreases j - n
  {
    if n < j {
      SpacesBeforeSkip(s, j - 1, n);
    }
  }

  /** Stripping removes exactly the surrounding whitespace: a stripped core
      between two runs of whitespace is what `Strip` returns. */
  lemma StripUnique(a: string, m: string, b: string)
    requires AllSpace(a) && AllSpace(b) && IsStripped(m)
    ensures Strip(a + m + b) == m
  {
    var s := a + m + b;
    if m == [] {
      SpacesFromSkip(s, 0, |s|);
    } else {
      SpacesFromSkip(s, 0, |a|);
      SpacesBeforeSkip(s, |s|, |a| + |m|);
      assert s[|a|..|a| + |m|] == m;
    }
  }

  lemma StripStripped(s: string)
    requires IsStripped(s)
    ensures Strip(s) == s
  {
    StripUnique([], s, []);
    assert [] + s + [] == s;
  }

  /** ASCII `str.lower()` of one character. */
  function Lower(c: char): char {
    if 'A' <= c <= 'Z' then (c as int + 32) as char else c
  }

  function LowerStr(s: string): (r: string)
    ensures |r| == |s|
    ensures forall i :: 0 <= i < |s| ==> r[i] == Lower(s[i])
  {
    seq(|s|, i requires 0 <= i < |s| => Lower(s[i]))
  }

  predicate StartsWith(s: string, p: string) {
    |p| <= |s| && s[..|p|] == p
  }

  /** A string that differs from `p` at index `k` does not start with `p`. */
  lemma NotStartsWithAt(s: string, p: string, k: nat)
    requires k < |p| && (k >= |s| || s[k] != p[k])
    ensures !StartsWith(s, p)
  {
    if |p| <= |s| {
      assert s[..|p|][k] == s[k];
    }
  }

  /** `p` occurs in `s` starting at index `i`. */
  predicate OccursAt(s: string, p: string, i: int) {
    0 <= i <= |s| - |p| && s[i..i + |p|] == p
  }

  /** Python's `p in s` for strings. */
  predicate Contains(s: string, p: string) {
    exists i :: 0 <= i <= |s| - |p| && OccursAt(s, p, i)
  }

  /** A pattern holding a character that the text lacks cannot occur in it. */
  lemma NotContainsByChar(s: string, p: string, c: char)
    requires c in p && c !in s
    ensures !Contains(s, p)
  {
  }

  /** An occurrence of `p` puts its `k`-th character at index `k` or later. */
  lemma NotContainsByCharAt(s: string, p: string, k: nat)
    requires k < |p| && k <= |s| && p[k] !in s[k..]
    ensures !Contains(s, p)
  {
  }

  /** When the first character of `p` occurs in `s` only at index `m`, an
      occurrence can only start there; a mismatch at offset `j` rules it out. */
  lemma NotContainsByLoneStart(s: string, p: string, m: nat, j: nat)
    requires 0 < |p| && m < |s| && p[0] !in s[..m] && p[0] !in s[m + 1..]
    requires j < |p| && m + j < |s| && s[m + j] != p[j]
    ensures !Contains(s, p)
  {
  }

  /** `sep.join(parts)`. */
  function Join(parts: seq<string>, sep: string): string {
    if |parts| == 0 then ""
    else if |parts| == 1 then parts[0]
    else parts[0] + sep + Join(parts[1..], sep)
  }

  lemma {:induction false} JoinSnocEmpty(parts: seq<string>, sep: string)
    requires |parts| >= 1
    ensures Join(parts + [""], sep) == Join(parts, sep) + sep
    decreases |parts|
  {
    if |parts| == 1 {
      assert (parts + [""])[1..] == [""];
    } else {
      assert (parts + [""])[1..] == parts[1..] + [""];
      JoinSnocEmpty(parts[1..], sep);
    }
  }

  /** `s.split(c)`: the pieces between the occurrences of `c`; there is one
      more piece than there are separators, and joining them back with `c`
      gives `s`. */
  function SplitOn(s: string, c: char): (r: seq<string>)
    ensures |r| >= 1
    decreases |s|
  {
    if s == [] then [""]
    else
      var rest := SplitOn(s[1..], c);
      if s[0] == c then [""] + rest
      else [[s[0]] + rest[0]] + rest[1..]
  }

  /** The pieces hold no separator, and joining them with it gives the
      text back. */
  lemma {:induction false} SplitOnJoin(s: string, c: char)
    ensures forall i :: 0 <= i < |SplitOn(s, c)| ==> c !in SplitOn(s, c)[i]
    ensures Join(SplitOn(s, c), [c]) == s
    decreases |s|
  {
    if s != [] {
      var rest := SplitOn(s[1..], c);
      SplitOnJoin(s[1..], c);
      assert s == [s[0]] + s[1..];
      var r := SplitOn(s, c);
      if s[0] == c {
        assert r == [""] + rest && r[1..] == rest;
        forall i | 0 <= i < |r|
          ensures c !in r[i]
        {
          if i > 0 {
            assert r[i] == rest[i - 1];
          }
        }
      } else {
        assert r == [[s[0]] + rest[0]] + rest[1..];
        if |rest| > 1 {
          assert r[1..] == rest[1..];
        }
        forall i | 0 <= i < |r|
          ensures c !in r[i]
        {
          if i > 0 {
            assert r[i] == rest[i];
          }
        }
      }
    }
  }

  lemma {:induction false} SplitOnNoSeparator(s: string, c: char)
    requires c !in s
    ensures SplitOn(s, c) == [s]
    decreases |s|
  {
    if s != [] {
      SplitOnNoSeparator(s[1..], c);
      assert [s[0]] + s[1..] == s;
    }
  }

  /** One character in front: a separator starts a new piece, any other
      character joins the first piece. */
  lemma SplitOnCons(x: char, t: string, c: char)
    ensures SplitOn([x] + t, c) == if x == c then [""] + SplitOn(t, c)
                                   else [[x] + SplitOn(t, c)[0]] + SplitOn(t, c)[1..]
  {
    assert ([x] + t)[0] == x && ([x] + t)[1..] == t;
  }

  lemma Assoc3<T>(x: seq<T>, y: seq<T>, z: seq<T>)
    ensures x + (y + z) == (x + y) + z
  {
  }

  /** The inductive step of `SplitOnAppend`, for a first character `x`. */
  lemma SplitOnAppendStep(x: char, u: string, b: string, c: char)
    requires SplitOn(u + [c] + b, c) == SplitOn(u, c) + SplitOn(b, c)
    ensures SplitOn([x] + u + [c] + b, c) == SplitOn([x] + u, c) + SplitOn(b, c)
  {
    var X, Y := SplitOn(u, c), SplitOn(b, c);
    assert [x] + u + [c] + b == [x] + (u + [c] + b);
    SplitOnCons(x, u + [c] + b, c);
    SplitOnCons(x, u, c);
    if x == c {
      Assoc3([""], X, Y);
    } else {
      FirstJoins([x], X, Y);
    }
  }

  /** Joining onto the first piece commutes with appending more pieces. */
  lemma FirstJoins(w: string, X: seq<string>, Y: seq<string>)
    requires |X| >= 1
    ensures [w + (X + Y)[0]] + (X + Y)[1..] == ([w + X[0]] + X[1..]) + Y
  {
    assert (X + Y)[0] == X[0] && (X + Y)[1..] == X[1..] + Y;
    Assoc3([w + X[0]], X[1..], Y);
  }

  /** Splitting at a separator splits the two sides independently. */
  lemma {:induction false} SplitOnAppend(a: string, b: string, c: char)
    ensures SplitOn(a + [c] + b, c) == SplitOn(a, c) + SplitOn(b, c)
    decreases |a|
  {
    if a == [] {
      assert a + [c] + b == [c] + b;
      SplitOnCons(c, b, c);
      assert SplitOn(a, c) == [""];
    } else {
      SplitOnAppend(a[1..], b, c);
      SplitOnAppendStep(a[0], a[1..], b, c);
      assert a == [a[0]] + a[1..];
    }
  }

  /** `s.splitlines()` for text whose only line break is `'\n'`: the lines,
      without their terminators, and no empty line after a final break. */
  function SplitLines(s: string): (r: seq<string>)
    ensures s == "" ==> r == []
    ensures forall i :: 0 <= i < |r| ==> '\n' !in r[i]
    ensures s != "" ==> Join(r, "\n") + (if s[|s| - 1] == '\n' then "\n" else "") == s
  {
    if s == "" then []
    else if s[|s| - 1] == '\n' then
      assert s == s[..|s| - 1] + "\n";
      SplitOnJoin(s[..|s| - 1], '\n');
      SplitOn(s[..|s| - 1], '\n')
    else
      SplitOnJoin(s, '\n');
      SplitOn(s, '\n')
  }
}
