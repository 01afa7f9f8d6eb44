/** What `split_sections` returns, stated without its loop: for each key,
    the body collected for the LAST heading that opens it. That body is made
    of the non-`'#'` lines from the point where the buffer was last emptied up
    to the next `'#'` line. The buffer is emptied only when a recognised
    section is recorded, so the lines before the first heading and the lines
    under unrecognised `'#'` lines run on into the next recognised section. */
module SectionsSpec {
  import opened Strings
  import opened Sections

  /** The index of the last of the first `i` lines satisfying `f`, or -1. */
  function LastBefore(L: seq<Line>, i: nat, f: Line -> bool): (r: int)
    requires i <= |L|
    ensures -1 <= r < i
    ensures r >= 0 ==> f(L[r])
    ensures forall j :: r < j < i ==> !f(L[j])
  {
    if i == 0 then -1
    else if f(L[i - 1]) then i - 1
    else LastBefore(L, i - 1, f)
  }

  /** The index of the first `'#'` line after line `j`, or `|L|`. */
  function NextHashAfter(L: seq<Line>, j: int): (r: nat)
    requires -1 <= j < |L|
    ensures j < r <= |L|
    ensures r < |L| ==> IsHash(L[r])
    ensures forall e :: j < e < r ==> !IsHash(L[e])
    decreases |L| - j
  {
    if j + 1 == |L| then |L|
    else if IsHash(L[j + 1]) then j + 1
    else NextHashAfter(L, j + 1)
  }

  predicate IsHash(c: Line) {
    c.Hash?
  }

  /** A heading that opens some section. */
  predicate Opens(c: Line) {
    c.Hash? && c.key.Some?
  }

  /** A heading that opens the section `k`. */
  function OpensKey(k: string): Line -> bool {
    c => c == Hash(Some(k))
  }

  /** The body lines, in order. */
  function BodyLines(L: seq<Line>): seq<string>
    decreases |L|
  {
    if L == [] then []
    else BodyLines(L[..|L| - 1]) + (match L[|L| - 1] case Text(line) => [line] case Hash(_) => [])
  }

  /** Where the buffer of the section opened at line `j` begins: just after
      the section recorded before it (at the first `'#'` line following the
      last recognised heading before `j`), or at the top. */
  function BodyStart(L: seq<Line>, j: nat): (r: nat)
    requires j < |L| && IsHash(L[j])
    ensures r <= j
  {
    var p := LastBefore(L, j, Opens);
    if p < 0 then 0 else NextHashAfter(L, p)
  }

  /** The lines recorded for the section opened at line `j`. */
  function Collected(L: seq<Line>, j: nat): seq<string>
    requires j < |L| && IsHash(L[j])
  {
    BodyLines(L[BodyStart(L, j)..NextHashAfter(L, j)])
  }

  /** The line that last opens `k`, or -1. */
  function LastOpening(L: seq<Line>, k: string): (r: int)
    ensures -1 <= r < |L|
    ensures r >= 0 ==> L[r] == Hash(Some(k))
    ensures forall j :: r < j < |L| ==> L[j] != Hash(Some(k))
  {
    LastBefore(L, |L|, OpensKey(k))
  }

  /** The reference result: a key is present exactly when some heading
      opens it, and its body is the one collected for its last heading. */
  function Expected(L: seq<Line>): map<string, string> {
    map k | k in Keys && LastOpening(L, k) >= 0 :: Body(Collected(L, LastOpening(L, k)))
  }

  // ---------------------------------------------------------------------
  // The index functions look only at the lines below their bound

  lemma {:induction false} LastBeforeAgree(A: seq<Line>, B: seq<Line>, i: nat, f: Line -> bool)
    requires i <= |A| && i <= |B| && A[..i] == B[..i]
    ensures LastBefore(A, i, f) == LastBefore(B, i, f)
    decreases i
  {
    if i > 0 {
      assert A[i - 1] == A[..i][i - 1] && B[i - 1] == B[..i][i - 1];
      assert A[..i - 1] == A[..i][..i - 1] && B[..i - 1] == B[..i][..i - 1];
      LastBeforeAgree(A, B, i - 1, f);
    }
  }

  lemma {:induction false} LastBeforeSkip(L: seq<Line>, i: nat, i': nat, f: Line -> bool)
    requires i' <= i <= |L|
    requires forall j :: i' <= j < i ==> !f(L[j])
    ensures LastBefore(L, i, f) == LastBefore(L, i', f)
    decreases i
  {
    if i > i' {
      LastBeforeSkip(L, i - 1, i', f);
    }
  }

  /** Cutting the lines at `m` keeps every `'#'` line below `m` where it was;
      the cut itself acts as the end of the input. */
  lemma {:induction false} NextHashAfterPrefix(L: seq<Line>, m: nat, j: int)
    requires -1 <= j < m <= |L|
    ensures NextHashAfter(L[..m], j) == (if NextHashAfter(L, j) < m then NextHashAfter(L, j) else m)
    decreases m - j
  {
    if j + 1 < m {
      assert L[..m][j + 1] == L[j + 1];
      NextHashAfterPrefix(L, m, j + 1);
    }
  }

  /** `NextHashAfter` is the first `'#'` line after `j`. */
  lemma {:induction false} NextHashIs(L: seq<Line>, j: int, r: nat)
    requires -1 <= j < r <= |L|
    requires r < |L| ==> IsHash(L[r])
    requires forall e :: j < e < r ==> !IsHash(L[e])
    ensures NextHashAfter(L, j) == r
    decreases r - j
  {
    if j + 1 < r {
      NextHashIs(L, j + 1, r);
    }
  }

  lemma {:induction false} BodyLinesAppend(A: seq<Line>, B: seq<Line>)
    ensures BodyLines(A + B) == BodyLines(A) + BodyLines(B)
    decreases |B|
  {
    if B == [] {
      assert A + B == A;
    } else {
      assert (A + B)[..|A + B| - 1] == A + B[..|B| - 1];
      BodyLinesAppend(A, B[..|B| - 1]);
    }
  }

  lemma BodyLinesOne(x: Line)
    ensures BodyLines([x]) == match x case Text(line) => [line] case Hash(_) => []
  {
    assert [x][..0] == [];
  }

  lemma SlicePrefix(L: seq<Line>, m: nat, a: nat, b: nat)
    requires a <= b <= m <= |L|
    ensures L[..m][a..b] == L[a..b]
  {
  }

  lemma SliceToEnd(L: seq<Line>, a: nat)
    requires a <= |L|
    ensures L[a..|L|] == L[a..]
  {
  }

  /** The slices of `P + [x]` that the loop state refers to. */
  lemma SnocSlices(P: seq<Line>, x: Line, a: nat)
    requires a <= |P|
    ensures (P + [x])[..|P|] == P
    ensures (P + [x])[..a] == P[..a]
    ensures (P + [x])[a..] == P[a..] + [x]
    ensures (P + [x])[|P|..] == [x]
  {
  }

  /** Body lines collected for a heading below `m` do not depend on the lines
      from `m` on, as long as line `m` is a `'#'` line or the end. */
  lemma CollectedPrefix(L: seq<Line>, m: nat, j: nat)
    requires j < m <= |L| && IsHash(L[j])
    requires m < |L| ==> IsHash(L[m])
    ensures Collected(L[..m], j) == Collected(L, j)
  {
    var Q := L[..m];
    assert Q[..j] == L[..j];
    LastBeforeAgree(Q, L, j, Opens);
    var p := LastBefore(L, j, Opens);
    var a := BodyStart(L, j);
    if p >= 0 {
      NextHashAfterPrefix(L, m, p);
      assert NextHashAfter(L, p) <= j;
    }
    assert BodyStart(Q, j) == a;
    NextHashAfterPrefix(L, m, j);
    var b := NextHashAfter(L, j);
    assert NextHashAfter(Q, j) == b;
    SlicePrefix(L, m, a, b);
  }

  // ---------------------------------------------------------------------
  // The reference result, one `'#'` line at a time

  /** Past the last `'#'` line `h`, the last line opening `k` is `h` itself
      or lies above it. */
  lemma OpeningLastHash(P: seq<Line>, h: nat, k: string)
    requires h < |P| && IsHash(P[h])
    requires forall e :: h < e < |P| ==> !IsHash(P[e])
    ensures LastOpening(P, k) == (if P[h].key == Some(k) then h else LastOpening(P[..h], k))
  {
    LastBeforeSkip(P, |P|, h + 1, OpensKey(k));
    assert P[..h][..h] == P[..h];
    LastBeforeAgree(P[..h], P, h, OpensKey(k));
  }

  lemma ExpectedAt(L: seq<Line>, k: string)
    requires k in Keys
    ensures k in Expected(L) <==> LastOpening(L, k) >= 0
    ensures k in Expected(L) ==> Expected(L)[k] == Body(Collected(L, LastOpening(L, k)))
  {
  }

  /** One key of the reference result, for lines whose last `'#'` line is
      `h`. */
  lemma ExpectedKeyLastHash(P: seq<Line>, h: nat, k: string)
    requires h < |P| && IsHash(P[h])
    requires forall e :: h < e < |P| ==> !IsHash(P[e])
    requires k in Keys
    ensures k in Expected(P) <==> P[h].key == Some(k) || k in Expected(P[..h])
    ensures P[h].key == Some(k) ==> Expected(P)[k] == Body(BodyLines(P[BodyStart(P, h)..]))
    ensures P[h].key != Some(k) && k in Expected(P) ==> Expected(P)[k] == Expected(P[..h])[k]
  {
    OpeningLastHash(P, h, k);
    ExpectedAt(P, k);
    ExpectedAt(P[..h], k);
    var j := LastOpening(P, k);
    if P[h].key == Some(k) {
      assert j == h;
      assert NextHashAfter(P, h) == |P|;
      SliceToEnd(P, BodyStart(P, h));
      assert Collected(P, h) == BodyLines(P[BodyStart(P, h)..]);
    } else if 0 <= j {
      assert j == LastOpening(P[..h], k);
      CollectedPrefix(P, h, j);
    }
  }

  lemma MapsOnKeys(E: map<string, string>, G: map<string, string>)
    requires forall k :: k in E ==> k in Keys
    requires forall k :: k in G ==> k in Keys
    requires forall k :: k in Keys ==> (k in E <==> k in G) && (k in E ==> E[k] == G[k])
    ensures E == G
  {
  }

  /** The reference result for lines whose last `'#'` line is `h`: the
      result for the lines above `h`, plus the section `h` opens, if any,
      with the lines after it. */
  lemma ExpectedLastHash(P: seq<Line>, h: nat)
    requires h < |P| && IsHash(P[h])
    requires WellClassified(P[h])
    requires forall e :: h < e < |P| ==> !IsHash(P[e])
    ensures Expected(P) == match P[h].key
                           case None => Expected(P[..h])
                           case Some(k) => Expected(P[..h])[k := Body(BodyLines(P[BodyStart(P, h)..]))]
  {
    var E := Expected(P);
    var F := Expected(P[..h]);
    var v := Body(BodyLines(P[BodyStart(P, h)..]));
    var G := match P[h].key
             case None => F
             case Some(k) => F[k := v];
    forall k | k in Keys
      ensures (k in E <==> k in G) && (k in E ==> E[k] == G[k])
    {
      ExpectedKeyLastHash(P, h, k);
    }
    assert forall k :: k in G ==> k in Keys;
    MapsOnKeys(E, G);
  }

  lemma ExpectedNoHash(P: seq<Line>)
    requires forall e :: 0 <= e < |P| ==> !IsHash(P[e])
    ensures Expected(P) == map[]
  {
  }

  // ---------------------------------------------------------------------
  // The loop state, described without the loop

  /** The state `split_sections` is in after `P`: with `h` the last `'#'`
      line, the sections recorded are the reference result for the lines
      above `h`, the open section is the one `h` opens, and the buffer holds
      the non-`'#'` lines since the buffer was last emptied. */
  function Described(P: seq<Line>): Scan {
    var h := LastBefore(P, |P|, IsHash);
    if h < 0 then Scan(map[], None, BodyLines(P))
    else Scan(Expected(P[..h]), P[h].key, BodyLines(P[BodyStart(P, h)..]))
  }

  /** Below the last `'#'` line `h`, a further body line changes neither
      where `h`'s buffer starts nor what lies above `h`. */
  lemma BodyStartSnoc(P: seq<Line>, x: Line, h: nat)
    requires !IsHash(x) && h < |P| && IsHash(P[h])
    ensures (P + [x])[h] == P[h] && (P + [x])[..h] == P[..h]
    ensures BodyStart(P + [x], h) == BodyStart(P, h)
  {
    var P' := P + [x];
    var n := |P|;
    SnocSlices(P, x, h);
    assert P'[..h] == P'[..n][..h];
    LastBeforeAgree(P', P, h, Opens);
    var p := LastBefore(P, h, Opens);
    if p >= 0 {
      NextHashAfterPrefix(P', n, p);
    }
  }

  lemma BodyLinesSnoc(P: seq<Line>, x: Line, a: nat)
    requires !IsHash(x) && a <= |P|
    ensures BodyLines((P + [x])[a..]) == BodyLines(P[a..]) + [x.text]
  {
    SnocSlices(P, x, a);
    BodyLinesAppend(P[a..], [x]);
    BodyLinesOne(x);
  }

  /** A line that is not a `'#'` line joins the buffer. */
  lemma DescribedBodyLine(P: seq<Line>, x: Line)
    requires !IsHash(x)
    ensures Described(P + [x]) == Step(Described(P), x)
  {
    var P' := P + [x];
    var n := |P|;
    var h := LastBefore(P, n, IsHash);
    assert LastBefore(P', n + 1, IsHash) == h by {
      SnocSlices(P, x, 0);
      LastBeforeAgree(P', P, n, IsHash);
    }
    if h < 0 {
      BodyLinesSnoc(P, x, 0);
      assert P'[0..] == P' && P[0..] == P;
    } else {
      BodyStartSnoc(P, x, h);
      BodyLinesSnoc(P, x, BodyStart(P, h));
    }
  }

  /** After a `'#'` line the recorded sections are the reference result
      for the lines above it. */
  lemma DescribedAfterHash(P: seq<Line>, x: Line)
    requires IsHash(x)
    ensures BodyStart(P + [x], |P|) <= |P|
    ensures Described(P + [x]) == Scan(Expected(P), x.key, BodyLines(P[BodyStart(P + [x], |P|)..]))
  {
    var P' := P + [x];
    var n := |P|;
    var S := BodyStart(P', n);
    assert LastBefore(P', n + 1, IsHash) == n;
    SnocSlices(P, x, S);
    BodyLinesAppend(P[S..], [x]);
    BodyLinesOne(x);
  }

  /** The last recognised heading up to the new line is the one up to the
      old last line. */
  lemma OpensBeforeHash(P: seq<Line>, x: Line, h: int)
    requires h == LastBefore(P, |P|, IsHash)
    ensures LastBefore(P + [x], |P|, Opens) == LastBefore(P, if h < 0 then 0 else h + 1, Opens)
  {
    SnocSlices(P, x, 0);
    LastBeforeAgree(P + [x], P, |P|, Opens);
    LastBeforeSkip(P, |P|, if h < 0 then 0 else h + 1, Opens);
  }

  /** After a recognised heading, the next `'#'` line starts a fresh buffer. */
  lemma BodyStartAfterRecorded(P: seq<Line>, x: Line, h: nat)
    requires IsHash(x) && h == LastBefore(P, |P|, IsHash) && Opens(P[h])
    ensures BodyStart(P + [x], |P|) == |P|
  {
    var P' := P + [x];
    var n := |P|;
    OpensBeforeHash(P, x, h);
    assert LastBefore(P', n, Opens) == h;
    assert forall e :: h < e < n ==> P'[e] == P[e];
    NextHashIs(P', h, n);
  }

  /** After an unrecognised `'#'` line, the buffer keeps its start. */
  lemma BodyStartAfterUnrecognized(P: seq<Line>, x: Line, h: nat)
    requires IsHash(x) && h == LastBefore(P, |P|, IsHash) && !Opens(P[h])
    ensures BodyStart(P + [x], |P|) == BodyStart(P, h)
  {
    var P' := P + [x];
    var n := |P|;
    OpensBeforeHash(P, x, h);
    var p := LastBefore(P, h, Opens);
    assert LastBefore(P', n, Opens) == p;
    if p >= 0 {
      NextHashAfterPrefix(P', n, p);
      SnocSlices(P, x, 0);
    }
  }

  /** Where the buffer stands after a `'#'` line, by what the last `'#'`
      line before it was. */
  lemma BodyStartAfterHash(P: seq<Line>, x: Line, h: int)
    requires IsHash(x) && h == LastBefore(P, |P|, IsHash)
    ensures BodyStart(P + [x], |P|) == if h < 0 then 0 else if Opens(P[h]) then |P| else BodyStart(P, h)
  {
    if h < 0 {
      OpensBeforeHash(P, x, h);
    } else if Opens(P[h]) {
      BodyStartAfterRecorded(P, x, h);
    } else {
      BodyStartAfterUnrecognized(P, x, h);
    }
  }

  lemma DescribedHashLine(P: seq<Line>, x: Line)
    requires IsHash(x)
    requires forall i :: 0 <= i < |P| ==> WellClassified(P[i])
    ensures Described(P + [x]) == Step(Described(P), x)
  {
    var n := |P|;
    var h := LastBefore(P, n, IsHash);
    DescribedAfterHash(P, x);
    BodyStartAfterHash(P, x, h);
    if h < 0 {
      assert Described(P) == Scan(map[], None, BodyLines(P));
      ExpectedNoHash(P);
      assert P[0..] == P;
    } else {
      var D := Described(P);
      assert D == Scan(Expected(P[..h]), P[h].key, BodyLines(P[BodyStart(P, h)..]));
      ExpectedLastHash(P, h);
      if Opens(P[h]) {
        assert Flush(D) == Expected(P);
        assert P[n..] == [];
      } else {
        assert D.sections == Expected(P);
      }
    }
  }

  lemma DescribedStep(P: seq<Line>, x: Line)
    requires forall i :: 0 <= i < |P| ==> WellClassified(P[i])
    ensures Described(P + [x]) == Step(Described(P), x)
  {
    if IsHash(x) {
      DescribedHashLine(P, x);
    } else {
      DescribedBodyLine(P, x);
    }
  }

  lemma {:induction false} ScanDescribed(P: seq<Line>)
    requires forall i :: 0 <= i < |P| ==> WellClassified(P[i])
    ensures ScanFrom(Start, P) == Described(P)
    decreases |P|
  {
    if P == [] {
    } else {
      var n := |P| - 1;
      ScanDescribed(P[..n]);
      assert P == P[..n] + [P[n]];
      DescribedStep(P[..n], P[n]);
    }
  }

  /** `split_sections` computes the reference result. */
  lemma SectionsOfMeetsSpec(lines: seq<string>)
    ensures SectionsOf(lines) == Expected(ClassifyAll(lines))
  {
    var L := ClassifyAll(lines);
    assert forall i :: 0 <= i < |L| ==> WellClassified(L[i]);
    ScanDescribed(L);
    var h := LastBefore(L, |L|, IsHash);
    if h < 0 {
      ExpectedNoHash(L);
      assert L[0..] == L;
    } else {
      ExpectedLastHash(L, h);
    }
  }

  // ---------------------------------------------------------------------
  // Consequences for `split_sections`

  /** A key is in the result exactly when some line is a heading that opens
      it. */
  lemma SectionsKeys(lines: seq<string>, k: string)
    ensures k in SectionsOf(lines) <==> exists i :: 0 <= i < |lines| && HeadingKey(lines[i]) == Some(k)
  {
    SectionsOfMeetsSpec(lines);
    var L := ClassifyAll(lines);
    var j := LastOpening(L, k);
    if j >= 0 {
      assert HeadingKey(lines[j]) == Some(k);
    }
    if i :| 0 <= i < |lines| && HeadingKey(lines[i]) == Some(k) {
      assert L[i] == Hash(Some(k));
    }
  }

  /** Without a recognised heading nothing is kept: the whole reply is
      dropped. */
  lemma NoHeadingNoSections(lines: seq<string>)
    requires forall i :: 0 <= i < |lines| ==> !Recognized(lines[i])
    ensures SectionsOf(lines) == map[]
  {
    forall k | k in SectionsOf(lines)
      ensures false
    {
      SectionsKeys(lines, k);
    }
  }

  lemma {:induction false} BodyLinesFrom(L: seq<Line>, line: string)
    requires line in BodyLines(L)
    ensures exists e :: 0 <= e < |L| && L[e] == Text(line)
    decreases |L|
  {
    var n := |L| - 1;
    if line in BodyLines(L[..n]) {
      BodyLinesFrom(L[..n], line);
      var e :| 0 <= e < n && L[..n][e] == Text(line);
      assert L[e] == Text(line);
    }
  }

  lemma CollectedFromTexts(L: seq<Line>, j: nat, line: string)
    requires j < |L| && IsHash(L[j])
    requires line in Collected(L, j)
    ensures exists e :: 0 <= e < |L| && L[e] == Text(line)
  {
    var a, b := BodyStart(L, j), NextHashAfter(L, j);
    BodyLinesFrom(L[a..b], line);
    var e :| 0 <= e < b - a && L[a..b][e] == Text(line);
    assert L[a + e] == Text(line);
  }

  /** Every body is made of lines of the input that do not start with
      `'#'`. */
  lemma BodiesFromTextLines(lines: seq<string>, k: string)
    requires k in SectionsOf(lines)
    ensures exists bs :: (forall i :: 0 <= i < |bs| ==> bs[i] in lines && !IsHashLine(bs[i]))
                         && SectionsOf(lines)[k] == Body(bs)
  {
    var L := ClassifyAll(lines);
    var j := LastOpening(L, k);
    assert j >= 0 && SectionsOf(lines)[k] == Body(Collected(L, j)) by {
      SectionsOfMeetsSpec(lines);
    }
    var bs := Collected(L, j);
    forall i | 0 <= i < |bs|
      ensures bs[i] in lines && !IsHashLine(bs[i])
    {
      CollectedFromTexts(L, j, bs[i]);
    }
  }

  /** The state left by lines whose last `'#'` line is a recognised heading:
      a section is open. */
  lemma OpenAfterOpening(L: seq<Line>, i: nat)
    requires forall j :: 0 <= j < |L| ==> WellClassified(L[j])
    requires i < |L| && Opens(L[i])
    requires forall j :: i < j < |L| ==> !IsHash(L[j])
    ensures ScanFrom(Start, L).current == L[i].key
  {
    assert ScanFrom(Start, L).current == Described(L).current by {
      ScanDescribed(L);
    }
    assert LastBefore(L, |L|, IsHash) == i by {
      LastBeforeSkip(L, |L|, i + 1, IsHash);
    }
  }

  lemma OpenAfterHeading(A: seq<string>, i: nat)
    requires i < |A| && Recognized(A[i])
    requires forall j :: i < j < |A| ==> !IsHashLine(A[j])
    ensures ScanFrom(Start, ClassifyAll(A)).current.Some?
  {
    var L := ClassifyAll(A);
    assert forall j :: 0 <= j < |L| ==> WellClassified(L[j]);
    assert Opens(L[i]);
    OpenAfterOpening(L, i);
  }

  /** The state left by lines without a recognised heading: nothing
      recorded, nothing open, and every line not starting with `'#'`
      buffered. */
  lemma PendingWithoutOpening(L: seq<Line>)
    requires forall j :: 0 <= j < |L| ==> WellClassified(L[j]) && !Opens(L[j])
    ensures ScanFrom(Start, L) == Scan(map[], None, BodyLines(L))
  {
    ScanDescribed(L);
    var h := LastBefore(L, |L|, IsHash);
    if h >= 0 {
      LastBeforeSkip(L, h, 0, Opens);
      ExpectedNoOpening(L[..h]);
      assert L[0..] == L;
    }
  }

  lemma PendingWithoutHeading(A: seq<string>)
    requires forall j :: 0 <= j < |A| ==> !Recognized(A[j])
    ensures ScanFrom(Start, ClassifyAll(A)) == Scan(map[], None, BodyLines(ClassifyAll(A)))
  {
    var L := ClassifyAll(A);
    assert forall j :: 0 <= j < |L| ==> WellClassified(L[j]) && !Opens(L[j]);
    PendingWithoutOpening(L);
  }

  lemma ExpectedNoOpening(L: seq<Line>)
    requires forall j :: 0 <= j < |L| ==> !Opens(L[j])
    ensures Expected(L) == map[]
  {
    forall k | k in Keys
      ensures LastOpening(L, k) < 0
    {
    }
  }

  /** The loop over `A + [heading] + B` resumes where the loop over `A`
      stopped. */
  lemma SplitRun(A: seq<string>, heading: string, B: seq<string>)
    ensures ScanFrom(Start, ClassifyAll(A + [heading] + B))
         == ScanFrom(ScanFrom(Start, ClassifyAll(A)), ClassifyAll([heading] + B))
  {
    assert A + [heading] + B == A + ([heading] + B);
    ClassifyAllAppend(A, [heading] + B);
    ScanAppend(Start, ClassifyAll(A), ClassifyAll([heading] + B));
  }

  lemma ResumeInSection(st: Scan, heading: string, B: seq<string>)
    requires st.current.Some?
    requires Recognized(heading) && NoHashLines(B)
    ensures Flush(ScanFrom(st, ClassifyAll([heading] + B))) == Flush(st)[HeadingKey(heading).value := Body(B)]
  {
    ScanSection(st, heading, B);
    assert [] + B == B;
  }

  /** A later heading for a key replaces its earlier body: after lines that
      end inside a recognised section, a heading for `k` followed by body
      lines that end the reply sets `k` to that body and leaves every other
      key as it was. */
  lemma LastOccurrenceWins(A: seq<string>, i: nat, heading: string, B: seq<string>)
    requires i < |A| && Recognized(A[i])
    requires forall j :: i < j < |A| ==> !IsHashLine(A[j])
    requires Recognized(heading) && NoHashLines(B)
    ensures SectionsOf(A + [heading] + B) == SectionsOf(A)[HeadingKey(heading).value := Body(B)]
  {
    OpenAfterHeading(A, i);
    SplitRun(A, heading, B);
    ResumeInSection(ScanFrom(Start, ClassifyAll(A)), heading, B);
  }

  /** Unattributed text is carried forward: the lines before the first
      recognised heading that do not start with `'#'` (the preamble, and the
      text under unrecognised `'#'` lines) open the first recognised
      section's body. Stated here for a reply with no `'#'` line after that
      heading; `CarryForwardState` gives the loop state for any
      continuation. */
  lemma CarryForward(A: seq<string>, heading: string, B: seq<string>)
    requires forall j :: 0 <= j < |A| ==> !Recognized(A[j])
    requires Recognized(heading) && NoHashLines(B)
    ensures SectionsOf(A + [heading] + B) == map[HeadingKey(heading).value := Body(BodyLines(ClassifyAll(A)) + B)]
  {
    var st := ScanFrom(Start, ClassifyAll(A));
    PendingWithoutHeading(A);
    SplitRun(A, heading, B);
    ScanSection(st, heading, B);
  }

  /** The loop state right after the first recognised heading, whatever
      follows it: nothing is recorded yet, the heading's section is open,
      and its buffer holds the carried lines of `A`. */
  lemma CarryForwardState(A: seq<string>, heading: string)
    requires forall j :: 0 <= j < |A| ==> !Recognized(A[j])
    requires Recognized(heading)
    ensures ScanFrom(Start, ClassifyAll(A + [heading])) == Scan(map[], HeadingKey(heading), BodyLines(ClassifyAll(A)))
  {
    var st := ScanFrom(Start, ClassifyAll(A));
    PendingWithoutHeading(A);
    SplitRun(A, heading, []);
    SnocNil(A, heading);
    ScanSection(st, heading, []);
    assert BodyLines(ClassifyAll(A)) + [] == BodyLines(ClassifyAll(A));
  }

  /** Text after the last recognised section is dropped when a `'#'` line
      that opens no section comes first and no `'#'` line follows: the
      result is that of the lines before it. */
  lemma TrailingUnrecognizedDropped(A: seq<string>, line: string, B: seq<string>)
    requires IsHashLine(line) && !Recognized(line) && NoHashLines(B)
    ensures SectionsOf(A + [line] + B) == SectionsOf(A)
  {
    SplitRun(A, line, B);
    ScanUnrecognized(ScanFrom(Start, ClassifyAll(A)), line, B);
  }

  /** For text without `'#'` lines, the carried lines are the text itself. */
  lemma BodyLinesOfText(A: seq<string>)
    requires NoHashLines(A)
    ensures BodyLines(ClassifyAll(A)) == A
    decreases |A|
  {
    if A != [] {
      var n := |A| - 1;
      assert ClassifyAll(A)[..n] == ClassifyAll(A[..n]);
      BodyLinesOfText(A[..n]);
      assert A == A[..n] + [A[n]];
    }
  }

  lemma SnocNil<T>(A: seq<T>, x: T)
    ensures A + [x] + [] == A + [x]
  {
  }

  /** A recognised heading that ends the reply, right after an open
      section (the last `'#'` line before it is a recognised heading), is
      stored with an empty body: the open section's lines went to that
      section. Without an open section the buffered lines are kept, and the
      heading's body is made of them. */
  lemma EmptySection(A: seq<string>, i: nat, heading: string)
    requires i < |A| && Recognized(A[i])
    requires forall j :: i < j < |A| ==> !IsHashLine(A[j])
    requires Recognized(heading)
    ensures HeadingKey(heading).value in SectionsOf(A + [heading])
    ensures SectionsOf(A + [heading])[HeadingKey(heading).value] == ""
  {
    LastOccurrenceWins(A, i, heading, []);
    SnocNil(A, heading);
    EmptyBody();
  }

  /** A reply made of one recognised heading stores it with an empty
      body. */
  lemma HeadingFirst(heading: string)
    requires Recognized(heading)
    ensures SectionsOf([heading]) == map[HeadingKey(heading).value := ""]
  {
    CarryForward([], heading, []);
    assert [] + [heading] + [] == [heading];
    EmptyBody();
  }
}
