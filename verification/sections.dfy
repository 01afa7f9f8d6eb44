/** The section splitter: the heading alias table, `normalize_key`, the
    heading pattern `^#{2,3}\s+(.*)$`, and `split_sections`, which walks the
    reply line by line and records the body of every recognised heading. */
module Sections {
  import opened Strings

  /** `SECTION_KEYS`: canonical keys with their heading aliases, in
      declaration order. The order is load-bearing: the first key one of whose
      aliases occurs in a heading wins. */
  const SectionKeys: seq<(string, seq<string>)> := [
    ("meds", ["medications", "med changes", "medication changes"]),
    ("orders", ["orders & plan", "orders/plan", "plan changes", "orders", "plan"]),
    ("ptot", ["pt/ot", "rehab", "therapy"]),
    ("cm", ["case management", "disposition", "discharge plan"]),
    ("brief", ["role brief", "nursing brief", "clinician brief", "summary brief"])
  ]

  /** The canonical keys, in declaration order. */
  const Keys: seq<string> := ["meds", "orders", "ptot", "cm", "brief"]

  lemma KeysOfTable()
    ensures |Keys| == |SectionKeys|
    ensures forall i :: 0 <= i < |Keys| ==> Keys[i] == SectionKeys[i].0
  {
  }

  predicate IsKey(k: string) {
    k in Keys
  }

  /** Some alias of the `i`-th key occurs in the folded heading `h`. */
  predicate HasAlias(i: nat, h: string)
    requires i < |SectionKeys|
  {
    AnyAlias(SectionKeys[i].1, h)
  }

  /** Some alias of the list occurs in `h`, trying them in order. */
  predicate AnyAlias(aliases: seq<string>, h: string)
    decreases |aliases|
  {
    |aliases| > 0 && (Contains(h, aliases[0]) || AnyAlias(aliases[1..], h))
  }

  lemma {:induction false} AnyAliasIff(aliases: seq<string>, h: string)
    ensures AnyAlias(aliases, h) <==> exists n :: 0 <= n < |aliases| && Contains(h, aliases[n])
    decreases |aliases|
  {
    if |aliases| > 0 {
      AnyAliasIff(aliases[1..], h);
      if n :| 0 < n < |aliases| && Contains(h, aliases[n]) {
        assert aliases[1..][n - 1] == aliases[n];
      }
      if n :| 0 <= n < |aliases[1..]| && Contains(h, aliases[1..][n]) {
        assert aliases[n + 1] == aliases[1..][n];
      }
    }
  }

  /** The heading text as `normalize_key` compares it: stripped, then
      lower-cased. */
  function Fold(hdr: string): string {
    LowerStr(Strip(hdr))
  }

  /** The alias search over `table` from its `i`-th entry on: the key of the
      first entry one of whose aliases occurs in `h`, and `""` when none does. */
  function Search(table: seq<(string, seq<string>)>, h: string, i: nat): string
    requires i <= |table|
    decreases |table| - i
  {
    if i == |table| then ""
    else if AnyAlias(table[i].1, h) then table[i].0
    else Search(table, h, i + 1)
  }

  /** Over a table whose keys are non-empty, the search finds nothing exactly
      when no entry from the `i`-th on has an alias in `h`; otherwise it finds
      the key of the first entry that has one. */
  lemma {:induction false} SearchSpec(table: seq<(string, seq<string>)>, h: string, i: nat)
    requires i <= |table|
    requires forall j :: 0 <= j < |table| ==> table[j].0 != ""
    ensures Search(table, h, i) == "" <==> forall j :: i <= j < |table| ==> !AnyAlias(table[j].1, h)
    ensures Search(table, h, i) != "" ==> exists j :: i <= j < |table| && table[j].0 == Search(table, h, i)
                                                  && AnyAlias(table[j].1, h)
                                                  && forall l :: i <= l < j ==> !AnyAlias(table[l].1, h)
    decreases |table| - i
  {
    if i == |table| {
    } else if AnyAlias(table[i].1, h) {
      assert Search(table, h, i) == table[i].0;
      assert !forall j :: i <= j < |table| ==> !AnyAlias(table[j].1, h);
    } else {
      SearchSpec(table, h, i + 1);
      assert Search(table, h, i) == Search(table, h, i + 1);
      assert (forall j :: i <= j < |table| ==> !AnyAlias(table[j].1, h))
         <==> (forall j :: i + 1 <= j < |table| ==> !AnyAlias(table[j].1, h));
      if Search(table, h, i) != "" {
        var j :| i + 1 <= j < |table| && table[j].0 == Search(table, h, i + 1) && AnyAlias(table[j].1, h)
                 && forall l :: i + 1 <= l < j ==> !AnyAlias(table[l].1, h);
        assert forall l :: i <= l < j ==> !AnyAlias(table[l].1, h);
      }
    }
  }

  /** The alias search of `normalize_key` from the `i`-th key on. */
  function KeyFrom(h: string, i: nat): string
    requires i <= |SectionKeys|
  {
    Search(SectionKeys, h, i)
  }

  /** The search finds nothing exactly when no key from the `i`-th on has an
      alias in `h`; otherwise it finds the first key that has one. */
  lemma KeyFromSpec(h: string, i: nat)
    requires i <= |SectionKeys|
    ensures KeyFrom(h, i) == "" || IsKey(KeyFrom(h, i))
    ensures KeyFrom(h, i) == "" <==> forall j :: i <= j < |SectionKeys| ==> !HasAlias(j, h)
    ensures KeyFrom(h, i) != "" ==> exists j :: i <= j < |SectionKeys| && SectionKeys[j].0 == KeyFrom(h, i) && HasAlias(j, h)
                                                && forall l :: i <= l < j ==> !HasAlias(l, h)
  {
    KeysOfTable();
    assert forall j :: 0 <= j < |SectionKeys| ==> SectionKeys[j].0 != "";
    SearchSpec(SectionKeys, h, i);
    HasAliasIsAnyAlias(h);
    if KeyFrom(h, i) != "" {
      var j :| i <= j < |SectionKeys| && SectionKeys[j].0 == KeyFrom(h, i) && AnyAlias(SectionKeys[j].1, h)
               && forall l :: i <= l < j ==> !AnyAlias(SectionKeys[l].1, h);
      assert HasAlias(j, h);
      assert forall l :: i <= l < j ==> !HasAlias(l, h);
      assert Keys[j] in Keys;
    }
  }

  /** `HasAlias` is the alias search of the `j`-th table entry. */
  lemma HasAliasIsAnyAlias(h: string)
    ensures forall j :: 0 <= j < |SectionKeys| ==> (HasAlias(j, h) <==> AnyAlias(SectionKeys[j].1, h))
  {
  }

  /** What the search finds is `""` or a canonical key. */
  lemma KeyFromIsKey(h: string, i: nat)
    requires i <= |SectionKeys|
    ensures KeyFrom(h, i) == "" || IsKey(KeyFrom(h, i))
  {
    KeyFromSpec(h, i);
  }

  /** `normalize_key(hdr)`: the alias search over the stripped, lower-cased
      heading. */
  function NormalizeKey(hdr: string): (r: string)
    ensures r == "" || IsKey(r)
  {
    KeyFromIsKey(Fold(hdr), 0);
    KeyFrom(Fold(hdr), 0)
  }

  /** The key `normalize_key` returns is the first, in declaration order,
      having an alias that occurs in the stripped, lower-cased heading, and
      `""` when no alias occurs at all. */
  lemma NormalizeKeySpec(hdr: string)
    ensures NormalizeKey(hdr) == "" <==> forall j :: 0 <= j < |SectionKeys| ==> !HasAlias(j, Fold(hdr))
    ensures NormalizeKey(hdr) != "" ==> exists j :: 0 <= j < |SectionKeys| && SectionKeys[j].0 == NormalizeKey(hdr)
                                                   && HasAlias(j, Fold(hdr))
                                                   && forall l :: 0 <= l < j ==> !HasAlias(l, Fold(hdr))
  {
    KeyFromSpec(Fold(hdr), 0);
  }

  /** A line the splitter treats as a heading boundary (`line.startswith("#")`). */
  predicate IsHashLine(line: string) {
    |line| > 0 && line[0] == '#'
  }

  /** The length of the run of `'#'` that opens `s`. */
  function HashRun(s: string, i: nat): (n: nat)
    requires i <= |s|
    ensures i <= n <= |s|
    ensures forall k :: i <= k < n ==> s[k] == '#'
    ensures n == |s| || s[n] != '#'
    decreases |s| - i
  {
    if i < |s| && s[i] == '#' then HashRun(s, i + 1) else i
  }

  /** The text before the captured group `v`: exactly `n` (two or three)
      `'#'`, then at least one whitespace character and nothing else. */
  predicate HeadingPrefix(line: string, v: string, n: nat) {
    (n == 2 || n == 3) && n < |line| - |v|
    && (forall i :: 0 <= i < n ==> line[i] == '#')
    && (forall i :: n <= i < |line| - |v| ==> IsSpace(line[i]))
  }

  /** The match of `^#{2,3}\s+(.*)$` against one line (which holds no
      `'\n'`): the captured header text, or `None`. The pattern matches when
      the line opens with two or three `'#'` and then whitespace; a fourth
      `'#'` where the whitespace should be defeats both alternatives of
      `#{2,3}`. The greedy `\s+` leaves the group starting at the first
      non-space character. */
  function HeadingText(line: string): (r: Option<string>)
    ensures r.Some? <==> ((StartsWith(line, "##") && |line| > 2 && IsSpace(line[2]))
                          || (StartsWith(line, "###") && |line| > 3 && IsSpace(line[3])))
    ensures r.Some? ==> |r.value| < |line| - 2 && r.value == line[|line| - |r.value|..]
    ensures r.Some? ==> r.value == [] || !IsSpace(r.value[0])
    ensures r.Some? ==> forall i :: 0 <= i < |line| - |r.value| ==> line[i] == '#' || IsSpace(line[i])
    ensures r.Some? ==> exists n :: HeadingPrefix(line, r.value, n)
  {
    var n := HashRun(line, 0);
    if (n == 2 || n == 3) && n < |line| && IsSpace(line[n]) then
      var v := line[SpacesFrom(line, n)..];
      assert HeadingPrefix(line, v, n);
      Some(v)
    else
      None
  }

  /** The ensures of `HeadingText` leave one capture: two suffixes of a line,
      each preceded by a heading prefix and neither starting with whitespace,
      are the same text. */
  lemma HeadingCaptureUnique(line: string, v: string, w: string, n: nat, m: nat)
    requires HeadingPrefix(line, v, n) && v == line[|line| - |v|..] && (v == [] || !IsSpace(v[0]))
    requires HeadingPrefix(line, w, m) && w == line[|line| - |w|..] && (w == [] || !IsSpace(w[0]))
    ensures v == w
  {
  }

  /** The key a line opens: the line is a heading per `HeadingText` and its
      header normalises to a key. `None` covers both a `'#'` line that is not
      a heading and a heading no alias recognises. */
  function HeadingKey(line: string): (r: Option<string>)
    ensures r.Some? ==> IsHashLine(line) && IsKey(r.value)
  {
    var t := HeadingText(line);
    if t.None? then None
    else
      assert line[..2][0] == '#';
      var k := NormalizeKey(t.value);
      if k == "" then None else Some(k)
  }

  predicate Recognized(line: string) {
    HeadingKey(line).Some?
  }

  /** A line as the loop of `split_sections` tells it apart: a `'#'` line,
      with the key its heading opens (`None` when the line is not a heading
      or names no known section), or a body line. */
  datatype Line = Text(text: string) | Hash(key: Option<string>)

  /** The ensures spell out the two cases of the body; they are there so
      that callers need not unfold it. */
  function Classify(line: string): (c: Line)
    ensures c.Text? <==> !IsHashLine(line)
    ensures c.Text? ==> c.text == line
    ensures c.Hash? ==> c.key == HeadingKey(line)
  {
    if IsHashLine(line) then Hash(HeadingKey(line)) else Text(line)
  }

  function ClassifyAll(lines: seq<string>): (cs: seq<Line>)
    ensures |cs| == |lines|
    ensures forall i :: 0 <= i < |lines| ==> cs[i] == Classify(lines[i])
    ensures forall i :: 0 <= i < |lines| ==> (cs[i].Hash? <==> IsHashLine(lines[i]))
    ensures forall i :: 0 <= i < |lines| && cs[i].Text? ==> cs[i].text == lines[i]
    ensures forall i :: 0 <= i < |lines| ==> WellClassified(cs[i])
  {
    seq(|lines|, i requires 0 <= i < |lines| => Classify(lines[i]))
  }

  lemma ClassifyAllAppend(a: seq<string>, b: seq<string>)
    ensures ClassifyAll(a + b) == ClassifyAll(a) + ClassifyAll(b)
  {
    var l, r := ClassifyAll(a + b), ClassifyAll(a) + ClassifyAll(b);
    forall i | 0 <= i < |l|
      ensures l[i] == r[i]
    {
      if i < |a| {
        assert (a + b)[i] == a[i];
      } else {
        assert (a + b)[i] == b[i - |a|];
      }
    }
  }

  /** The loop state of `split_sections`: the sections recorded so far, the
      key of the open section (`current_key`), and the buffered body lines. */
  datatype Scan = Scan(sections: map<string, string>, current: Option<string>, buf: seq<string>)

  const Start: Scan := Scan(map[], None, [])

  /** The body of the buffered lines: `"\n".join(buf).strip()`. */
  function Body(lines: seq<string>): string {
    Strip(Join(lines, "\n"))
  }

  /** No lines make the empty body. */
  lemma EmptyBody()
    ensures Body([]) == ""
  {
    StripStripped("");
  }

  /** Record the open section, if any, under its key. */
  function Flush(st: Scan): map<string, string> {
    match st.current
    case None => st.sections
    case Some(k) => st.sections[k := Body(st.buf)]
  }

  /** One iteration of the loop. A `'#'` line first records the open section
      and empties the buffer, but only when a section is open; otherwise the
      buffer is kept. It then opens the section its heading names, or none. Any
      other line is buffered. */
  function Step(st: Scan, c: Line): Scan {
    match c
    case Hash(k) =>
      var st' := if st.current.Some? then Scan(Flush(st), None, []) else st;
      st'.(current := k)
    case Text(line) =>
      st.(buf := st.buf + [line])
  }

  /** The loop run over `cs` from state `st`. */
  function ScanFrom(st: Scan, cs: seq<Line>): Scan
    decreases |cs|
  {
    if cs == [] then st
    else Step(ScanFrom(st, cs[..|cs| - 1]), cs[|cs| - 1])
  }

  /** `split_sections` on the lines of the reply. */
  function SectionsOf(lines: seq<string>): map<string, string> {
    Flush(ScanFrom(Start, ClassifyAll(lines)))
  }

  /** `split_sections(markdown_text)`. */
  function SplitSections(text: string): map<string, string> {
    SectionsOf(SplitLines(text))
  }

  // ---------------------------------------------------------------------
  // Shape of the result

  /** What every reachable loop state satisfies: only canonical keys are
      recorded or open, every recorded body is stripped, and no `'#'` line is
      ever buffered. */
  ghost predicate Sound(st: Scan) {
    && (forall k :: k in st.sections ==> IsKey(k) && IsStripped(st.sections[k]))
    && (st.current.Some? ==> IsKey(st.current.value))
    && NoHashLines(st.buf)
  }

  /** What classification guarantees of a line: body lines do not start
      with `'#'` and headings open canonical keys only. */
  predicate WellClassified(c: Line) {
    match c
    case Text(line) => !IsHashLine(line)
    case Hash(k) => k.Some? ==> IsKey(k.value)
  }

  lemma {:induction false} ScanSound(st: Scan, cs: seq<Line>)
    requires Sound(st)
    requires forall i :: 0 <= i < |cs| ==> WellClassified(cs[i])
    ensures Sound(ScanFrom(st, cs))
    decreases |cs|
  {
    if cs != [] {
      ScanSound(st, cs[..|cs| - 1]);
    }
  }

  /** Every key of the result is one of the five canonical keys (never `""`)
      and every body is stripped. */
  lemma SplitSectionsShape(text: string)
    ensures "" !in SplitSections(text)
    ensures forall k :: k in SplitSections(text) ==> IsKey(k)
    ensures forall k :: k in SplitSections(text) ==> IsStripped(SplitSections(text)[k])
  {
    ScanSound(Start, ClassifyAll(SplitLines(text)));
  }

  // ---------------------------------------------------------------------
  // Running the loop over pieces of the input

  lemma {:induction false} ScanAppend(st: Scan, a: seq<Line>, b: seq<Line>)
    ensures ScanFrom(st, a + b) == ScanFrom(ScanFrom(st, a), b)
    decreases |b|
  {
    if b == [] {
      assert a + b == a;
    } else {
      assert (a + b)[..|a + b| - 1] == a + b[..|b| - 1];
      ScanAppend(st, a, b[..|b| - 1]);
    }
  }

  predicate NoHashLines(lines: seq<string>) {
    forall i :: 0 <= i < |lines| ==> !IsHashLine(lines[i])
  }

  /** Lines that are not `'#'` lines are only buffered. */
  lemma {:induction false} ScanBodyLines(st: Scan, lines: seq<string>)
    requires NoHashLines(lines)
    ensures ScanFrom(st, ClassifyAll(lines)) == st.(buf := st.buf + lines)
    decreases |lines|
  {
    if lines == [] {
      assert st.buf + lines == st.buf;
    } else {
      var n := |lines| - 1;
      assert lines == lines[..n] + [lines[n]];
      ClassifyAllAppend(lines[..n], [lines[n]]);
      ScanAppend(st, ClassifyAll(lines[..n]), ClassifyAll([lines[n]]));
      ScanBodyLines(st, lines[..n]);
      assert ClassifyAll([lines[n]]) == [Text(lines[n])];
      assert ScanFrom(ScanFrom(st, ClassifyAll(lines[..n])), [Text(lines[n])])
          == Step(ScanFrom(st, ClassifyAll(lines[..n])), Text(lines[n]));
      assert st.buf + lines[..n] + [lines[n]] == st.buf + lines;
    }
  }

  /** A recognised heading followed by body lines: the open section is
      recorded, and the new section's buffer is its body lines, preceded by
      whatever was buffered without an open section. */
  lemma ScanSection(st: Scan, heading: string, lines: seq<string>)
    requires Recognized(heading) && NoHashLines(lines)
    ensures ScanFrom(st, ClassifyAll([heading] + lines))
         == Scan(Flush(st), HeadingKey(heading), (if st.current.Some? then [] else st.buf) + lines)
  {
    ClassifyAllAppend([heading], lines);
    ScanAppend(st, ClassifyAll([heading]), ClassifyAll(lines));
    assert ClassifyAll([heading]) == [Hash(HeadingKey(heading))];
    assert ScanFrom(st, [Hash(HeadingKey(heading))]) == Step(ScanFrom(st, []), Hash(HeadingKey(heading)));
    ScanBodyLines(ScanFrom(st, ClassifyAll([heading])), lines);
  }

  /** An unrecognised `'#'` line followed by body lines: the open section is
      recorded and nothing is open afterwards, so those lines reach the
      result only if a recognised heading follows. */
  lemma ScanUnrecognized(st: Scan, line: string, lines: seq<string>)
    requires IsHashLine(line) && !Recognized(line) && NoHashLines(lines)
    ensures ScanFrom(st, ClassifyAll([line] + lines)).current == None
    ensures Flush(ScanFrom(st, ClassifyAll([line] + lines))) == Flush(st)
  {
    ClassifyAllAppend([line], lines);
    ScanAppend(st, ClassifyAll([line]), ClassifyAll(lines));
    assert ClassifyAll([line]) == [Hash(None)];
    assert ScanFrom(st, [Hash(None)]) == Step(ScanFrom(st, []), Hash(None));
    ScanBodyLines(ScanFrom(st, ClassifyAll([line])), lines);
  }
}

module Headings {
  import opened Strings
  import opened Sections

  /** A key is reached exactly when its predecessors' aliases all fail. */
  lemma KeyFromAt(h: string, i: nat)
    requires i < |SectionKeys| && HasAlias(i, h)
    requires forall l :: 0 <= l < i ==> !HasAlias(l, h)
    ensures KeyFrom(h, 0) == SectionKeys[i].0
  {
    KeyFromSpec(h, 0);
    var r := KeyFrom(h, 0);
    var j :| 0 <= j < |SectionKeys| && SectionKeys[j].0 == r && HasAlias(j, h)
             && forall l :: 0 <= l < j ==> !HasAlias(l, h);
    assert j == i;
  }

  lemma FoldStripped(hdr: string, h: string)
    requires IsStripped(hdr) && LowerStr(hdr) == h
    ensures Fold(hdr) == h
  {
    StripStripped(hdr);
  }

  /** No alias of the `i`-th key occurs in `h`, because each alias holds a
      character (given in `cs`, alias by alias) that `h` lacks. */
  lemma NoAliasByChars(i: nat, h: string, cs: seq<char>)
    requires i < |SectionKeys| && |cs| == |SectionKeys[i].1|
    requires forall n :: 0 <= n < |cs| ==> cs[n] in SectionKeys[i].1[n] && cs[n] !in h
    ensures !HasAlias(i, h)
  {
    forall n | 0 <= n < |cs|
      ensures !Contains(h, SectionKeys[i].1[n])
    {
      NotContainsByChar(h, SectionKeys[i].1[n], cs[n]);
    }
    AnyAliasIff(SectionKeys[i].1, h);
  }

  lemma MissMeds(h: string)
    requires 'm' !in h
    ensures !HasAlias(0, h)
  {
    NoAliasByChars(0, h, "mmm");
  }

  /** Every orders alias holds an `'r'` or an `'l'`, and also a `'d'` or a
      `'p'`, so a heading lacking either pair misses them all. */
  lemma MissOrders(h: string)
    requires ('r' !in h && 'l' !in h) || ('d' !in h && 'p' !in h)
    ensures !HasAlias(1, h)
  {
    if 'r' !in h && 'l' !in h {
      NoAliasByChars(1, h, "rrlrl");
    } else {
      NoAliasByChars(1, h, "ddpdp");
    }
  }

  lemma MissPtOt(h: string)
    requires 'p' !in h && 'h' !in h
    ensures !HasAlias(2, h)
  {
    NoAliasByChars(2, h, "phh");
  }

  lemma MissCm(h: string)
    requires 'c' !in h && 'd' !in h
    ensures !HasAlias(3, h)
  {
    NoAliasByChars(3, h, "cdd");
  }

  lemma MissBrief(h: string)
    requires 'b' !in h
    ensures !HasAlias(4, h)
  {
    NoAliasByChars(4, h, "bbbb");
  }

  /** The alias of `i` at position `n` occurs in `h` at `at`. */
  lemma AliasAt(i: nat, n: nat, h: string, at: nat)
    requires i < |SectionKeys| && n < |SectionKeys[i].1|
    requires OccursAt(h, SectionKeys[i].1[n], at)
    ensures HasAlias(i, h)
  {
    assert Contains(h, SectionKeys[i].1[n]);
    AnyAliasIff(SectionKeys[i].1, h);
  }

  lemma MedicationsFolded()
    ensures KeyFrom("medications", 0) == "meds"
  {
    AliasAt(0, 0, "medications", 0);
    KeyFromAt("medications", 0);
  }

  lemma OrdersFolded()
    ensures KeyFrom("orders & plan", 0) == "orders"
  {
    MissMeds("orders & plan");
    AliasAt(1, 0, "orders & plan", 0);
    KeyFromAt("orders & plan", 1);
  }

  lemma PtOtFolded()
    ensures KeyFrom("pt/ot", 0) == "ptot"
  {
    MissMeds("pt/ot");
    MissOrders("pt/ot");
    AliasAt(2, 0, "pt/ot", 0);
    KeyFromAt("pt/ot", 2);
  }

  /** The two aliases whose every character occurs in
      "case management / disposition": the only `'c'` is at the start, too
      early for the fifth character of "medications", and the only `'p'` is followed by
      `'o'`, not the `'t'` of "pt/ot". */
  lemma MedicationsNotInCaseManagement()
    ensures !Contains("case management / disposition", "medications")
  {
    var h := "case management / disposition";
    assert "medications"[4] == 'c';
    CaseManagementOneC();
    NotContainsByCharAt(h, "medications", 4);
  }

  /** The only `c` of the case management heading is its first letter. */
  lemma CaseManagementOneC()
    ensures 'c' !in "case management / disposition"[4..]
  {
    var t := "case management / disposition"[4..];
    assert t == " management / disposition";
    forall i | 0 <= i < |t|
      ensures t[i] != 'c'
    {
    }
  }

  lemma PtOtNotInCaseManagement()
    ensures !Contains("case management / disposition", "pt/ot")
  {
    var h := "case management / disposition";
    assert 'p' !in h[..21] && 'p' !in h[22..];
    assert h[22] == 'o';
    NotContainsByLoneStart(h, "pt/ot", 21, 1);
  }

  lemma CaseManagementNoMeds()
    ensures !HasAlias(0, "case management / disposition")
  {
    var h := "case management / disposition";
    MedicationsNotInCaseManagement();
    NotContainsByChar(h, "med changes", 'h');
    NotContainsByChar(h, "medication changes", 'h');
  }

  lemma CaseManagementNoPtOt()
    ensures !HasAlias(2, "case management / disposition")
  {
    var h := "case management / disposition";
    PtOtNotInCaseManagement();
    NotContainsByChar(h, "rehab", 'r');
    NotContainsByChar(h, "therapy", 'h');
  }

  /** The orders aliases need an `'r'` or an `'l'`. */
  lemma CaseManagementLacks()
    ensures 'r' !in "case management / disposition" && 'l' !in "case management / disposition"
  {
  }

  lemma CaseManagementFolded()
    ensures KeyFrom("case management / disposition", 0) == "cm"
  {
    var h := "case management / disposition";
    CaseManagementLacks();
    CaseManagementNoMeds();
    MissOrders(h);
    CaseManagementNoPtOt();
    AliasAt(3, 0, h, 0);
    KeyFromAt(h, 3);
  }

  /** The letters the miss lemmas look for, absent from "role brief". */
  lemma RoleBriefLacks()
    ensures 'm' !in "role brief" && 'd' !in "role brief" && 'p' !in "role brief"
    ensures 'h' !in "role brief" && 'c' !in "role brief"
  {
  }

  lemma RoleBriefMisses()
    ensures forall l :: 0 <= l < 4 ==> !HasAlias(l, "role brief")
  {
    var h := "role brief";
    RoleBriefLacks();
    MissMeds(h);
    MissOrders(h);
    MissPtOt(h);
    MissCm(h);
  }

  lemma RoleBriefFolded()
    ensures KeyFrom("role brief", 0) == "brief"
  {
    var h := "role brief";
    RoleBriefMisses();
    AliasAt(4, 0, h, 0);
    KeyFromAt(h, 4);
  }

  lemma DischargePlanFolded()
    ensures KeyFrom("discharge plan", 0) == "orders"
    ensures HasAlias(3, "discharge plan")
  {
    var h := "discharge plan";
    MissMeds(h);
    AliasAt(1, 4, h, 10);
    AliasAt(3, 2, h, 0);
    KeyFromAt(h, 1);
  }

  /** The letters the miss lemmas look for, absent from "notes". */
  lemma NotesLacks()
    ensures 'm' !in "notes" && 'd' !in "notes" && 'p' !in "notes"
    ensures 'h' !in "notes" && 'c' !in "notes" && 'b' !in "notes"
  {
  }

  lemma NotesFolded()
    ensures KeyFrom("notes", 0) == ""
  {
    var h := "notes";
    NotesLacks();
    MissMeds(h);
    MissOrders(h);
    MissPtOt(h);
    MissCm(h);
    MissBrief(h);
    assert |SectionKeys| == 5;
    assert forall j :: 0 <= j < |SectionKeys| ==> !HasAlias(j, h);
    KeyFromSpec(h, 0);
  }

  lemma MedicationsIsMeds()
    ensures NormalizeKey("Medications") == "meds"
  {
    FoldStripped("Medications", "medications");
    MedicationsFolded();
  }

  lemma OrdersIsOrders()
    ensures NormalizeKey("Orders & Plan") == "orders"
  {
    FoldStripped("Orders & Plan", "orders & plan");
    OrdersFolded();
  }

  lemma PtOtIsPtOt()
    ensures NormalizeKey("PT/OT") == "ptot"
  {
    FoldStripped("PT/OT", "pt/ot");
    PtOtFolded();
  }

  lemma CaseManagementIsCm()
    ensures NormalizeKey("Case Management / Disposition") == "cm"
  {
    FoldStripped("Case Management / Disposition", "case management / disposition");
    CaseManagementFolded();
  }

  lemma RoleBriefIsBrief()
    ensures NormalizeKey("Role Brief") == "brief"
  {
    FoldStripped("Role Brief", "role brief");
    RoleBriefFolded();
  }

  /** Each heading the reassembly emits classifies back to its own key. */
  lemma CanonicalHeadings()
    ensures NormalizeKey("Medications") == "meds"
    ensures NormalizeKey("Orders & Plan") == "orders"
    ensures NormalizeKey("PT/OT") == "ptot"
    ensures NormalizeKey("Case Management / Disposition") == "cm"
    ensures NormalizeKey("Role Brief") == "brief"
  {
    MedicationsIsMeds();
    OrdersIsOrders();
    PtOtIsPtOt();
    CaseManagementIsCm();
    RoleBriefIsBrief();
  }

  /** Precedence: "Discharge plan" carries a case-management alias, but the
      orders alias "plan" is tried first, so the heading resolves to `orders`. */
  lemma DischargePlanIsOrders()
    ensures HasAlias(3, Fold("Discharge plan"))
    ensures NormalizeKey("Discharge plan") == "orders"
  {
    FoldStripped("Discharge plan", "discharge plan");
    DischargePlanFolded();
  }

  /** A heading no alias matches normalises to `""`. */
  lemma NotesIsUnknown()
    ensures NormalizeKey("Notes") == ""
  {
    FoldStripped("Notes", "notes");
    NotesFolded();
  }

  /** A `## ` line: the pattern captures everything after the single space
      when the title starts with neither whitespace nor `'#'`. */
  lemma HeadingLine(t: string)
    requires t == [] || !IsSpace(t[0])
    ensures HeadingText("## " + t) == Some(t)
    ensures HeadingKey("## " + t) == if NormalizeKey(t) == "" then None else Some(NormalizeKey(t))
  {
    var s := "## " + t;
    assert s[0] == '#' && s[1] == '#' && s[2] == ' ';
    assert HashRun(s, 2) == 2;
    assert HashRun(s, 0) == 2;
    if t != [] {
      assert s[3] == t[0];
    }
    assert SpacesFrom(s, 3) == 3;
    assert SpacesFrom(s, 2) == 3;
    assert s[3..] == t;
  }

  lemma MedicationsLine()
    ensures HeadingKey("## " + "Medications") == Some("meds")
  {
    MedicationsIsMeds();
    HeadingLine("Medications");
  }

  lemma OrdersLine()
    ensures HeadingKey("## " + "Orders & Plan") == Some("orders")
  {
    OrdersIsOrders();
    HeadingLine("Orders & Plan");
  }

  lemma PtOtLine()
    ensures HeadingKey("## " + "PT/OT") == Some("ptot")
  {
    PtOtIsPtOt();
    HeadingLine("PT/OT");
  }

  lemma CaseManagementLine()
    ensures HeadingKey("## " + "Case Management / Disposition") == Some("cm")
  {
    CaseManagementIsCm();
    HeadingLine("Case Management / Disposition");
  }

  lemma RoleBriefLine()
    ensures HeadingKey("## " + "Role Brief") == Some("brief")
  {
    RoleBriefIsBrief();
    HeadingLine("Role Brief");
  }

  /** The heading lines the reassembly emits open their own sections. */
  lemma CanonicalHeadingLines()
    ensures HeadingKey("## " + "Medications") == Some("meds")
    ensures HeadingKey("## " + "Orders & Plan") == Some("orders")
    ensures HeadingKey("## " + "PT/OT") == Some("ptot")
    ensures HeadingKey("## " + "Case Management / Disposition") == Some("cm")
    ensures HeadingKey("## " + "Role Brief") == Some("brief")
  {
    MedicationsLine();
    OrdersLine();
    PtOtLine();
    CaseManagementLine();
    RoleBriefLine();
  }
}
