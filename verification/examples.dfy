/** Worked inputs for the section splitter, one behaviour each. */
module SectionExamples {
  import opened Strings
  import opened Sections
  import opened Headings
  import opened SectionsSpec

  // Sequence identities that cut a list of lines at the heading the
  // corollaries of `SectionsSpec` expect; stating them apart keeps each
  // example's proof small for the solver.

  lemma ThreeLines(a: string, b: string, c: string)
    ensures [a, b, c] == [a] + [b] + [c]
  {
  }

  lemma FourLines(a: string, b: string, c: string, d: string)
    ensures [a, b, c, d] == [a, b] + [c] + [d]
  {
  }

  lemma TwoLines(a: string, b: string)
    ensures [a, b] == [] + [a] + [b]
  {
  }

  lemma OneLine(a: string)
    ensures [a] == [] + [a] + []
  {
  }

  lemma TwoLineBody(a: string, b: string)
    ensures Body([a, b]) == Strip(a + "\n" + b)
  {
    assert [a, b][1..] == [b];
    assert Join([b], "\n") == b;
    assert Join([a, b], "\n") == a + "\n" + b;
  }

  lemma IntroBody()
    ensures Body(["intro", "- x"]) == "intro\n- x"
  {
    TwoLineBody("intro", "- x");
    assert "intro" + "\n" + "- x" == "intro\n- x";
    StripStripped("intro\n- x");
  }

  lemma CarryOne(a: string, h: string, b: string)
    requires !IsHashLine(a) && !IsHashLine(b) && Recognized(h)
    ensures SectionsOf([a] + [h] + [b]) == map[HeadingKey(h).value := Body(BodyLines(ClassifyAll([a])) + [b])]
  {
    CarryForward([a], h, [b]);
  }

  lemma TextOne(a: string, b: string)
    requires !IsHashLine(a)
    ensures BodyLines(ClassifyAll([a])) + [b] == [a, b]
  {
    BodyLinesOfText([a]);
  }

  lemma CarriedUnder(a: string, h: string, b: string)
    requires !IsHashLine(a) && !IsHashLine(b) && HeadingKey(h) == Some("meds")
    ensures SectionsOf([a, h, b]) == map["meds" := Body([a, b])]
  {
    CarryOne(a, h, b);
    TextOne(a, b);
    ThreeLines(a, h, b);
  }

  /** Text before the first heading is carried into it. */
  lemma PreambleCarried()
    ensures SectionsOf(["intro", "## " + "Medications", "- x"]) == map["meds" := "intro\n- x"]
  {
    MedicationsLine();
    CarriedUnder("intro", "## " + "Medications", "- x");
    IntroBody();
  }

  /** A text that does not end in a line break splits at every one. */
  lemma LinesOfText(t: string)
    requires t != "" && t[|t| - 1] != '\n'
    ensures SplitLines(t) == SplitOn(t, '\n')
  {
  }

  lemma ThreePieces(a: string, b: string, c: string)
    requires '\n' !in a && '\n' !in b && '\n' !in c
    ensures SplitOn(a + ['\n'] + (b + ['\n'] + c), '\n') == [a, b, c]
  {
    SplitOnAppend(a, b + ['\n'] + c, '\n');
    SplitOnAppend(b, c, '\n');
    SplitOnNoSeparator(a, '\n');
    SplitOnNoSeparator(b, '\n');
    SplitOnNoSeparator(c, '\n');
  }

  /** The lines of a three-line text. */
  lemma ThreeLineText(a: string, b: string, c: string)
    requires '\n' !in a && '\n' !in b && '\n' !in c && c != ""
    ensures SplitLines(a + "\n" + b + "\n" + c) == [a, b, c]
  {
    var t := a + "\n" + b + "\n" + c;
    assert t == a + ['\n'] + (b + ['\n'] + c);
    assert t[|t| - 1] == c[|c| - 1];
    LinesOfText(t);
    ThreePieces(a, b, c);
  }

  lemma PreambleText()
    ensures "intro" + "\n" + ("## " + "Medications") + "\n" + "- x" == "intro\n## Medications\n- x"
  {
  }

  /** The same, as the text `split_sections` is given. */
  lemma PreambleCarriedText()
    ensures SplitSections("intro\n## Medications\n- x") == map["meds" := "intro\n- x"]
  {
    ThreeLineText("intro", "## " + "Medications", "- x");
    PreambleText();
    PreambleCarried();
  }

  lemma OneLineBody(a: string)
    requires IsStripped(a)
    ensures Body([a]) == a
  {
    StripStripped(a);
  }

  lemma ClassifyPair(x: string, y: string)
    ensures ClassifyAll([x, y]) == [Classify(x), Classify(y)]
  {
  }

  lemma ClassifyFour(w: string, x: string, y: string, z: string)
    ensures ClassifyAll([w, x, y, z]) == [Classify(w), Classify(x)] + [Classify(y), Classify(z)]
  {
    assert [w, x, y, z] == [w, x] + [y, z];
    ClassifyAllAppend([w, x], [y, z]);
    ClassifyPair(w, x);
    ClassifyPair(y, z);
  }

  /** The loop over a non-heading `'#'` line, a body line, a heading and a
      body line. */
  lemma LeakLines(a: string, k: string, b: string)
    ensures Flush(ScanFrom(Start, [Hash(None), Text(a), Hash(Some(k)), Text(b)])) == map[k := Body([a, b])]
  {
    var L := [Hash(None), Text(a), Hash(Some(k)), Text(b)];
    assert L[..1] == [Hash(None)] && L[..1][..0] == [];
    assert ScanFrom(Start, L[..1]) == Start;
    assert L[..2][..1] == L[..1];
    assert ScanFrom(Start, L[..2]) == Scan(map[], None, [a]);
    assert L[..3][..2] == L[..2];
    assert ScanFrom(Start, L[..3]) == Scan(map[], Some(k), [a]);
    assert L[..4][..3] == L[..3] && L[..4] == L;
    assert ScanFrom(Start, L) == Scan(map[], Some(k), [a, b]);
  }

  lemma ClassifyLeak(n: string, a: string, h: string, b: string)
    requires IsHashLine(n) && HeadingKey(n) == None && HeadingKey(h) == Some("meds")
    requires !IsHashLine(a) && !IsHashLine(b)
    ensures ClassifyAll([n, a, h, b]) == [Hash(None), Text(a), Hash(Some("meds")), Text(b)]
  {
    ClassifyFour(n, a, h, b);
  }

  lemma UnrecognizedLeakUnder(n: string, a: string, h: string, b: string)
    requires IsHashLine(n) && HeadingKey(n) == None && HeadingKey(h) == Some("meds")
    requires !IsHashLine(a) && !IsHashLine(b)
    ensures SectionsOf([n, a, h, b]) == map["meds" := Body([a, b])]
  {
    ClassifyLeak(n, a, h, b);
    LeakLines(a, "meds", b);
  }

  lemma NotesLine()
    ensures IsHashLine("## " + "Notes") && HeadingKey("## " + "Notes") == None
  {
    NotesIsUnknown();
    HeadingLine("Notes");
  }

  lemma FooBarBody()
    ensures Body(["foo", "bar"]) == "foo\nbar"
  {
    TwoLineBody("foo", "bar");
    assert "foo" + "\n" + "bar" == "foo\nbar";
    StripStripped("foo\nbar");
  }

  /** The text under a heading no alias names runs on into the next
      recognised section. */
  lemma UnrecognizedHeadingLeaks()
    ensures SectionsOf(["## " + "Notes", "foo", "## " + "Medications", "bar"]) == map["meds" := "foo\nbar"]
  {
    NotesLine();
    MedicationsLine();
    UnrecognizedLeakUnder("## " + "Notes", "foo", "## " + "Medications", "bar");
    FooBarBody();
  }

  lemma FirstUnder(h: string)
    requires HeadingKey(h) == Some("meds")
    ensures SectionsOf([h, "a"]) == map["meds" := Body(["a"])]
  {
    TwoLines(h, "a");
    CarryForward([], h, ["a"]);
    assert [] + ["a"] == ["a"];
  }

  lemma SecondUnder(h: string)
    requires HeadingKey(h) == Some("meds")
    ensures SectionsOf([h, "a", h, "b"]) == SectionsOf([h, "a"])["meds" := Body(["b"])]
  {
    FourLines(h, "a", h, "b");
    LastOccurrenceWins([h, "a"], 0, h, ["b"]);
  }

  lemma RepeatedUnder(h: string)
    requires HeadingKey(h) == Some("meds")
    ensures SectionsOf([h, "a", h, "b"]) == map["meds" := Body(["b"])]
  {
    FirstUnder(h);
    SecondUnder(h);
  }

  /** A repeated heading keeps the body of its last occurrence. */
  lemma RepeatedHeadingKeepsLast()
    ensures SectionsOf(["## " + "Medications", "a", "## " + "Medications", "b"]) == map["meds" := "b"]
  {
    MedicationsLine();
    RepeatedUnder("## " + "Medications");
    OneLineBody("b");
  }

  lemma EmptyUnder(h: string)
    requires HeadingKey(h) == Some("meds")
    ensures SectionsOf([h]) == map["meds" := Body([])]
  {
    OneLine(h);
    CarryForward([], h, []);
  }

  /** A heading with nothing under it is kept with an empty body. */
  lemma EmptyHeadingKept()
    ensures SectionsOf(["## " + "Medications"]) == map["meds" := ""]
  {
    MedicationsLine();
    EmptyUnder("## " + "Medications");
    StripStripped("");
  }

  lemma PreambleOver(a: string, h: string)
    requires !IsHashLine(a) && HeadingKey(h) == Some("meds")
    ensures SectionsOf([a, h]) == map["meds" := Body([a])]
  {
    assert [a, h] == [a] + [h] + [];
    CarryForward([a], h, []);
    BodyLinesOfText([a]);
    assert BodyLines(ClassifyAll([a])) + [] == [a];
  }

  /** A heading with nothing under it still takes the buffered preamble:
      no section was open to receive it. */
  lemma PreambleFillsEmptyHeading()
    ensures SectionsOf(["intro", "## " + "Medications"]) == map["meds" := "intro"]
  {
    MedicationsLine();
    PreambleOver("intro", "## " + "Medications");
    OneLineBody("intro");
  }

  lemma TrailingUnder(h: string, n: string)
    requires HeadingKey(h) == Some("meds") && IsHashLine(n) && HeadingKey(n) == None
    ensures SectionsOf([h, "a", n, "b"]) == map["meds" := Body(["a"])]
  {
    FourLines(h, "a", n, "b");
    TrailingUnrecognizedDropped([h, "a"], n, ["b"]);
    FirstUnder(h);
  }

  /** Text under a trailing heading no alias names is dropped. */
  lemma TrailingUnrecognizedLost()
    ensures SectionsOf(["## " + "Medications", "a", "## " + "Notes", "b"]) == map["meds" := "a"]
  {
    MedicationsLine();
    NotesLine();
    TrailingUnder("## " + "Medications", "## " + "Notes");
    OneLineBody("a");
  }

  /** Text with no recognised heading yields no sections at all. */
  lemma PlainTextDropped()
    ensures SectionsOf(["just text"]) == map[]
  {
    assert !Recognized("just text");
    NoHeadingNoSections(["just text"]);
  }

  lemma OnlyUnder(h: string, a: string)
    requires HeadingKey(h) == Some("meds") && !IsHashLine(a)
    ensures SectionsOf([h, a]) == map["meds" := Body([a])]
  {
    TwoLines(h, a);
    CarryForward([], h, [a]);
    assert [] + [a] == [a];
  }

  /** An indented `'#'` line is body text, and stripping the body exposes
      its `'#'`. */
  lemma IndentedHashBody()
    ensures SectionsOf(["## " + "Medications", " # x"]) == map["meds" := "# x"]
  {
    MedicationsLine();
    OnlyUnder("## " + "Medications", " # x");
    assert " " + "# x" + "" == " # x";
    StripUnique(" ", "# x", "");
  }

  /** A `'#'` line that is not a heading, right under a heading, closes
      that section with an empty body. */
  lemma HashLineCloses()
    ensures SectionsOf(["## " + "Medications", "# x"]) == map["meds" := ""]
  {
    assert HashRun("# x", 1) == 1;
    assert HeadingText("# x") == None;
    assert ["## " + "Medications"] + ["# x"] + [] == ["## " + "Medications", "# x"];
    TrailingUnrecognizedDropped(["## " + "Medications"], "# x", []);
    EmptyHeadingKept();
  }

  /** A heading line with an empty title captures the empty text. */
  lemma EmptyTitle()
    ensures HeadingText("## ") == Some("")
  {
    HeadingLine("");
    assert "## " + "" == "## ";
  }

  /** A `'#'` after the space belongs to the captured title. */
  lemma HashInTitle()
    ensures HeadingText("## #x") == Some("#x")
  {
    assert HashRun("## #x", 2) == 2;
    assert SpacesFrom("## #x", 2) == 3;
  }

  /** A heading naming two sections goes to the one declared first. */
  lemma DischargePlanLine()
    ensures HeadingKey("## " + "Discharge plan") == Some("orders")
  {
    DischargePlanIsOrders();
    HeadingLine("Discharge plan");
  }
}

/** The summary of a split reply, split once more. */
module ReassemblyExamples {
  import opened Strings
  import opened Sections
  import opened SectionsSpec
  import opened SectionExamples
  import opened Reassembly

  /** Every check box ticked. */
  const AllShown := Filters(true, true, true, true, true)

  lemma MedsOnlyPicked()
    ensures Picked(map["meds" := "# x"], AllShown) == [Entry("meds", "## Medications", "# x")]
  {
    var s := map["meds" := "# x"];
    assert Qualifies(s, AllShown, 0);
    assert !Qualifies(s, AllShown, 1) && !Qualifies(s, AllShown, 2);
    assert !Qualifies(s, AllShown, 3) && !Qualifies(s, AllShown, 4);
    assert ShownFrom(s, AllShown, 4) == [];
    assert ShownFrom(s, AllShown, 2) == [];
    assert ShownFrom(s, AllShown, 1) == [];
    assert Shown(s, AllShown) == [0];
    var es := Picked(s, AllShown);
    assert |es| == 1;
    assert es[0] == EntryAt(s, 0) == Entry("meds", "## " + "Medications", "# x");
    assert "## " + "Medications" == "## Medications";
    assert es == [es[0]];
  }

  lemma HashNotPlain()
    ensures !PlainBody("# x")
  {
    SplitOnNoSeparator("# x", '\n');
    assert SplitOn("# x", '\n')[0] == "# x";
  }

  lemma MedsSummary(raw: string)
    ensures Reassemble(map["meds" := "# x"], AllShown, raw) == "## Medications\n# x"
  {
    var s := map["meds" := "# x"];
    MedsOnlyPicked();
    assert forall k :: k in s ==> IsStripped(s[k]);
    SummaryLines(s, AllShown, raw);
    assert Blocks(Picked(s, AllShown)) == ["## Medications" + "\n" + "# x"];
  }

  lemma MedsSummaryLines(raw: string)
    ensures SplitLines(Reassemble(map["meds" := "# x"], AllShown, raw)) == ["## " + "Medications", "# x"]
  {
    var s := map["meds" := "# x"];
    MedsOnlyPicked();
    assert forall k :: k in s ==> IsStripped(s[k]);
    SummaryLines(s, AllShown, raw);
    SplitOnNoSeparator("# x", '\n');
    assert Rows(Picked(s, AllShown)) == ["## Medications"] + ["# x"];
  }

  /** The summary of the splitter's own result need not split back to it:
      the body `"# x"` the splitter makes of an indented `'#'` line is, in
      the summary, a line of its own that closes the section. */
  lemma ResplitLosesBody(raw: string)
    ensures SectionsOf(["## " + "Medications", " # x"]) == map["meds" := "# x"]
    ensures !PlainBody("# x")
    ensures Reassemble(map["meds" := "# x"], AllShown, raw) == "## Medications\n# x"
    ensures SplitSections(Reassemble(map["meds" := "# x"], AllShown, raw)) == map["meds" := ""]
  {
    IndentedHashBody();
    HashNotPlain();
    MedsSummary(raw);
    MedsSummaryLines(raw);
    HashLineCloses();
  }
}
