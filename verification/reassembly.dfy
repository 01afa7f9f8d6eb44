/** The filtered summary: the sections the reader ticked, in a fixed order,
    each under its canonical heading, or the raw reply when none is left. */
module Reassembly {
  import opened Strings
  import opened Sections
  import opened Headings
  import opened SectionsSpec

  /** The sections in display order, with the title each is shown under. */
  const Display: seq<(string, string)> := [
    ("meds", "Medications"),
    ("orders", "Orders & Plan"),
    ("ptot", "PT/OT"),
    ("cm", "Case Management / Disposition"),
    ("brief", "Role Brief")
  ]

  /** The five section check boxes. */
  datatype Filters = Filters(meds: bool, orders: bool, ptot: bool, cm: bool, brief: bool)

  /** The check box of the `i`-th displayed section. */
  function Flag(f: Filters, i: nat): bool
    requires i < |Display|
  {
    if i == 0 then f.meds
    else if i == 1 then f.orders
    else if i == 2 then f.ptot
    else if i == 3 then f.cm
    else f.brief
  }

  /** The check box of the section stored under `k`; a key that is not
      displayed has none. */
  function Selected(f: Filters, k: string): bool {
    if k == "meds" then f.meds
    else if k == "orders" then f.orders
    else if k == "ptot" then f.ptot
    else if k == "cm" then f.cm
    else if k == "brief" then f.brief
    else false
  }

  /** The `i`-th section is shown: its box is ticked and `sections.get(key)`
      is a non-empty string. */
  predicate Qualifies(s: map<string, string>, f: Filters, i: nat)
    requires i < |Display|
  {
    Flag(f, i) && Display[i].0 in s && s[Display[i].0] != ""
  }

  /** One shown section: its key, its heading line and its body. */
  datatype Entry = Entry(key: string, heading: string, body: string)

  function EntryAt(s: map<string, string>, i: nat): Entry
    requires i < |Display| && Display[i].0 in s
  {
    Entry(Display[i].0, "## " + Display[i].1, s[Display[i].0])
  }

  /** The indices from `i` on of the sections that are shown, in display
      order. */
  function ShownFrom(s: map<string, string>, f: Filters, i: nat): (r: seq<nat>)
    requires i <= |Display|
    ensures forall j :: 0 <= j < |r| ==> i <= r[j] < |Display| && Qualifies(s, f, r[j])
    ensures forall j, l :: 0 <= j < l < |r| ==> r[j] < r[l]
    ensures forall n :: i <= n < |Display| && Qualifies(s, f, n) ==> n in r
    decreases |Display| - i
  {
    if i == |Display| then []
    else if Qualifies(s, f, i) then [i] + ShownFrom(s, f, i + 1)
    else ShownFrom(s, f, i + 1)
  }

  function Shown(s: map<string, string>, f: Filters): seq<nat> {
    ShownFrom(s, f, 0)
  }

  /** The shown sections, in display order. The ensures repeat the body
      element by element, so that callers need not unfold it. */
  function Picked(s: map<string, string>, f: Filters): (es: seq<Entry>)
    ensures |es| == |Shown(s, f)|
    ensures forall j :: 0 <= j < |es| ==> es[j] == EntryAt(s, Shown(s, f)[j])
  {
    var ix := Shown(s, f);
    seq(|ix|, j requires 0 <= j < |ix| => EntryAt(s, ix[j]))
  }

  /** `"## <title>\n" + body`. */
  function Block(e: Entry): string {
    e.heading + "\n" + e.body
  }

  function Blocks(es: seq<Entry>): (r: seq<string>)
    ensures |r| == |es|
    ensures forall j :: 0 <= j < |es| ==> r[j] == Block(es[j])
  {
    seq(|es|, j requires 0 <= j < |es| => Block(es[j]))
  }

  /** The summary: `"\n\n".join(collected).strip() or raw`. */
  function Reassemble(s: map<string, string>, f: Filters, raw: string): (r: string)
    ensures (forall n :: 0 <= n < |Display| ==> !Qualifies(s, f, n)) ==> r == raw
  {
    var t := Strip(Join(Blocks(Picked(s, f)), "\n\n"));
    if t == "" then raw else t
  }

  // ---------------------------------------------------------------------
  // Splitting the summary again

  /** The lines of the joined blocks: each heading, the lines of its body,
      and the blank line the separator leaves before the next heading. */
  function Rows(es: seq<Entry>): seq<string>
    requires |es| >= 1
  {
    if |es| == 1 then [es[0].heading] + SplitOn(es[0].body, '\n')
    else [es[0].heading] + (SplitOn(es[0].body, '\n') + [""]) + Rows(es[1..])
  }

  /** A block's lines are its heading and then its body's lines. */
  lemma SplitBlock(e: Entry)
    requires '\n' !in e.heading
    ensures SplitOn(Block(e), '\n') == [e.heading] + SplitOn(e.body, '\n')
  {
    assert Block(e) == e.heading + ['\n'] + e.body;
    SplitOnAppend(e.heading, e.body, '\n');
    SplitOnNoSeparator(e.heading, '\n');
  }

  /** The separator after a block leaves a blank line before the rest. */
  lemma SplitJoinCons(es: seq<Entry>)
    requires |es| > 1
    ensures SplitOn(Join(Blocks(es), "\n\n"), '\n')
         == SplitOn(Block(es[0]), '\n') + ([""] + SplitOn(Join(Blocks(es[1..]), "\n\n"), '\n'))
  {
    var rest := Join(Blocks(es[1..]), "\n\n");
    assert Blocks(es)[1..] == Blocks(es[1..]);
    assert Join(Blocks(es), "\n\n") == Block(es[0]) + ['\n'] + ([] + ['\n'] + rest);
    SplitOnAppend(Block(es[0]), [] + ['\n'] + rest, '\n');
    SplitOnAppend([], rest, '\n');
  }

  lemma {:induction false} SplitJoined(es: seq<Entry>)
    requires |es| >= 1 && OneLineHeadings(es)
    ensures SplitOn(Join(Blocks(es), "\n\n"), '\n') == Rows(es)
    decreases |es|
  {
    OneLineCons(es);
    SplitBlock(es[0]);
    if |es| > 1 {
      SplitJoinCons(es);
      SplitJoined(es[1..]);
      RowsAssoc(es[0].heading, SplitOn(es[0].body, '\n'), Rows(es[1..]));
    }
  }

  lemma RowsAssoc(h: string, b: seq<string>, r: seq<string>)
    ensures ([h] + b) + ([""] + r) == [h] + (b + [""]) + r
  {
  }

  /** A stripped body comes back from its lines, with or without the blank
      line that follows it. */
  lemma BodyOfLines(b: string)
    requires IsStripped(b)
    ensures Body(SplitOn(b, '\n')) == b
    ensures Body(SplitOn(b, '\n') + [""]) == b
  {
    StripStripped(b);
    SplitOnJoin(b, '\n');
    JoinSnocEmpty(SplitOn(b, '\n'), "\n");
    StripUnique([], b, "\n");
    assert [] + b + "\n" == b + "\n";
  }

  /** The sections recorded for `es`, later entries overriding earlier ones. */
  function Put(m: map<string, string>, es: seq<Entry>): map<string, string>
    decreases |es|
  {
    if es == [] then m else Put(m[es[0].key := es[0].body], es[1..])
  }

  /** What a summary body must satisfy to come back unchanged: stripped,
      and no line of it opens with `'#'`. */
  predicate PlainBody(b: string) {
    IsStripped(b) && NoHashLines(SplitOn(b, '\n'))
  }

  /** Every entry's heading is one line. */
  predicate OneLineHeadings(es: seq<Entry>) {
    forall j :: 0 <= j < |es| ==> '\n' !in es[j].heading
  }

  /** Every entry has a one-line heading and a plain body. */
  predicate Plain(es: seq<Entry>) {
    OneLineHeadings(es) && forall j :: 0 <= j < |es| ==> PlainBody(es[j].body)
  }

  /** Every entry's heading opens the entry's own key. */
  predicate OpenOwnKeys(es: seq<Entry>) {
    forall j :: 0 <= j < |es| ==> HeadingKey(es[j].heading) == Some(es[j].key)
  }

  lemma OneLineCons(es: seq<Entry>)
    requires |es| >= 1 && OneLineHeadings(es)
    ensures '\n' !in es[0].heading
    ensures OneLineHeadings(es[1..])
  {
    assert forall j :: 0 <= j < |es| - 1 ==> es[1..][j] == es[j + 1];
  }

  lemma PlainCons(es: seq<Entry>)
    requires |es| >= 1 && Plain(es)
    ensures '\n' !in es[0].heading && PlainBody(es[0].body)
    ensures Plain(es[1..])
  {
    assert forall j :: 0 <= j < |es| - 1 ==> es[1..][j] == es[j + 1];
  }

  /** A plain body's lines, and the blank line after them, hold no `'#'`
      line. */
  lemma PlainLines(b: string)
    requires PlainBody(b)
    ensures NoHashLines(SplitOn(b, '\n') + [""])
  {
    var ls := SplitOn(b, '\n') + [""];
    forall i | 0 <= i < |ls|
      ensures !IsHashLine(ls[i])
    {
      if i < |ls| - 1 {
        assert ls[i] == SplitOn(b, '\n')[i];
      }
    }
  }

  lemma OpenOwnKeysCons(es: seq<Entry>)
    requires |es| >= 1 && OpenOwnKeys(es)
    ensures HeadingKey(es[0].heading) == Some(es[0].key)
    ensures OpenOwnKeys(es[1..])
  {
    assert forall j :: 0 <= j < |es| - 1 ==> es[1..][j] == es[j + 1];
  }

  /** The loop over one section's heading and lines, then anything else. */
  lemma ScanHead(st: Scan, heading: string, k: string, lines: seq<string>, rest: seq<string>)
    requires HeadingKey(heading) == Some(k) && NoHashLines(lines)
    requires st.current.Some? || st.buf == []
    ensures ScanFrom(st, ClassifyAll([heading] + lines + rest))
         == ScanFrom(Scan(Flush(st), Some(k), lines), ClassifyAll(rest))
  {
    ClassifyAllAppend([heading] + lines, rest);
    ScanAppend(st, ClassifyAll([heading] + lines), ClassifyAll(rest));
    ScanSection(st, heading, lines);
    assert (if st.current.Some? then [] else st.buf) + lines == lines;
  }

  lemma {:induction false} ScanRows(st: Scan, es: seq<Entry>)
    requires |es| >= 1 && Plain(es) && OpenOwnKeys(es)
    requires st.current.Some? || st.buf == []
    ensures Flush(ScanFrom(st, ClassifyAll(Rows(es)))) == Put(Flush(st), es)
    decreases |es|
  {
    var e := es[0];
    var own := SplitOn(e.body, '\n');
    PlainCons(es);
    OpenOwnKeysCons(es);
    if |es| == 1 {
      ScanLastRow(st, e, own);
      assert [e.heading] + own == Rows(es);
      assert es[1..] == [];
    } else {
      PlainLines(e.body);
      ScanHead(st, e.heading, e.key, own + [""], Rows(es[1..]));
      ScanRows(Scan(Flush(st), Some(e.key), own + [""]), es[1..]);
      assert Flush(Scan(Flush(st), Some(e.key), own + [""])) == Flush(st)[e.key := e.body] by {
        BodyOfLines(e.body);
      }
    }
  }

  /** The loop over one section's heading and lines. */
  lemma ScanLast(st: Scan, heading: string, k: string, lines: seq<string>)
    requires HeadingKey(heading) == Some(k) && NoHashLines(lines)
    requires st.current.Some? || st.buf == []
    ensures ScanFrom(st, ClassifyAll([heading] + lines)) == Scan(Flush(st), Some(k), lines)
  {
    ScanSection(st, heading, lines);
    assert (if st.current.Some? then [] else st.buf) + lines == lines;
  }

  /** The last section's heading and lines, with nothing after them. */
  lemma ScanLastRow(st: Scan, e: Entry, own: seq<string>)
    requires own == SplitOn(e.body, '\n')
    requires HeadingKey(e.heading) == Some(e.key) && PlainBody(e.body)
    requires st.current.Some? || st.buf == []
    ensures Flush(ScanFrom(st, ClassifyAll([e.heading] + own))) == Flush(st)[e.key := e.body]
  {
    ScanLast(st, e.heading, e.key, own);
    BodyOfLines(e.body);
  }

  /** Recording entries with distinct keys: each entry's body is found under
      its key, and nothing else is added or changed. */
  lemma {:induction false} PutLookup(m: map<string, string>, es: seq<Entry>)
    requires forall j, l :: 0 <= j < l < |es| ==> es[j].key != es[l].key
    ensures forall j :: 0 <= j < |es| ==> es[j].key in Put(m, es) && Put(m, es)[es[j].key] == es[j].body
    ensures forall k :: k in Put(m, es) <==> k in m || exists j :: 0 <= j < |es| && es[j].key == k
    ensures forall k :: k in m && (forall j :: 0 <= j < |es| ==> es[j].key != k) ==> Put(m, es)[k] == m[k]
    decreases |es|
  {
    if es != [] {
      var m1 := m[es[0].key := es[0].body];
      assert forall j :: 0 <= j < |es| - 1 ==> es[1..][j] == es[j + 1];
      PutLookup(m1, es[1..]);
      assert Put(m, es) == Put(m1, es[1..]);
      forall k
        ensures k in Put(m, es) <==> k in m || exists j :: 0 <= j < |es| && es[j].key == k
      {
        if exists j :: 0 <= j < |es| && es[j].key == k {
          var j :| 0 <= j < |es| && es[j].key == k;
          if j > 0 {
            assert es[1..][j - 1].key == k;
          }
        }
      }
    }
  }

  /** The first characters of a join are those of its first part, and the
      last ones those of its last part. */
  lemma {:induction false} JoinEnds(parts: seq<string>, sep: string)
    requires |parts| >= 1
    ensures |Join(parts, sep)| >= |parts[0]| && Join(parts, sep)[..|parts[0]|] == parts[0]
    ensures |Join(parts, sep)| >= |parts[|parts| - 1]|
    ensures Join(parts, sep)[|Join(parts, sep)| - |parts[|parts| - 1]|..] == parts[|parts| - 1]
    decreases |parts|
  {
    if |parts| > 1 {
      JoinEnds(parts[1..], sep);
      var t := Join(parts[1..], sep);
      assert Join(parts, sep) == parts[0] + sep + t;
      assert (parts[0] + sep + t)[..|parts[0]|] == parts[0];
      assert parts[1..][|parts[1..]| - 1] == parts[|parts| - 1];
      assert (parts[0] + sep + t)[|parts[0] + sep + t| - |t|..] == t;
    }
  }

  // ---------------------------------------------------------------------
  // The displayed sections

  /** Each displayed heading is one line. */
  lemma DisplayOneLine(i: nat)
    requires i < |Display|
    ensures '\n' !in "## " + Display[i].1
  {
  }

  /** Each displayed heading opens its own section. */
  lemma DisplayHeading(i: nat)
    requires i < |Display|
    ensures HeadingKey("## " + Display[i].1) == Some(Display[i].0)
  {
    if i == 0 {
      assert Display[i] == ("meds", "Medications");
      MedicationsLine();
    } else if i == 1 {
      assert Display[i] == ("orders", "Orders & Plan");
      OrdersLine();
    } else if i == 2 {
      assert Display[i] == ("ptot", "PT/OT");
      PtOtLine();
    } else if i == 3 {
      assert Display[i] == ("cm", "Case Management / Disposition");
      CaseManagementLine();
    } else {
      assert Display[i] == ("brief", "Role Brief");
      RoleBriefLine();
    }
  }

  /** The check box of a displayed section is the one `Selected` reads, and
      only displayed sections have one. */
  lemma SelectedDisplay(f: Filters, k: string)
    ensures forall n :: 0 <= n < |Display| ==> (Selected(f, Display[n].0) <==> Flag(f, n))
    ensures Selected(f, k) ==> exists n :: 0 <= n < |Display| && Display[n].0 == k
  {
    if Selected(f, k) {
      if k == "meds" {
        assert Display[0].0 == k;
      } else if k == "orders" {
        assert Display[1].0 == k;
      } else if k == "ptot" {
        assert Display[2].0 == k;
      } else if k == "cm" {
        assert Display[3].0 == k;
      } else {
        assert Display[4].0 == k;
      }
    }
  }

  lemma PickedBodies(s: map<string, string>, f: Filters)
    ensures forall j :: 0 <= j < |Picked(s, f)| ==>
      Picked(s, f)[j].key in s && Picked(s, f)[j].body == s[Picked(s, f)[j].key] && Picked(s, f)[j].body != ""
  {
  }

  lemma DisplayDistinct()
    ensures forall a, b :: 0 <= a < b < |Display| ==> Display[a].0 != Display[b].0
  {
  }

  lemma PickedDistinct(s: map<string, string>, f: Filters)
    ensures forall j, l :: 0 <= j < l < |Picked(s, f)| ==> Picked(s, f)[j].key != Picked(s, f)[l].key
  {
    DisplayDistinct();
  }

  lemma PickedCovers(s: map<string, string>, f: Filters, k: string)
    requires k in s && Selected(f, k) && s[k] != ""
    ensures exists j :: 0 <= j < |Picked(s, f)| && Picked(s, f)[j].key == k
  {
    var es := Picked(s, f);
    var ix := Shown(s, f);
    SelectedDisplay(f, k);
    var n :| 0 <= n < |Display| && Display[n].0 == k;
    assert Qualifies(s, f, n);
    assert n in ix;
    var j :| 0 <= j < |ix| && ix[j] == n;
    assert es[j].key == k;
  }

  lemma PickedSelected(s: map<string, string>, f: Filters, j: nat)
    requires j < |Picked(s, f)|
    ensures Selected(f, Picked(s, f)[j].key)
  {
    SelectedDisplay(f, Picked(s, f)[j].key);
  }

  /** The shown sections are the ticked, non-empty ones, each once, with
      its own body. */
  lemma PickedKeys(s: map<string, string>, f: Filters)
    ensures forall j :: 0 <= j < |Picked(s, f)| ==>
      Picked(s, f)[j].key in s && Picked(s, f)[j].body == s[Picked(s, f)[j].key] && Picked(s, f)[j].body != ""
    ensures forall j, l :: 0 <= j < l < |Picked(s, f)| ==> Picked(s, f)[j].key != Picked(s, f)[l].key
    ensures forall k :: (exists j :: 0 <= j < |Picked(s, f)| && Picked(s, f)[j].key == k)
                    <==> k in s && Selected(f, k) && s[k] != ""
  {
    var es := Picked(s, f);
    PickedBodies(s, f);
    PickedDistinct(s, f);
    forall k
      ensures (exists j :: 0 <= j < |es| && es[j].key == k) <==> k in s && Selected(f, k) && s[k] != ""
    {
      if k in s && Selected(f, k) && s[k] != "" {
        PickedCovers(s, f, k);
      }
      if exists j :: 0 <= j < |es| && es[j].key == k {
        var j :| 0 <= j < |es| && es[j].key == k;
        PickedSelected(s, f, j);
      }
    }
  }

  /** The shown headings are one line each and open their own keys. */
  lemma PickedHeadings(s: map<string, string>, f: Filters)
    ensures OneLineHeadings(Picked(s, f)) && OpenOwnKeys(Picked(s, f))
  {
    var es := Picked(s, f);
    forall j | 0 <= j < |es|
      ensures '\n' !in es[j].heading && HeadingKey(es[j].heading) == Some(es[j].key)
    {
      DisplayOneLine(Shown(s, f)[j]);
      DisplayHeading(Shown(s, f)[j]);
    }
  }

  lemma PickedPlain(s: map<string, string>, f: Filters)
    requires forall k :: k in s ==> PlainBody(s[k])
    ensures Plain(Picked(s, f)) && OpenOwnKeys(Picked(s, f))
  {
    PickedHeadings(s, f);
    PickedBodies(s, f);
  }

  /** A block ends with its body. */
  lemma BlockEnds(e: Entry)
    requires e.body != []
    ensures Block(e)[|Block(e)| - 1] == e.body[|e.body| - 1]
  {
  }

  /** A text that opens with `first` and closes with `last`. */
  lemma EndsOf(t: string, first: string, last: string)
    requires 1 <= |first| <= |t| && t[..|first|] == first
    requires 1 <= |last| <= |t| && t[|t| - |last|..] == last
    ensures t[0] == first[0] && t[|t| - 1] == last[|last| - 1]
  {
    assert t[0] == t[..|first|][0];
    assert t[|t| - 1] == t[|t| - |last|..][|last| - 1];
  }

  /** A join opens with the first character of its first part and closes
      with the last character of its last part. */
  lemma JoinEndChars(parts: seq<string>, sep: string)
    requires |parts| >= 1 && parts[0] != [] && parts[|parts| - 1] != []
    ensures Join(parts, sep) != []
    ensures Join(parts, sep)[0] == parts[0][0]
    ensures Join(parts, sep)[|Join(parts, sep)| - 1] == parts[|parts| - 1][|parts[|parts| - 1]| - 1]
  {
    JoinEnds(parts, sep);
    EndsOf(Join(parts, sep), parts[0], parts[|parts| - 1]);
  }

  /** The joined blocks open with a heading and close with the last body,
      so stripping leaves them alone and they do not end in a line break. */
  lemma JoinedStripped(es: seq<Entry>)
    requires |es| >= 1
    requires |es[0].heading| > 0 && es[0].heading[0] == '#'
    requires IsStripped(es[|es| - 1].body) && es[|es| - 1].body != ""
    ensures Join(Blocks(es), "\n\n") != ""
    ensures IsStripped(Join(Blocks(es), "\n\n"))
    ensures Join(Blocks(es), "\n\n")[|Join(Blocks(es), "\n\n")| - 1] != '\n'
  {
    var bs := Blocks(es);
    var last := es[|es| - 1];
    assert bs[0] != [] && bs[0][0] == '#' by {
      assert bs[0] == es[0].heading + "\n" + es[0].body;
    }
    assert bs[|bs| - 1] != [] && bs[|bs| - 1][|bs[|bs| - 1]| - 1] == last.body[|last.body| - 1] by {
      assert bs[|bs| - 1] == Block(last);
      BlockEnds(last);
    }
    JoinEndChars(bs, "\n\n");
  }

  // ---------------------------------------------------------------------
  // Round trip

  /** With a section shown, the summary is the joined blocks, and its
      lines are their rows. */
  lemma SummaryLines(s: map<string, string>, f: Filters, raw: string)
    requires forall k :: k in s ==> IsStripped(s[k])
    requires |Picked(s, f)| >= 1
    ensures Reassemble(s, f, raw) == Join(Blocks(Picked(s, f)), "\n\n")
    ensures SplitLines(Reassemble(s, f, raw)) == Rows(Picked(s, f))
  {
    var es := Picked(s, f);
    PickedKeys(s, f);
    PickedHeadings(s, f);
    var t := Join(Blocks(es), "\n\n");
    JoinedStripped(es);
    StripStripped(t);
    assert SplitLines(t) == SplitOn(t, '\n');
    SplitJoined(es);
  }

  lemma SectionsOfRows(es: seq<Entry>)
    requires |es| >= 1 && Plain(es) && OpenOwnKeys(es)
    ensures SectionsOf(Rows(es)) == Put(map[], es)
  {
    ScanRows(Start, es);
  }

  lemma PutPicked(s: map<string, string>, f: Filters)
    ensures Put(map[], Picked(s, f)) == map k | k in s && Selected(f, k) && s[k] != "" :: s[k]
  {
    PickedKeys(s, f);
    PutLookup(map[], Picked(s, f));
  }

  /** Splitting the summary again gives back exactly the shown sections,
      provided every body is stripped and has no line opening with `'#'`,
      and at least one section is shown. */
  lemma RoundTrip(s: map<string, string>, f: Filters, raw: string)
    requires forall k :: k in s ==> PlainBody(s[k])
    requires exists n :: 0 <= n < |Display| && Qualifies(s, f, n)
    ensures SplitSections(Reassemble(s, f, raw)) == map k | k in s && Selected(f, k) && s[k] != "" :: s[k]
  {
    var n :| 0 <= n < |Display| && Qualifies(s, f, n);
    assert n in Shown(s, f);
    assert forall k :: k in s ==> IsStripped(s[k]);
    SummaryLines(s, f, raw);
    PickedPlain(s, f);
    SectionsOfRows(Picked(s, f));
    PutPicked(s, f);
  }
}
