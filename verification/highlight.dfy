/** The search box of the note viewer: `html.escape`, the word tokens of the
    query, the case-insensitive alternation of those tokens, the highlighted
    rendering and the hit counter. */
module Highlight {
  import opened Strings

  // ---------------------------------------------------------------------
  // html.escape

  /** The characters `html.escape(s, quote=True)` rewrites. */
  predicate Special(c: char) {
    c == '&' || c == '<' || c == '>' || c == '"' || c == '\''
  }

  predicate NoSpecial(s: string) {
    forall i :: 0 <= i < |s| ==> !Special(s[i])
  }

  function EscapeChar(c: char): (r: string)
    ensures '<' !in r && '>' !in r
    ensures Special(c) ==> |r| > 1 && r[0] == '&'
    ensures !Special(c) ==> r == [c]
  {
    if c == '&' then "&amp;"
    else if c == '<' then "&lt;"
    else if c == '>' then "&gt;"
    else if c == '"' then "&quot;"
    else if c == '\'' then "&#x27;"
    else [c]
  }

  /** `html.escape(s)`: each special character replaced by its entity. */
  function Escape(s: string): (r: string)
    ensures '<' !in r && '>' !in r
  {
    if s == [] then [] else EscapeChar(s[0]) + Escape(s[1..])
  }

  /** Escaping never shortens a string, and leaves it unchanged exactly when
      it holds no special character. */
  lemma {:induction false} EscapeIdentity(s: string)
    ensures |Escape(s)| >= |s|
    ensures Escape(s) == s <==> NoSpecial(s)
    decreases |s|
  {
    if s != [] {
      EscapeIdentity(s[1..]);
      assert NoSpecial(s) <==> !Special(s[0]) && NoSpecial(s[1..]);
    }
  }

  lemma ConsSplit(a: string, b: string)
    requires a != []
    ensures a == [a[0]] + a[1..] && a + b == [a[0]] + (a[1..] + b)
  {
  }

  lemma EscapeCons(c: char, rest: string)
    ensures Escape([c] + rest) == EscapeChar(c) + Escape(rest)
  {
    assert ([c] + rest)[0] == c && ([c] + rest)[1..] == rest;
  }

  /** Escaping works character by character. */
  lemma {:induction false} EscapeAppend(a: string, b: string)
    ensures Escape(a + b) == Escape(a) + Escape(b)
    decreases |a|
  {
    if a == [] {
      assert a + b == b;
    } else {
      var c, a' := a[0], a[1..];
      assert Escape(a + b) == EscapeChar(c) + Escape(a' + b) by {
        ConsSplit(a, b);
        EscapeCons(c, a' + b);
      }
      assert Escape(a) == EscapeChar(c) + Escape(a') by {
        ConsSplit(a, b);
        EscapeCons(c, a');
      }
      EscapeAppend(a', b);
      Assoc3(EscapeChar(c), Escape(a'), Escape(b));
    }
  }

  /** `html.unescape` for the five entities `Escape` produces. */
  function Unescape(s: string): string
    decreases |s|
  {
    if s == [] then []
    else if StartsWith(s, "&amp;") then "&" + Unescape(s[5..])
    else if StartsWith(s, "&lt;") then "<" + Unescape(s[4..])
    else if StartsWith(s, "&gt;") then ">" + Unescape(s[4..])
    else if StartsWith(s, "&quot;") then "\"" + Unescape(s[6..])
    else if StartsWith(s, "&#x27;") then "'" + Unescape(s[6..])
    else [s[0]] + Unescape(s[1..])
  }

  lemma UnescapeAmp(rest: string)
    ensures Unescape("&amp;" + rest) == "&" + Unescape(rest)
  {
    var s := "&amp;" + rest;
    assert s[..5] == "&amp;" && s[5..] == rest;
  }

  lemma UnescapeLt(rest: string)
    ensures Unescape("&lt;" + rest) == "<" + Unescape(rest)
  {
    var s := "&lt;" + rest;
    assert s[..4] == "&lt;" && s[4..] == rest;
    NotStartsWithAt(s, "&amp;", 1);
  }

  lemma UnescapeGt(rest: string)
    ensures Unescape("&gt;" + rest) == ">" + Unescape(rest)
  {
    var s := "&gt;" + rest;
    assert s[..4] == "&gt;" && s[4..] == rest;
    NotStartsWithAt(s, "&amp;", 1);
    NotStartsWithAt(s, "&lt;", 1);
  }

  lemma UnescapeQuot(rest: string)
    ensures Unescape("&quot;" + rest) == "\"" + Unescape(rest)
  {
    var s := "&quot;" + rest;
    assert s[..6] == "&quot;" && s[6..] == rest;
    NotStartsWithAt(s, "&amp;", 1);
    NotStartsWithAt(s, "&lt;", 1);
    NotStartsWithAt(s, "&gt;", 1);
  }

  lemma UnescapeApos(rest: string)
    ensures Unescape("&#x27;" + rest) == "'" + Unescape(rest)
  {
    var s := "&#x27;" + rest;
    assert s[..6] == "&#x27;" && s[6..] == rest;
    NotStartsWithAt(s, "&amp;", 1);
    NotStartsWithAt(s, "&lt;", 1);
    NotStartsWithAt(s, "&gt;", 1);
    NotStartsWithAt(s, "&quot;", 1);
  }

  /** A character other than `&` opens no entity. */
  lemma UnescapePlain(c: char, rest: string)
    requires c != '&'
    ensures Unescape([c] + rest) == [c] + Unescape(rest)
  {
    var s := [c] + rest;
    assert s[0] == c && s[1..] == rest;
    NotStartsWithAt(s, "&amp;", 0);
    NotStartsWithAt(s, "&lt;", 0);
    NotStartsWithAt(s, "&gt;", 0);
    NotStartsWithAt(s, "&quot;", 0);
    NotStartsWithAt(s, "&#x27;", 0);
  }

  lemma UnescapeChar(c: char, rest: string)
    ensures Unescape(EscapeChar(c) + rest) == [c] + Unescape(rest)
  {
    if c == '&' {
      UnescapeAmp(rest);
    } else if c == '<' {
      UnescapeLt(rest);
    } else if c == '>' {
      UnescapeGt(rest);
    } else if c == '"' {
      UnescapeQuot(rest);
    } else if c == '\'' {
      UnescapeApos(rest);
    } else {
      UnescapePlain(c, rest);
    }
  }

  /** Unescaping undoes escaping. */
  lemma {:induction false} UnescapeEscape(s: string)
    ensures Unescape(Escape(s)) == s
    decreases |s|
  {
    if s != [] {
      UnescapeChar(s[0], Escape(s[1..]));
      UnescapeEscape(s[1..]);
    }
  }

  // ---------------------------------------------------------------------
  // Query tokens: re.findall(r"\w+", query)

  /** `\w` for ASCII text: letters, digits and the underscore. */
  predicate IsWordChar(c: char) {
    ('a' <= c <= 'z') || ('A' <= c <= 'Z') || ('0' <= c <= '9') || c == '_'
  }

  predicate AllWord(s: string) {
    forall i :: 0 <= i < |s| ==> IsWordChar(s[i])
  }

  /** The end of the run of word characters starting at `i`. */
  function WordEnd(q: string, i: nat): (n: nat)
    requires i <= |q|
    ensures i <= n <= |q|
    ensures forall k :: i <= k < n ==> IsWordChar(q[k])
    ensures n == |q| || !IsWordChar(q[n])
    decreases |q| - i
  {
    if i < |q| && IsWordChar(q[i]) then WordEnd(q, i + 1) else i
  }

  /** `t` is a whole run of word characters of `q`, found at `a`. */
  predicate RunAt(q: string, a: int, t: string) {
    0 <= a && a + |t| <= |q| && q[a..a + |t|] == t && t != [] && AllWord(t)
    && (a == 0 || !IsWordChar(q[a - 1])) && (a + |t| == |q| || !IsWordChar(q[a + |t|]))
  }

  /** How many word characters `q` holds from `i` on. */
  function WordCount(q: string, i: nat): nat
    requires i <= |q|
    decreases |q| - i
  {
    if i == |q| then 0 else (if IsWordChar(q[i]) then 1 else 0) + WordCount(q, i + 1)
  }

  function TotalLength(ts: seq<string>): nat {
    if ts == [] then 0 else |ts[0]| + TotalLength(ts[1..])
  }

  lemma {:induction false} WordCountRun(q: string, i: nat, n: nat)
    requires i <= n <= |q|
    requires forall k :: i <= k < n ==> IsWordChar(q[k])
    ensures WordCount(q, i) == (n - i) + WordCount(q, n)
    decreases n - i
  {
    if i < n {
      WordCountRun(q, i + 1, n);
    }
  }

  /** The tokens of `q` from `i` on, where `i` does not fall inside a run. */
  function TokensFrom(q: string, i: nat): (ts: seq<string>)
    requires i <= |q|
    ensures forall j :: 0 <= j < |ts| ==> ts[j] != [] && AllWord(ts[j])
    ensures TotalLength(ts) == WordCount(q, i)
    decreases |q| - i
  {
    if i == |q| then []
    else if IsWordChar(q[i]) then
      var e := WordEnd(q, i);
      WordCountRun(q, i, e);
      [q[i..e]] + TokensFrom(q, e)
    else TokensFrom(q, i + 1)
  }

  /** Where the tokens of `q` from `i` on start. */
  function TokenStarts(q: string, i: nat): (ps: seq<nat>)
    requires i <= |q|
    ensures |ps| == |TokensFrom(q, i)|
    ensures forall j :: 0 <= j < |ps| ==> i <= ps[j] < |q| && IsWordChar(q[ps[j]])
    decreases |q| - i
  {
    if i == |q| then []
    else if IsWordChar(q[i]) then [i] + TokenStarts(q, WordEnd(q, i))
    else TokenStarts(q, i + 1)
  }

  /** Runs found one after another, as a list of runs. */
  predicate Runs(q: string, ps: seq<nat>, ts: seq<string>) {
    |ps| == |ts| && forall j :: 0 <= j < |ts| ==> RunAt(q, ps[j], ts[j])
  }

  lemma RunsCons(q: string, a: nat, t: string, ps: seq<nat>, ts: seq<string>)
    requires RunAt(q, a, t) && Runs(q, ps, ts)
    ensures Runs(q, [a] + ps, [t] + ts)
  {
    var ps', ts' := [a] + ps, [t] + ts;
    forall j | 0 < j < |ts'|
      ensures RunAt(q, ps'[j], ts'[j])
    {
      assert ts'[j] == ts[j - 1] && ps'[j] == ps[j - 1];
    }
  }

  /** The run that starts at a word character after a boundary. */
  lemma RunFrom(q: string, i: nat)
    requires i < |q| && IsWordChar(q[i])
    requires i == 0 || !IsWordChar(q[i - 1])
    ensures RunAt(q, i, q[i..WordEnd(q, i)])
  {
  }

  /** Each token is a whole run of word characters of the query. */
  lemma {:induction false} TokensAreRuns(q: string, i: nat)
    requires i <= |q|
    requires i == 0 || i == |q| || !IsWordChar(q[i - 1]) || !IsWordChar(q[i])
    ensures Runs(q, TokenStarts(q, i), TokensFrom(q, i))
    decreases |q| - i
  {
    if i == |q| {
    } else if IsWordChar(q[i]) {
      var e := WordEnd(q, i);
      TokensAreRuns(q, e);
      RunFrom(q, i);
      RunsCons(q, i, q[i..e], TokenStarts(q, e), TokensFrom(q, e));
    } else {
      TokensAreRuns(q, i + 1);
    }
  }

  /** The tokens come in query order, each ending before the next begins. */
  lemma {:induction false} TokensInOrder(q: string, i: nat)
    requires i <= |q|
    ensures forall j :: 0 < j < |TokensFrom(q, i)| ==>
      TokenStarts(q, i)[j - 1] + |TokensFrom(q, i)[j - 1]| < TokenStarts(q, i)[j]
    decreases |q| - i
  {
    if i == |q| {
    } else if IsWordChar(q[i]) {
      var e := WordEnd(q, i);
      TokensInOrder(q, e);
      var ts, ps := TokensFrom(q, i), TokenStarts(q, i);
      var rest, rps := TokensFrom(q, e), TokenStarts(q, e);
      assert ts == [q[i..e]] + rest && ps == [i] + rps;
      forall j | 0 < j < |ts|
        ensures ps[j - 1] + |ts[j - 1]| < ps[j]
      {
        if j > 1 {
          assert ts[j - 1] == rest[j - 2] && ps[j - 1] == rps[j - 2] && ps[j] == rps[j - 1];
        } else {
          assert ps[1] == rps[0];
        }
      }
    } else {
      TokensInOrder(q, i + 1);
    }
  }

  /** The word tokens of the query, in query order. */
  function Tokens(q: string): seq<string> {
    TokensFrom(q, 0)
  }

  /** Every token is non-empty, and there are none exactly when the query
      holds no word character. */
  lemma TokensShape(q: string)
    ensures forall j :: 0 <= j < |Tokens(q)| ==> Tokens(q)[j] != [] && AllWord(Tokens(q)[j])
    ensures Tokens(q) == [] <==> WordCount(q, 0) == 0
  {
    var ts := Tokens(q);
    if ts != [] {
      assert ts[0] != [];
    }
  }

  // ---------------------------------------------------------------------
  // The pattern (tok1|tok2|...) with re.I, scanned left to right

  /** `t` matches `s` at `p`, ignoring ASCII case. */
  predicate MatchesAt(s: string, p: nat, t: string) {
    p + |t| <= |s| && forall k :: 0 <= k < |t| ==> Lower(s[p + k]) == Lower(t[k])
  }

  /** The first alternative, from the `j`-th on, that matches at `p`. */
  function FirstAlt(s: string, p: nat, toks: seq<string>, j: nat): (r: Option<nat>)
    requires j <= |toks|
    ensures r.Some? ==> j <= r.value < |toks| && MatchesAt(s, p, toks[r.value])
    ensures r.Some? ==> forall l :: j <= l < r.value ==> !MatchesAt(s, p, toks[l])
    ensures r.None? ==> forall l :: j <= l < |toks| ==> !MatchesAt(s, p, toks[l])
    decreases |toks| - j
  {
    if j == |toks| then None
    else if MatchesAt(s, p, toks[j]) then Some(j)
    else FirstAlt(s, p, toks, j + 1)
  }

  /** The scanned text: characters no alternative matched, and matches. */
  datatype Piece = Lit(c: char) | Mark(text: string)

  function PieceText(x: Piece): string {
    match x
    case Lit(c) => [c]
    case Mark(w) => w
  }

  /** The text the pieces cover, with the matches unmarked. */
  function Erase(ps: seq<Piece>): string {
    if ps == [] then [] else PieceText(ps[0]) + Erase(ps[1..])
  }

  lemma EraseCons(x: Piece, rest: seq<Piece>)
    ensures Erase([x] + rest) == PieceText(x) + Erase(rest)
  {
    assert ([x] + rest)[0] == x && ([x] + rest)[1..] == rest;
  }

  /** The number of matches. */
  function Count(ps: seq<Piece>): nat {
    if ps == [] then 0 else (if ps[0].Mark? then 1 else 0) + Count(ps[1..])
  }

  predicate NonEmpty(toks: seq<string>) {
    forall j :: 0 <= j < |toks| ==> toks[j] != []
  }

  /** The tokens in lower case, for comparing matches with them. */
  function Folded(toks: seq<string>): (r: seq<string>)
    ensures |r| == |toks|
    ensures forall j :: 0 <= j < |toks| ==> r[j] == LowerStr(toks[j])
  {
    seq(|toks|, j requires 0 <= j < |toks| => LowerStr(toks[j]))
  }

  lemma SliceSplit(s: string, p: nat, n: nat)
    requires p + n <= |s|
    ensures s[p..] == s[p..p + n] + s[p + n..]
  {
  }

  /** One step of the scan at `p`: the first alternative that matches
      there, marked, or else the character there passed over; with the
      number of characters consumed. */
  function Next(s: string, toks: seq<string>, p: nat): (r: (Piece, nat))
    requires p < |s| && NonEmpty(toks)
    ensures 1 <= r.1 && p + r.1 <= |s| && PieceText(r.0) == s[p..p + r.1]
    ensures r.0.Mark? <==> FirstAlt(s, p, toks, 0).Some?
    ensures r.0.Mark? ==> r.1 == |toks[FirstAlt(s, p, toks, 0).value]|
  {
    match FirstAlt(s, p, toks, 0)
    case None => (Lit(s[p]), 1)
    case Some(j) => (Mark(s[p..p + |toks[j]|]), |toks[j]|)
  }

  /** The scan from `p`, one step after another to the end of `s`. */
  function Pieces(s: string, toks: seq<string>, p: nat): (ps: seq<Piece>)
    requires p <= |s| && NonEmpty(toks)
    ensures Erase(ps) == s[p..]
    decreases |s| - p
  {
    if p == |s| then []
    else
      var x := Next(s, toks, p);
      var rest := Pieces(s, toks, p + x.1);
      EraseCons(x.0, rest);
      SliceSplit(s, p, x.1);
      [x.0] + rest
  }

  lemma NextMarkFolded(s: string, toks: seq<string>, p: nat)
    requires p < |s| && NonEmpty(toks) && Next(s, toks, p).0.Mark?
    ensures LowerStr(Next(s, toks, p).0.text) in Folded(toks)
  {
    var j := FirstAlt(s, p, toks, 0).value;
    assert LowerStr(Next(s, toks, p).0.text) == Folded(toks)[j];
  }

  /** Every marked piece is one of `toks`, up to case. */
  predicate MarksFolded(ps: seq<Piece>, toks: seq<string>) {
    forall i :: 0 <= i < |ps| && ps[i].Mark? ==> LowerStr(ps[i].text) in Folded(toks)
  }

  lemma MarksFoldedCons(x: Piece, rest: seq<Piece>, toks: seq<string>)
    requires x.Mark? ==> LowerStr(x.text) in Folded(toks)
    requires MarksFolded(rest, toks)
    ensures MarksFolded([x] + rest, toks)
  {
    var ps := [x] + rest;
    forall i | 0 <= i < |ps| && ps[i].Mark?
      ensures LowerStr(ps[i].text) in Folded(toks)
    {
      if i > 0 {
        assert ps[i] == rest[i - 1];
      }
    }
  }

  /** Every marked piece is one of the query's tokens, up to case. */
  lemma {:induction false} MarksAreTokens(s: string, toks: seq<string>, p: nat)
    requires p <= |s| && NonEmpty(toks)
    ensures MarksFolded(Pieces(s, toks, p), toks)
    decreases |s| - p
  {
    if p < |s| {
      var x := Next(s, toks, p);
      MarksAreTokens(s, toks, p + x.1);
      if x.0.Mark? {
        NextMarkFolded(s, toks, p);
      }
      MarksFoldedCons(x.0, Pieces(s, toks, p + x.1), toks);
    }
  }

  // ---------------------------------------------------------------------
  // Rendering and its inverse

  const Open: string := "<span class=\"marked\">"
  const Close: string := "</span>"

  /** `pattern.sub(...)` over the scanned text: each match wrapped in a
      marked span, everything else copied. */
  function Render(ps: seq<Piece>): string {
    if ps == [] then []
    else
      (match ps[0]
       case Lit(c) => [c]
       case Mark(w) => Open + w + Close) + Render(ps[1..])
  }

  /** The text with every marked-span tag removed. */
  function Unmark(x: string): string
    decreases |x|
  {
    if x == [] then []
    else if StartsWith(x, Open) then Unmark(x[|Open|..])
    else if StartsWith(x, Close) then Unmark(x[|Close|..])
    else [x[0]] + Unmark(x[1..])
  }

  /** The number of marked spans the text opens. */
  function Spans(x: string): nat
    decreases |x|
  {
    if x == [] then 0
    else if StartsWith(x, Open) then 1 + Spans(x[|Open|..])
    else Spans(x[1..])
  }

  lemma UnmarkChar(c: char, rest: string)
    requires c != '<'
    ensures Unmark([c] + rest) == [c] + Unmark(rest)
    ensures Spans([c] + rest) == Spans(rest)
  {
    var x := [c] + rest;
    assert x[0] == c && x[1..] == rest;
    assert Open[0] == '<' && Close[0] == '<';
    assert !StartsWith(x, Open) && !StartsWith(x, Close);
  }

  /** Text without `'<'` passes through unchanged and opens no span. */
  lemma {:induction false} UnmarkPlain(w: string, rest: string)
    requires '<' !in w
    ensures Unmark(w + rest) == w + Unmark(rest)
    ensures Spans(w + rest) == Spans(rest)
    decreases |w|
  {
    if w == [] {
      assert w + rest == rest;
    } else {
      assert w + rest == [w[0]] + (w[1..] + rest) by {
        ConsSplit(w, rest);
      }
      UnmarkChar(w[0], w[1..] + rest);
      UnmarkPlain(w[1..], rest);
      Assoc3([w[0]], w[1..], Unmark(rest));
      assert [w[0]] + w[1..] == w;
    }
  }

  lemma UnmarkOpen(rest: string)
    ensures Unmark(Open + rest) == Unmark(rest)
    ensures Spans(Open + rest) == 1 + Spans(rest)
  {
    var x := Open + rest;
    assert x[..|Open|] == Open && x[|Open|..] == rest;
  }

  lemma UnmarkClose(rest: string)
    ensures Unmark(Close + rest) == Unmark(rest)
    ensures Spans(Close + rest) == Spans(rest)
  {
    var x := Close + rest;
    assert x[..|Close|] == Close && x[|Close|..] == rest;
    assert x[1] == '/' && Open[1] == 's';
    assert x[1..] == "/span>" + rest;
    UnmarkPlain("/span>", rest);
  }

  /** One marked match: the tags go, the match stays, one span is opened. */
  lemma UnmarkSpan(w: string, rest: string)
    requires '<' !in w
    ensures Unmark(Open + w + Close + rest) == w + Unmark(rest)
    ensures Spans(Open + w + Close + rest) == 1 + Spans(rest)
  {
    assert Open + w + Close + rest == Open + (w + (Close + rest));
    UnmarkOpen(w + (Close + rest));
    UnmarkPlain(w, Close + rest);
    UnmarkClose(rest);
  }

  /** Unmarking the rendering gives back the scanned text, and the rendering
      opens one span per match, when that text holds no `'<'`. */
  lemma {:induction false} UnmarkRender(ps: seq<Piece>)
    requires '<' !in Erase(ps)
    ensures Unmark(Render(ps)) == Erase(ps)
    ensures Spans(Render(ps)) == Count(ps)
    decreases |ps|
  {
    if ps != [] {
      var x, rest := ps[0], ps[1..];
      assert Erase(ps) == PieceText(x) + Erase(rest);
      assert '<' !in PieceText(x) && '<' !in Erase(rest);
      UnmarkRender(rest);
      match x
      case Lit(c) =>
        assert Render(ps) == [c] + Render(rest);
        UnmarkChar(c, Render(rest));
      case Mark(w) =>
        assert Render(ps) == Open + w + Close + Render(rest);
        UnmarkSpan(w, Render(rest));
    }
  }

  /** The rendering of matches found in the raw text: each piece escaped on
      its own, each match wrapped in a marked span. */
  function RenderEscaped(ps: seq<Piece>): string {
    if ps == [] then []
    else
      (match ps[0]
       case Lit(c) => EscapeChar(c)
       case Mark(w) => Open + Escape(w) + Close) + RenderEscaped(ps[1..])
  }

  lemma {:induction false} UnmarkRenderEscaped(ps: seq<Piece>)
    ensures Unmark(RenderEscaped(ps)) == Escape(Erase(ps))
    ensures Spans(RenderEscaped(ps)) == Count(ps)
    decreases |ps|
  {
    if ps != [] {
      var x, rest := ps[0], ps[1..];
      UnmarkRenderEscaped(rest);
      assert Escape(Erase(ps)) == Escape(PieceText(x)) + Escape(Erase(rest)) by {
        EscapeAppend(PieceText(x), Erase(rest));
      }
      match x
      case Lit(c) =>
        assert RenderEscaped(ps) == EscapeChar(c) + RenderEscaped(rest);
        assert Escape([c]) == EscapeChar(c) by {
          EscapeCons(c, []);
          assert [c] + [] == [c];
        }
        UnmarkPlain(EscapeChar(c), RenderEscaped(rest));
      case Mark(w) =>
        assert RenderEscaped(ps) == Open + Escape(w) + Close + RenderEscaped(rest);
        UnmarkSpan(Escape(w), RenderEscaped(rest));
    }
  }

  // ---------------------------------------------------------------------
  // highlight_text and count_hits

  /** The text is empty, the query blank, or the query has no word. */
  predicate NoSearch(text: string, query: string) {
    text == "" || Strip(query) == "" || Tokens(query) == []
  }

  /** What `highlight_text` puts between `<pre>` and `</pre>`: the escaped
      text, with the matches found in it marked. */
  function Highlighted(text: string, query: string): string {
    if NoSearch(text, query) then Escape(text)
    else Render(Pieces(Escape(text), Tokens(query), 0))
  }

  /** `highlight_text(text, query)`. */
  function HighlightText(text: string, query: string): (r: string)
    ensures |r| >= 11 && r[..5] == "<pre>" && r[|r| - 6..] == "</pre>"
    ensures NoSearch(text, query) ==> r[5..|r| - 6] == Escape(text)
    ensures Unmark(r[5..|r| - 6]) == Escape(text)
  {
    var x := Highlighted(text, query);
    var r := "<pre>" + x + "</pre>";
    assert r[5..|r| - 6] == x;
    if NoSearch(text, query) then
      UnmarkPlain(Escape(text), []);
      assert Escape(text) + [] == Escape(text);
      r
    else
      var ps := Pieces(Escape(text), Tokens(query), 0);
      assert Escape(text)[0..] == Escape(text);
      UnmarkRender(ps);
      r
  }

  /** `count_hits(text, query)`: the matches found in the raw text. */
  function CountHits(text: string, query: string): (n: nat)
    ensures NoSearch(text, query) ==> n == 0
  {
    if NoSearch(text, query) then 0
    else Count(Pieces(text, Tokens(query), 0))
  }

  /** When escaping changes nothing, the counter agrees with the number of
      spans the highlighter inserts. */
  lemma HitsMatchSpans(text: string, query: string)
    requires NoSpecial(text)
    ensures CountHits(text, query) == Spans(Highlighted(text, query))
  {
    EscapeIdentity(text);
    if NoSearch(text, query) {
      UnmarkPlain(Escape(text), []);
      assert Escape(text) + [] == Escape(text);
    } else {
      var ps := Pieces(text, Tokens(query), 0);
      assert text[0..] == text;
      UnmarkRender(ps);
    }
  }

  // ---------------------------------------------------------------------
  // Matching on the raw text

  /** `highlight_text` with the matches looked up in the raw text, as
      `count_hits` does, and each piece escaped on its own. */
  function HighlightedRaw(text: string, query: string): (x: string)
    ensures Unmark(x) == Escape(text)
    ensures Spans(x) == CountHits(text, query)
  {
    if NoSearch(text, query) then
      UnmarkPlain(Escape(text), []);
      assert Escape(text) + [] == Escape(text);
      Escape(text)
    else
      var ps := Pieces(text, Tokens(query), 0);
      assert text[0..] == text;
      UnmarkRenderEscaped(ps);
      RenderEscaped(ps)
  }

  function HighlightTextRaw(text: string, query: string): (r: string)
    ensures |r| >= 11 && r[..5] == "<pre>" && r[|r| - 6..] == "</pre>"
    ensures Unmark(r[5..|r| - 6]) == Escape(text)
    ensures Spans(r[5..|r| - 6]) == CountHits(text, query)
  {
    var x := HighlightedRaw(text, query);
    var r := "<pre>" + x + "</pre>";
    assert r[5..|r| - 6] == x;
    r
  }

  // ---------------------------------------------------------------------
  // A query that matches inside an entity

  lemma CountStep(s: string, toks: seq<string>, p: nat)
    requires p < |s| && NonEmpty(toks)
    ensures Count(Pieces(s, toks, p)) ==
      (if Next(s, toks, p).0.Mark? then 1 else 0) + Count(Pieces(s, toks, p + Next(s, toks, p).1))
  {
    var ps := Pieces(s, toks, p);
    assert ps[1..] == Pieces(s, toks, p + Next(s, toks, p).1);
  }

  lemma CountSkip(s: string, toks: seq<string>, p: nat)
    requires p < |s| && NonEmpty(toks)
    requires FirstAlt(s, p, toks, 0).None?
    ensures Count(Pieces(s, toks, p)) == Count(Pieces(s, toks, p + 1))
  {
    CountStep(s, toks, p);
  }

  lemma CountTake(s: string, toks: seq<string>, p: nat)
    requires p < |s| && NonEmpty(toks) && FirstAlt(s, p, toks, 0).Some?
    ensures Count(Pieces(s, toks, p)) == 1 + Count(Pieces(s, toks, p + Next(s, toks, p).1))
  {
    CountStep(s, toks, p);
  }

  /** A single alternative that differs from the text at offset `k` does
      not match at `p`. */
  lemma Mismatch(s: string, p: nat, t: string, k: nat)
    requires k < |t| && (p + k >= |s| || Lower(s[p + k]) != Lower(t[k]))
    ensures FirstAlt(s, p, [t], 0).None?
  {
    assert FirstAlt(s, p, [t], 1).None?;
  }

  lemma AmpToken()
    ensures Tokens("amp") == ["amp"]
  {
    var q := "amp";
    assert WordEnd(q, 3) == 3;
    assert WordEnd(q, 0) == 3;
    assert TokensFrom(q, 3) == [];
    assert q[0..3] == q;
  }

  /** Positions where nothing matches add nothing to the count. */
  lemma {:induction false} CountSkipRun(s: string, toks: seq<string>, p: nat, q: nat)
    requires p <= q <= |s| && NonEmpty(toks)
    requires forall i :: p <= i < q ==> FirstAlt(s, i, toks, 0).None?
    ensures Count(Pieces(s, toks, p)) == Count(Pieces(s, toks, q))
    decreases q - p
  {
    if p < q {
      CountSkip(s, toks, p);
      CountSkipRun(s, toks, p + 1, q);
    }
  }

  /** No `amp` in the raw text. */
  lemma RawHasNoAmp()
    ensures Count(Pieces("a & b", ["amp"], 0)) == 0
  {
    var s, t := "a & b", ["amp"];
    forall i | 0 <= i < 5
      ensures FirstAlt(s, i, t, 0).None?
    {
      if i == 0 {
        Mismatch(s, i, "amp", 1);
      } else if i <= 2 {
        Mismatch(s, i, "amp", 0);
      } else {
        Mismatch(s, i, "amp", 2);
      }
    }
    CountSkipRun(s, t, 0, 5);
    assert Pieces(s, t, 5) == [];
  }

  lemma EscapedAmp()
    ensures Escape("a & b") == "a &amp; b"
  {
    var s := "a & b";
    assert s == [s[0]] + ([s[1]] + ([s[2]] + ([s[3]] + [s[4]])));
    EscapeCons(s[4], []);
    EscapeCons(s[3], [s[4]]);
    EscapeCons(s[2], [s[3]] + [s[4]]);
    EscapeCons(s[1], [s[2]] + ([s[3]] + [s[4]]));
    EscapeCons(s[0], [s[1]] + ([s[2]] + ([s[3]] + [s[4]])));
  }

  lemma EscapedTail()
    ensures Count(Pieces("a &amp; b", ["amp"], 6)) == 0
  {
    var s, t := "a &amp; b", ["amp"];
    forall i | 6 <= i < 9
      ensures FirstAlt(s, i, t, 0).None?
    {
      if i == 6 {
        Mismatch(s, i, "amp", 0);
      } else {
        Mismatch(s, i, "amp", 2);
      }
    }
    CountSkipRun(s, t, 6, 9);
    assert Pieces(s, t, 9) == [];
  }

  /** The entity's letters are the token. */
  lemma AmpInEntity()
    ensures FirstAlt("a &amp; b", 3, ["amp"], 0).Some?
    ensures Next("a &amp; b", ["amp"], 3).1 == 3
  {
    var s, t := "a &amp; b", ["amp"];
    assert MatchesAt(s, 3, "amp");
    assert FirstAlt(s, 3, t, 0) == Some(0);
  }

  lemma EscapedFromEntity()
    ensures Count(Pieces("a &amp; b", ["amp"], 3)) == 1
  {
    AmpInEntity();
    CountTake("a &amp; b", ["amp"], 3);
    EscapedTail();
  }

  /** One `amp` in the escaped text, inside the entity for `&`. */
  lemma EscapedHasAmp()
    ensures Count(Pieces("a &amp; b", ["amp"], 0)) == 1
  {
    var s, t := "a &amp; b", ["amp"];
    forall i | 0 <= i < 3
      ensures FirstAlt(s, i, t, 0).None?
    {
      if i == 0 {
        Mismatch(s, i, "amp", 1);
      } else {
        Mismatch(s, i, "amp", 0);
      }
    }
    CountSkipRun(s, t, 0, 3);
    EscapedFromEntity();
  }

  /** Searching `a & b` for `amp`: the counter finds nothing, while the
      highlighter marks the `amp` of the entity it produced for `&`. */
  lemma EntityMatched()
    ensures CountHits("a & b", "amp") == 0
    ensures Spans(Highlighted("a & b", "amp")) == 1
    ensures Spans(HighlightedRaw("a & b", "amp")) == 0
  {
    AmpToken();
    assert Strip("amp") != "";
    assert !NoSearch("a & b", "amp");
    RawHasNoAmp();
    EscapedAmp();
    EscapedHasAmp();
    var ps := Pieces("a &amp; b", ["amp"], 0);
    assert "a &amp; b"[0..] == "a &amp; b";
    UnmarkRender(ps);
  }
}
