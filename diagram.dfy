/** The clean-up of the Mermaid diagram text held under the reply's
    `diagram` key: the inline block of `_parse_response` that runs on every
    parsed reply, and the standalone `_format_mermaid`, which does the same
    steps plus a repair of labelled arrows. */
module Diagram {
  import opened Wrappers
  import opened PyStr
  import opened Regex

  /** The text whose presence means the style block is already there. */
  const Marker := "%% Style definitions"

  /** The style block the inline clean-up inserts after `graph TD`. */
  const LiveStyle := "    %% Style definitions\n        classDef default fill:#f9f9f9,stroke:#333,stroke-width:1px;\n        classDef subgraphStyle fill:#e8e8e8,stroke:#666,stroke-width:2px;\n    "

  /** The style block `_format_mermaid` inserts; it differs from the inline
      one only in the indentation of its last line. */
  const FormatStyle := "    %% Style definitions\n        classDef default fill:#f9f9f9,stroke:#333,stroke-width:1px;\n        classDef subgraphStyle fill:#e8e8e8,stroke:#666,stroke-width:2px;\n        "

  // ---------------------------------------------------------------------
  // diagram.strip('"`\'')

  predicate IsQuoteChar(c: char) {
    c == '"' || c == '`' || c == '\''
  }

  /** The text without its leading and trailing quotes and backticks. */
  function StripQuotes(d: string): (r: string)
    ensures r != [] ==> !IsQuoteChar(r[0]) && !IsQuoteChar(r[|r| - 1])
  {
    var l := LStripBy(d, IsQuoteChar);
    var r := RStripBy(l, IsQuoteChar);
    assert r != [] ==> r[0] == l[0];
    r
  }

  /** Only quotes and backticks are removed, and only at the two ends. */
  lemma StripQuotesRemovesEnds(d: string) returns (a: nat)
    ensures a + |StripQuotes(d)| <= |d| && StripQuotes(d) == d[a..a + |StripQuotes(d)|]
    ensures forall k :: 0 <= k < a ==> IsQuoteChar(d[k])
    ensures forall k :: a + |StripQuotes(d)| <= k < |d| ==> IsQuoteChar(d[k])
  {
    StripByShape(d, IsQuoteChar);
    a := |d| - |LStripBy(d, IsQuoteChar)|;
    assert d[a..][..|StripQuotes(d)|] == d[a..a + |StripQuotes(d)|];
  }

  // ---------------------------------------------------------------------
  // diagram.replace('\\n', '\n')

  /** Every two-character escape backslash-n becomes a newline. */
  function UnescapeNewlines(d: string): string {
    Replace(d, "\\n", "\n")
  }

  /** No backslash-n escape is left behind, even where a backslash precedes
      an escape. */
  lemma {:induction false} UnescapeLeavesNoEscape(s: string)
    ensures !Contains(UnescapeNewlines(s), "\\n")
    decreases |s|
  {
    var r := UnescapeNewlines(s);
    if s == [] {
    } else if StartsWith(s, "\\n") {
      UnescapeLeavesNoEscape(s[2..]);
      assert r == "\n" + UnescapeNewlines(s[2..]);
      assert r[1..] == UnescapeNewlines(s[2..]);
      assert !StartsWith(r, "\\n") by {
        assert r[0] == '\n';
      }
    } else {
      UnescapeLeavesNoEscape(s[1..]);
      var t := UnescapeNewlines(s[1..]);
      assert r == [s[0]] + t;
      assert r[1..] == t;
      if s[0] == '\\' && |s| >= 2 {
        assert s[1] != 'n' by {
          assert s[..2] != "\\n";
          assert s[..2] == [s[0], s[1]];
        }
        assert t != [] && t[0] != 'n' by {
          if StartsWith(s[1..], "\\n") {
            assert t == "\n" + UnescapeNewlines(s[1..][2..]);
          } else {
            assert t == [s[1..][0]] + UnescapeNewlines(s[1..][1..]);
          }
        }
        assert r[..2] == [s[0], t[0]];
      }
    }
  }

  // ---------------------------------------------------------------------
  // if not diagram.strip().startswith('graph'): diagram = 'graph TD\n' + diagram

  /** `d.strip().startswith('graph')` */
  predicate HasHeader(d: string) {
    StartsWith(Strip(d), "graph")
  }

  /** A text with a header is whitespace followed by `graph`. */
  lemma HeaderSplit(x: string) returns (n: nat)
    requires HasHeader(x)
    ensures n + 5 <= |x| && AllSpace(x[..n]) && StartsWith(x[n..], "graph")
  {
    StripStartsWith(x, "graph");
    var l := LStrip(x);
    n := |x| - |l|;
    assert l == x[n..];
  }

  /** Whitespace followed by `graph` is a header. */
  lemma HeaderJoin(x: string, n: nat)
    requires n <= |x| && AllSpace(x[..n]) && StartsWith(x[n..], "graph")
    ensures HasHeader(x)
  {
    assert x == x[..n] + x[n..];
    StripSpaceThenWord(x[..n], x[n..], "graph");
  }

  /** The text with `graph TD` and a newline in front unless it already has
      a header. */
  function EnsureHeader(d: string): (r: string)
    ensures HasHeader(r)
    ensures r == d <==> HasHeader(d)
    ensures r != d ==> r == "graph TD\n" + d
  {
    if HasHeader(d) then d
    else
      var r := "graph TD\n" + d;
      HeaderJoin(r, 0);
      r
  }

  // ---------------------------------------------------------------------
  // if '%% Style definitions' not in diagram:
  //     diagram = diagram.replace('graph TD', f'graph TD\n{style_defs}')

  function AddStyle(d: string, style: string): string {
    if Contains(d, Marker) then d else Replace(d, "graph TD", "graph TD\n" + style)
  }

  /** The style step leaves the text alone when the marker is already there,
      and when there is no `graph TD` to put the block after (a `graph LR`
      diagram, for one). */
  lemma AddStyleFrame(d: string, style: string)
    requires Contains(d, Marker) || !Contains(d, "graph TD")
    ensures AddStyle(d, style) == d
  {
    if !Contains(d, Marker) {
      ReplaceAbsent(d, "graph TD", "graph TD\n" + style);
    }
  }

  /** Otherwise the block appears right after a `graph TD` and a newline. */
  lemma AddStyleInserts(d: string, style: string)
    requires !Contains(d, Marker) && Contains(d, "graph TD")
    ensures Contains(AddStyle(d, style), "graph TD\n" + style)
  {
    ReplaceIntroduces(d, "graph TD", "graph TD\n" + style);
  }

  /** A block holding the marker is inserted at most once. */
  lemma AddStyleIdempotent(d: string, style: string)
    requires Contains(style, Marker)
    ensures AddStyle(AddStyle(d, style), style) == AddStyle(d, style)
  {
    var r := AddStyle(d, style);
    if Contains(d, Marker) || !Contains(d, "graph TD") {
      AddStyleFrame(d, style);
      AddStyleFrame(r, style);
    } else {
      AddStyleInserts(d, style);
      var block := "graph TD\n" + style;
      assert block[9..] == style;
      ContainsInSuffix(block, 9, Marker);
      ContainsTrans(r, block, Marker);
      AddStyleFrame(r, style);
    }
  }

  lemma ContainsInSuffix(s: string, a: nat, p: string)
    requires a <= |s| && Contains(s[a..], p)
    ensures Contains(s, p)
  {
    var i := ContainsOccurs(s[a..], p);
    assert s[a..][i..] == s[a + i..];
    OccursAtContains(s, p, a + i);
  }

  /** `graph TD` never starts inside the word `graph` after its first
      letter, so a text starting with `graph` still does after the
      replacement. */
  lemma ReplaceKeepsGraph(z: string, rep: string)
    requires StartsWith(z, "graph") && StartsWith(rep, "graph")
    ensures StartsWith(Replace(z, "graph TD", rep), "graph")
  {
    if !StartsWith(z, "graph TD") {
      assert z[1..] == "raph" + z[5..];
      ReplaceCopiesPrefix("raph", z[5..], "graph TD", rep);
      assert Replace(z, "graph TD", rep) == [z[0]] + ("raph" + Replace(z[5..], "graph TD", rep));
    }
  }

  lemma GraphLeads(style: string)
    ensures StartsWith("graph TD\n" + style, "graph")
  {
    assert ("graph TD\n" + style)[..5] == "graph";
  }

  /** The style step keeps the header. */
  lemma AddStyleKeepsHeader(d: string, style: string)
    requires HasHeader(d)
    ensures HasHeader(AddStyle(d, style))
  {
    if !Contains(d, Marker) {
      ReplaceKeepsHeader(d, style);
    }
  }

  /** Putting the block after `graph TD` keeps the header. */
  lemma ReplaceKeepsHeader(d: string, style: string)
    requires HasHeader(d)
    ensures HasHeader(Replace(d, "graph TD", "graph TD\n" + style))
  {
    var n := HeaderSplit(d);
    var w, z := d[..n], d[n..];
    assert d == w + z;
    assert 'g' !in w by {
      assert forall k :: 0 <= k < |w| ==> IsSpace(w[k]);
    }
    var rep := "graph TD\n" + style;
    ReplaceCopiesPrefix(w, z, "graph TD", rep);
    var rz := Replace(z, "graph TD", rep);
    GraphLeads(style);
    ReplaceKeepsGraph(z, rep);
    var r := w + rz;
    assert r[..n] == w && r[n..] == rz;
    HeaderJoin(r, n);
  }

  // ---------------------------------------------------------------------
  // '\n'.join(line.strip() for line in diagram.split('\n'))

  function StripAll(lines: seq<string>): (r: seq<string>)
    ensures |r| == |lines| && forall k :: 0 <= k < |r| ==> r[k] == Strip(lines[k])
  {
    seq(|lines|, k requires 0 <= k < |lines| => Strip(lines[k]))
  }

  function TrimLines(d: string): string {
    JoinLines(StripAll(SplitLines(d)))
  }

  /** The trimmed text has as many lines as the original, each the original
      line stripped, so none has whitespace at either end. */
  lemma TrimmedLines(d: string)
    ensures var lines := SplitLines(TrimLines(d));
      |lines| == |SplitLines(d)| &&
      (forall k :: 0 <= k < |lines| ==> lines[k] == Strip(SplitLines(d)[k])) &&
      (forall k :: 0 <= k < |lines| ==> Strip(lines[k]) == lines[k])
  {
    var ls := StripAll(SplitLines(d));
    forall k | 0 <= k < |ls|
      ensures '\n' !in ls[k]
    {
      StripSubstring(SplitLines(d)[k], '\n');
    }
    SplitJoin(ls);
    forall k | 0 <= k < |ls|
      ensures Strip(ls[k]) == ls[k]
    {
      StripIdempotent(SplitLines(d)[k]);
    }
  }

  /** Trimming a second time changes nothing. */
  lemma TrimLinesIdempotent(d: string)
    ensures TrimLines(TrimLines(d)) == TrimLines(d)
  {
    TrimmedLines(d);
    var t := TrimLines(d);
    assert StripAll(SplitLines(t)) == SplitLines(t);
    JoinSplit(t);
  }

  /** The first line, stripped, then a newline, then the rest trimmed. */
  lemma TrimLinesCons(x: string, i: nat)
    requires i < |x| && Find(x, '\n') == i
    ensures TrimLines(x) == Strip(x[..i]) + "\n" + TrimLines(x[i + 1..])
  {
    var rest := SplitLines(x[i + 1..]);
    assert SplitLines(x) == [x[..i]] + rest;
    StripAllCons(x[..i], rest);
    JoinLinesCons(Strip(x[..i]), StripAll(rest));
  }

  lemma StripAllCons(a: string, rest: seq<string>)
    ensures StripAll([a] + rest) == [Strip(a)] + StripAll(rest)
  {
  }

  lemma StripAllSpace(s: string)
    requires AllSpace(s)
    ensures Strip(s) == []
  {
    var l := LStrip(s);
  }

  /** Trimming the lines keeps the header: blank lines in front stay blank
      and the line holding `graph` starts with it once stripped. */
  lemma {:induction false} TrimLinesKeepsHeader(x: string)
    requires HasHeader(x)
    ensures HasHeader(TrimLines(x))
    decreases |x|
  {
    var i := Find(x, '\n');
    if i == -1 {
      TrimSingleLine(x);
      StripIdempotent(x);
    } else {
      TrimLinesCons(x, i);
      var rest := TrimLines(x[i + 1..]);
      if HasHeader(x[..i]) {
        HeaderLeads(x[..i], rest);
      } else {
        FirstLineBlank(x, i);
        TrimLinesKeepsHeader(x[i + 1..]);
        HeaderAfterBlank(Strip(x[..i]), rest);
      }
    }
  }

  /** A first line without the header lies wholly before it: it is blank
      and the header follows. */
  lemma FirstLineBlank(x: string, i: nat)
    requires HasHeader(x) && i < |x| && x[i] == '\n' && !HasHeader(x[..i])
    ensures Strip(x[..i]) == [] && HasHeader(x[i + 1..])
  {
    var n := HeaderSplit(x);
    if i >= n {
      HeaderInFirstLine(x, n, i);
    }
    BlankFirstLine(x, n, i);
  }

  lemma TrimSingleLine(x: string)
    requires Find(x, '\n') == -1
    ensures TrimLines(x) == Strip(x)
  {
    assert SplitLines(x) == [x];
    assert StripAll([x]) == [Strip(x)];
  }

  /** A first line before the header is blank, and the header follows it. */
  lemma BlankFirstLine(x: string, n: nat, i: nat)
    requires i < n <= |x| && AllSpace(x[..n]) && StartsWith(x[n..], "graph")
    ensures Strip(x[..i]) == [] && HasHeader(x[i + 1..])
  {
    assert x[..i] == x[..n][..i];
    StripAllSpace(x[..i]);
    var y := x[i + 1..];
    assert y[..n - i - 1] == x[..n][i + 1..];
    assert y[n - i - 1..] == x[n..];
    HeaderJoin(y, n - i - 1);
  }

  /** A first line reaching past `graph` has the header itself. */
  lemma HeaderInFirstLine(x: string, n: nat, i: nat)
    requires n <= i < |x| && x[i] == '\n'
    requires AllSpace(x[..n]) && StartsWith(x[n..], "graph")
    ensures HasHeader(x[..i])
  {
    assert i >= n + 5 by {
      assert x[n..][..5] == "graph";
    }
    var l := x[..i];
    assert l[..n] == x[..n];
    assert l[n..][..5] == x[n..][..5];
    HeaderJoin(l, n);
  }

  lemma HeaderAfterBlank(a: string, t: string)
    requires a == [] && HasHeader(t)
    ensures HasHeader(a + "\n" + t)
  {
    assert a + "\n" + t == ['\n'] + t;
    HeaderAfterSpace('\n', t);
  }

  lemma HeaderAfterSpace(c: char, t: string)
    requires IsSpace(c) && HasHeader(t)
    ensures HasHeader([c] + t)
  {
    var n := HeaderSplit(t);
    var u := [c] + t;
    SpaceCons(c, t[..n]);
    assert u[..n + 1] == [c] + t[..n];
    assert u[n + 1..] == t[n..];
    HeaderJoin(u, n + 1);
  }

  lemma SpaceCons(c: char, x: string)
    requires IsSpace(c) && AllSpace(x)
    ensures AllSpace([c] + x)
  {
    assert forall k :: 1 <= k < |x| + 1 ==> ([c] + x)[k] == x[k - 1];
  }

  lemma HeaderLeads(a: string, t: string)
    requires HasHeader(a)
    ensures HasHeader(Strip(a) + "\n" + t)
  {
    var u := Strip(a) + "\n" + t;
    assert u[..5] == Strip(a)[..5];
    HeaderJoin(u, 0);
  }

  // ---------------------------------------------------------------------
  // re.sub(r'--\|([^|]+)\|>', r'--|\1|', diagram), in _format_mermaid only

  /** The engine's match of `--\|([^|]+)\|>` at `i`: the label runs to the
      next bar, since it may hold none, and must be followed by `|>`; the
      replacement is the match without its last `>`. */
  function WrittenArrowAt(s: string, i: nat): (r: Option<Match>)
    ensures r.Some? ==> i + 2 < |s| && s[i] == '-' && s[i + 1] == '-' && s[i + 2] == '|'
    ensures r.Some? ==> i + 5 < r.value.end <= |s| && s[r.value.end - 2] == '|' && s[r.value.end - 1] == '>'
    ensures r.Some? ==> r.value.replacement == s[i..r.value.end - 1]
  {
    if !(i + 2 < |s| && s[i] == '-' && s[i + 1] == '-' && s[i + 2] == '|') then None
    else
      var j := FindFrom(s, '|', i + 3);
      if j > i + 3 && j + 1 < |s| && s[j + 1] == '>' then
        Some(Match(s[i..j + 1], j + 2))
      else None
  }

  lemma WrittenArrowAdvances(s: string)
    ensures Advances(WrittenArrowAt, s)
  {
  }

  /** Line 183 as written. */
  function RepairArrowsAsWritten(d: string): string {
    WrittenArrowAdvances(d);
    Sub(d, WrittenArrowAt)
  }

  /** The engine's match of the intended pattern `-->?\|([^|]+)\|>` at `i`:
      as above, but the arrow may keep its head. */
  function LabelledArrowAt(s: string, i: nat): (r: Option<Match>)
    ensures r.Some? ==> i + 1 < |s| && s[i] == '-' && s[i + 1] == '-'
    ensures r.Some? ==> i + 2 < r.value.end <= |s| && s[r.value.end - 2] == '|' && s[r.value.end - 1] == '>'
    ensures r.Some? ==> r.value.replacement == s[i..r.value.end - 1]
  {
    if !(i + 1 < |s| && s[i] == '-' && s[i + 1] == '-') then None
    else
      var p := if i + 2 < |s| && s[i + 2] == '>' then i + 3 else i + 2;
      if !(p < |s| && s[p] == '|') then None
      else
        var j := FindFrom(s, '|', p + 1);
        if j > p + 1 && j + 1 < |s| && s[j + 1] == '>' then
          Some(Match(s[i..j + 1], j + 2))
        else None
  }

  lemma LabelledArrowAdvances(s: string)
    ensures Advances(LabelledArrowAt, s)
  {
  }

  /** The repair with the intended pattern. */
  function RepairLabelledArrows(d: string): string {
    LabelledArrowAdvances(d);
    Sub(d, LabelledArrowAt)
  }

  /** A labelled arrow with a stray `>`: two dashes, an optional head, then
      a non-empty label between bars, then `>`. */
  predicate IsArrowDefect(t: string) {
    |t| >= 6 && t[0] == '-' && t[1] == '-' && t[|t| - 2] == '|' && t[|t| - 1] == '>' &&
    var p := if t[2] == '>' then 3 else 2;
    t[p] == '|' && p + 1 < |t| - 2 && forall k :: p < k < |t| - 2 ==> t[k] != '|'
  }

  /** The intended pattern matches exactly the defects, and the match at an
      index is its only defect. */
  lemma LabelledArrowIsDefect(s: string, i: nat)
    ensures LabelledArrowAt(s, i).Some? ==> IsArrowDefect(s[i..LabelledArrowAt(s, i).value.end])
    ensures forall e :: i <= e <= |s| && IsArrowDefect(s[i..e]) ==>
      LabelledArrowAt(s, i) == Some(Match(s[i..e - 1], e))
  {
    MatchIsDefect(s, i);
    forall e | i <= e <= |s| && IsArrowDefect(s[i..e])
      ensures LabelledArrowAt(s, i) == Some(Match(s[i..e - 1], e))
    {
      DefectMatches(s, i, e);
    }
  }

  lemma MatchIsDefect(s: string, i: nat)
    ensures LabelledArrowAt(s, i).Some? ==> IsArrowDefect(s[i..LabelledArrowAt(s, i).value.end])
  {
    if LabelledArrowAt(s, i).Some? {
      var e := LabelledArrowAt(s, i).value.end;
      var t := s[i..e];
      var p := if i + 2 < |s| && s[i + 2] == '>' then i + 3 else i + 2;
      var j := FindFrom(s, '|', p + 1);
      assert e == j + 2;
      assert t[2] == s[i + 2] && t[p - i] == s[p];
      assert forall k :: p - i < k < |t| - 2 ==> t[k] == s[i + k];
    }
  }

  lemma DefectMatches(s: string, i: nat, e: nat)
    requires i <= e <= |s| && IsArrowDefect(s[i..e])
    ensures LabelledArrowAt(s, i) == Some(Match(s[i..e - 1], e))
  {
    var t := s[i..e];
    var q := if t[2] == '>' then 3 else 2;
    assert s[i] == t[0] && s[i + 1] == t[1] && s[i + 2] == t[2] && s[i + q] == t[q];
    var p := if i + 2 < |s| && s[i + 2] == '>' then i + 3 else i + 2;
    assert p == i + q;
    assert s[e - 2] == t[|t| - 2] && s[e - 1] == t[|t| - 1];
    assert forall k :: p < k < e - 2 ==> s[k] == t[k - i];
    assert FindFrom(s, '|', p + 1) == e - 2;
    LabelledArrowFound(s, i, e);
  }

  /** The match at `i` when its two dashes, optional `>`, bar, label and
      closing `|>` are in place. */
  lemma LabelledArrowFound(s: string, i: nat, e: nat)
    requires i + 1 < |s| && s[i] == '-' && s[i + 1] == '-' && e <= |s|
    requires var p := if i + 2 < |s| && s[i + 2] == '>' then i + 3 else i + 2;
      p < |s| && s[p] == '|' && e - 2 == FindFrom(s, '|', p + 1) && e - 2 > p + 1 && s[e - 1] == '>'
    ensures LabelledArrowAt(s, i) == Some(Match(s[i..e - 1], e))
  {
  }

  predicate NotGt(c: char) {
    c != '>'
  }

  /** A replacement that is its match without the closing `>` keeps every
      other character. */
  lemma DropLastGt(s: string, k: nat, e: nat)
    requires k < e <= |s| && s[e - 1] == '>'
    ensures Filter(s[k..e - 1], NotGt) == Filter(s[k..e], NotGt)
  {
    assert s[k..e] == s[k..e - 1] + [s[e - 1]];
    FilterAppend(s[k..e - 1], [s[e - 1]], NotGt);
    assert [s[e - 1]][1..] == [];
  }

  /** The repair removes `>` characters only: every other character of the
      diagram is kept, in order. */
  lemma RepairKeepsText(d: string)
    ensures Filter(RepairLabelledArrows(d), NotGt) == Filter(d, NotGt)
  {
    LabelledArrowAdvances(d);
    forall k | 0 <= k < |d| && LabelledArrowAt(d, k).Some?
      ensures Filter(LabelledArrowAt(d, k).value.replacement, NotGt) ==
              Filter(d[k..LabelledArrowAt(d, k).value.end], NotGt)
    {
      DropLastGt(d, k, LabelledArrowAt(d, k).value.end);
    }
    SubFilter(d, 0, LabelledArrowAt, NotGt);
    assert d[0..] == d;
  }

  lemma PipeGtContains(d: string, x: nat)
    requires x + 1 < |d| && d[x] == '|' && d[x + 1] == '>'
    ensures Contains(d, "|>")
  {
    assert d[x..x + 2] == "|>";
    IndexOccursAt(d, "|>", x);
    OccursAtContains(d, "|>", x);
  }

  lemma ArrowHasPipeGt(d: string, k: nat)
    ensures LabelledArrowAt(d, k).Some? ==> Contains(d, "|>")
  {
    if LabelledArrowAt(d, k).Some? {
      var e := LabelledArrowAt(d, k).value.end;
      PipeGtContains(d, e - 2);
    }
  }

  /** A diagram with no `|>` is left as it is. */
  lemma RepairFrame(d: string)
    requires !Contains(d, "|>")
    ensures RepairLabelledArrows(d) == d
  {
    LabelledArrowAdvances(d);
    forall k | 0 <= k < |d|
      ensures LabelledArrowAt(d, k).None?
    {
      ArrowHasPipeGt(d, k);
    }
    SubNoMatch(d, LabelledArrowAt);
  }

  /** The repair keeps the header: no arrow starts in the whitespace or in
      the word `graph`. */
  lemma RepairKeepsHeader(d: string)
    requires HasHeader(d)
    ensures HasHeader(RepairLabelledArrows(d))
  {
    var n := HeaderSplit(d);
    LabelledArrowAdvances(d);
    forall k | 0 <= k < n + 5
      ensures d[k] != '-'
    {
      HeaderHasNoDash(d, n, k);
    }
    RepairCopies(d, 0, n + 5);
    RepairIsSub(d);
    PrefixHeader(d, RepairLabelledArrows(d), n);
  }

  lemma HeaderHasNoDash(d: string, n: nat, k: nat)
    requires k < n + 5 <= |d| && AllSpace(d[..n]) && StartsWith(d[n..], "graph")
    ensures d[k] != '-'
  {
    if k < n {
      assert IsSpace(d[..n][k]);
    } else {
      assert d[k] == d[n..][..5][k - n];
    }
  }

  /** A text sharing whitespace and `graph` with a header text has one. */
  lemma PrefixHeader(d: string, r: string, n: nat)
    requires n + 5 <= |d| && AllSpace(d[..n]) && StartsWith(d[n..], "graph")
    requires StartsWith(r, d[..n + 5])
    ensures HasHeader(r)
  {
    assert r[..n] == d[..n];
    assert r[n..][..5] == d[n..][..5];
    HeaderJoin(r, n);
  }

  lemma RepairIsSub(d: string)
    ensures Advances(LabelledArrowAt, d) && RepairLabelledArrows(d) == SubFrom(d, 0, LabelledArrowAt)
  {
    LabelledArrowAdvances(d);
  }

  /** Text without a dash is copied by the repair. */
  lemma RepairCopies(s: string, i: nat, j: nat)
    requires i <= j <= |s| && Advances(LabelledArrowAt, s)
    requires forall k :: i <= k < j ==> s[k] != '-'
    ensures SubFrom(s, i, LabelledArrowAt) == s[i..j] + SubFrom(s, j, LabelledArrowAt)
  {
    SubCopies(s, i, j, LabelledArrowAt);
  }

  // The same facts for line 183's pattern as written.

  /** What `--\|([^|]+)\|>` matches: two dashes and a bar back to back,
      a non-empty label without a bar, then `|>`. */
  predicate IsWrittenDefect(t: string) {
    |t| >= 6 && t[0] == '-' && t[1] == '-' && t[2] == '|' &&
    t[|t| - 2] == '|' && t[|t| - 1] == '>' &&
    forall k :: 2 < k < |t| - 2 ==> t[k] != '|'
  }

  /** Every text the written pattern matches is also a defect the intended
      pattern matches; the converse fails on `ArrowExample`. */
  lemma WrittenDefectIsArrowDefect(t: string)
    requires IsWrittenDefect(t)
    ensures IsArrowDefect(t)
  {
  }

  /** The written pattern matches exactly the texts `IsWrittenDefect`
      describes, and the match at an index is its only one. */
  lemma WrittenArrowIsDefect(s: string, i: nat)
    ensures WrittenArrowAt(s, i).Some? ==> IsWrittenDefect(s[i..WrittenArrowAt(s, i).value.end])
    ensures forall e :: i <= e <= |s| && IsWrittenDefect(s[i..e]) ==>
      WrittenArrowAt(s, i) == Some(Match(s[i..e - 1], e))
  {
    WrittenMatchIsDefect(s, i);
    forall e | i <= e <= |s| && IsWrittenDefect(s[i..e])
      ensures WrittenArrowAt(s, i) == Some(Match(s[i..e - 1], e))
    {
      WrittenDefectMatches(s, i, e);
    }
  }

  lemma WrittenMatchIsDefect(s: string, i: nat)
    ensures WrittenArrowAt(s, i).Some? ==> IsWrittenDefect(s[i..WrittenArrowAt(s, i).value.end])
  {
    if WrittenArrowAt(s, i).Some? {
      var e := WrittenArrowAt(s, i).value.end;
      var t := s[i..e];
      var j := FindFrom(s, '|', i + 3);
      assert e == j + 2;
      assert t[0] == s[i] && t[1] == s[i + 1] && t[2] == s[i + 2];
      assert forall k :: 2 < k < |t| - 2 ==> t[k] == s[i + k];
    }
  }

  lemma WrittenDefectMatches(s: string, i: nat, e: nat)
    requires i <= e <= |s| && IsWrittenDefect(s[i..e])
    ensures WrittenArrowAt(s, i) == Some(Match(s[i..e - 1], e))
  {
    var t := s[i..e];
    assert s[i] == t[0] && s[i + 1] == t[1] && s[i + 2] == t[2];
    assert s[e - 2] == t[|t| - 2] && s[e - 1] == t[|t| - 1];
    assert forall k :: i + 2 < k < e - 2 ==> s[k] == t[k - i];
    assert FindFrom(s, '|', i + 3) == e - 2;
    WrittenArrowFound(s, i, e);
  }

  lemma WrittenArrowFound(s: string, i: nat, e: nat)
    requires i + 2 < |s| && s[i] == '-' && s[i + 1] == '-' && s[i + 2] == '|' && e <= |s|
    requires e - 2 == FindFrom(s, '|', i + 3) && e - 2 > i + 3 && s[e - 1] == '>'
    ensures WrittenArrowAt(s, i) == Some(Match(s[i..e - 1], e))
  {
  }

  /** Line 183 removes `>` characters only: every other character of the
      diagram is kept, in order. */
  lemma WrittenRepairKeepsText(d: string)
    ensures Filter(RepairArrowsAsWritten(d), NotGt) == Filter(d, NotGt)
  {
    WrittenArrowAdvances(d);
    forall k | 0 <= k < |d| && WrittenArrowAt(d, k).Some?
      ensures Filter(WrittenArrowAt(d, k).value.replacement, NotGt) ==
              Filter(d[k..WrittenArrowAt(d, k).value.end], NotGt)
    {
      DropLastGt(d, k, WrittenArrowAt(d, k).value.end);
    }
    SubFilter(d, 0, WrittenArrowAt, NotGt);
    assert d[0..] == d;
  }

  lemma WrittenArrowHasPipeGt(d: string, k: nat)
    ensures WrittenArrowAt(d, k).Some? ==> Contains(d, "|>")
  {
    if WrittenArrowAt(d, k).Some? {
      var e := WrittenArrowAt(d, k).value.end;
      PipeGtContains(d, e - 2);
    }
  }

  /** Line 183 leaves a diagram with no `|>` as it is. */
  lemma WrittenRepairFrame(d: string)
    requires !Contains(d, "|>")
    ensures RepairArrowsAsWritten(d) == d
  {
    WrittenArrowAdvances(d);
    forall k | 0 <= k < |d|
      ensures WrittenArrowAt(d, k).None?
    {
      WrittenArrowHasPipeGt(d, k);
    }
    SubNoMatch(d, WrittenArrowAt);
  }

  /** Line 183 keeps the header. */
  lemma WrittenRepairKeepsHeader(d: string)
    requires HasHeader(d)
    ensures HasHeader(RepairArrowsAsWritten(d))
  {
    var n := HeaderSplit(d);
    WrittenArrowAdvances(d);
    forall k | 0 <= k < n + 5
      ensures WrittenArrowAt(d, k).None?
    {
      HeaderHasNoDash(d, n, k);
    }
    SubCopies(d, 0, n + 5, WrittenArrowAt);
    assert RepairArrowsAsWritten(d) == SubFrom(d, 0, WrittenArrowAt);
    PrefixHeader(d, RepairArrowsAsWritten(d), n);
  }

  lemma ExampleArrowAt()
    ensures LabelledArrowAt(ArrowExample, 5) == Some(Match("-->|go|", 13))
  {
    var s := ArrowExample;
    assert s[5] == '-' && s[6] == '-' && s[7] == '>' && s[8] == '|';
    assert s[11] == '|' && s[9] != '|' && s[10] != '|';
    var j := FindFrom(s, '|', 9);
    assert j == 11;
    assert s[12] == '>';
    assert s[5..12] == "-->|go|";
  }

  const ArrowExample := "A[X] -->|go|> B[Y]"

  lemma ExamplePrefix()
    requires Advances(LabelledArrowAt, ArrowExample)
    ensures SubFrom(ArrowExample, 0, LabelledArrowAt) == "A[X] " + SubFrom(ArrowExample, 5, LabelledArrowAt)
  {
    RepairCopies(ArrowExample, 0, 5);
    assert ArrowExample[0..5] == "A[X] ";
  }

  lemma ExampleSuffix()
    requires Advances(LabelledArrowAt, ArrowExample)
    ensures SubFrom(ArrowExample, 13, LabelledArrowAt) == " B[Y]"
  {
    RepairCopies(ArrowExample, 13, 18);
    assert ArrowExample[13..18] == " B[Y]";
  }

  /** The labelled arrow of the prompt's rule, mended by the intended
      pattern. */
  lemma RepairExample()
    ensures RepairLabelledArrows(ArrowExample) == "A[X] -->|go| B[Y]"
  {
    RepairIsSub(ArrowExample);
    LabelledArrowAdvances(ArrowExample);
    ExamplePrefix();
    ExampleMiddle();
    ExampleSuffix();
    ExampleJoin(SubFrom(ArrowExample, 0, LabelledArrowAt), SubFrom(ArrowExample, 5, LabelledArrowAt),
      SubFrom(ArrowExample, 13, LabelledArrowAt));
  }

  lemma ExampleJoin(x: string, y: string, z: string)
    requires x == "A[X] " + y && y == "-->|go|" + z && z == " B[Y]"
    ensures x == "A[X] -->|go| B[Y]"
  {
  }

  lemma ExampleMiddle()
    requires Advances(LabelledArrowAt, ArrowExample)
    ensures SubFrom(ArrowExample, 5, LabelledArrowAt) == "-->|go|" + SubFrom(ArrowExample, 13, LabelledArrowAt)
  {
    ExampleArrowAt();
  }

  /** The same arrow passes the pattern as written untouched: it asks for
      `--|` and the arrow has `-->|`. */
  lemma WrittenMissesExample()
    ensures RepairArrowsAsWritten(ArrowExample) == ArrowExample
  {
    var s := ArrowExample;
    WrittenArrowAdvances(s);
    forall k | 0 <= k < |s|
      ensures WrittenArrowAt(s, k).None?
    {
      assert k != 5 && k != 6 ==> s[k] != '-';
    }
    SubNoMatch(s, WrittenArrowAt);
  }

  // ---------------------------------------------------------------------
  // The two pipelines

  /** The header is there and no line has whitespace at either end. */
  predicate WellFormed(d: string) {
    HasHeader(d) &&
    forall k :: 0 <= k < |SplitLines(d)| ==> Strip(SplitLines(d)[k]) == SplitLines(d)[k]
  }

  /** Lines 242-264: the clean-up the live parser applies to the value under
      `diagram`. */
  function CleanDiagram(d: string): (r: string)
    ensures WellFormed(r)
  {
    var h := EnsureHeader(UnescapeNewlines(StripQuotes(d)));
    var styled := AddStyle(h, LiveStyle);
    AddStyleKeepsHeader(h, LiveStyle);
    TrimLinesKeepsHeader(styled);
    TrimmedLines(styled);
    TrimLines(styled)
  }

  /** Lines 174-193 as written, with line 183's arrow repair. */
  function FormatMermaid(d: string): (r: string)
    ensures WellFormed(r)
  {
    var h := EnsureHeader(UnescapeNewlines(StripQuotes(d)));
    var repaired := RepairArrowsAsWritten(h);
    WrittenRepairKeepsHeader(h);
    var styled := AddStyle(repaired, FormatStyle);
    AddStyleKeepsHeader(repaired, FormatStyle);
    TrimLinesKeepsHeader(styled);
    TrimmedLines(styled);
    TrimLines(styled)
  }

  /** Lines 174-193 with the arrow repair by the intended pattern. */
  function FormatMermaidIntended(d: string): (r: string)
    ensures WellFormed(r)
  {
    var h := EnsureHeader(UnescapeNewlines(StripQuotes(d)));
    var repaired := RepairLabelledArrows(h);
    RepairKeepsHeader(h);
    var styled := AddStyle(repaired, FormatStyle);
    AddStyleKeepsHeader(repaired, FormatStyle);
    TrimLinesKeepsHeader(styled);
    TrimmedLines(styled);
    TrimLines(styled)
  }

  /** Without a backslash and without a `T` only the quote strip and the
      line trimming can change a diagram with a header. */
  lemma CleanPlain(d: string)
    requires HasHeader(StripQuotes(d))
    requires '\\' !in StripQuotes(d) && 'T' !in StripQuotes(d)
    ensures CleanDiagram(d) == TrimLines(StripQuotes(d))
  {
    var y := StripQuotes(d);
    UnescapePlain(y);
    assert EnsureHeader(UnescapeNewlines(y)) == y;
    StylePlain(y);
  }

  lemma UnescapePlain(y: string)
    requires '\\' !in y
    ensures UnescapeNewlines(y) == y
  {
    CharAbsent(y, "\\n", 0);
    ReplaceAbsent(y, "\\n", "\n");
  }

  lemma StylePlain(y: string)
    requires 'T' !in y
    ensures AddStyle(y, LiveStyle) == y
  {
    CharAbsent(y, "graph TD", 6);
    AddStyleFrame(y, LiveStyle);
  }

  /** A one-line diagram ending in a quote and then a space. */
  const QuoteExample := "graph' "

  /** The clean-up is not idempotent: trimming `QuoteExample` exposes a
      quote that only a second pass strips. */
  lemma CleanNotIdempotent()
    ensures CleanDiagram(QuoteExample) == "graph'"
    ensures CleanDiagram("graph'") == "graph"
  {
    QuoteExampleShape();
    QuoteExampleFirst(QuoteExample);
    QuoteExampleSecond("graph'");
  }

  lemma QuoteExampleShape()
    ensures GraphThenQuotes(QuoteExample) && |QuoteExample| == 7
    ensures QuoteExample[5] == '\'' && QuoteExample[6] == ' '
    ensures QuoteExample[..6] == "graph'"
    ensures GraphThenQuotes("graph'") && "graph'"[5] == '\'' && "graph'"[..5] == "graph"
  {
  }

  /** Starts with `graph`, then quotes and spaces only. */
  predicate GraphThenQuotes(x: string) {
    |x| >= 5 && x[0] == 'g' && x[1] == 'r' && x[2] == 'a' && x[3] == 'p' && x[4] == 'h' &&
    forall k :: 5 <= k < |x| ==> x[k] == '\'' || x[k] == ' '
  }

  lemma QuoteExampleFirst(x: string)
    requires GraphThenQuotes(x) && |x| == 7 && x[5] == '\'' && x[6] == ' '
    ensures CleanDiagram(x) == x[..6]
  {
    QuotesFixed(x);
    GraphHeader(x);
    CleanPlain(x);
    TrimSingleLine(x);
    StripLastSpace(x);
  }

  /** `strip()` removes the one trailing space after a quote. */
  lemma StripLastSpace(x: string)
    requires GraphThenQuotes(x) && |x| == 7 && x[5] == '\'' && x[6] == ' '
    ensures Strip(x) == x[..6]
  {
    LStripNonSpace(x);
    var z := x[..6];
    assert x[..|x| - 1] == z;
    assert z[5] == '\'';
    assert RStripBy(z, IsSpace) == z;
  }

  lemma QuoteExampleSecond(y: string)
    requires GraphThenQuotes(y) && |y| == 6 && y[5] == '\''
    ensures CleanDiagram(y) == y[..5]
  {
    var z := y[..5];
    StripLastQuote(y);
    assert GraphThenQuotes(z);
    GraphHeader(z);
    CleanPlain(y);
    TrimSingleLine(z);
    StripGraph(z);
  }

  /** The quote strip removes the quote `strip()` exposed. */
  lemma StripLastQuote(y: string)
    requires GraphThenQuotes(y) && |y| == 6 && y[5] == '\''
    ensures StripQuotes(y) == y[..5]
  {
    var z := y[..5];
    assert LStripBy(y, IsQuoteChar) == y;
    assert y[..|y| - 1] == z;
    assert z[4] == 'h';
    assert RStripBy(z, IsQuoteChar) == z;
  }

  lemma StripGraph(z: string)
    requires |z| == 5 && GraphThenQuotes(z)
    ensures Strip(z) == z
  {
    LStripNonSpace(z);
    assert RStripBy(z, IsSpace) == z;
  }

  /** Such a text has a header and no backslash, `T` or newline. */
  lemma GraphHeader(x: string)
    requires GraphThenQuotes(x)
    ensures HasHeader(x) && '\\' !in x && 'T' !in x && Find(x, '\n') == -1
  {
    GraphStarts(x);
    GraphChars(x);
  }

  lemma GraphStarts(x: string)
    requires GraphThenQuotes(x)
    ensures HasHeader(x)
  {
    assert x[0..] == x;
    assert x[..5] == "graph";
    HeaderJoin(x, 0);
  }

  lemma GraphChars(x: string)
    requires GraphThenQuotes(x)
    ensures '\\' !in x && 'T' !in x && '\n' !in x
  {
    forall k | 0 <= k < |x|
      ensures x[k] != '\\' && x[k] != 'T' && x[k] != '\n'
    {
    }
  }

  /** A text whose lines are all stripped is its own trimming. */
  lemma TrimLinesFixed(x: string)
    requires forall k :: 0 <= k < |SplitLines(x)| ==> Strip(SplitLines(x)[k]) == SplitLines(x)[k]
    ensures TrimLines(x) == x
  {
    assert StripAll(SplitLines(x)) == SplitLines(x);
    JoinSplit(x);
  }

  /** A diagram that is already clean passes the clean-up unchanged: well
      formed, without a quote or backtick at either end, without a
      backslash-n escape, and with the style block (or no `graph TD` to put
      it after). */
  lemma CleanDiagramFixedPoint(x: string)
    requires WellFormed(x)
    requires !IsQuoteChar(x[0]) && !IsQuoteChar(x[|x| - 1])
    requires !Contains(x, "\\n")
    requires Contains(x, Marker) || !Contains(x, "graph TD")
    ensures CleanDiagram(x) == x
  {
    FrontStepsFixed(x);
    AddStyleFrame(x, LiveStyle);
    TrimLinesFixed(x);
  }

  /** The steps before the style block leave such a text alone. */
  lemma FrontStepsFixed(x: string)
    requires HasHeader(x)
    requires x != [] && !IsQuoteChar(x[0]) && !IsQuoteChar(x[|x| - 1])
    requires !Contains(x, "\\n")
    ensures EnsureHeader(UnescapeNewlines(StripQuotes(x))) == x
  {
    QuotesFixed(x);
    ReplaceAbsent(x, "\\n", "\n");
  }

  lemma QuotesFixed(x: string)
    requires x != [] && !IsQuoteChar(x[0]) && !IsQuoteChar(x[|x| - 1])
    ensures StripQuotes(x) == x
  {
    assert LStripBy(x, IsQuoteChar) == x;
    assert RStripBy(x, IsQuoteChar) == x;
  }
}
