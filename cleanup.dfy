/** The string steps with which the live `_parse_response` turns a model
    reply into the text it hands to the JSON parser. */
module Cleanup {
  import opened Wrappers
  import opened PyStr
  import opened Regex

  /** End of the greedy `\s*` that starts at `i`. */
  function SkipSpace(s: string, i: nat): (j: nat)
    requires i <= |s|
    ensures i <= j <= |s|
    ensures forall k :: i <= k < j ==> IsSpace(s[k])
    ensures j < |s| ==> !IsSpace(s[j])
    decreases |s| - i
  {
    if i < |s| && IsSpace(s[i]) then SkipSpace(s, i + 1) else i
  }

  // ---------------------------------------------------------------------
  // Code fences: re.sub(r'```(?:json|mermaid)?\s*|\s*```', '', text)

  /** The first alternative, a fence opener: three backticks, an optional
      `json` or `mermaid` tag, then whitespace. */
  predicate IsFenceOpen(t: string) {
    StartsWith(t, "```") &&
    (AllSpace(t[3..]) ||
     (StartsWith(t[3..], "json") && AllSpace(t[7..])) ||
     (StartsWith(t[3..], "mermaid") && AllSpace(t[10..])))
  }

  /** The second alternative, a fence closer: whitespace, then three
      backticks. */
  predicate IsFenceClose(t: string) {
    |t| >= 3 && t[|t| - 3..] == "```" && AllSpace(t[..|t| - 3])
  }

  predicate IsFence(t: string) {
    IsFenceOpen(t) || IsFenceClose(t)
  }

  /** The engine's match of the fence pattern at `i`. */
  function FenceAt(s: string, i: nat): (r: Option<Match>)
    ensures r.Some? ==> i < r.value.end <= |s| && r.value.replacement == ""
  {
    if i >= |s| then None
    else if OccursAt(s, "```", i) then
      var t := i + 3;
      var u := if OccursAt(s, "json", t) then t + 4
               else if OccursAt(s, "mermaid", t) then t + 7
               else t;
      Some(Match("", SkipSpace(s, u)))
    else
      var j := SkipSpace(s, i);
      if OccursAt(s, "```", j) then Some(Match("", j + 3)) else None
  }

  /** The engine's match at `i` is the longest fence starting there, and
      there is none when no fence starts there. */
  lemma FenceAtLongest(s: string, i: nat)
    requires i < |s|
    ensures FenceAt(s, i).Some? ==>
      var e := FenceAt(s, i).value.end;
      IsFence(s[i..e]) && forall e' :: e < e' <= |s| ==> !IsFence(s[i..e'])
    ensures FenceAt(s, i).None? ==> forall e :: i <= e <= |s| ==> !IsFence(s[i..e])
  {
    if OccursAt(s, "```", i) {
      OpenLongest(s, i);
    } else {
      var j := SkipSpace(s, i);
      forall e | i <= e <= |s| && IsFenceOpen(s[i..e]) ensures false {
        IndexOccursAt(s, "```", i);
      }
      forall e | i <= e <= |s| && IsFenceClose(s[i..e]) ensures e == j + 3 && OccursAt(s, "```", j) {
        CloseAt(s, i, j, e);
      }
      if OccursAt(s, "```", j) {
        CloseMatches(s, i, j);
      }
    }
  }

  lemma CloseMatches(s: string, i: nat, j: nat)
    requires i <= j <= |s| && j == SkipSpace(s, i) && OccursAt(s, "```", j)
    ensures IsFenceClose(s[i..j + 3])
  {
    OccursAtIndex(s, "```", j);
    var t := s[i..j + 3];
    assert t[..|t| - 3] == s[i..j];
    assert t[|t| - 3..] == s[j..j + 3];
  }

  lemma OpenLongest(s: string, i: nat)
    requires i < |s| && OccursAt(s, "```", i)
    ensures FenceAt(s, i).Some?
    ensures var e := FenceAt(s, i).value.end;
      IsFence(s[i..e]) && forall e' :: e < e' <= |s| ==> !IsFence(s[i..e'])
  {
    OccursAtIndex(s, "```", i);
    var t := i + 3;
    var u := if OccursAt(s, "json", t) then t + 4
             else if OccursAt(s, "mermaid", t) then t + 7
             else t;
    var e := SkipSpace(s, u);
    var m := s[i..e];
    assert m[..3] == s[i..i + 3];
    assert m[3..] == s[t..e];
    if u == t + 4 {
      OccursAtIndex(s, "json", t);
      assert m[3..][..4] == s[t..t + 4];
      assert m[7..] == s[u..e];
    } else if u == t + 7 {
      OccursAtIndex(s, "mermaid", t);
      assert m[3..][..7] == s[t..t + 7];
      assert m[10..] == s[u..e];
    }
    assert IsFenceOpen(m);
    forall e' | e < e' <= |s| ensures !IsFence(s[i..e']) {
      FenceLonger(s, i, u, e, e');
    }
  }

  /** A fence closer starting at `i` ends three characters after the end of
      the whitespace run at `i`. */
  lemma CloseAt(s: string, i: nat, j: nat, e: nat)
    requires i <= e <= |s| && j == SkipSpace(s, i)
    requires IsFenceClose(s[i..e])
    ensures e == j + 3 && OccursAt(s, "```", j)
  {
    var t := s[i..e];
    var c := e - 3;
    assert t[|t| - 3..] == s[c..e];
    assert s[c] == '`';
    assert forall k :: i <= k < c ==> IsSpace(s[k]) by {
      assert forall k :: i <= k < c ==> s[k] == t[..|t| - 3][k - i];
    }
    IndexOccursAt(s, "```", c);
  }

  /** No fence at `i` is longer than the engine's opener match. */
  lemma FenceLonger(s: string, i: nat, u: nat, e: nat, e': nat)
    requires OccursAt(s, "```", i)
    requires u == (if OccursAt(s, "json", i + 3) then i + 7
                   else if OccursAt(s, "mermaid", i + 3) then i + 10
                   else i + 3)
    requires e == SkipSpace(s, u) && e < e' <= |s|
    ensures !IsFence(s[i..e'])
  {
    OccursAtIndex(s, "```", i);
    assert s[i] == s[i..i + 3][0] == '`';
    var t := s[i..e'];
    assert t[e - i] == s[e];
    assert !IsSpace(s[e]);
    assert !IsFenceClose(t) by {
      assert |t| > 3 ==> t[..|t| - 3][0] == t[0];
    }
    OpenNotLonger(s, i, u, e, e');
  }

  lemma OpenNotLonger(s: string, i: nat, u: nat, e: nat, e': nat)
    requires i + 3 <= e' <= |s|
    requires u == (if OccursAt(s, "json", i + 3) then i + 7
                   else if OccursAt(s, "mermaid", i + 3) then i + 10
                   else i + 3)
    requires u <= |s| && e == SkipSpace(s, u) && e < e'
    ensures !IsFenceOpen(s[i..e'])
  {
    var t := s[i..e'];
    var r := t[3..];
    assert r == s[i + 3..e'];
    assert !IsSpace(s[e]);
    assert r[e - i - 3] == s[e];
    SliceStartsOccurs(s, i + 3, e', "json");
    SliceStartsOccurs(s, i + 3, e', "mermaid");
    TagsDiffer(s, i + 3);
    if OccursAt(s, "json", i + 3) {
      assert t[7..][e - i - 7] == s[e];
    } else if OccursAt(s, "mermaid", i + 3) {
      assert t[10..][e - i - 10] == s[e];
    }
  }

  lemma SliceStartsOccurs(s: string, a: nat, b: nat, p: string)
    requires a <= b <= |s|
    ensures StartsWith(s[a..b], p) ==> OccursAt(s, p, a)
  {
    if StartsWith(s[a..b], p) {
      assert s[a..b][..|p|] == s[a..a + |p|];
      IndexOccursAt(s, p, a);
    }
  }

  /** The two tags start with different letters. */
  lemma TagsDiffer(s: string, a: nat)
    ensures !(OccursAt(s, "json", a) && OccursAt(s, "mermaid", a))
  {
    if OccursAt(s, "json", a) {
      OccursAtIndex(s, "json", a);
      assert s[a] == 'j';
      assert !StartsWith(s[a..], "mermaid") by {
        assert |s[a..]| < 7 || s[a..][..7][0] == 'j';
      }
    }
  }

  lemma FenceAdvances(s: string)
    ensures Advances(FenceAt, s)
  {
  }

  /** Line 205: remove code-fence markers. */
  function StripFences(s: string): string {
    FenceAdvances(s);
    Sub(s, FenceAt)
  }

  /** A reply without a backtick has no fence to remove. */
  lemma StripFencesNoBacktick(s: string)
    requires '`' !in s
    ensures StripFences(s) == s
  {
    FenceAdvances(s);
    forall k | 0 <= k < |s| ensures FenceAt(s, k).None? {
      var j := SkipSpace(s, k);
      if OccursAt(s, "```", k) { OccursAtIndex(s, "```", k); }
      if OccursAt(s, "```", j) { OccursAtIndex(s, "```", j); }
    }
    SubNoMatch(s, FenceAt);
  }

  /** Removing a fence can join backticks into a new fence, so a second
      pass may remove more: two backticks, a space and four backticks leave
      a fence behind. */
  const FenceExample := "`` ````"

  lemma FencesNotIdempotent()
    ensures StripFences(FenceExample) == "```"
    ensures StripFences("```") == ""
  {
    var s := FenceExample;
    assert |s| == 7 && s[0] == '`' && s[1] == '`' && s[2] == ' ';
    assert s[3] == '`' && s[4] == '`' && s[5] == '`' && s[6] == '`';
    var r := FenceExampleSub(s);
    assert StripFences(s) == r;
    BackticksJoin(r);
    FenceAlone("```");
  }

  lemma BackticksJoin(r: string)
    requires |r| == 3 && r[0] == '`' && r[1] == '`' && r[2] == '`'
    ensures r == "```"
  {
  }

  /** The passes over the example: the two leading backticks are kept, the
      space and three backticks go, the last backtick is kept. */
  lemma FenceExampleSub(s: string) returns (r: string)
    requires |s| == 7 && s[0] == '`' && s[1] == '`' && s[2] == ' '
    requires s[3] == '`' && s[4] == '`' && s[5] == '`' && s[6] == '`'
    ensures Advances(FenceAt, s) && SubFrom(s, 0, FenceAt) == r
    ensures |r| == 3 && r[0] == '`' && r[1] == '`' && r[2] == '`'
  {
    FenceAdvances(s);
    assert !OccursAt(s, "```", 0) by { assert s[2] != "```"[2]; }
    assert !OccursAt(s, "```", 1) by { assert s[2] != "```"[1]; }
    assert !OccursAt(s, "```", 2) by { assert s[2] != "```"[0]; }
    assert s[3..6] == "```";
    assert OccursAt(s, "```", 3);
    assert SkipSpace(s, 2) == 3 by { assert SkipSpace(s, 3) == 3; }
    assert FenceAt(s, 2) == Some(Match("", 6));
    assert FenceAt(s, 6).None? by { assert SkipSpace(s, 6) == 6; }
    assert SubFrom(s, 6, FenceAt) == [s[6]] + SubFrom(s, 7, FenceAt);
    assert FenceAt(s, 1).None? by { assert SkipSpace(s, 1) == 1; }
    assert FenceAt(s, 0).None? by { assert SkipSpace(s, 0) == 0; }
    assert SubFrom(s, 7, FenceAt) == [];
    assert SubFrom(s, 2, FenceAt) == SubFrom(s, 6, FenceAt);
    assert SubFrom(s, 1, FenceAt) == [s[1]] + SubFrom(s, 2, FenceAt);
    assert SubFrom(s, 0, FenceAt) == [s[0]] + SubFrom(s, 1, FenceAt);
    r := [s[0]] + ([s[1]] + [s[6]]);
  }

  /** A lone fence is removed whole. */
  lemma FenceAlone(f: string)
    requires f == "```"
    ensures StripFences(f) == ""
  {
    FenceAdvances(f);
    assert OccursAt(f, "```", 0);
    assert SkipSpace(f, 3) == 3;
    assert FenceAt(f, 0) == Some(Match("", 3));
  }

  // ---------------------------------------------------------------------
  // Backtick-wrapped diagram:
  // re.sub(r':\s*`\s*(graph TD[\s\S]*?)`\s*([,}])', r': "\1"\2', text)

  /** A closing backtick at `k`: a backtick, whitespace, then `,` or `}`. */
  predicate ClosesAt(s: string, k: nat) {
    k < |s| && s[k] == '`' &&
    var m := SkipSpace(s, k + 1);
    m < |s| && (s[m] == ',' || s[m] == '}')
  }

  /** The lazy `[\s\S]*?`: the first closing backtick at or after `k`. */
  function FirstClose(s: string, k: nat): (r: Option<nat>)
    requires k <= |s|
    ensures r.Some? ==> k <= r.value < |s| && ClosesAt(s, r.value)
    decreases |s| - k
  {
    if k == |s| then None
    else if ClosesAt(s, k) then Some(k)
    else FirstClose(s, k + 1)
  }

  /** No closing backtick comes before the one `FirstClose` finds, and
      there is none when it finds nothing. */
  lemma {:induction false} FirstCloseFirst(s: string, k: nat)
    requires k <= |s|
    ensures FirstClose(s, k).Some? ==> forall x :: k <= x < FirstClose(s, k).value ==> !ClosesAt(s, x)
    ensures FirstClose(s, k).None? ==> forall x :: k <= x < |s| ==> !ClosesAt(s, x)
    decreases |s| - k
  {
    if k < |s| && !ClosesAt(s, k) {
      FirstCloseFirst(s, k + 1);
    }
  }

  /** The engine's match of the backtick-diagram pattern at `i`: the
      colon, the backtick-quoted text that starts with `graph TD`, and the
      following `,` or `}`, rewritten as a double-quoted string. */
  function BacktickDiagramAt(s: string, i: nat): (r: Option<Match>)
    ensures r.Some? ==> i < r.value.end <= |s|
  {
    if i >= |s| || s[i] != ':' then None
    else BacktickValueAt(s, SkipSpace(s, i + 1))
  }

  /** From the whitespace after the colon: the opening backtick. */
  function BacktickValueAt(s: string, j: nat): (r: Option<Match>)
    requires j <= |s|
    ensures r.Some? ==> j < r.value.end <= |s|
  {
    if j >= |s| || s[j] != '`' then None
    else DiagramBodyAt(s, SkipSpace(s, j + 1))
  }

  /** From the whitespace after the backtick: `graph TD`, the lazy body,
      the closing backtick, whitespace and the delimiter. */
  function DiagramBodyAt(s: string, g: nat): (r: Option<Match>)
    requires g <= |s|
    ensures r.Some? ==> g < r.value.end <= |s|
  {
    if !OccursAt(s, "graph TD", g) then None
    else match FirstClose(s, g + 8)
      case None => None
      case Some(k) =>
        var m := SkipSpace(s, k + 1);
        Some(Match(QuotedValue(s[g..k], s[m]), m + 1))
  }

  /** The replacement `: "\1"\2`. */
  function QuotedValue(t: string, delim: char): string {
    ": \"" + t + "\"" + [delim]
  }

  /** What line 208's pattern matches at `i`, with the colon at `i`, the
      opening backtick at `j`, `graph TD` at `g` and the closing backtick
      at `k`: whitespace between the colon and the opening backtick and
      after it, and `k` the first closing backtick after `graph TD`. */
  predicate IsBacktickDiagram(s: string, i: nat, j: nat, g: nat, k: nat) {
    i < j < g && g + 8 <= k < |s| &&
    s[i] == ':' && (forall x :: i < x < j ==> IsSpace(s[x])) && s[j] == '`' &&
    (forall x :: j < x < g ==> IsSpace(s[x])) && OccursAt(s, "graph TD", g) &&
    ClosesAt(s, k) && forall x :: g + 8 <= x < k ==> !ClosesAt(s, x)
  }

  /** What a match rewrites: the text between the backticks, which starts
      with `graph TD` and ends at the first closing backtick, becomes a
      double-quoted string, and the delimiter after the closing backtick
      is kept. */
  lemma BacktickDiagramShape(s: string, i: nat) returns (j: nat, g: nat, k: nat)
    requires BacktickDiagramAt(s, i).Some?
    ensures IsBacktickDiagram(s, i, j, g, k) && StartsWith(s[g..k], "graph TD")
    ensures BacktickDiagramAt(s, i) ==
      Some(Match(QuotedValue(s[g..k], s[SkipSpace(s, k + 1)]), SkipSpace(s, k + 1) + 1))
  {
    var m;
    j, g, k, m := BacktickDiagramParts(s, i);
    PartsAreDiagram(s, i, j, g, k);
    CapturedStartsWith(s, g, k);
  }

  lemma PartsAreDiagram(s: string, i: nat, j: nat, g: nat, k: nat)
    requires i < |s| && s[i] == ':' && j == SkipSpace(s, i + 1) && j < |s| && s[j] == '`'
    requires g == SkipSpace(s, j + 1) && OccursAt(s, "graph TD", g) && FirstClose(s, g + 8) == Some(k)
    ensures IsBacktickDiagram(s, i, j, g, k)
  {
    FirstCloseBefore(s, g + 8, k);
  }

  lemma FirstCloseBefore(s: string, x: nat, k: nat)
    requires x <= |s| && FirstClose(s, x) == Some(k)
    ensures x <= k < |s| && ClosesAt(s, k)
    ensures forall y :: x <= y < k ==> !ClosesAt(s, y)
  {
    FirstCloseFirst(s, x);
  }

  lemma CapturedStartsWith(s: string, g: nat, k: nat)
    requires OccursAt(s, "graph TD", g) && g + 8 <= k <= |s|
    ensures StartsWith(s[g..k], "graph TD")
  {
    OccursAtIndex(s, "graph TD", g);
    assert s[g..k][..8] == s[g..g + 8];
  }

  /** The converse: wherever the pattern's text stands at `i`, the engine
      finds it, and the match runs to the first closing backtick. */
  lemma BacktickDiagramFound(s: string, i: nat, j: nat, g: nat, k: nat)
    requires IsBacktickDiagram(s, i, j, g, k)
    ensures BacktickDiagramAt(s, i) ==
      Some(Match(QuotedValue(s[g..k], s[SkipSpace(s, k + 1)]), SkipSpace(s, k + 1) + 1))
  {
    SkipTo(s, i + 1, j);
    ColonFound(s, i, j);
    GraphNotSpace(s, g);
    SkipTo(s, j + 1, g);
    OpeningFound(s, j, g);
    BodyFound(s, g, k);
  }

  lemma GraphNotSpace(s: string, g: nat)
    requires OccursAt(s, "graph TD", g)
    ensures g < |s| && !IsSpace(s[g])
  {
    OccursAtIndex(s, "graph TD", g);
    assert s[g] == 'g';
  }

  lemma ColonFound(s: string, i: nat, j: nat)
    requires i < |s| && s[i] == ':' && SkipSpace(s, i + 1) == j
    ensures BacktickDiagramAt(s, i) == BacktickValueAt(s, j)
  {
  }

  lemma OpeningFound(s: string, j: nat, g: nat)
    requires j < |s| && s[j] == '`' && SkipSpace(s, j + 1) == g
    ensures BacktickValueAt(s, j) == DiagramBodyAt(s, g)
  {
  }

  lemma BodyFound(s: string, g: nat, k: nat)
    requires OccursAt(s, "graph TD", g) && g + 8 <= k && ClosesAt(s, k)
    requires forall x :: g + 8 <= x < k ==> !ClosesAt(s, x)
    ensures DiagramBodyAt(s, g) ==
      Some(Match(QuotedValue(s[g..k], s[SkipSpace(s, k + 1)]), SkipSpace(s, k + 1) + 1))
  {
    FirstCloseIs(s, g + 8, k);
  }

  /** `SkipSpace` stops at the first non-space. */
  lemma SkipTo(s: string, a: nat, b: nat)
    requires a <= b < |s| && !IsSpace(s[b])
    requires forall x :: a <= x < b ==> IsSpace(s[x])
    ensures SkipSpace(s, a) == b
  {
  }

  lemma {:induction false} FirstCloseIs(s: string, x: nat, k: nat)
    requires x <= k && ClosesAt(s, k)
    requires forall y :: x <= y < k ==> !ClosesAt(s, y)
    ensures FirstClose(s, x) == Some(k)
    decreases k - x
  {
    if x < k {
      FirstCloseIs(s, x + 1, k);
    }
  }

  /** The positions the engine settles on: the opening backtick at `j`,
      the text after it and its whitespace at `g`, the closing backtick at
      `k`, the delimiter at `m`. */
  lemma BacktickDiagramParts(s: string, i: nat) returns (j: nat, g: nat, k: nat, m: nat)
    requires BacktickDiagramAt(s, i).Some?
    ensures i < |s| && s[i] == ':' && j == SkipSpace(s, i + 1) && j < |s| && s[j] == '`'
    ensures g == SkipSpace(s, j + 1) && FirstClose(s, g + 8) == Some(k) && m == SkipSpace(s, k + 1)
    ensures i < g && OccursAt(s, "graph TD", g) && g + 8 <= k < m < |s| && s[k] == '`'
    ensures s[m] == ',' || s[m] == '}'
    ensures BacktickDiagramAt(s, i).value == Match(QuotedValue(s[g..k], s[m]), m + 1)
  {
    j := SkipSpace(s, i + 1);
    assert BacktickDiagramAt(s, i) == BacktickValueAt(s, j);
    g := BacktickValueParts(s, j);
    k, m := DiagramBodyParts(s, g);
  }

  lemma BacktickValueParts(s: string, j: nat) returns (g: nat)
    requires j <= |s| && BacktickValueAt(s, j).Some?
    ensures j < |s| && s[j] == '`' && g == SkipSpace(s, j + 1)
    ensures j < g <= |s| && BacktickValueAt(s, j) == DiagramBodyAt(s, g)
  {
    g := SkipSpace(s, j + 1);
  }

  lemma DiagramBodyParts(s: string, g: nat) returns (k: nat, m: nat)
    requires g <= |s| && DiagramBodyAt(s, g).Some?
    ensures FirstClose(s, g + 8) == Some(k) && m == SkipSpace(s, k + 1)
    ensures OccursAt(s, "graph TD", g) && g + 8 <= k < m < |s| && s[k] == '`'
    ensures s[m] == ',' || s[m] == '}'
    ensures DiagramBodyAt(s, g).value == Match(QuotedValue(s[g..k], s[m]), m + 1)
  {
    var close := FirstClose(s, g + 8);
    k := close.value;
    assert ClosesAt(s, k);
    m := SkipSpace(s, k + 1);
  }

  lemma BacktickDiagramAdvances(s: string)
    ensures Advances(BacktickDiagramAt, s)
  {
  }

  /** Line 208: turn a backtick-quoted diagram value into a JSON string. */
  function RewriteBacktickDiagram(s: string): string {
    BacktickDiagramAdvances(s);
    Sub(s, BacktickDiagramAt)
  }

  /** The first backtick diagram the scan reaches is rewritten: the text
      before it is copied, the diagram becomes a double-quoted string, and
      the scan goes on after its delimiter. */
  lemma RewriteFirstDiagram(s: string, i: nat, j: nat, g: nat, k: nat)
    requires IsBacktickDiagram(s, i, j, g, k)
    requires forall x :: 0 <= x < i ==> BacktickDiagramAt(s, x).None?
    ensures var m := SkipSpace(s, k + 1);
      m < |s| && Advances(BacktickDiagramAt, s) &&
      RewriteBacktickDiagram(s) ==
        s[..i] + QuotedValue(s[g..k], s[m]) + SubFrom(s, m + 1, BacktickDiagramAt)
  {
    BacktickDiagramAdvances(s);
    BacktickDiagramFound(s, i, j, g, k);
    var m := SkipSpace(s, k + 1);
    SubFirstMatch(s, i, BacktickDiagramAt, QuotedValue(s[g..k], s[m]), m + 1);
    assert RewriteBacktickDiagram(s) == Sub(s, BacktickDiagramAt);
  }

  /** A reply without a backtick has no backtick diagram to rewrite. */
  lemma RewriteNoBacktick(s: string)
    requires '`' !in s
    ensures RewriteBacktickDiagram(s) == s
  {
    BacktickDiagramAdvances(s);
    SubNoMatch(s, BacktickDiagramAt);
  }

  /** Lines 205 and 208 together: the text searched for the JSON region. */
  function Cleaned(reply: string): string {
    RewriteBacktickDiagram(StripFences(reply))
  }

  /** A reply without a backtick is searched as it is. */
  lemma CleanedNoBacktick(reply: string)
    requires '`' !in reply
    ensures Cleaned(reply) == reply
  {
    StripFencesNoBacktick(reply);
    RewriteNoBacktick(reply);
  }

  // ---------------------------------------------------------------------
  // The JSON region: cleaned_text[find("{") : rfind("}") + 1]

  /** Lines 211-217. `None` is the "No valid JSON structure found" failure.
      When the last `}` comes before the first `{`, Python's slice is
      empty. */
  function ExtractRegion(s: string): (r: Option<string>)
    ensures r.None? <==> '{' !in s || '}' !in s
  {
    var a := Find(s, '{');
    var b := RFind(s, '}');
    if a == -1 || b == -1 then None
    else if a <= b then Some(s[a..b + 1])
    else Some([])
  }

  /** Given the first `{` at `a` and the last `}` at `b >= a`, the region is
      everything from `a` to `b` inclusive. */
  lemma RegionOutermost(s: string, a: nat, b: nat)
    requires a <= b < |s| && s[a] == '{' && s[b] == '}'
    requires '{' !in s[..a] && '}' !in s[b + 1..]
    ensures ExtractRegion(s) == Some(s[a..b + 1])
  {
    FirstAndLast(s, a, b);
  }

  lemma FirstIs(s: string, a: nat)
    requires a < |s| && s[a] == '{' && '{' !in s[..a]
    ensures Find(s, '{') == a
  {
    var fa := Find(s, '{');
    assert s[a] in s;
  }

  lemma {:induction false} LastIs(s: string, b: nat)
    requires b < |s| && s[b] == '}' && '}' !in s[b + 1..]
    ensures RFind(s, '}') == b
    decreases |s|
  {
    if b < |s| - 1 {
      var t := s[..|s| - 1];
      assert s[b + 1..][|s| - 2 - b] == s[|s| - 1];
      assert t[b + 1..] == s[b + 1..|s| - 1];
      assert t[b + 1..] == s[b + 1..][..|s| - 2 - b];
      LastIs(t, b);
    }
  }

  lemma FirstAndLast(s: string, a: nat, b: nat)
    requires a < |s| && b < |s| && s[a] == '{' && s[b] == '}'
    requires '{' !in s[..a] && '}' !in s[b + 1..]
    ensures Find(s, '{') == a && RFind(s, '}') == b
  {
    FirstIs(s, a);
    LastIs(s, b);
  }

  /** When every `}` comes before the first `{`, the region is empty, which
      the parser then rejects. */
  lemma RegionCrossed(s: string, a: nat, b: nat)
    requires b < a < |s| && s[a] == '{' && s[b] == '}'
    requires '{' !in s[..a] && '}' !in s[b + 1..]
    ensures ExtractRegion(s) == Some([])
  {
    FirstAndLast(s, a, b);
  }

  // ---------------------------------------------------------------------
  // Whitespace: re.sub(r'\s+', ' ', json_str)

  /** No two whitespace characters are adjacent and every whitespace
      character is a plain space. */
  predicate SingleSpaced(s: string) {
    (forall k :: 0 <= k < |s| && IsSpace(s[k]) ==> s[k] == ' ') &&
    (forall k :: 0 <= k < |s| - 1 ==> !(IsSpace(s[k]) && IsSpace(s[k + 1])))
  }

  /** The engine's match of `\s+` at `i`: the whole whitespace run. */
  function SpaceRunAt(s: string, i: nat): (r: Option<Match>)
    ensures r.Some? ==> i < r.value.end <= |s| && r.value.replacement == " "
    ensures r.Some? ==> forall k :: i <= k < r.value.end ==> IsSpace(s[k])
  {
    if i < |s| && IsSpace(s[i]) then Some(Match(" ", SkipSpace(s, i))) else None
  }

  lemma SpaceRunAdvances(s: string)
    ensures Advances(SpaceRunAt, s)
  {
  }

  function CollapseFrom(s: string, i: nat): string
    requires i <= |s|
  {
    SpaceRunAdvances(s);
    SubFrom(s, i, SpaceRunAt)
  }

  /** Line 220: collapse every whitespace run to one space. */
  function CollapseWhitespace(s: string): string {
    CollapseFrom(s, 0)
  }

  lemma {:induction false} CollapseFromSingleSpaced(s: string, i: nat)
    requires i <= |s|
    ensures var r := CollapseFrom(s, i);
      SingleSpaced(r) && (r == [] <==> i == |s|) &&
      (r != [] ==> r[0] == if IsSpace(s[i]) then ' ' else s[i])
    decreases |s| - i
  {
    SpaceRunAdvances(s);
    if i < |s| {
      var r := CollapseFrom(s, i);
      if IsSpace(s[i]) {
        var e := SkipSpace(s, i);
        CollapseFromSingleSpaced(s, e);
        var rest := CollapseFrom(s, e);
        assert r == " " + rest;
        assert forall k :: 0 < k < |r| ==> r[k] == rest[k - 1];
      } else {
        CollapseFromSingleSpaced(s, i + 1);
        var rest := CollapseFrom(s, i + 1);
        assert r == [s[i]] + rest;
        assert forall k :: 0 < k < |r| ==> r[k] == rest[k - 1];
      }
    }
  }

  /** After line 220 no two whitespace characters are adjacent and every
      whitespace character is a plain space. */
  lemma CollapseSingleSpaced(s: string)
    ensures SingleSpaced(CollapseWhitespace(s))
  {
    CollapseFromSingleSpaced(s, 0);
  }

  predicate NotSpace(c: char) {
    !IsSpace(c)
  }

  lemma {:induction false} NoKeptSpace(s: string)
    requires AllSpace(s)
    ensures Filter(s, NotSpace) == []
    decreases |s|
  {
    if s != [] {
      NoKeptSpace(s[1..]);
    }
  }

  /** Line 220 changes only whitespace: the other characters stay, in
      order. */
  lemma CollapseKeepsText(s: string)
    ensures Filter(CollapseWhitespace(s), NotSpace) == Filter(s, NotSpace)
  {
    SpaceRunAdvances(s);
    forall k | 0 <= k < |s| && SpaceRunAt(s, k).Some?
      ensures Filter(SpaceRunAt(s, k).value.replacement, NotSpace) ==
              Filter(s[k..SpaceRunAt(s, k).value.end], NotSpace)
    {
      var e := SpaceRunAt(s, k).value.end;
      NoKeptSpace(s[k..e]);
      NoKeptSpace(" ");
    }
    SubFilter(s, 0, SpaceRunAt, NotSpace);
  }

  /** Single-spaced text is left alone by line 220. */
  lemma CollapseSingleSpacedFixed(s: string)
    requires SingleSpaced(s)
    ensures CollapseWhitespace(s) == s
  {
    SpaceRunAdvances(s);
    forall k | 0 <= k < |s| && SpaceRunAt(s, k).Some?
      ensures SpaceRunAt(s, k).value.replacement == s[k..SpaceRunAt(s, k).value.end]
    {
      var e := SkipSpace(s, k);
      if k + 1 < |s| { assert !IsSpace(s[k + 1]); }
      assert e == k + 1;
    }
    SubIdentity(s, 0, SpaceRunAt);
  }

  /** A substitution whose every replacement is the text it replaces changes
      nothing. */
  lemma {:induction false} SubIdentity(s: string, i: nat, m: Matcher)
    requires i <= |s| && Advances(m, s)
    requires forall k :: i <= k < |s| && m(s, k).Some? ==>
      m(s, k).value.replacement == s[k..m(s, k).value.end]
    ensures SubFrom(s, i, m) == s[i..]
    decreases |s| - i
  {
    if i < |s| {
      match m(s, i)
      case Some(mt) =>
        SubIdentity(s, mt.end, m);
        assert s[i..] == s[i..mt.end] + s[mt.end..];
      case None =>
        SubIdentity(s, i + 1, m);
        assert s[i..] == [s[i]] + s[i + 1..];
    }
  }

  // ---------------------------------------------------------------------
  // Quotes: json_str.replace('\\"', '"').replace('""', '"')

  /** Lines 223-224. */
  function UnescapeQuotes(s: string): string {
    Replace(Replace(s, "\\\"", "\""), "\"\"", "\"")
  }

  /** Replacing by a non-empty text without whitespace keeps a text
      single-spaced. */
  lemma {:induction false} ReplaceSingleSpaced(s: string, pat: string, rep: string)
    requires pat != [] && rep != [] && forall k :: 0 <= k < |rep| ==> !IsSpace(rep[k])
    requires SingleSpaced(s)
    ensures var r := Replace(s, pat, rep);
      SingleSpaced(r) && (r != [] ==> s != [] && (r[0] == s[0] || r[0] == rep[0]))
    decreases |s|
  {
    if s != [] {
      var r := Replace(s, pat, rep);
      if StartsWith(s, pat) {
        var t := s[|pat|..];
        assert SingleSpaced(t) by {
          assert forall k :: 0 <= k < |t| ==> t[k] == s[k + |pat|];
        }
        ReplaceSingleSpaced(t, pat, rep);
        var rest := Replace(t, pat, rep);
        assert r == rep + rest;
        forall k | 0 <= k < |r| - 1 ensures !(IsSpace(r[k]) && IsSpace(r[k + 1])) {
          if k + 1 < |rep| {
          } else if k + 1 == |rep| {
            assert r[k] == rep[k];
          } else {
            assert r[k] == rest[k - |rep|] && r[k + 1] == rest[k + 1 - |rep|];
          }
        }
        assert forall k :: 0 <= k < |r| && IsSpace(r[k]) ==> r[k] == ' ' by {
          forall k | 0 <= k < |r| && IsSpace(r[k]) ensures r[k] == ' ' {
            if k >= |rep| { assert r[k] == rest[k - |rep|]; }
          }
        }
      } else {
        var t := s[1..];
        assert SingleSpaced(t) by {
          assert forall k :: 0 <= k < |t| ==> t[k] == s[k + 1];
        }
        ReplaceSingleSpaced(t, pat, rep);
        var rest := Replace(t, pat, rep);
        assert r == [s[0]] + rest;
        forall k | 0 <= k < |r| - 1 ensures !(IsSpace(r[k]) && IsSpace(r[k + 1])) {
          if k == 0 {
            assert r[1] == rest[0];
            assert rest[0] == t[0] || rest[0] == rep[0];
            assert t[0] == s[1];
          } else {
            assert r[k] == rest[k - 1] && r[k + 1] == rest[k];
          }
        }
        assert forall k :: 0 <= k < |r| && IsSpace(r[k]) ==> r[k] == ' ' by {
          forall k | 0 <= k < |r| && IsSpace(r[k]) ensures r[k] == ' ' {
            if k >= 1 { assert r[k] == rest[k - 1]; }
          }
        }
      }
    }
  }

  /** Lines 223-224 keep the text single-spaced. */
  lemma UnescapeSingleSpaced(s: string)
    requires SingleSpaced(s)
    ensures SingleSpaced(UnescapeQuotes(s))
  {
    ReplaceSingleSpaced(s, "\\\"", "\"");
    ReplaceSingleSpaced(Replace(s, "\\\"", "\""), "\"\"", "\"");
  }

  /** Lines 217-224: the text given to the first parse. */
  function JsonText(region: string): string {
    UnescapeQuotes(CollapseWhitespace(region))
  }

  /** The text given to the parser is single-spaced. */
  lemma JsonTextSingleSpaced(region: string)
    ensures SingleSpaced(JsonText(region))
  {
    CollapseSingleSpaced(region);
    UnescapeSingleSpaced(CollapseWhitespace(region));
  }

  // ---------------------------------------------------------------------
  // Retry: re.sub(r':\s*"([^"]*?graph TD[^"]*?)"', r': "\1"', json_str)
  //        .replace('\n', ' ')

  /** The engine's match of the retry pattern at `i`: a colon, whitespace,
      and a double-quoted string (up to its next double quote) that
      contains `graph TD`; the whitespace becomes one space. */
  function RetryAt(s: string, i: nat): (r: Option<Match>)
    ensures r.Some? ==> i < r.value.end <= |s|
    ensures r.Some? ==> s[i] == ':' && s[r.value.end - 1] == '"'
  {
    if i >= |s| || s[i] != ':' then None
    else
      var j := SkipSpace(s, i + 1);
      if j >= |s| || s[j] != '"' then None
      else
        var q := FindFrom(s, '"', j + 1);
        if q == -1 || !Contains(s[j + 1..q], "graph TD") then None
        else Some(Match(": \"" + s[j + 1..q] + "\"", q + 1))
  }

  lemma RetryAdvances(s: string)
    ensures Advances(RetryAt, s)
  {
  }

  /** Line 237. */
  function RetryRewrite(s: string): string {
    RetryAdvances(s);
    Sub(s, RetryAt)
  }

  /** Lines 237-238: the text given to the second parse. */
  function RetryText(s: string): string {
    Replace(RetryRewrite(s), "\n", " ")
  }

  lemma ContainsInSlice(s: string, a: nat, b: nat, p: string)
    requires a <= b <= |s| && Contains(s[a..b], p)
    ensures Contains(s, p)
  {
    var x := ContainsOccurs(s[a..b], p);
    assert s[a..b][x..][..|p|] == s[a + x..][..|p|];
    OccursAtContains(s, p, a + x);
  }

  /** A text without `graph TD` is not touched by line 237. */
  lemma RetryNoDiagram(s: string)
    requires !Contains(s, "graph TD")
    ensures RetryRewrite(s) == s
  {
    RetryAdvances(s);
    forall k | 0 <= k < |s| ensures RetryAt(s, k).None? {
      RetryMatchContains(s, k);
    }
    SubNoMatch(s, RetryAt);
  }

  /** A retry match only happens in a text holding `graph TD`. */
  lemma RetryMatchContains(s: string, k: nat)
    ensures RetryAt(s, k).Some? ==> Contains(s, "graph TD")
  {
    if RetryAt(s, k).Some? {
      var j := SkipSpace(s, k + 1);
      var q := FindFrom(s, '"', j + 1);
      ContainsInSlice(s, j + 1, q, "graph TD");
    }
  }

  /** A retry replacement is built from a colon, a space, double quotes and
      text of `s`. */
  lemma RetryReplacementKeepsOut(s: string, k: nat, c: char)
    requires c !in s && c != ':' && c != ' ' && c != '"'
    ensures RetryAt(s, k).Some? ==> c !in RetryAt(s, k).value.replacement
  {
    if RetryAt(s, k).Some? {
      var j := SkipSpace(s, k + 1);
      var q := FindFrom(s, '"', j + 1);
      var mid := s[j + 1..q];
      assert c !in mid;
      assert RetryAt(s, k).value.replacement == ": \"" + mid + "\"";
    }
  }

  /** Line 237 changes only whitespace after a colon: every other
      character stays, in order. */
  lemma RetryKeepsText(s: string)
    ensures Filter(RetryRewrite(s), NotSpace) == Filter(s, NotSpace)
  {
    RetryAdvances(s);
    forall k | 0 <= k < |s| && RetryAt(s, k).Some?
      ensures Filter(RetryAt(s, k).value.replacement, NotSpace) ==
              Filter(s[k..RetryAt(s, k).value.end], NotSpace)
    {
      RetryMatchFilter(s, k);
    }
    SubFilter(s, 0, RetryAt, NotSpace);
  }

  lemma RetryMatchFilter(s: string, k: nat)
    ensures RetryAt(s, k).Some? ==>
      Filter(RetryAt(s, k).value.replacement, NotSpace) == Filter(s[k..RetryAt(s, k).value.end], NotSpace)
  {
    if RetryAt(s, k).Some? {
      var j := SkipSpace(s, k + 1);
      var q := FindFrom(s, '"', j + 1);
      RetryMatchText(s, k, j, q);
    }
  }

  /** A retry match and its replacement differ only in the whitespace
      between the colon and the opening quote. */
  lemma RetryMatchText(s: string, k: nat, j: nat, q: int)
    requires k < j < q < |s| && s[k] == ':' && s[j] == '"' && s[q] == '"'
    requires forall x :: k + 1 <= x < j ==> IsSpace(s[x])
    ensures Filter(": \"" + s[j + 1..q] + "\"", NotSpace) == Filter(s[k..q + 1], NotSpace)
  {
    var mid := s[j + 1..q];
    var w := s[k + 1..j];
    assert s[k..q + 1] == [':'] + w + ['"'] + mid + ['"'];
    assert ": \"" + mid + "\"" == [':'] + [' '] + ['"'] + mid + ['"'];
    NoKeptSpace(w);
    NoKeptSpace([' ']);
    FilterAppend([':'] + w + ['"'] + mid, ['"'], NotSpace);
    FilterAppend([':'] + w + ['"'], mid, NotSpace);
    FilterAppend([':'] + w, ['"'], NotSpace);
    FilterAppend([':'], w, NotSpace);
    FilterAppend([':'] + [' '] + ['"'] + mid, ['"'], NotSpace);
    FilterAppend([':'] + [' '] + ['"'], mid, NotSpace);
    FilterAppend([':'] + [' '], ['"'], NotSpace);
    FilterAppend([':'], [' '], NotSpace);
  }

  /** Line 238 is a no-op on the single-spaced text line 220 produces:
      there is no newline left to replace. */
  lemma RetryTextNoNewline(s: string)
    requires SingleSpaced(s)
    ensures RetryText(s) == RetryRewrite(s)
  {
    RetryAdvances(s);
    assert '\n' !in s;
    forall k | 0 <= k < |s| && RetryAt(s, k).Some?
      ensures '\n' !in RetryAt(s, k).value.replacement
    {
      RetryReplacementKeepsOut(s, k, '\n');
    }
    SubKeepsOut(s, 0, RetryAt, '\n');
    ContainsChar(RetryRewrite(s), '\n');
    ReplaceAbsent(RetryRewrite(s), "\n", " ");
  }
}
