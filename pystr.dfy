/** The Python `str` operations the response normaliser relies on, over
    `seq<char>`: whitespace classification, `in`, `startswith`, `find`,
    `rfind`, `replace`, `strip`, `split('\n')`, `'\n'.join` and `lower`. */
module PyStr {

  /** `c.isspace()`: the characters CPython treats as whitespace. The same
      class is `\s` in a `str` regular expression and the default set of
      `str.strip()`. */
  predicate IsSpace(c: char) {
    var n := c as int;
    (0x09 <= n <= 0x0D) || (0x1C <= n <= 0x20) || n == 0x85 || n == 0xA0 ||
    n == 0x1680 || (0x2000 <= n <= 0x200A) || n == 0x2028 || n == 0x2029 ||
    n == 0x202F || n == 0x205F || n == 0x3000
  }

  predicate AllSpace(s: string) {
    forall k :: 0 <= k < |s| ==> IsSpace(s[k])
  }

  /** `s.startswith(p)` */
  predicate StartsWith(s: string, p: string) {
    |p| <= |s| && s[..|p|] == p
  }

  /** `p` occurs in `s` at index `i` */
  predicate OccursAt(s: string, p: string, i: nat) {
    i <= |s| && StartsWith(s[i..], p)
  }

  lemma OccursAtIndex(s: string, p: string, i: nat)
    requires OccursAt(s, p, i)
    ensures i + |p| <= |s| && s[i..i + |p|] == p
    ensures forall k :: 0 <= k < |p| ==> s[i + k] == p[k]
  {
    assert s[i..][..|p|] == s[i..i + |p|];
  }

  lemma IndexOccursAt(s: string, p: string, i: nat)
    requires i + |p| <= |s| && s[i..i + |p|] == p
    ensures OccursAt(s, p, i)
  {
    assert s[i..][..|p|] == s[i..i + |p|];
  }

  /** `p in s` */
  predicate Contains(s: string, p: string)
    decreases |s|
  {
    StartsWith(s, p) || (|s| > 0 && Contains(s[1..], p))
  }

  lemma {:induction false} OccursAtContains(s: string, p: string, i: nat)
    requires OccursAt(s, p, i)
    ensures Contains(s, p)
    decreases i
  {
    if i > 0 {
      assert s[1..][i - 1..] == s[i..];
      OccursAtContains(s[1..], p, i - 1);
    }
  }

  lemma {:induction false} ContainsOccurs(s: string, p: string) returns (i: nat)
    requires Contains(s, p)
    ensures OccursAt(s, p, i)
    decreases |s|
  {
    if StartsWith(s, p) {
      i := 0;
    } else {
      var j := ContainsOccurs(s[1..], p);
      assert s[1..][j..] == s[j + 1..];
      i := j + 1;
    }
  }

  /** A text containing `t` contains everything `t` contains. */
  lemma ContainsTrans(s: string, t: string, p: string)
    requires Contains(s, t) && Contains(t, p)
    ensures Contains(s, p)
  {
    var i := ContainsOccurs(s, t);
    var j := ContainsOccurs(t, p);
    OccursAtIndex(s, t, i);
    OccursAtIndex(t, p, j);
    assert s[i + j..i + j + |p|] == t[j..j + |p|];
    IndexOccursAt(s, p, i + j);
    OccursAtContains(s, p, i + j);
  }

  /** A text lacking one of the characters of `p` does not contain `p`. */
  lemma {:induction false} CharAbsent(s: string, p: string, k: nat)
    requires k < |p| && p[k] !in s
    ensures !Contains(s, p)
    decreases |s|
  {
    if |p| <= |s| {
      assert s[..|p|][k] == s[k];
    }
    if s != [] {
      assert forall c :: c in s[1..] ==> c in s;
      CharAbsent(s[1..], p, k);
    }
  }

  /** `[c] in s` is `c in s` */
  lemma {:induction false} ContainsChar(s: string, c: char)
    ensures Contains(s, [c]) <==> c in s
    decreases |s|
  {
    if s != [] {
      ContainsChar(s[1..], c);
      assert s == [s[0]] + s[1..];
    }
  }

  /** `s.find(c, start)`: the first index at or after `start` holding `c`, or -1 */
  function FindFrom(s: string, c: char, start: nat): (r: int)
    ensures r == -1 || start <= r < |s|
    ensures r == -1 <==> forall k :: start <= k < |s| ==> s[k] != c
    ensures r >= 0 ==> s[r] == c && forall k :: start <= k < r ==> s[k] != c
    decreases |s| - start
  {
    if start >= |s| then -1
    else if s[start] == c then start
    else FindFrom(s, c, start + 1)
  }

  /** `s.find(c)` */
  function Find(s: string, c: char): (r: int)
    ensures r == -1 <==> c !in s
    ensures r >= 0 ==> r < |s| && s[r] == c && c !in s[..r]
  {
    FindFrom(s, c, 0)
  }

  /** `s.rfind(c)`: the last index holding `c`, or -1 */
  function RFind(s: string, c: char): (r: int)
    ensures r == -1 <==> c !in s
    ensures r >= 0 ==> r < |s| && s[r] == c && c !in s[r + 1..]
    decreases |s|
  {
    if s == [] then -1
    else if s[|s| - 1] == c then |s| - 1
    else
      var r := RFind(s[..|s| - 1], c);
      assert s[..|s| - 1] + [s[|s| - 1]] == s;
      assert r >= 0 ==> s[r + 1..] == s[..|s| - 1][r + 1..] + [s[|s| - 1]];
      r
  }

  /** `s.replace(pat, rep)` for a non-empty `pat`: occurrences are replaced
      left to right, without overlap. */
  function Replace(s: string, pat: string, rep: string): string
    requires pat != []
    decreases |s|
  {
    if s == [] then []
    else if StartsWith(s, pat) then rep + Replace(s[|pat|..], pat, rep)
    else [s[0]] + Replace(s[1..], pat, rep)
  }

  /** Nothing to replace, nothing changes. */
  lemma {:induction false} ReplaceAbsent(s: string, pat: string, rep: string)
    requires pat != [] && !Contains(s, pat)
    ensures Replace(s, pat, rep) == s
    decreases |s|
  {
    if s != [] {
      ReplaceAbsent(s[1..], pat, rep);
    }
  }

  /** A prefix holding no first character of `pat` is copied as it is. */
  lemma {:induction false} ReplaceCopiesPrefix(p: string, z: string, pat: string, rep: string)
    requires pat != [] && pat[0] !in p
    ensures Replace(p + z, pat, rep) == p + Replace(z, pat, rep)
    decreases |p|
  {
    if p != [] {
      var s := p + z;
      assert s[0] == p[0] != pat[0];
      assert !StartsWith(s, pat);
      assert s[1..] == p[1..] + z;
      ReplaceCopiesPrefix(p[1..], z, pat, rep);
      calc {
        Replace(s, pat, rep);
        [s[0]] + Replace(s[1..], pat, rep);
        [p[0]] + (p[1..] + Replace(z, pat, rep));
        { assert [p[0]] + p[1..] == p; }
        p + Replace(z, pat, rep);
      }
    } else {
      assert p + z == z;
    }
  }

  /** Where `pat` occurs, `rep` appears in the result. */
  lemma {:induction false} ReplaceIntroduces(s: string, pat: string, rep: string)
    requires pat != [] && Contains(s, pat)
    ensures Contains(Replace(s, pat, rep), rep)
    decreases |s|
  {
    if StartsWith(s, pat) {
      OccursAtContains(rep + Replace(s[|pat|..], pat, rep), rep, 0);
    } else {
      ReplaceIntroduces(s[1..], pat, rep);
      var r := Replace(s[1..], pat, rep);
      var i := ContainsOccurs(r, rep);
      assert ([s[0]] + r)[i + 1..] == r[i..];
      OccursAtContains([s[0]] + r, rep, i + 1);
    }
  }

  /** A character that is in neither the text nor the replacement is not in
      the result. */
  lemma {:induction false} ReplaceKeepsOut(s: string, pat: string, rep: string, c: char)
    requires pat != [] && c !in s && c !in rep
    ensures c !in Replace(s, pat, rep)
    decreases |s|
  {
    if s != [] {
      if StartsWith(s, pat) {
        ReplaceKeepsOut(s[|pat|..], pat, rep, c);
      } else {
        ReplaceKeepsOut(s[1..], pat, rep, c);
      }
    }
  }

  /** `s.lstrip(chars)`, with the character set given as a predicate */
  function LStripBy(s: string, drop: char -> bool): (r: string)
    ensures |r| <= |s| && r == s[|s| - |r|..]
    ensures forall k :: 0 <= k < |s| - |r| ==> drop(s[k])
    ensures r != [] ==> !drop(r[0])
    decreases |s|
  {
    if s != [] && drop(s[0]) then LStripBy(s[1..], drop) else s
  }

  /** `s.rstrip(chars)`, with the character set given as a predicate */
  function RStripBy(s: string, drop: char -> bool): (r: string)
    ensures |r| <= |s| && r == s[..|r|]
    ensures forall k :: |r| <= k < |s| ==> drop(s[k])
    ensures r != [] ==> !drop(r[|r| - 1])
    decreases |s|
  {
    if s != [] && drop(s[|s| - 1]) then RStripBy(s[..|s| - 1], drop) else s
  }

  /** `s.strip(chars)` */
  function StripBy(s: string, drop: char -> bool): string {
    RStripBy(LStripBy(s, drop), drop)
  }

  /** `s.strip()` */
  function Strip(s: string): string {
    StripBy(s, IsSpace)
  }

  function LStrip(s: string): string {
    LStripBy(s, IsSpace)
  }

  /** Stripping removes exactly a leading and a trailing run of dropped
      characters, and what it keeps starts and ends with a kept one. */
  lemma StripByShape(s: string, drop: char -> bool)
    ensures |s| - |LStripBy(s, drop)| + |StripBy(s, drop)| <= |s|
    ensures StripBy(s, drop) == s[|s| - |LStripBy(s, drop)|..][..|StripBy(s, drop)|]
    ensures forall k :: 0 <= k < |s| - |LStripBy(s, drop)| ==> drop(s[k])
    ensures forall k :: |s| - |LStripBy(s, drop)| + |StripBy(s, drop)| <= k < |s| ==> drop(s[k])
    ensures StripBy(s, drop) != [] ==> !drop(StripBy(s, drop)[0]) && !drop(StripBy(s, drop)[|StripBy(s, drop)| - 1])
  {
    var l := LStripBy(s, drop);
    var r := RStripBy(l, drop);
    var i := |s| - |l|;
    assert l == s[i..];
    assert r == l[..|r|];
    assert StripBy(s, drop) == r;
    forall k | i + |r| <= k < |s| ensures drop(s[k]) {
      assert s[k] == l[k - i];
    }
  }

  /** A rightward strip loses nothing of a leading word that ends in a kept
      character. */
  lemma RStripKeepsPrefix(s: string, p: string, drop: char -> bool)
    requires p != [] && !drop(p[|p| - 1]) && StartsWith(s, p)
    ensures StartsWith(RStripBy(s, drop), p)
  {
    var r := RStripBy(s, drop);
    assert |r| >= |p| by {
      assert !drop(s[|p| - 1]);
    }
    assert r[..|p|] == s[..|p|];
  }

  /** For a word that ends in a non-space, `s.strip().startswith(p)` is the
      same as `s.lstrip().startswith(p)`. */
  lemma StripStartsWith(s: string, p: string)
    requires p != [] && !IsSpace(p[|p| - 1])
    ensures StartsWith(Strip(s), p) <==> StartsWith(LStrip(s), p)
  {
    var l := LStrip(s);
    var r := RStripBy(l, IsSpace);
    if StartsWith(l, p) {
      RStripKeepsPrefix(l, p, IsSpace);
    }
    if StartsWith(r, p) {
      assert l[..|p|] == r[..|p|];
    }
  }

  /** A run of dropped characters in front of a text is what a leftward
      strip removes. */
  lemma {:induction false} LStripByPrefix(w: string, z: string, drop: char -> bool)
    requires forall k :: 0 <= k < |w| ==> drop(w[k])
    ensures LStripBy(w + z, drop) == LStripBy(z, drop)
    decreases |w|
  {
    if w == [] {
      assert w + z == z;
    } else {
      assert (w + z)[1..] == w[1..] + z;
      LStripByPrefix(w[1..], z, drop);
    }
  }

  lemma LStripSpacePrefix(w: string, z: string)
    requires AllSpace(w)
    ensures LStrip(w + z) == LStrip(z)
  {
    LStripByPrefix(w, z, IsSpace);
  }

  lemma LStripNonSpace(s: string)
    requires s != [] && !IsSpace(s[0])
    ensures LStrip(s) == s
  {
  }

  /** Whitespace followed by a word that neither starts nor ends with
      whitespace strips to a text starting with that word. */
  lemma StripSpaceThenWord(w: string, z: string, p: string)
    requires AllSpace(w) && p != [] && !IsSpace(p[0]) && !IsSpace(p[|p| - 1])
    requires StartsWith(z, p)
    ensures StartsWith(Strip(w + z), p)
  {
    LStripSpacePrefix(w, z);
    assert z[0] == p[0];
    LStripNonSpace(z);
    StripStartsWith(w + z, p);
  }

  /** `lstrip` removes characters, so a text led by whitespace then `p`
      (with no whitespace in `p`) has an `lstrip` that starts with `p`, and
      conversely. */
  lemma LStripStartsWith(s: string, p: string)
    requires p != [] && !IsSpace(p[0])
    ensures StartsWith(LStrip(s), p) <==>
      exists n :: 0 <= n <= |s| && AllSpace(s[..n]) && StartsWith(s[n..], p)
  {
    var l := LStrip(s);
    var n := |s| - |l|;
    assert l == s[n..];
    assert AllSpace(s[..n]);
    if exists m :: 0 <= m <= |s| && AllSpace(s[..m]) && StartsWith(s[m..], p) {
      var m :| 0 <= m <= |s| && AllSpace(s[..m]) && StartsWith(s[m..], p);
      if m > n {
        assert s[..m][n] == s[n];
        assert l[0] == s[n];
      }
    }
  }

  /** `s.strip()` leaves nothing for a second `strip()` to remove. */
  lemma StripIdempotent(s: string)
    ensures Strip(Strip(s)) == Strip(s)
  {
    var r := Strip(s);
    if r != [] {
      StripByShape(s, IsSpace);
      assert LStripBy(r, IsSpace) == r;
      assert RStripBy(r, IsSpace) == r;
    }
  }

  lemma StripSubstring(s: string, c: char)
    requires c !in s
    ensures c !in Strip(s)
  {
    StripByShape(s, IsSpace);
  }

  /** `s.split('\n')`: never empty; the pieces hold no newline. */
  function SplitLines(s: string): (r: seq<string>)
    ensures |r| >= 1
    ensures forall k :: 0 <= k < |r| ==> '\n' !in r[k]
    decreases |s|
  {
    var i := Find(s, '\n');
    if i == -1 then [s] else [s[..i]] + SplitLines(s[i + 1..])
  }

  /** `'\n'.join(lines)` */
  function JoinLines(lines: seq<string>): string
    decreases |lines|
  {
    if lines == [] then []
    else if |lines| == 1 then lines[0]
    else lines[0] + "\n" + JoinLines(lines[1..])
  }

  lemma JoinLinesCons(a: string, rest: seq<string>)
    requires |rest| >= 1
    ensures JoinLines([a] + rest) == a + "\n" + JoinLines(rest)
  {
    assert ([a] + rest)[1..] == rest;
  }

  /** Joining the pieces of a split gives the text back. */
  lemma {:induction false} JoinSplit(s: string)
    ensures JoinLines(SplitLines(s)) == s
    decreases |s|
  {
    var i := Find(s, '\n');
    if i != -1 {
      var rest := SplitLines(s[i + 1..]);
      assert SplitLines(s) == [s[..i]] + rest;
      JoinSplit(s[i + 1..]);
      JoinLinesCons(s[..i], rest);
      JoinAround(s, i);
    }
  }

  lemma JoinAround(s: string, i: nat)
    requires i < |s| && s[i] == '\n'
    ensures s[..i] + "\n" + s[i + 1..] == s
  {
    assert s[i..] == "\n" + s[i + 1..];
    assert s == s[..i] + s[i..];
  }

  /** Splitting a join of newline-free lines gives the lines back. */
  lemma {:induction false} SplitJoin(lines: seq<string>)
    requires |lines| >= 1
    requires forall k :: 0 <= k < |lines| ==> '\n' !in lines[k]
    ensures SplitLines(JoinLines(lines)) == lines
    decreases |lines|
  {
    if |lines| > 1 {
      var a := lines[0];
      var s := JoinLines(lines);
      assert s == a + "\n" + JoinLines(lines[1..]);
      assert s[..|a|] == a;
      assert Find(s, '\n') == |a| by {
        assert s[|a|] == '\n';
        assert '\n' !in s[..|a|];
      }
      assert s[|a| + 1..] == JoinLines(lines[1..]);
      SplitJoin(lines[1..]);
    }
  }

  /** `c.lower()` over ASCII */
  function LowerChar(c: char): char {
    if 'A' <= c <= 'Z' then (c as int + 32) as char else c
  }

  /** `s.lower()` over ASCII */
  function Lower(s: string): (r: string)
    ensures |r| == |s|
    ensures forall k :: 0 <= k < |s| ==> r[k] == LowerChar(s[k])
  {
    seq(|s|, k requires 0 <= k < |s| => LowerChar(s[k]))
  }

  /** Lower-casing twice is lower-casing once. */
  lemma LowerIdempotent(s: string)
    ensures Lower(Lower(s)) == Lower(s)
  {
  }
}
