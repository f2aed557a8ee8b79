module Wrappers {
  datatype Option<T> = None | Some(value: T)
}

/** `re.sub(pattern, repl, s)` for patterns that never match the empty
    string. A pattern is given by its matcher: at each index the matcher
    says whether the regular-expression engine's first match starts there,
    what it is replaced by and where it ends. The scan is Python's: the
    leftmost match wins, matches do not overlap, and the search resumes
    where the last match ended. */
module Regex {
  import opened Wrappers

  datatype Match = Match(replacement: string, end: nat)

  type Matcher = (string, nat) -> Option<Match>

  /** Every match of `m` in `s` is non-empty and stays inside `s`. */
  ghost predicate Advances(m: Matcher, s: string) {
    forall k :: 0 <= k < |s| && m(s, k).Some? ==> k < m(s, k).value.end <= |s|
  }

  function SubFrom(s: string, i: nat, m: Matcher): string
    requires i <= |s| && Advances(m, s)
    decreases |s| - i
  {
    if i == |s| then []
    else match m(s, i)
      case Some(mt) => mt.replacement + SubFrom(s, mt.end, m)
      case None => [s[i]] + SubFrom(s, i + 1, m)
  }

  function Sub(s: string, m: Matcher): string
    requires Advances(m, s)
  {
    SubFrom(s, 0, m)
  }

  /** Where the pattern does not match, the text is copied unchanged. */
  lemma {:induction false} SubCopies(s: string, i: nat, j: nat, m: Matcher)
    requires i <= j <= |s| && Advances(m, s)
    requires forall k :: i <= k < j ==> m(s, k).None?
    ensures SubFrom(s, i, m) == s[i..j] + SubFrom(s, j, m)
    decreases j - i
  {
    if i < j {
      SubCopies(s, i + 1, j, m);
      assert m(s, i).None?;
      assert SubFrom(s, i, m) == [s[i]] + SubFrom(s, i + 1, m);
      assert s[i..j] == [s[i]] + s[i + 1..j];
      assert [s[i]] + (s[i + 1..j] + SubFrom(s, j, m)) == ([s[i]] + s[i + 1..j]) + SubFrom(s, j, m);
    }
  }

  /** The first match the scan reaches is replaced, and the scan resumes
      at its end. */
  lemma SubFirstMatch(s: string, i: nat, m: Matcher, rep: string, e: nat)
    requires i < |s| && Advances(m, s) && m(s, i) == Some(Match(rep, e))
    requires forall k :: 0 <= k < i ==> m(s, k).None?
    ensures e <= |s| && Sub(s, m) == s[..i] + rep + SubFrom(s, e, m)
  {
    SubCopies(s, 0, i, m);
    assert s[0..i] == s[..i];
    var rest := SubFrom(s, e, m);
    assert SubFrom(s, i, m) == rep + rest;
    assert s[..i] + (rep + rest) == s[..i] + rep + rest;
  }

  /** A text in which the pattern never matches is left unchanged. */
  lemma SubNoMatch(s: string, m: Matcher)
    requires Advances(m, s)
    requires forall k :: 0 <= k < |s| ==> m(s, k).None?
    ensures Sub(s, m) == s
  {
    SubCopies(s, 0, |s|, m);
  }

  /** A character absent from the text and from every replacement is absent
      from the result. */
  lemma {:induction false} SubKeepsOut(s: string, i: nat, m: Matcher, c: char)
    requires i <= |s| && Advances(m, s)
    requires c !in s[i..]
    requires forall k :: i <= k < |s| && m(s, k).Some? ==> c !in m(s, k).value.replacement
    ensures c !in SubFrom(s, i, m)
    decreases |s| - i
  {
    if i < |s| {
      match m(s, i)
      case Some(mt) =>
        assert s[mt.end..] == s[i..][mt.end - i..];
        SubKeepsOut(s, mt.end, m, c);
      case None =>
        assert s[i + 1..] == s[i..][1..];
        SubKeepsOut(s, i + 1, m, c);
    }
  }

  /** The characters of `s` that `keep` accepts, in order. */
  function Filter(s: string, keep: char -> bool): (r: string)
    ensures |r| <= |s|
    decreases |s|
  {
    if s == [] then []
    else if keep(s[0]) then [s[0]] + Filter(s[1..], keep)
    else Filter(s[1..], keep)
  }

  lemma {:induction false} FilterAppend(a: string, b: string, keep: char -> bool)
    ensures Filter(a + b, keep) == Filter(a, keep) + Filter(b, keep)
    decreases |a|
  {
    if a == [] {
      assert a + b == b;
    } else {
      assert (a + b)[1..] == a[1..] + b;
      FilterAppend(a[1..], b, keep);
    }
  }

  /** If every replacement keeps exactly the accepted characters of the text
      it replaces, so does the whole substitution. */
  lemma {:induction false} SubFilter(s: string, i: nat, m: Matcher, keep: char -> bool)
    requires i <= |s| && Advances(m, s)
    requires forall k :: i <= k < |s| && m(s, k).Some? ==>
      Filter(m(s, k).value.replacement, keep) == Filter(s[k..m(s, k).value.end], keep)
    ensures Filter(SubFrom(s, i, m), keep) == Filter(s[i..], keep)
    decreases |s| - i
  {
    if i == |s| {
    } else {
      match m(s, i)
      case Some(mt) =>
        SubFilter(s, mt.end, m, keep);
        FilterAppend(mt.replacement, SubFrom(s, mt.end, m), keep);
        assert s[i..] == s[i..mt.end] + s[mt.end..];
        FilterAppend(s[i..mt.end], s[mt.end..], keep);
      case None =>
        SubFilter(s, i + 1, m, keep);
        FilterAppend([s[i]], SubFrom(s, i + 1, m), keep);
        assert s[i..] == [s[i]] + s[i + 1..];
        FilterAppend([s[i]], s[i + 1..], keep);
    }
  }
}
