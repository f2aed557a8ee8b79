/** `_validate_keywords`: for each of nine architecture categories, the
    keywords the diagram does not mention, compared without regard to case. */
module Keywords {
  import opened PyStr

  datatype Category = Category(name: string, keywords: seq<string>)

  /** The fixed table of required components, in declared order. */
  const Required: seq<Category> := [
    Category("Frontend", ["Client", "UI", "Frontend", "Web", "Mobile"]),
    Category("Network", ["CDN", "Load Balancer", "API Gateway", "WAF"]),
    Category("Security", ["Auth", "OAuth", "JWT", "WAF", "DDoS"]),
    Category("Application", ["Service", "Microservice", "API", "Business Logic"]),
    Category("Data", ["Database", "Cache", "Storage", "Redis"]),
    Category("Messaging", ["Queue", "Message", "Event", "Stream"]),
    Category("Processing", ["Worker", "Processor", "Handler", "Service"]),
    Category("Monitoring", ["Monitor", "Log", "Trace", "Alert"]),
    Category("DevOps", ["Deploy", "CI/CD", "Container", "Pipeline"])
  ]

  /** `k.lower() in diagram.lower()` */
  predicate Mentions(d: string, k: string) {
    Contains(Lower(d), Lower(k))
  }

  /** `r` is `ks` with some elements left out, the rest in their order. */
  predicate IsSubsequence(r: seq<string>, ks: seq<string>)
    decreases |ks|
  {
    if r == [] then true
    else if ks == [] then false
    else (r[0] == ks[0] && IsSubsequence(r[1..], ks[1..])) || IsSubsequence(r, ks[1..])
  }

  /** `[k for k in keywords if k.lower() not in diagram.lower()]` */
  function Missing(d: string, keywords: seq<string>): (r: seq<string>)
    ensures IsSubsequence(r, keywords)
    ensures forall k :: k in r <==> k in keywords && !Mentions(d, k)
    ensures r == [] <==> forall k :: k in keywords ==> Mentions(d, k)
    decreases |keywords|
  {
    if keywords == [] then []
    else
      var rest := Missing(d, keywords[1..]);
      assert forall k :: k in keywords <==> k == keywords[0] || k in keywords[1..];
      if Mentions(d, keywords[0]) then rest
      else
        assert ([keywords[0]] + rest)[1..] == rest;
        [keywords[0]] + rest
  }

  predicate DistinctNames(cats: seq<Category>) {
    forall i, j :: 0 <= i < j < |cats| ==> cats[i].name != cats[j].name
  }

  /** The dictionary comprehension over a table of categories. */
  function ValidateFrom(d: string, cats: seq<Category>): (r: map<string, seq<string>>)
    ensures forall n :: n in r ==> r[n] != []
    decreases |cats|
  {
    if cats == [] then map[]
    else
      var rest := ValidateFrom(d, cats[1..]);
      var m := Missing(d, cats[0].keywords);
      if m == [] then rest else rest[cats[0].name := m]
  }

  /** Only the table's own names are reported. */
  lemma {:induction false} ValidateFromNames(d: string, cats: seq<Category>, n: string)
    requires n in ValidateFrom(d, cats)
    ensures exists i :: 0 <= i < |cats| && cats[i].name == n
    decreases |cats|
  {
    if n != cats[0].name {
      ValidateFromNames(d, cats[1..], n);
      var i :| 0 <= i < |cats[1..]| && cats[1..][i].name == n;
      assert cats[i + 1].name == n;
    }
  }

  /** A name the table does not hold is not reported. */
  lemma {:induction false} ValidateFromAbsent(d: string, cats: seq<Category>, n: string)
    requires forall j :: 0 <= j < |cats| ==> cats[j].name != n
    ensures n !in ValidateFrom(d, cats)
    decreases |cats|
  {
    if cats != [] {
      assert forall j :: 0 <= j < |cats[1..]| ==> cats[1..][j] == cats[j + 1];
      ValidateFromAbsent(d, cats[1..], n);
    }
  }

  /** With distinct names, a category is reported exactly when it has a
      missing keyword, and then with all of them. */
  lemma {:induction false} ValidateFromEntry(d: string, cats: seq<Category>, i: nat)
    requires DistinctNames(cats) && i < |cats|
    ensures cats[i].name in ValidateFrom(d, cats) <==> Missing(d, cats[i].keywords) != []
    ensures cats[i].name in ValidateFrom(d, cats) ==>
      ValidateFrom(d, cats)[cats[i].name] == Missing(d, cats[i].keywords)
    decreases |cats|
  {
    var tail := cats[1..];
    assert DistinctNames(tail) by {
      forall a, b | 0 <= a < b < |tail| ensures tail[a].name != tail[b].name {
        assert tail[a] == cats[a + 1] && tail[b] == cats[b + 1];
      }
    }
    if i == 0 {
      assert forall j :: 0 <= j < |tail| ==> tail[j] == cats[j + 1];
      ValidateFromAbsent(d, tail, cats[0].name);
    } else {
      assert cats[i] == tail[i - 1];
      ValidateFromEntry(d, tail, i - 1);
    }
  }

  /** Lines 288-301: every category with at least one keyword the diagram
      does not mention, mapped to those keywords in declared order. */
  function ValidateKeywords(d: string): (r: map<string, seq<string>>)
    ensures forall i :: 0 <= i < |Required| ==>
      (Required[i].name in r <==> exists k :: k in Required[i].keywords && !Mentions(d, k))
    ensures forall i :: 0 <= i < |Required| && Required[i].name in r ==>
      r[Required[i].name] == Missing(d, Required[i].keywords)
    ensures forall n :: n in r ==> r[n] != [] && exists i :: 0 <= i < |Required| && Required[i].name == n
  {
    var r := ValidateFrom(d, Required);
    RequiredDistinct();
    forall i | 0 <= i < |Required|
      ensures Required[i].name in r <==> Missing(d, Required[i].keywords) != []
      ensures Required[i].name in r ==> r[Required[i].name] == Missing(d, Required[i].keywords)
    {
      ValidateFromEntry(d, Required, i);
    }
    forall n | n in r
      ensures exists i :: 0 <= i < |Required| && Required[i].name == n
    {
      ValidateFromNames(d, Required, n);
    }
    r
  }

  /** No two categories of the table share a name: the first two letters
      already tell them apart. */
  lemma RequiredDistinct()
    ensures DistinctNames(Required)
  {
    var keys := ["Fr", "Ne", "Se", "Ap", "Da", "Me", "Pr", "Mo", "De"];
    forall i | 0 <= i < |Required|
      ensures |Required[i].name| >= 2 && Required[i].name[..2] == keys[i]
    {
    }
  }

  /** A diagram mentioning every keyword yields an empty report. */
  lemma ValidateAllPresent(d: string)
    requires forall i, k :: 0 <= i < |Required| && k in Required[i].keywords ==> Mentions(d, k)
    ensures ValidateKeywords(d) == map[]
  {
    var r := ValidateKeywords(d);
    forall i | 0 <= i < |Required|
      ensures Required[i].name !in r
    {
      assert Missing(d, Required[i].keywords) == [];
    }
    assert forall n :: n !in r;
  }

  /** An empty diagram has every category reported with all its keywords. */
  lemma ValidateEmpty()
    ensures forall i :: 0 <= i < |Required| ==>
      Required[i].name in ValidateKeywords("") &&
      ValidateKeywords("")[Required[i].name] == Required[i].keywords
  {
    forall i | 0 <= i < |Required|
      ensures Required[i].name in ValidateKeywords("")
      ensures ValidateKeywords("")[Required[i].name] == Required[i].keywords
    {
      var ks := Required[i].keywords;
      RequiredKeywordsNonEmpty(i);
      EmptyMentionsNone(ks);
      NoneMentioned("", ks);
      assert ks[0] in ks && !Mentions("", ks[0]);
    }
  }

  /** Every keyword of the table has at least one character. */
  lemma RequiredKeywordsNonEmpty(i: nat)
    requires i < |Required|
    ensures Required[i].keywords != []
    ensures forall k :: k in Required[i].keywords ==> k != []
  {
    forall j | 0 <= j < |Required[i].keywords|
      ensures |Required[i].keywords[j]| > 0
    {
    }
  }

  /** The empty diagram mentions no keyword that has a character. */
  lemma EmptyMentionsNone(ks: seq<string>)
    requires forall k :: k in ks ==> k != []
    ensures forall k :: k in ks ==> !Mentions("", k)
  {
    forall k | k in ks
      ensures !Mentions("", k)
    {
      assert |Lower(k)| > 0;
    }
  }

  lemma {:induction false} NoneMentioned(d: string, ks: seq<string>)
    requires forall k :: k in ks ==> !Mentions(d, k)
    ensures Missing(d, ks) == ks
    decreases |ks|
  {
    if ks != [] {
      assert forall k :: k in ks[1..] ==> k in ks;
      NoneMentioned(d, ks[1..]);
      assert !Mentions(d, ks[0]);
      assert ks == [ks[0]] + ks[1..];
    }
  }

  /** The comparison ignores case: lower-casing the diagram first changes
      nothing. */
  lemma ValidateIgnoresCase(d: string)
    ensures ValidateKeywords(Lower(d)) == ValidateKeywords(d)
  {
    LowerIdempotent(d);
    assert forall k :: Mentions(Lower(d), k) == Mentions(d, k);
    SameMentions(Lower(d), d, Required);
  }

  lemma {:induction false} SameMentions(d: string, e: string, cats: seq<Category>)
    requires DistinctNames(cats)
    requires forall k :: Mentions(d, k) == Mentions(e, k)
    ensures ValidateFrom(d, cats) == ValidateFrom(e, cats)
    decreases |cats|
  {
    if cats != [] {
      SameMentions(d, e, cats[1..]);
      SameMissing(d, e, cats[0].keywords);
    }
  }

  lemma {:induction false} SameMissing(d: string, e: string, ks: seq<string>)
    requires forall k :: Mentions(d, k) == Mentions(e, k)
    ensures Missing(d, ks) == Missing(e, ks)
    decreases |ks|
  {
    if ks != [] {
      SameMissing(d, e, ks[1..]);
    }
  }
}
