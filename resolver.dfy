/** Encyclopedia page resolution for one brand: aliases first, then the raw
    brand, disambiguation options ranked and the top three tried, then the
    top five search hits; the first page that loads wins. */
module PageResolver {
  import opened Text
  import opened Records

  /* ---------------------------------------------------------------------
     The lookup service, as an oracle
     --------------------------------------------------------------------- */

  /** What fetching a page by exact title can do. */
  datatype Fetch = Ok(title: string) | Ambiguous(options: seq<string>) | NotFound | OtherError

  /** What a free-text search can do. */
  datatype Search = Hits(hits: seq<string>) | SearchFailed

  /** The service: exact-title fetch (no auto-suggest) and free-text search. */
  datatype Wiki = Wiki(page: string -> Fetch, search: string -> Search)

  /** The resolver's answer: (HasWiki flag, chosen title). */
  datatype Resolution = Resolution(flag: nat, title: Option<string>)

  /* ---------------------------------------------------------------------
     Candidate titles
     --------------------------------------------------------------------- */

  /** Configured alias titles per canonical brand name. */
  const WikiAliases: map<string, seq<string>> := map[
    "HP" := ["HP Inc.", "Hewlett-Packard"],
    "Apple" := ["Apple Inc."],
    "Dell" := ["Dell (company)", "Dell Inc."],
    "Lenovo" := ["Lenovo"],
    "Asus" := ["Asus"],
    "Jabra" := ["Jabra", "Jabra (company)"],
    "Samsung" := ["Samsung Electronics", "Samsung"]
  ]

  /** The alias lookup with its default: the brand alone. */
  function AliasesOrBrand(brand: string): seq<string>
  {
    if brand in WikiAliases then WikiAliases[brand] else [brand]
  }

  predicate NoDuplicates<T(==)>(s: seq<T>)
  {
    forall i, j :: 0 <= i < j < |s| ==> s[i] != s[j]
  }

  /** `list(dict.fromkeys(s))`: drop every repeat, keep first occurrences. */
  function Dedup(s: seq<string>): (r: seq<string>)
    ensures forall x :: x in r <==> x in s
    ensures NoDuplicates(r)
  {
    if s == [] then []
    else
      var r := Dedup(s[..|s| - 1]);
      if s[|s| - 1] in r then r else r + [s[|s| - 1]]
  }

  /** Position of the first occurrence of `x` in `s`. */
  function FirstIndex<T(==)>(s: seq<T>, x: T): (k: nat)
    requires x in s
    ensures k < |s| && s[k] == x && x !in s[..k]
  {
    if s[0] == x then 0 else 1 + FirstIndex(s[1..], x)
  }

  lemma FirstIndexPrefix<T>(s: seq<T>, n: nat, x: T)
    requires n <= |s| && x in s[..n]
    ensures FirstIndex(s, x) == FirstIndex(s[..n], x)
  {
    var k, k' := FirstIndex(s, x), FirstIndex(s[..n], x);
    assert s[..n][..k'] == s[..k'] && s[k'] == x;
    assert forall m :: 0 <= m < k ==> s[..k][m] == s[m];
    assert forall m :: 0 <= m < k' ==> s[..k'][m] == s[m];
  }

  /** The deduplicated list lists its elements in the order of their first
      occurrence in the input. */
  lemma {:induction false} DedupKeepsFirstOrder(s: seq<string>)
    ensures forall i, j :: 0 <= i < j < |Dedup(s)| ==>
      FirstIndex(s, Dedup(s)[i]) < FirstIndex(s, Dedup(s)[j])
  {
    if s != [] {
      var n := |s| - 1;
      var p := s[..n];
      var r := Dedup(p);
      DedupKeepsFirstOrder(p);
      forall x | x in r ensures FirstIndex(s, x) == FirstIndex(p, x) && FirstIndex(s, x) < n {
        FirstIndexPrefix(s, n, x);
      }
      var d := Dedup(s);
      if s[n] !in r {
        assert s[n] !in p;
        assert forall k :: 0 <= k < n ==> s[k] == p[k];
        assert FirstIndex(s, s[n]) == n;
        assert d == r + [s[n]];
      } else {
        assert d == r;
      }
      forall i, j | 0 <= i < j < |d| ensures FirstIndex(s, d[i]) < FirstIndex(s, d[j]) {
        assert d[i] == r[i] && d[i] in r;
        if j < |r| {
          assert d[j] == r[j] && d[j] in r;
        }
      }
    }
  }

  /** A list without repeats is left as it is. */
  lemma {:induction false} DedupOfDistinct(s: seq<string>)
    requires NoDuplicates(s)
    ensures Dedup(s) == s
  {
    if s != [] {
      var n := |s| - 1;
      DedupOfDistinct(s[..n]);
      assert s[n] !in s[..n];
      assert s[..n] + [s[n]] == s;
    }
  }

  /** The ordered, duplicate-free list of titles tried first. */
  function Candidates(brand: string): (cs: seq<string>)
    ensures brand in cs && NoDuplicates(cs)
    ensures brand !in AliasesOrBrand(brand) ==> |cs| > 0 && cs[|cs| - 1] == brand
  {
    var s := AliasesOrBrand(brand) + [brand];
    assert s[..|s| - 1] == AliasesOrBrand(brand);
    Dedup(s)
  }

  /** The candidates are the aliases (or the brand when it has none) and the
      brand, each exactly once; the brand is always among them. */
  lemma CandidatesContents(brand: string)
    ensures brand in Candidates(brand)
    ensures NoDuplicates(Candidates(brand))
    ensures forall t :: t in Candidates(brand) <==> t == brand || t in AliasesOrBrand(brand)
  {
    assert brand in AliasesOrBrand(brand) + [brand];
  }

  /** The titles appear in the order of their first appearance in
      "aliases, then brand"; when the aliases have no repeats and do not
      name the brand itself, that is exactly the aliases followed by the brand. */
  lemma CandidatesOrder(brand: string)
    ensures var s := AliasesOrBrand(brand) + [brand];
      forall i, j :: 0 <= i < j < |Candidates(brand)| ==>
        FirstIndex(s, Candidates(brand)[i]) < FirstIndex(s, Candidates(brand)[j])
    ensures NoDuplicates(AliasesOrBrand(brand)) && brand !in AliasesOrBrand(brand) ==>
      Candidates(brand) == AliasesOrBrand(brand) + [brand]
  {
    var s := AliasesOrBrand(brand) + [brand];
    DedupKeepsFirstOrder(s);
    if NoDuplicates(AliasesOrBrand(brand)) && brand !in AliasesOrBrand(brand) {
      DedupOfDistinct(s);
    }
  }

  /** A brand with no alias entry is tried under its own name only. */
  lemma CandidatesWithoutAlias(brand: string)
    requires brand !in WikiAliases
    ensures Candidates(brand) == [brand]
  {
    assert Dedup([brand]) == Dedup([brand][..0]) + [brand];
  }

  /** Worked example: aliases first, then the brand. */
  lemma CandidatesExampleHP()
    ensures Candidates("HP") == ["HP Inc.", "Hewlett-Packard", "HP"]
  {
    var a := ["HP Inc.", "Hewlett-Packard"];
    assert AliasesOrBrand("HP") == a;
    assert "HP" !in a && NoDuplicates(a);
    CandidatesOrder("HP");
  }

  /** Worked example: a brand that is also its own first alias keeps that place. */
  lemma CandidatesExampleJabra()
    ensures Candidates("Jabra") == ["Jabra", "Jabra (company)"]
  {
    var j := ["Jabra", "Jabra (company)", "Jabra"];
    assert AliasesOrBrand("Jabra") + ["Jabra"] == j;
    assert j[..2] == ["Jabra", "Jabra (company)"];
    DedupOfDistinct(j[..2]);
  }

  /* ---------------------------------------------------------------------
     Ranking the options of an ambiguous title
     --------------------------------------------------------------------- */

  /** The sort key (brand not in option, option length), compared as a
      pair with False before True. */
  datatype RankKey = RankKey(missing: bool, length: nat)

  function Key(brand: string, option: string): RankKey
  {
    RankKey(!Contains(Lower(option), Lower(brand)), |option|)
  }

  /** The key's first component is "the brand does not occur in the
      option, ignoring case", its second the option's length. */
  lemma KeyMeaning(brand: string, option: string)
    ensures Key(brand, option).missing <==> !IsSubstring(Lower(brand), Lower(option))
    ensures !Key(brand, option).missing ==> |brand| <= |option|
    ensures Key(brand, option).length == |option|
  {
    ContainsIsSubstring(Lower(option), Lower(brand));
    ContainsLonger(Lower(option), Lower(brand));
  }

  predicate KeyLe(a: RankKey, b: RankKey)
  {
    (!a.missing && b.missing) || (a.missing == b.missing && a.length <= b.length)
  }

  predicate RankedBy(brand: string, s: seq<string>)
  {
    forall i, j :: 0 <= i < j < |s| ==> KeyLe(Key(brand, s[i]), Key(brand, s[j]))
  }

  /** The options of `s` whose key is `k`, in their order in `s`. */
  function WithKey(brand: string, s: seq<string>, k: RankKey): seq<string>
  {
    if s == [] then []
    else (if Key(brand, s[0]) == k then [s[0]] else []) + WithKey(brand, s[1..], k)
  }

  /** Put `x` before the first element whose key is not smaller. */
  function Insert(brand: string, x: string, s: seq<string>): (r: seq<string>)
    ensures |r| == |s| + 1
  {
    if s == [] then [x]
    else if KeyLe(Key(brand, x), Key(brand, s[0])) then [x] + s
    else
      assert s == [s[0]] + s[1..];
      [s[0]] + Insert(brand, x, s[1..])
  }

  lemma {:induction false} InsertMembers(brand: string, x: string, s: seq<string>)
    ensures forall y :: y in Insert(brand, x, s) <==> y == x || y in s
  {
    if s != [] && !KeyLe(Key(brand, x), Key(brand, s[0])) {
      InsertMembers(brand, x, s[1..]);
      assert s == [s[0]] + s[1..];
    }
  }

  /** Putting an option with the smallest key in front keeps the order. */
  lemma ConsRanked(brand: string, y: string, t: seq<string>)
    requires RankedBy(brand, t)
    requires forall z :: z in t ==> KeyLe(Key(brand, y), Key(brand, z))
    ensures RankedBy(brand, [y] + t)
  {
    var r := [y] + t;
    forall i, j | 0 <= i < j < |r| ensures KeyLe(Key(brand, r[i]), Key(brand, r[j])) {
      if i == 0 {
        assert r[j] == t[j - 1] && t[j - 1] in t;
      } else {
        assert r[i] == t[i - 1] && r[j] == t[j - 1];
      }
    }
  }

  lemma {:induction false} InsertRanked(brand: string, x: string, s: seq<string>)
    requires RankedBy(brand, s)
    ensures RankedBy(brand, Insert(brand, x, s))
  {
    if s == [] {
    } else if KeyLe(Key(brand, x), Key(brand, s[0])) {
      forall z | z in s ensures KeyLe(Key(brand, x), Key(brand, z)) {
        var j :| 0 <= j < |s| && s[j] == z;
        if j > 0 {
          assert KeyLe(Key(brand, s[0]), Key(brand, s[j]));
        }
      }
      ConsRanked(brand, x, s);
    } else {
      var t := Insert(brand, x, s[1..]);
      InsertRanked(brand, x, s[1..]);
      InsertMembers(brand, x, s[1..]);
      forall y | y in t ensures KeyLe(Key(brand, s[0]), Key(brand, y)) {
        if y != x {
          var j :| 0 <= j < |s[1..]| && s[1..][j] == y;
          assert s[j + 1] == y;
        }
      }
      ConsRanked(brand, s[0], t);
    }
  }

  lemma {:induction false} InsertPermutes(brand: string, x: string, s: seq<string>)
    ensures multiset(Insert(brand, x, s)) == multiset(s) + multiset{x}
  {
    if s != [] && !KeyLe(Key(brand, x), Key(brand, s[0])) {
      InsertPermutes(brand, x, s[1..]);
      assert s == [s[0]] + s[1..];
    }
  }

  /** `sorted(options, key=...)`: a stable insertion sort by `Key`. */
  function Rank(brand: string, options: seq<string>): (r: seq<string>)
    ensures |r| == |options|
  {
    if options == [] then []
    else Insert(brand, options[0], Rank(brand, options[1..]))
  }

  /** The ranking reorders the options and neither drops nor adds one. */
  lemma {:induction false} RankPermutes(brand: string, options: seq<string>)
    ensures multiset(Rank(brand, options)) == multiset(options)
  {
    if options != [] {
      RankPermutes(brand, options[1..]);
      InsertPermutes(brand, options[0], Rank(brand, options[1..]));
      assert options == [options[0]] + options[1..];
    }
  }

  /** The ranked options are ordered by `Key`. */
  lemma {:induction false} RankSorted(brand: string, options: seq<string>)
    ensures RankedBy(brand, Rank(brand, options))
  {
    if options != [] {
      RankSorted(brand, options[1..]);
      InsertRanked(brand, options[0], Rank(brand, options[1..]));
    }
  }

  lemma WithKeyCons(brand: string, y: string, t: seq<string>, k: RankKey)
    ensures WithKey(brand, [y] + t, k) == (if Key(brand, y) == k then [y] else []) + WithKey(brand, t, k)
  {
    assert ([y] + t)[0] == y && ([y] + t)[1..] == t;
  }

  lemma {:induction false} InsertStable(brand: string, x: string, s: seq<string>, k: RankKey)
    ensures WithKey(brand, Insert(brand, x, s), k) == WithKey(brand, [x] + s, k)
  {
    if s != [] && !KeyLe(Key(brand, x), Key(brand, s[0])) {
      InsertStable(brand, x, s[1..], k);
      InsertStableStep(brand, x, s, k);
    }
  }

  /** The step of `InsertStable` where `x` moves past `s[0]`: the two have
      different keys, so at most one of them is kept by `WithKey`. */
  lemma InsertStableStep(brand: string, x: string, s: seq<string>, k: RankKey)
    requires s != [] && !KeyLe(Key(brand, x), Key(brand, s[0]))
    requires WithKey(brand, Insert(brand, x, s[1..]), k) == WithKey(brand, [x] + s[1..], k)
    ensures WithKey(brand, Insert(brand, x, s), k) == WithKey(brand, [x] + s, k)
  {
    var y, rest := s[0], s[1..];
    assert s == [y] + rest;
    var px := if Key(brand, x) == k then [x] else [];
    var py := if Key(brand, y) == k then [y] else [];
    assert Key(brand, x) != Key(brand, y);
    assert Insert(brand, x, s) == [y] + Insert(brand, x, rest);
    WithKeyCons(brand, y, Insert(brand, x, rest), k);
    WithKeyCons(brand, x, rest, k);
    WithKeyCons(brand, x, s, k);
    WithKeyCons(brand, y, rest, k);
    var w := WithKey(brand, rest, k);
    assert WithKey(brand, Insert(brand, x, s), k) == py + (px + w);
    assert WithKey(brand, [x] + s, k) == px + (py + w);
    AtMostOneKept(px, py, w);
  }

  /** Two pieces of which at most one is non-empty can be put in either order. */
  lemma AtMostOneKept<T>(p: seq<T>, q: seq<T>, w: seq<T>)
    requires p == [] || q == []
    ensures q + (p + w) == p + (q + w)
  {
    if p == [] {
      assert q + (p + w) == q + w && p + (q + w) == q + w;
    } else {
      assert q + (p + w) == p + w && p + (q + w) == p + w;
    }
  }

  /** Options with equal keys keep their input order: the sort is stable. */
  lemma {:induction false} RankStable(brand: string, options: seq<string>, k: RankKey)
    ensures WithKey(brand, Rank(brand, options), k) == WithKey(brand, options, k)
  {
    if options != [] {
      var t := Rank(brand, options[1..]);
      RankStable(brand, options[1..], k);
      InsertStable(brand, options[0], t, k);
      assert ([options[0]] + t)[1..] == t;
    }
  }

  /** Every option that contains the brand (ignoring case) is ranked before
      every option that does not, and within each group shorter comes first. */
  lemma RankPrefersBrand(brand: string, options: seq<string>, i: int, j: int)
    requires 0 <= i < j < |options|
    ensures var r := Rank(brand, options);
      (Contains(Lower(r[j]), Lower(brand)) ==> Contains(Lower(r[i]), Lower(brand)))
      && (Contains(Lower(r[i]), Lower(brand)) == Contains(Lower(r[j]), Lower(brand)) ==> |r[i]| <= |r[j]|)
  {
    RankSorted(brand, options);
  }

  /** `candidates[:3]`, and more generally Python's `s[:n]`. */
  function Take<T>(s: seq<T>, n: nat): (r: seq<T>)
    ensures |r| <= n && |r| <= |s| && r == s[..|r|]
    ensures |s| >= n ==> |r| == n
    ensures |s| < n ==> r == s
  {
    if |s| <= n then s else s[..n]
  }

  /* ---------------------------------------------------------------------
     The fetch order and its first success
     --------------------------------------------------------------------- */

  /** Options tried after fetching `title`: the top three ranked ones when
      the title is ambiguous, none otherwise. */
  function OptionsTried(wiki: Wiki, brand: string, title: string): (r: seq<string>)
    ensures |r| <= 3
    ensures forall x :: x in r ==> wiki.page(title).Ambiguous? && x in wiki.page(title).options
  {
    match wiki.page(title)
    case Ambiguous(options) =>
      RankPermutes(brand, options);
      var r := Take(Rank(brand, options), 3);
      assert forall x :: x in r ==> x in multiset(Rank(brand, options));
      r
    case _ => []
  }

  /** One candidate's fetches: the title itself, then its options. */
  function CandidateAttempts(wiki: Wiki, brand: string, title: string): seq<string>
  {
    [title] + OptionsTried(wiki, brand, title)
  }

  /** All candidates' fetches, in candidate order. */
  function TitleAttempts(wiki: Wiki, brand: string, cs: seq<string>): seq<string>
  {
    if cs == [] then []
    else CandidateAttempts(wiki, brand, cs[0]) + TitleAttempts(wiki, brand, cs[1..])
  }

  /** The search fallback's fetches: the first five hits, none when the
      search itself fails. */
  function SearchAttempts(wiki: Wiki, brand: string): seq<string>
  {
    match wiki.search(brand)
    case Hits(hits) => Take(hits, 5)
    case SearchFailed => []
  }

  /** Every title the resolver would fetch if nothing succeeded, in order. */
  function FetchOrder(wiki: Wiki, brand: string): (o: seq<string>)
    ensures |o| <= 4 * |Candidates(brand)| + 5
    ensures forall c :: c in Candidates(brand) ==> c in o
  {
    TitleAttemptsBound(wiki, brand, Candidates(brand));
    TitleAttempts(wiki, brand, Candidates(brand)) + SearchAttempts(wiki, brand)
  }

  /** The title of the first fetch in `ts` that loads a page. */
  function FirstOk(wiki: Wiki, ts: seq<string>): (r: Option<string>)
    ensures r.None? <==> forall t :: t in ts ==> !wiki.page(t).Ok?
  {
    if ts == [] then None
    else if wiki.page(ts[0]).Ok? then Some(wiki.page(ts[0]).title)
    else FirstOk(wiki, ts[1..])
  }

  /** The resolver's specification: the first success in fetch order. */
  function Resolve(wiki: Wiki, brand: string): (r: Resolution)
    ensures r.flag <= 1 && (r.flag == 1 <==> r.title.Some?)
  {
    match FirstOk(wiki, FetchOrder(wiki, brand))
    case Some(t) => Resolution(1, Some(t))
    case None => Resolution(0, None)
  }

  /** `FirstOk` finds the first loading title, and nothing if none loads. */
  lemma {:induction false} FirstOkSpec(wiki: Wiki, ts: seq<string>)
    ensures FirstOk(wiki, ts).None? <==> forall i :: 0 <= i < |ts| ==> !wiki.page(ts[i]).Ok?
    ensures FirstOk(wiki, ts).Some? ==>
      exists i :: 0 <= i < |ts| && wiki.page(ts[i]) == Ok(FirstOk(wiki, ts).value)
        && forall j :: 0 <= j < i ==> !wiki.page(ts[j]).Ok?
  {
    if ts != [] {
      FirstOkSpec(wiki, ts[1..]);
      if !wiki.page(ts[0]).Ok? {
        assert forall i :: 1 <= i < |ts| ==> ts[i] == ts[1..][i - 1];
        if FirstOk(wiki, ts).Some? {
          var i :| 0 <= i < |ts[1..]| && wiki.page(ts[1..][i]) == Ok(FirstOk(wiki, ts).value)
            && forall j :: 0 <= j < i ==> !wiki.page(ts[1..][j]).Ok?;
          assert wiki.page(ts[i + 1]) == Ok(FirstOk(wiki, ts).value);
        }
      } else {
        assert wiki.page(ts[0]) == Ok(FirstOk(wiki, ts).value);
      }
    }
  }

  lemma {:induction false} FirstOkAppend(wiki: Wiki, a: seq<string>, b: seq<string>)
    ensures FirstOk(wiki, a + b) == if FirstOk(wiki, a).Some? then FirstOk(wiki, a) else FirstOk(wiki, b)
  {
    if a != [] {
      assert (a + b)[1..] == a[1..] + b;
      FirstOkAppend(wiki, a[1..], b);
    } else {
      assert a + b == b;
    }
  }

  lemma {:induction false} TitleAttemptsAppend(wiki: Wiki, brand: string, a: seq<string>, b: seq<string>)
    ensures TitleAttempts(wiki, brand, a + b) == TitleAttempts(wiki, brand, a) + TitleAttempts(wiki, brand, b)
  {
    if a == [] {
      assert a + b == b;
    } else {
      assert (a + b)[0] == a[0] && (a + b)[1..] == a[1..] + b;
      TitleAttemptsAppend(wiki, brand, a[1..], b);
    }
  }

  /** The resolver answers (1, t) exactly when some fetch in the order loads,
      t being the title of the first page that does; otherwise (0, None). */
  lemma ResolveFirstSuccess(wiki: Wiki, brand: string)
    ensures var order, r := FetchOrder(wiki, brand), Resolve(wiki, brand);
      && (r.flag == 0 <==> forall i :: 0 <= i < |order| ==> !wiki.page(order[i]).Ok?)
      && (r.flag == 1 ==>
            exists i :: 0 <= i < |order| && wiki.page(order[i]) == Ok(r.title.value)
              && forall j :: 0 <= j < i ==> !wiki.page(order[j]).Ok?)
  {
    FirstOkSpec(wiki, FetchOrder(wiki, brand));
  }

  /** Shape of the fetch order: every candidate's fetches come first, in
      candidate order, each candidate followed by at most three options. */
  lemma FetchOrderShape(wiki: Wiki, brand: string)
    ensures forall t :: |OptionsTried(wiki, brand, t)| <= 3
    ensures var cs := Candidates(brand);
      && FetchOrder(wiki, brand)[..|TitleAttempts(wiki, brand, cs)|] == TitleAttempts(wiki, brand, cs)
      && |TitleAttempts(wiki, brand, cs)| <= 4 * |cs|
      && forall c :: c in cs ==> c in TitleAttempts(wiki, brand, cs)
    ensures var cs := Candidates(brand);
      forall i :: 0 <= i < |cs| ==>
        TitleAttempts(wiki, brand, cs)
          == TitleAttempts(wiki, brand, cs[..i]) + CandidateAttempts(wiki, brand, cs[i]) + TitleAttempts(wiki, brand, cs[i + 1..])
  {
    TitleAttemptsBound(wiki, brand, Candidates(brand));
    TitleAttemptsLayout(wiki, brand, Candidates(brand));
  }

  /** Candidate `i`'s fetches sit between those of the earlier and the later
      candidates. */
  lemma TitleAttemptsLayout(wiki: Wiki, brand: string, cs: seq<string>)
    ensures forall i :: 0 <= i < |cs| ==>
      TitleAttempts(wiki, brand, cs)
        == TitleAttempts(wiki, brand, cs[..i]) + CandidateAttempts(wiki, brand, cs[i]) + TitleAttempts(wiki, brand, cs[i + 1..])
  {
    forall i | 0 <= i < |cs|
      ensures TitleAttempts(wiki, brand, cs)
        == TitleAttempts(wiki, brand, cs[..i]) + CandidateAttempts(wiki, brand, cs[i]) + TitleAttempts(wiki, brand, cs[i + 1..])
    {
      TitleAttemptsSplit(wiki, brand, cs, i);
    }
  }

  /** The search fallback fetches the first five hits (all of them when
      there are fewer), and none when the search fails. */
  lemma SearchAttemptsShape(wiki: Wiki, brand: string)
    ensures |SearchAttempts(wiki, brand)| <= 5
    ensures wiki.search(brand).Hits? ==>
      SearchAttempts(wiki, brand) == wiki.search(brand).hits[..|SearchAttempts(wiki, brand)|]
    ensures wiki.search(brand).Hits? ==> SearchAttempts(wiki, brand) == Take(wiki.search(brand).hits, 5)
    ensures wiki.search(brand).SearchFailed? ==> SearchAttempts(wiki, brand) == []
  {
  }

  /** A brand without aliases: its own title, that title's options, then
      the search hits. */
  lemma FetchOrderWithoutAlias(wiki: Wiki, brand: string)
    requires brand !in WikiAliases
    ensures FetchOrder(wiki, brand) == [brand] + OptionsTried(wiki, brand, brand) + SearchAttempts(wiki, brand)
  {
    CandidatesWithoutAlias(brand);
    assert [brand][1..] == [];
    assert TitleAttempts(wiki, brand, [brand]) == CandidateAttempts(wiki, brand, brand);
  }

  lemma {:induction false} TitleAttemptsBound(wiki: Wiki, brand: string, cs: seq<string>)
    ensures |TitleAttempts(wiki, brand, cs)| <= 4 * |cs|
    ensures forall c :: c in cs ==> c in TitleAttempts(wiki, brand, cs)
  {
    if cs != [] {
      TitleAttemptsBound(wiki, brand, cs[1..]);
      assert cs == [cs[0]] + cs[1..];
      assert cs[0] in CandidateAttempts(wiki, brand, cs[0]);
    }
  }

  /** One more candidate tried: its fetches follow the earlier ones. */
  lemma TitleAttemptsSnoc(wiki: Wiki, brand: string, cs: seq<string>, i: nat)
    requires i < |cs|
    ensures TitleAttempts(wiki, brand, cs[..i + 1])
      == TitleAttempts(wiki, brand, cs[..i]) + CandidateAttempts(wiki, brand, cs[i])
  {
    assert cs[..i + 1] == cs[..i] + [cs[i]];
    TitleAttemptsAppend(wiki, brand, cs[..i], [cs[i]]);
    assert [cs[i]][1..] == [];
  }

  /* ---------------------------------------------------------------------
     The resolver as the program runs it
     --------------------------------------------------------------------- */

  /** The candidates' fetches split at candidate `i`. */
  lemma TitleAttemptsSplit(wiki: Wiki, brand: string, cs: seq<string>, i: nat)
    requires i < |cs|
    ensures TitleAttempts(wiki, brand, cs) == TitleAttempts(wiki, brand, cs[..i]) + TitleAttempts(wiki, brand, cs[i..])
    ensures TitleAttempts(wiki, brand, cs[i..])
      == CandidateAttempts(wiki, brand, cs[i]) + TitleAttempts(wiki, brand, cs[i + 1..])
  {
    assert cs[..i] + cs[i..] == cs;
    TitleAttemptsAppend(wiki, brand, cs[..i], cs[i..]);
    assert cs[i..][0] == cs[i] && cs[i..][1..] == cs[i + 1..];
  }

  /** Resolution once candidate `i` has loaded (directly or through an
      option) after every earlier fetch failed. */
  lemma ResolvedAt(wiki: Wiki, brand: string, i: nat, t: string)
    requires i < |Candidates(brand)|
    requires FirstOk(wiki, TitleAttempts(wiki, brand, Candidates(brand)[..i])) == None
    requires FirstOk(wiki, CandidateAttempts(wiki, brand, Candidates(brand)[i])) == Some(t)
    ensures Resolve(wiki, brand) == Resolution(1, Some(t))
  {
    var cs := Candidates(brand);
    TitleAttemptsSplit(wiki, brand, cs, i);
    FirstOkAppend(wiki, CandidateAttempts(wiki, brand, cs[i]), TitleAttempts(wiki, brand, cs[i + 1..]));
    FirstOkAppend(wiki, TitleAttempts(wiki, brand, cs[..i]), TitleAttempts(wiki, brand, cs[i..]));
    FirstOkAppend(wiki, TitleAttempts(wiki, brand, cs), SearchAttempts(wiki, brand));
  }

  /** A candidate that does not load and has no option that loads adds no success. */
  lemma CandidateFailed(wiki: Wiki, brand: string, title: string)
    requires !wiki.page(title).Ok?
    requires FirstOk(wiki, OptionsTried(wiki, brand, title)) == None
    ensures FirstOk(wiki, CandidateAttempts(wiki, brand, title)) == None
  {
    assert CandidateAttempts(wiki, brand, title)[1..] == OptionsTried(wiki, brand, title);
  }

  /** A candidate whose own page or one of whose tried options loads. */
  lemma CandidateLoaded(wiki: Wiki, brand: string, title: string, t: string)
    requires wiki.page(title) == Ok(t)
      || (!wiki.page(title).Ok? && FirstOk(wiki, OptionsTried(wiki, brand, title)) == Some(t))
    ensures FirstOk(wiki, CandidateAttempts(wiki, brand, title)) == Some(t)
  {
    assert CandidateAttempts(wiki, brand, title)[1..] == OptionsTried(wiki, brand, title);
  }

  /** Trying `ts[k]` after `ts[..k]` all failed. */
  lemma FirstOkStep(wiki: Wiki, ts: seq<string>, k: nat)
    requires k < |ts| && FirstOk(wiki, ts[..k]) == None
    ensures !wiki.page(ts[k]).Ok? ==> FirstOk(wiki, ts[..k + 1]) == None
    ensures wiki.page(ts[k]).Ok? ==> FirstOk(wiki, ts) == Some(wiki.page(ts[k]).title)
  {
    assert ts[..k + 1] == ts[..k] + [ts[k]];
    FirstOkAppend(wiki, ts[..k], [ts[k]]);
    assert ts[..k + 1] + ts[k + 1..] == ts;
    FirstOkAppend(wiki, ts[..k + 1], ts[k + 1..]);
  }

  /** One iteration of the candidate loop of `has_wikipedia_page`: fetch the
      title; on a disambiguation, try the top three ranked options in turn.
      The answer is the first page that loads, or None. */
  method TryCandidate(wiki: Wiki, brand: string, current: string) returns (found: Option<string>)
    ensures found == FirstOk(wiki, CandidateAttempts(wiki, brand, current))
  {
    match wiki.page(current) {
      case Ok(t) =>
        CandidateLoaded(wiki, brand, current, t);
        return Some(t);
      case Ambiguous(options) =>
        var candidates := Rank(brand, options);
        var top := Take(candidates, 3);
        assert top == OptionsTried(wiki, brand, current);
        var j := 0;
        while j < |top|
          invariant 0 <= j <= |top|
          invariant FirstOk(wiki, top[..j]) == None
        {
          FirstOkStep(wiki, top, j);
          match wiki.page(top[j]) {
            case Ok(t) =>
              CandidateLoaded(wiki, brand, current, t);
              return Some(t);
            case _ =>
          }
          j := j + 1;
        }
        assert top[..j] == top;
        CandidateFailed(wiki, brand, current);
        return None;
      case NotFound =>
        CandidateFailed(wiki, brand, current);
        return None;
      case OtherError =>
        CandidateFailed(wiki, brand, current);
        return None;
    }
  }

  /** The search fallback of `has_wikipedia_page`: fetch the first five hits
      in turn; a failed search yields nothing. */
  method TrySearch(wiki: Wiki, brand: string) returns (found: Option<string>)
    ensures found == FirstOk(wiki, SearchAttempts(wiki, brand))
  {
    match wiki.search(brand) {
      case Hits(hits) =>
        var shown := Take(hits, 5);
        var k := 0;
        while k < |hits| && k < 5
          invariant 0 <= k <= |shown|
          invariant FirstOk(wiki, shown[..k]) == None
        {
          assert hits[k] == shown[k];
          FirstOkStep(wiki, shown, k);
          match wiki.page(hits[k]) {
            case Ok(t) =>
              return Some(t);
            case _ =>
          }
          k := k + 1;
        }
        assert shown[..k] == shown;
        return None;
      case SearchFailed =>
        return None;
    }
  }

  /** `has_wikipedia_page`: the candidates in order, then the search
      fallback, returning at the first page that loads. No failure of the
      service escapes: every outcome is handled. */
  method HasWikipediaPage(wiki: Wiki, brand: string) returns (flag: nat, title: Option<string>)
    ensures Resolution(flag, title) == Resolve(wiki, brand)
  {
    var titles := Candidates(brand);
    var i := 0;
    while i < |titles|
      invariant 0 <= i <= |titles|
      invariant FirstOk(wiki, TitleAttempts(wiki, brand, titles[..i])) == None
    {
      var current := titles[i];
      var found := TryCandidate(wiki, brand, current);
      if found.Some? {
        ResolvedAt(wiki, brand, i, found.value);
        return 1, found;
      }
      TitleAttemptsSnoc(wiki, brand, titles, i);
      FirstOkAppend(wiki, TitleAttempts(wiki, brand, titles[..i]), CandidateAttempts(wiki, brand, current));
      i := i + 1;
    }

    assert titles[..i] == titles;
    FirstOkAppend(wiki, TitleAttempts(wiki, brand, titles), SearchAttempts(wiki, brand));
    var found := TrySearch(wiki, brand);
    if found.Some? {
      return 1, found;
    }
    return 0, None;
  }
}
