/** The association test's integer bookkeeping: the 2x2 HasWiki x Mentioned
    table and the guard against a degenerate table. */
module Association {
  import opened Records

  /** Rows whose HasWiki and Mentioned are both 0 or 1, as the labelling and
      resolution stages produce them. */
  predicate Binary(rows: seq<Row>)
  {
    forall i :: 0 <= i < |rows| ==> rows[i].hasWiki <= 1 && rows[i].mentioned <= 1
  }

  /** Counts indexed [HasWiki][Mentioned]. */
  datatype Table = Table(n00: nat, n01: nat, n10: nat, n11: nat)

  function Total(t: Table): nat
  {
    t.n00 + t.n01 + t.n10 + t.n11
  }

  /** Rows with HasWiki = h and Mentioned = m. */
  function CellCount(rows: seq<Row>, h: nat, m: nat): (c: nat)
    ensures c <= |rows|
  {
    if rows == [] then 0
    else (if rows[0].hasWiki == h && rows[0].mentioned == m then 1 else 0) + CellCount(rows[1..], h, m)
  }

  /** Every binary row falls in exactly one of the four cells. */
  lemma {:induction false} CellsCoverRows(rows: seq<Row>)
    requires Binary(rows)
    ensures CellCount(rows, 0, 0) + CellCount(rows, 0, 1) + CellCount(rows, 1, 0) + CellCount(rows, 1, 1) == |rows|
  {
    if rows != [] {
      assert Binary(rows[1..]) by {
        forall i | 0 <= i < |rows[1..]| ensures rows[1..][i].hasWiki <= 1 && rows[1..][i].mentioned <= 1 {
          assert rows[1..][i] == rows[i + 1];
        }
      }
      CellsCoverRows(rows[1..]);
    }
  }

  /** The counts of `pd.crosstab(HasWiki, Mentioned)`, with a cell for every
      pair of 0/1 values (a level absent from the column gives zero cells,
      where pandas has no row or column at all). On binary columns the four
      counts add up to the number of rows. */
  function CrossTab(rows: seq<Row>): (t: Table)
    ensures Binary(rows) ==> Total(t) == |rows|
  {
    var t := Table(CellCount(rows, 0, 0), CellCount(rows, 0, 1), CellCount(rows, 1, 0), CellCount(rows, 1, 1));
    if Binary(rows) then CellsCoverRows(rows); t else t
  }

  /** The distinct values of a column: crosstab's row and column labels. */
  function HasWikiLevels(rows: seq<Row>): set<nat>
  {
    set i | 0 <= i < |rows| :: rows[i].hasWiki
  }

  function MentionedLevels(rows: seq<Row>): set<nat>
  {
    set i | 0 <= i < |rows| :: rows[i].mentioned
  }

  /** `tab.size`: number of HasWiki levels times number of Mentioned levels.
      The crosstab has no cells exactly when there are no rows. */
  function TableSize(rows: seq<Row>): (n: nat)
    ensures n == 0 <==> |rows| == 0
  {
    var h, m := HasWikiLevels(rows), MentionedLevels(rows);
    assert rows != [] ==> rows[0].hasWiki in h && rows[0].mentioned in m;
    assert rows == [] ==> h == {};
    |h| * |m|
  }

  /** The test's outcome: the fixed degenerate report, or the observed counts
      (zero cells standing for absent levels) handed to the Pearson test
      together with the sample size. */
  datatype Outcome =
    | Degenerate(chi2: real, p: real, dof: nat, phi: real)
    | Pearson(table: Table, n: nat)

  /** `tab.size == 0 or tab.values.sum() == 0`: on binary columns it holds
      exactly when there are no rows. */
  function DegenerateGuard(rows: seq<Row>): (g: bool)
    requires Binary(rows)
    ensures g <==> |rows| == 0
  {
    TableSize(rows) == 0 || Total(CrossTab(rows)) == 0
  }

  /** `chi_square_on_haswiki` up to the Pearson statistic: the fixed report
      for a degenerate table, otherwise the observed table and a sample size
      that is positive, so the NaN branch for phi is dead. */
  function ChiSquareOnHasWiki(rows: seq<Row>): (r: Outcome)
    requires Binary(rows)
    ensures r.Degenerate? <==> |rows| == 0
    ensures r.Pearson? ==> r.table == CrossTab(rows) && r.n == |rows| > 0
  {
    if DegenerateGuard(rows) then Degenerate(0.0, 1.0, 0, 0.0)
    else Pearson(CrossTab(rows), |rows|)
  }

  /** An empty table is reported as chi2 = 0, p = 1, dof = 0, phi = 0. */
  lemma EmptyTableReport(rows: seq<Row>)
    requires |rows| == 0
    ensures ChiSquareOnHasWiki(rows) == Degenerate(0.0, 1.0, 0, 0.0)
  {
  }

  /** A non-empty table goes to the Pearson test even when some cells are 0. */
  lemma NonEmptyTableTested(rows: seq<Row>)
    requires Binary(rows) && |rows| > 0
    ensures ChiSquareOnHasWiki(rows).Pearson?
    ensures Total(ChiSquareOnHasWiki(rows).table) == |rows|
  {
  }
}

/** The per-group counts of `summarize`, by (Category, Brand) and by Category. */
module Summary {
  import opened Records
  import Mentions

  datatype GroupStats = GroupStats(prompts: nat, nonempty: nat, mentions: nat)

  /** responses_nonempty: the rows whose response is not blank. */
  function NonBlank(rows: seq<Row>): (n: nat)
    ensures n <= |rows|
  {
    if |rows| == 0 then 0
    else NonBlank(rows[1..]) + (if rows[0].responseEmpty then 0 else 1)
  }

  /** mentions: the sum of the Mentioned column. */
  function MentionSum(rows: seq<Row>): nat
  {
    if |rows| == 0 then 0 else MentionSum(rows[1..]) + rows[0].mentioned
  }

  /** prompts = row count, responses_nonempty = rows whose response is not
      blank, mentions = sum of Mentioned. */
  function Aggregate(rows: seq<Row>): (g: GroupStats)
    ensures g.prompts == |rows| && g.nonempty <= g.prompts
  {
    GroupStats(|rows|, NonBlank(rows), MentionSum(rows))
  }

  function Plus(g: GroupStats, h: GroupStats): GroupStats
  {
    GroupStats(g.prompts + h.prompts, g.nonempty + h.nonempty, g.mentions + h.mentions)
  }

  lemma {:induction false} NonBlankAppend(a: seq<Row>, b: seq<Row>)
    ensures NonBlank(a + b) == NonBlank(a) + NonBlank(b)
  {
    var c := a + b;
    if |a| == 0 {
      assert c == b;
    } else {
      assert c[0] == a[0] && c[1..] == a[1..] + b;
      NonBlankAppend(a[1..], b);
    }
  }

  lemma {:induction false} MentionSumAppend(a: seq<Row>, b: seq<Row>)
    ensures MentionSum(a + b) == MentionSum(a) + MentionSum(b)
  {
    var c := a + b;
    if |a| == 0 {
      assert c == b;
    } else {
      assert c[0] == a[0] && c[1..] == a[1..] + b;
      MentionSumAppend(a[1..], b);
    }
  }

  /** The counts of two tables put end to end are the sums of their counts. */
  lemma AggregateAppend(a: seq<Row>, b: seq<Row>)
    ensures Aggregate(a + b) == Plus(Aggregate(a), Aggregate(b))
  {
    calc {
      Aggregate(a + b);
      GroupStats(|a + b|, NonBlank(a + b), MentionSum(a + b));
      { NonBlankAppend(a, b); MentionSumAppend(a, b); }
      GroupStats(|a| + |b|, NonBlank(a) + NonBlank(b), MentionSum(a) + MentionSum(b));
      Plus(Aggregate(a), Aggregate(b));
    }
  }

  /** Taking row `j` out of a table takes its counts out of the totals. */
  lemma AggregateRemove(b: seq<Row>, j: int)
    requires 0 <= j < |b|
    ensures Aggregate(b) == Plus(Aggregate([b[j]]), Aggregate(b[..j] + b[j + 1..]))
  {
    var p, x, q := b[..j], [b[j]], b[j + 1..];
    assert b == (p + x) + q;
    AggregateAppend(p + x, q);
    AggregateAppend(p, x);
    AggregateAppend(p, q);
    var gp, gx, gq := Aggregate(p), Aggregate(x), Aggregate(q);
    assert Aggregate(b) == Plus(Plus(gp, gx), gq);
    assert Aggregate(p + q) == Plus(gp, gq);
  }

  /** Removing the same row from two tables with the same rows leaves two
      tables with the same rows. */
  lemma MultisetRemove(a: seq<Row>, b: seq<Row>, j: int)
    requires multiset(a) == multiset(b) && a != [] && 0 <= j < |b| && b[j] == a[0]
    ensures multiset(a[1..]) == multiset(b[..j] + b[j + 1..])
  {
    var x, b' := a[0], b[..j] + b[j + 1..];
    assert a == [x] + a[1..];
    assert b == b[..j] + [x] + b[j + 1..];
    forall y ensures multiset(a[1..])[y] == multiset(b')[y] {
      assert multiset(a)[y] == multiset{x}[y] + multiset(a[1..])[y];
      assert multiset(b)[y] == multiset(b[..j])[y] + multiset{x}[y] + multiset(b[j + 1..])[y];
    }
  }

  /** The counts depend only on which rows a group holds, not on their order. */
  lemma {:induction false} AggregateMultiset(a: seq<Row>, b: seq<Row>)
    requires multiset(a) == multiset(b)
    ensures Aggregate(a) == Aggregate(b)
    decreases |a|
  {
    if a == [] {
      assert |multiset(b)| == 0;
    } else {
      assert a[0] in multiset(b);
      var j :| 0 <= j < |b| && b[j] == a[0];
      MultisetRemove(a, b, j);
      AggregateMultiset(a[1..], b[..j] + b[j + 1..]);
      AggregateRemove(b, j);
      assert a == [a[0]] + a[1..];
      AggregateAppend([a[0]], a[1..]);
    }
  }

  /** Because of the blank-response override, a group never has more
      mentions than non-blank responses, nor more of those than prompts. */
  lemma {:induction false} AggregateBounds(rows: seq<Row>)
    requires forall i :: 0 <= i < |rows| ==> Mentions.Labelled(rows[i])
    ensures Aggregate(rows).prompts == |rows|
    ensures Aggregate(rows).mentions <= Aggregate(rows).nonempty <= Aggregate(rows).prompts
  {
    if |rows| != 0 {
      assert forall i :: 0 <= i < |rows[1..]| ==> rows[1..][i] == rows[i + 1];
      AggregateBounds(rows[1..]);
    }
  }

  /** mention_rate: mentions over non-blank responses, 0 when there are none. */
  function MentionRate(g: GroupStats): (rate: real)
    ensures g.nonempty == 0 ==> rate == 0.0
    ensures g.mentions <= g.nonempty ==> 0.0 <= rate <= 1.0
    ensures g.nonempty > 0 ==> rate * g.nonempty as real == g.mentions as real
  {
    if g.nonempty > 0 then g.mentions as real / g.nonempty as real else 0.0
  }

  /** The rows of one (Category, Brand) group, in table order: every row of
      the table with that key, as often as it occurs, and no other row. */
  function InBrandGroup(rows: seq<Row>, category: string, brand: string): (g: seq<Row>)
    ensures forall x :: multiset(g)[x] == if x.category == category && x.brand == brand then multiset(rows)[x] else 0
  {
    if rows == [] then []
    else
      var rest := InBrandGroup(rows[1..], category, brand);
      assert rows == [rows[0]] + rows[1..];
      if rows[0].category == category && rows[0].brand == brand then [rows[0]] + rest else rest
  }

  /** The rows of one Category group, in table order: every row of the table
      with that category, as often as it occurs, and no other row. */
  function InCategory(rows: seq<Row>, category: string): (g: seq<Row>)
    ensures forall x :: multiset(g)[x] == if x.category == category then multiset(rows)[x] else 0
  {
    if rows == [] then []
    else
      var rest := InCategory(rows[1..], category);
      assert rows == [rows[0]] + rows[1..];
      if rows[0].category == category then [rows[0]] + rest else rest
  }

  /** A row of the table with the group's key is in the group. */
  lemma InBrandGroupHas(rows: seq<Row>, i: int)
    requires 0 <= i < |rows|
    ensures rows[i] in InBrandGroup(rows, rows[i].category, rows[i].brand)
  {
    assert rows[i] in multiset(rows);
  }

  /** Every row of a group is a row of the table. */
  lemma InBrandGroupFrom(rows: seq<Row>, category: string, brand: string)
    ensures forall x :: x in InBrandGroup(rows, category, brand) ==> x in rows
  {
    forall x | x in InBrandGroup(rows, category, brand) ensures x in rows {
      assert x in multiset(InBrandGroup(rows, category, brand));
    }
  }

  lemma InCategoryHas(rows: seq<Row>, i: int)
    requires 0 <= i < |rows|
    ensures rows[i] in InCategory(rows, rows[i].category)
  {
    assert rows[i] in multiset(rows);
  }

  lemma InCategoryFrom(rows: seq<Row>, category: string)
    ensures forall x :: x in InCategory(rows, category) ==> x in rows
  {
    forall x | x in InCategory(rows, category) ensures x in rows {
      assert x in multiset(InCategory(rows, category));
    }
  }

  /** The by-brand summary: one entry per (Category, Brand) present, holding
      the counts of that group's rows. */
  function ByBrand(rows: seq<Row>): (s: map<(string, string), GroupStats>)
    ensures forall c, b :: (c, b) in s <==> exists i :: 0 <= i < |rows| && rows[i].category == c && rows[i].brand == b
    ensures forall k :: k in s ==> s[k] == Aggregate(InBrandGroup(rows, k.0, k.1))
  {
    var keys := set i | 0 <= i < |rows| :: (rows[i].category, rows[i].brand);
    map key | key in keys :: Aggregate(InBrandGroup(rows, key.0, key.1))
  }

  /** The by-category summary: one entry per Category present, holding the
      counts of that group's rows. */
  function ByCategory(rows: seq<Row>): (s: map<string, GroupStats>)
    ensures forall c :: c in s <==> exists i :: 0 <= i < |rows| && rows[i].category == c
    ensures forall c :: c in s ==> s[c] == Aggregate(InCategory(rows, c))
  {
    var keys := set i | 0 <= i < |rows| :: rows[i].category;
    map c | c in keys :: Aggregate(InCategory(rows, c))
  }

  /** Two tables with the same rows have the same rows present. */
  lemma SameRowsPresent(rows: seq<Row>, other: seq<Row>, i: int) returns (j: int)
    requires multiset(rows) == multiset(other) && 0 <= i < |rows|
    ensures 0 <= j < |other| && other[j] == rows[i]
  {
    assert rows[i] in multiset(other);
    j :| 0 <= j < |other| && other[j] == rows[i];
  }

  /** Two tables with the same rows have (Category, Brand) groups with the same rows. */
  lemma SameBrandGroups(rows: seq<Row>, other: seq<Row>, category: string, brand: string)
    requires multiset(rows) == multiset(other)
    ensures multiset(InBrandGroup(rows, category, brand)) == multiset(InBrandGroup(other, category, brand))
  {
    var g, h := InBrandGroup(rows, category, brand), InBrandGroup(other, category, brand);
    forall x ensures multiset(g)[x] == multiset(h)[x] {
    }
  }

  /** Two tables with the same rows have Category groups with the same rows. */
  lemma SameCategoryGroups(rows: seq<Row>, other: seq<Row>, category: string)
    requires multiset(rows) == multiset(other)
    ensures multiset(InCategory(rows, category)) == multiset(InCategory(other, category))
  {
    var u, v := InCategory(rows, category), InCategory(other, category);
    forall x ensures multiset(u)[x] == multiset(v)[x] {
    }
  }

  /** Like `groupby`, the by-brand summary depends only on which rows the
      table holds, not on their order. */
  lemma ByBrandIgnoresOrder(rows: seq<Row>, other: seq<Row>)
    requires multiset(rows) == multiset(other)
    ensures ByBrand(rows) == ByBrand(other)
  {
    var s, t := ByBrand(rows), ByBrand(other);
    forall k | k in s ensures k in t && s[k] == t[k] {
      var i :| 0 <= i < |rows| && rows[i].category == k.0 && rows[i].brand == k.1;
      var j := SameRowsPresent(rows, other, i);
      SameBrandGroups(rows, other, k.0, k.1);
      AggregateMultiset(InBrandGroup(rows, k.0, k.1), InBrandGroup(other, k.0, k.1));
    }
    forall k | k in t ensures k in s {
      var j :| 0 <= j < |other| && other[j].category == k.0 && other[j].brand == k.1;
      var i := SameRowsPresent(other, rows, j);
    }
  }

  /** Like `groupby`, the by-category summary depends only on which rows the
      table holds, not on their order. */
  lemma ByCategoryIgnoresOrder(rows: seq<Row>, other: seq<Row>)
    requires multiset(rows) == multiset(other)
    ensures ByCategory(rows) == ByCategory(other)
  {
    var s, t := ByCategory(rows), ByCategory(other);
    forall c | c in s ensures c in t && s[c] == t[c] {
      var i :| 0 <= i < |rows| && rows[i].category == c;
      var j := SameRowsPresent(rows, other, i);
      SameCategoryGroups(rows, other, c);
      AggregateMultiset(InCategory(rows, c), InCategory(other, c));
    }
    forall c | c in t ensures c in s {
      var j :| 0 <= j < |other| && other[j].category == c;
      var i := SameRowsPresent(other, rows, j);
    }
  }

  /** The bounds every summary entry of a labelled table meets: at least one
      prompt, mentions <= non-blank responses <= prompts, a rate in [0, 1]. */
  predicate Bounded(g: GroupStats)
  {
    0 < g.prompts && g.mentions <= g.nonempty <= g.prompts && 0.0 <= MentionRate(g) <= 1.0
  }

  /** A non-empty group drawn from a labelled table is within bounds. */
  lemma GroupBounds(rows: seq<Row>, grp: seq<Row>)
    requires forall i :: 0 <= i < |rows| ==> Mentions.Labelled(rows[i])
    requires forall x :: x in grp ==> x in rows
    requires grp != []
    ensures Bounded(Aggregate(grp))
  {
    forall j | 0 <= j < |grp| ensures Mentions.Labelled(grp[j]) {
      assert grp[j] in grp;
      var m :| 0 <= m < |rows| && rows[m] == grp[j];
    }
    AggregateBounds(grp);
  }

  /** Every (Category, Brand) group of a labelled table is within bounds. */
  lemma ByBrandBounds(rows: seq<Row>)
    requires forall i :: 0 <= i < |rows| ==> Mentions.Labelled(rows[i])
    ensures forall k :: k in ByBrand(rows) ==> Bounded(ByBrand(rows)[k])
  {
    var s := ByBrand(rows);
    forall k | k in s ensures Bounded(s[k]) {
      var i :| 0 <= i < |rows| && rows[i].category == k.0 && rows[i].brand == k.1;
      InBrandGroupHas(rows, i);
      InBrandGroupFrom(rows, k.0, k.1);
      GroupBounds(rows, InBrandGroup(rows, k.0, k.1));
    }
  }

  /** Every Category group of a labelled table is within bounds. */
  lemma ByCategoryBounds(rows: seq<Row>)
    requires forall i :: 0 <= i < |rows| ==> Mentions.Labelled(rows[i])
    ensures forall c :: c in ByCategory(rows) ==> Bounded(ByCategory(rows)[c])
  {
    var s := ByCategory(rows);
    forall c | c in s ensures Bounded(s[c]) {
      var i :| 0 <= i < |rows| && rows[i].category == c;
      InCategoryHas(rows, i);
      InCategoryFrom(rows, c);
      GroupBounds(rows, InCategory(rows, c));
    }
  }
}
