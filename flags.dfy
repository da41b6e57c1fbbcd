/** The HasWiki/WikiTitle columns: resolve each distinct brand once, in
    sorted order, then copy each brand's answer onto its rows. */
module WikiFlags {
  import opened Text
  import opened Records
  import opened PageResolver

  predicate StrictlyIncreasing(s: seq<string>)
  {
    forall i, j :: 0 <= i < j < |s| ==> Less(s[i], s[j])
  }

  /** Insert `x` into an ordered list unless it is already there. */
  function InsertUnique(x: string, s: seq<string>): (r: seq<string>)
    ensures forall y :: y in r <==> y == x || y in s
  {
    if s == [] then [x]
    else if x == s[0] then s
    else if Less(x, s[0]) then [x] + s
    else
      assert s == [s[0]] + s[1..];
      [s[0]] + InsertUnique(x, s[1..])
  }

  lemma {:induction false} InsertUniqueIncreasing(x: string, s: seq<string>)
    requires StrictlyIncreasing(s)
    ensures StrictlyIncreasing(InsertUnique(x, s))
  {
    if s == [] {
    } else if x == s[0] {
    } else if Less(x, s[0]) {
      var r := [x] + s;
      forall i, j | 0 <= i < j < |r| ensures Less(r[i], r[j]) {
        if i == 0 && j > 1 {
          assert r[j] == s[j - 1];
          LessTransitive(x, s[0], s[j - 1]);
        }
      }
    } else {
      LessTotal(x, s[0]);
      var t := InsertUnique(x, s[1..]);
      InsertUniqueIncreasing(x, s[1..]);
      forall y | y in t ensures Less(s[0], y) {
        if y != x {
          var j :| 0 <= j < |s[1..]| && s[1..][j] == y;
          assert s[j + 1] == y;
        }
      }
      var r := [s[0]] + t;
      forall i, j | 0 <= i < j < |r| ensures Less(r[i], r[j]) {
        if i == 0 {
          assert r[j] == t[j - 1] && t[j - 1] in t;
        } else {
          assert r[i] == t[i - 1] && r[j] == t[j - 1];
        }
      }
    }
  }

  /** `sorted(set(brands))`. */
  function SortedUnique(brands: seq<string>): (r: seq<string>)
    ensures forall b :: b in r <==> b in brands
  {
    if brands == [] then []
    else
      assert forall b :: b in brands <==> b == brands[0] || b in brands[1..] by {
        assert brands == [brands[0]] + brands[1..];
      }
      InsertUnique(brands[0], SortedUnique(brands[1..]))
  }

  /** The distinct brands come out strictly increasing, hence each once. */
  lemma {:induction false} SortedUniqueIncreasing(brands: seq<string>)
    ensures StrictlyIncreasing(SortedUnique(brands))
  {
    if brands != [] {
      SortedUniqueIncreasing(brands[1..]);
      InsertUniqueIncreasing(brands[0], SortedUnique(brands[1..]));
    }
  }

  /** The Brand column. */
  function Brands(rows: seq<Row>): (bs: seq<string>)
  {
    seq(|rows|, i requires 0 <= i < |rows| => rows[i].brand)
  }

  /** Where row `k`'s brand sits among the distinct brands. */
  lemma BrandIndex(rows: seq<Row>, k: int) returns (idx: nat)
    requires 0 <= k < |rows|
    ensures idx < |SortedUnique(Brands(rows))| && SortedUnique(Brands(rows))[idx] == rows[k].brand
  {
    var bs := Brands(rows);
    assert bs[k] in bs;
    var u := SortedUnique(bs);
    assert rows[k].brand in u;
    idx :| 0 <= idx < |u| && u[idx] == rows[k].brand;
  }

  /** Every distinct brand is some row's brand. */
  lemma RowOfBrand(rows: seq<Row>, b: string)
    requires b in SortedUnique(Brands(rows))
    ensures exists i :: 0 <= i < |rows| && rows[i].brand == b
  {
    var bs := Brands(rows);
    assert b in bs;
    var i :| 0 <= i < |bs| && bs[i] == b;
  }

  /** Every entry of the two dictionaries is the resolver's answer for its key. */
  ghost predicate Recorded(wiki: Wiki, wikiFlag: map<string, nat>, wikiTitle: map<string, Option<string>>)
  {
    && (forall b {:trigger wikiFlag[b]} :: b in wikiFlag ==> wikiFlag[b] == Resolve(wiki, b).flag)
    && (forall b {:trigger wikiTitle[b]} :: b in wikiTitle ==> wikiTitle[b] == Resolve(wiki, b).title)
  }

  /** Storing the resolver's answer for `b` keeps every entry correct. */
  lemma RecordedUpdate(wiki: Wiki, wikiFlag: map<string, nat>, wikiTitle: map<string, Option<string>>,
                       b: string, has: nat, title: Option<string>)
    requires Recorded(wiki, wikiFlag, wikiTitle)
    requires Resolution(has, title) == Resolve(wiki, b)
    ensures Recorded(wiki, wikiFlag[b := has], wikiTitle[b := title])
  {
    var flags, titles := wikiFlag[b := has], wikiTitle[b := title];
    forall x | x in flags ensures flags[x] == Resolve(wiki, x).flag {
      if x != b {
        assert flags[x] == wikiFlag[x];
      }
    }
    forall x | x in titles ensures titles[x] == Resolve(wiki, x).title {
      if x != b {
        assert titles[x] == wikiTitle[x];
      }
    }
  }

  /** One pass of the loop body: resolve `b` and store the answer under `b`.
      The two dictionaries gain the key `b` and every entry stays correct,
      which determines them completely. */
  method RecordAnswer(wiki: Wiki, wikiFlag: map<string, nat>, wikiTitle: map<string, Option<string>>, b: string)
    returns (flags: map<string, nat>, titles: map<string, Option<string>>)
    requires Recorded(wiki, wikiFlag, wikiTitle)
    ensures forall x :: x in flags <==> x in wikiFlag || x == b
    ensures forall x :: x in titles <==> x in wikiTitle || x == b
    ensures Recorded(wiki, flags, titles)
  {
    var has, title := HasWikipediaPage(wiki, b);
    RecordedUpdate(wiki, wikiFlag, wikiTitle, b, has, title);
    flags := wikiFlag[b := has];
    titles := wikiTitle[b := title];
  }

  /** The loop of `compute_haswiki_flags`: call the resolver on each brand
      in turn and record its answer; `queried` is the order of the calls. */
  method ResolveEachBrand(wiki: Wiki, brands: seq<string>)
    returns (wikiFlag: map<string, nat>, wikiTitle: map<string, Option<string>>, queried: seq<string>)
    ensures queried == brands
    ensures forall k :: 0 <= k < |brands| ==> brands[k] in wikiFlag && brands[k] in wikiTitle
    ensures forall x :: x in wikiFlag <==> x in brands
    ensures forall x :: x in wikiTitle <==> x in brands
    ensures Recorded(wiki, wikiFlag, wikiTitle)
  {
    wikiFlag, wikiTitle := map[], map[];
    queried := [];
    for i := 0 to |brands|
      invariant queried == brands[..i]
      invariant forall x :: x in wikiFlag <==> x in queried
      invariant forall x :: x in wikiTitle <==> x in queried
      invariant Recorded(wiki, wikiFlag, wikiTitle)
    {
      var b := brands[i];
      wikiFlag, wikiTitle := RecordAnswer(wiki, wikiFlag, wikiTitle, b);
      assert brands[..i + 1] == queried + [b];
      queried := queried + [b];
    }
    assert queried == brands;
  }

  /** `df["Brand"].map(wiki_flag).fillna(0)` and `df["Brand"].map(wiki_title)`:
      a brand missing from the dictionaries gets 0 and no title. */
  function JoinFlags(rows: seq<Row>, wikiFlag: map<string, nat>, wikiTitle: map<string, Option<string>>)
    : (out: seq<Row>)
    ensures |out| == |rows|
    ensures forall k :: 0 <= k < |rows| && rows[k].brand in wikiFlag && rows[k].brand in wikiTitle ==>
      out[k] == rows[k].(hasWiki := wikiFlag[rows[k].brand], wikiTitle := wikiTitle[rows[k].brand])
  {
    seq(|rows|, k requires 0 <= k < |rows| =>
      rows[k].(hasWiki := if rows[k].brand in wikiFlag then wikiFlag[rows[k].brand] else 0,
               wikiTitle := if rows[k].brand in wikiTitle then wikiTitle[rows[k].brand] else None))
  }

  /** `compute_haswiki_flags`: each distinct brand is resolved once, in
      sorted order (`queried`), and every row carries its brand's answer. */
  method ComputeHasWikiFlags(wiki: Wiki, rows: seq<Row>) returns (out: seq<Row>, queried: seq<string>)
    ensures queried == SortedUnique(Brands(rows))
    ensures StrictlyIncreasing(queried)
    ensures forall b :: b in queried <==> exists i :: 0 <= i < |rows| && rows[i].brand == b
    ensures |out| == |rows|
    ensures forall i :: 0 <= i < |rows| ==>
      out[i] == rows[i].(hasWiki := Resolve(wiki, rows[i].brand).flag,
                         wikiTitle := Resolve(wiki, rows[i].brand).title)
  {
    var brands := SortedUnique(Brands(rows));
    var wikiFlag, wikiTitle;
    wikiFlag, wikiTitle, queried := ResolveEachBrand(wiki, brands);
    forall k | 0 <= k < |rows| ensures rows[k].brand in wikiFlag && rows[k].brand in wikiTitle {
      var idx := BrandIndex(rows, k);
    }
    out := JoinFlags(rows, wikiFlag, wikiTitle);
    forall b | b in queried ensures exists i :: 0 <= i < |rows| && rows[i].brand == b {
      RowOfBrand(rows, b);
    }
    SortedUniqueIncreasing(Brands(rows));
  }
}
