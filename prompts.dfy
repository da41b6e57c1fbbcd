/** The two stages that fill Prompt and Response. */
module Prompts {
  import opened Records

  /** The yes/no question asked about one brand. */
  function PromptFor(brand: string, category: string): string
  {
    "Is " + brand + " a good " + category + " brand?"
  }

  /** The Prompt column: every row gets its brand's question, nothing else
      changes and no row is added or lost. */
  function BuildPrompts(rows: seq<Row>): (r: seq<Row>)
    ensures |r| == |rows|
    ensures forall i :: 0 <= i < |rows| ==>
      r[i] == rows[i].(prompt := PromptFor(rows[i].brand, rows[i].category))
  {
    if rows == [] then []
    else [rows[0].(prompt := PromptFor(rows[0].brand, rows[0].category))] + BuildPrompts(rows[1..])
  }

  /** The canned demo responses. */
  const Seed: seq<string> := [
    "Yes, Apple is one of the most popular laptop brands.",
    "Yes, Dell laptops are known for reliability.",
    "HP is a solid laptop brand with many models."
  ]

  /** The Response a seeded table holds at position `i`. */
  function SeededResponse(i: nat): string
  {
    if i < |Seed| then Seed[i] else ""
  }

  /** Blank the Response column, then write the seed texts into the first
      rows, skipping texts for positions the table does not have. */
  method SeedSampleResponses(rows: seq<Row>) returns (out: seq<Row>)
    ensures |out| == |rows|
    ensures forall i :: 0 <= i < |rows| ==> out[i] == rows[i].(response := SeededResponse(i))
    ensures forall i :: |Seed| <= i < |rows| ==> out[i].response == ""
  {
    out := seq(|rows|, k requires 0 <= k < |rows| => rows[k].(response := ""));
    var i := 0;
    while i < |Seed|
      invariant 0 <= i <= |Seed|
      invariant |out| == |rows|
      invariant forall k :: 0 <= k < |rows| ==>
        out[k] == rows[k].(response := if k < i then Seed[k] else "")
    {
      if i < |out| {
        out := out[i := out[i].(response := Seed[i])];
      }
      i := i + 1;
    }
  }
}
