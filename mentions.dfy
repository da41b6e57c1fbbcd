/** The Mentioned flag: a case-insensitive substring test, forced to 0 for a
    blank response. */
module Mentions {
  import opened Text
  import opened Records

  /** Mentioned for one (brand, response) pair, computed as the labeller
      does: the raw substring flag, then the blank-response override. */
  function MentionFlag(brand: string, response: string): (m: nat)
    ensures m <= 1
    ensures AllSpace(response) ==> m == 0
    ensures !AllSpace(response) ==> (m == 1 <==> IsSubstring(Lower(brand), Lower(response)))
  {
    StripEmptyIffAllSpace(response);
    ContainsIsSubstring(Lower(response), Lower(brand));
    var empty := Strip(response) == "";
    var raw := if Contains(Lower(response), Lower(brand)) then 1 else 0;
    if empty then 0 else raw
  }

  /** What a labelled row satisfies. */
  ghost predicate Labelled(r: Row)
  {
    && r.mentioned <= 1
    && r.responseEmpty == AllSpace(r.response)
    && (r.responseEmpty ==> r.mentioned == 0)
    && (!r.responseEmpty ==> (r.mentioned == 1 <==> IsSubstring(Lower(r.brand), Lower(r.response))))
  }

  function LabelRow(r: Row): (l: Row)
    ensures Labelled(l)
    ensures l == r.(responseEmpty := l.responseEmpty, mentioned := l.mentioned)
  {
    StripEmptyIffAllSpace(r.response);
    r.(responseEmpty := Strip(r.response) == "", mentioned := MentionFlag(r.brand, r.response))
  }

  /** The labelling stage: adds ResponseEmpty and Mentioned to every row and
      changes no other column. */
  function LabelMentions(rows: seq<Row>): (r: seq<Row>)
    ensures |r| == |rows|
    ensures forall i :: 0 <= i < |rows| ==> r[i] == LabelRow(rows[i])
  {
    if rows == [] then []
    else [LabelRow(rows[0])] + LabelMentions(rows[1..])
  }

  /** A visible occurrence of the lowered brand in a non-blank response is a mention. */
  lemma MentionedWhenOccurs(brand: string, response: string, i: int)
    requires !AllSpace(response)
    requires OccursAt(Lower(brand), Lower(response), i)
    ensures MentionFlag(brand, response) == 1
  {
  }

  /** Worked example: the brand named in the response. */
  lemma MentionExampleApple()
    ensures MentionFlag("Apple", "Yes, Apple is great") == 1
  {
    var resp := "Yes, Apple is great";
    assert !IsSpace(resp[0]);
    assert OccursAt("Apple", resp, 5);
    OccursAtLower("Apple", resp, 5);
    MentionedWhenOccurs("Apple", resp, 5);
  }

  /** Worked example: an empty or whitespace-only response is never a mention. */
  lemma MentionExampleBlank()
    ensures MentionFlag("Dell", "") == 0
    ensures MentionFlag("Dell", " \t\n") == 0
  {
  }

  /** Edge case: as `"" in s` is true in Python, an empty brand is
      mentioned by every non-blank response. */
  lemma MentionEmptyBrand(response: string)
    requires !AllSpace(response)
    ensures MentionFlag("", response) == 1
  {
    assert Lower("") == "";
    EmptyIsSubstring(Lower(response));
    ContainsIsSubstring(Lower(response), "");
  }

  /** Mentioned does not depend on letter case in either column. */
  lemma MentionCaseInsensitive(brand: string, response: string)
    ensures MentionFlag(Lower(brand), Lower(response)) == MentionFlag(brand, response)
  {
    var lb, lr := Lower(brand), Lower(response);
    LowerIdempotent(brand);
    LowerIdempotent(response);
    LowerKeepsSpace(response);
    var m1, m2 := MentionFlag(lb, lr), MentionFlag(brand, response);
    assert m1 <= 1 && m2 <= 1;
  }
}
