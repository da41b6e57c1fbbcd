/** String helpers with Python's meaning: `str.lower`, `str.strip`, the
    substring test `needle in hay`, and the code-point order `sorted` uses. */
module Text {

  /* ---------------------------------------------------------------------
     Lower case (ASCII letters only; see README "Left out")
     --------------------------------------------------------------------- */

  function LowerChar(c: char): (d: char)
    ensures !('A' <= d <= 'Z')
    ensures d != c ==> 'A' <= c <= 'Z' && 'a' <= d <= 'z'
    ensures IsSpace(d) == IsSpace(c)
  {
    if 'A' <= c <= 'Z' then (c as int + 32) as char else c
  }

  /** `s.lower()`, character by character. */
  function Lower(s: string): (r: string)
    ensures |r| == |s|
    ensures forall i :: 0 <= i < |s| ==> r[i] == LowerChar(s[i])
  {
    if s == [] then [] else [LowerChar(s[0])] + Lower(s[1..])
  }

  /** Lowering twice changes nothing more. */
  lemma LowerIdempotent(s: string)
    ensures Lower(Lower(s)) == Lower(s)
  {
    assert forall i :: 0 <= i < |s| ==> LowerChar(LowerChar(s[i])) == LowerChar(s[i]);
  }

  /* ---------------------------------------------------------------------
     Whitespace and strip()
     --------------------------------------------------------------------- */

  /** Python's `str.isspace` for one code point: the characters that a
      no-argument `strip()` removes. */
  predicate IsSpace(c: char)
  {
    var n := c as int;
    (9 <= n <= 13) || (0x1C <= n <= 0x20) || n == 0x85 || n == 0xA0 || n == 0x1680
    || (0x2000 <= n <= 0x200A) || n == 0x2028 || n == 0x2029 || n == 0x202F
    || n == 0x205F || n == 0x3000
  }

  predicate AllSpace(s: string)
  {
    forall i :: 0 <= i < |s| ==> IsSpace(s[i])
  }

  /** `s.lstrip()` */
  function StripLeft(s: string): (r: string)
    ensures |r| <= |s| && r == s[|s| - |r|..]
    ensures r != [] ==> !IsSpace(r[0])
  {
    if s != [] && IsSpace(s[0]) then StripLeft(s[1..]) else s
  }

  /** `s.rstrip()` */
  function StripRight(s: string): (r: string)
    ensures |r| <= |s| && r == s[..|r|]
    ensures r != [] ==> !IsSpace(r[|r| - 1])
  {
    if s != [] && IsSpace(s[|s| - 1]) then StripRight(s[..|s| - 1]) else s
  }

  /** `s.strip()` */
  function Strip(s: string): string
  {
    StripRight(StripLeft(s))
  }

  lemma {:induction false} StripLeftEmpty(s: string)
    ensures StripLeft(s) == [] <==> AllSpace(s)
  {
    if s != [] && IsSpace(s[0]) {
      StripLeftEmpty(s[1..]);
      assert forall i :: 1 <= i < |s| ==> s[i] == s[1..][i - 1];
    }
  }

  lemma {:induction false} StripRightEmpty(s: string)
    ensures StripRight(s) == [] <==> AllSpace(s)
  {
    if s != [] && IsSpace(s[|s| - 1]) {
      StripRightEmpty(s[..|s| - 1]);
      assert forall i :: 0 <= i < |s| - 1 ==> s[i] == s[..|s| - 1][i];
    }
  }

  /** `s.strip() == ""` holds exactly when every character is whitespace
      (the empty string included). */
  lemma StripEmptyIffAllSpace(s: string)
    ensures Strip(s) == [] <==> AllSpace(s)
  {
    var t := StripLeft(s);
    StripLeftEmpty(s);
    StripRightEmpty(t);
    if t != [] {
      assert !IsSpace(t[0]);
    }
  }

  /** Lowering neither makes nor unmakes a blank string. */
  lemma LowerKeepsSpace(s: string)
    ensures AllSpace(Lower(s)) == AllSpace(s)
  {
    var l := Lower(s);
    forall i | 0 <= i < |s| ensures IsSpace(l[i]) == IsSpace(s[i]) {
      assert l[i] == LowerChar(s[i]);
    }
  }

  /* ---------------------------------------------------------------------
     Substring test `needle in hay`
     --------------------------------------------------------------------- */

  /** `needle` occurs in `hay` starting at index `i`. */
  predicate OccursAt(needle: string, hay: string, i: int)
  {
    0 <= i <= |hay| - |needle| && hay[i..i + |needle|] == needle
  }

  /** The reference meaning of `needle in hay`. */
  ghost predicate IsSubstring(needle: string, hay: string)
  {
    exists i :: OccursAt(needle, hay, i)
  }

  /** The executable scan: try each start position from the left. */
  function Contains(hay: string, needle: string): bool
    decreases |hay|
  {
    if |needle| > |hay| then false
    else if hay[..|needle|] == needle then true
    else Contains(hay[1..], needle)
  }

  /** Occurrences in `hay[1..]` are the occurrences in `hay` shifted by one. */
  lemma OccursShift(needle: string, hay: string, i: int)
    requires hay != [] && 1 <= i
    ensures OccursAt(needle, hay, i) <==> OccursAt(needle, hay[1..], i - 1)
  {
    if 0 <= i - 1 <= |hay| - 1 - |needle| {
      var a, b := hay[i..i + |needle|], hay[1..][i - 1..i - 1 + |needle|];
      assert |a| == |b|;
      forall k | 0 <= k < |a| ensures a[k] == b[k] {
        assert a[k] == hay[i + k];
        assert b[k] == hay[1..][i - 1 + k];
      }
      assert a == b;
    }
  }

  /** A haystack that contains a needle is at least as long as it. */
  lemma {:induction false} ContainsLonger(hay: string, needle: string)
    ensures Contains(hay, needle) ==> |needle| <= |hay|
    decreases |hay|
  {
    if |needle| <= |hay| && hay[..|needle|] != needle {
      ContainsLonger(hay[1..], needle);
    }
  }

  lemma {:induction false} ContainsIsSubstring(hay: string, needle: string)
    ensures Contains(hay, needle) <==> IsSubstring(needle, hay)
    decreases |hay|
  {
    if |needle| > |hay| {
      assert forall i :: !OccursAt(needle, hay, i);
    } else if hay[..|needle|] == needle {
      assert OccursAt(needle, hay, 0);
    } else {
      var tail := hay[1..];
      ContainsIsSubstring(tail, needle);
      assert !OccursAt(needle, hay, 0);
      if IsSubstring(needle, hay) {
        var i :| OccursAt(needle, hay, i);
        OccursShift(needle, hay, i);
      }
      if IsSubstring(needle, tail) {
        var j :| OccursAt(needle, tail, j);
        OccursShift(needle, hay, j + 1);
      }
    }
  }

  /** An occurrence survives lowering both strings. */
  lemma OccursAtLower(needle: string, hay: string, i: int)
    requires OccursAt(needle, hay, i)
    ensures OccursAt(Lower(needle), Lower(hay), i)
  {
    var ln, lh := Lower(needle), Lower(hay);
    forall k | 0 <= k < |needle| ensures lh[i..i + |needle|][k] == ln[k] {
      assert hay[i + k] == needle[k];
    }
  }

  /** The empty string occurs in every string, as in Python. */
  lemma EmptyIsSubstring(hay: string)
    ensures Contains(hay, "")
  {
    assert hay[..0] == "";
  }

  /* ---------------------------------------------------------------------
     Code-point order on strings (Python's `<` on str)
     --------------------------------------------------------------------- */

  predicate Less(a: string, b: string)
    decreases |a|
  {
    if a == [] then b != []
    else if b == [] then false
    else if a[0] < b[0] then true
    else if a[0] == b[0] then Less(a[1..], b[1..])
    else false
  }

  lemma {:induction false} LessIrreflexive(a: string)
    ensures !Less(a, a)
    decreases |a|
  {
    if a != [] {
      LessIrreflexive(a[1..]);
    }
  }

  lemma {:induction false} LessTransitive(a: string, b: string, c: string)
    requires Less(a, b) && Less(b, c)
    ensures Less(a, c)
    decreases |a|
  {
    if a != [] && b != [] && c != [] && a[0] == b[0] == c[0] {
      LessTransitive(a[1..], b[1..], c[1..]);
    }
  }

  lemma {:induction false} LessTotal(a: string, b: string)
    requires a != b
    ensures Less(a, b) || Less(b, a)
    decreases |a|
  {
    if a != [] && b != [] && a[0] == b[0] {
      assert a == [a[0]] + a[1..] && b == [b[0]] + b[1..];
      LessTotal(a[1..], b[1..]);
    }
  }
}
