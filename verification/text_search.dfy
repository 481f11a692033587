/**
 * Substring search over text, as the review panel uses it: `str::contains`
 * and `str::rmatch_indices`, the latter giving the non-overlapping
 * occurrences of a term scanning from the end of the text, last match
 * first.
 *
 * Text is a sequence of Unicode scalar values, so an index into it is
 * already the character offset the program computes by counting the
 * characters in front of each byte offset.
 */
module TextSearch {

  /** Whether `p` occurs in `t` starting at `i`. */
  predicate OccursAt(t: string, p: string, i: int)
  {
    0 <= i && i + |p| <= |t| && t[i..i + |p|] == p
  }

  /** `str::contains`. */
  predicate Contains(t: string, p: string)
  {
    exists i | 0 <= i <= |t| - |p| :: OccursAt(t, p, i)
  }

  /**
   * The start offsets `rmatch_indices` yields over `t[..end]`: scanning
   * from the end, the rightmost occurrence that ends by `end`, then the
   * same search in front of it. An empty term matches at every offset,
   * from `end` down to 0.
   */
  function RMatchStarts(t: string, p: string, end: nat): (r: seq<nat>)
    requires end <= |t|
    decreases end
  {
    if |p| == 0 then
      if end == 0 then [0] else [end] + RMatchStarts(t, p, end - 1)
    else if end < |p| then []
    else if t[end - |p|..end] == p then [end - |p|] + RMatchStarts(t, p, end - |p|)
    else RMatchStarts(t, p, end - 1)
  }

  /** Every start yielded is an occurrence of the term that ends by `end`. */
  lemma {:induction false} RMatchStartsAreOccurrences(t: string, p: string, end: nat)
    requires end <= |t|
    ensures forall k :: 0 <= k < |RMatchStarts(t, p, end)| ==>
      OccursAt(t, p, RMatchStarts(t, p, end)[k]) && RMatchStarts(t, p, end)[k] + |p| <= end
    decreases end
  {
    if |p| == 0 {
      if end > 0 {
        RMatchStartsAreOccurrences(t, p, end - 1);
      }
    } else if end < |p| {
    } else if t[end - |p|..end] == p {
      RMatchStartsAreOccurrences(t, p, end - |p|);
    } else {
      RMatchStartsAreOccurrences(t, p, end - 1);
    }
  }

  /** Each element lies at least `gap` below, and strictly below, the one before it. */
  predicate DescendingBy(r: seq<nat>, gap: nat)
  {
    forall k | 1 <= k < |r| :: r[k] + gap <= r[k - 1] && r[k] < r[k - 1]
  }

  /**
   * Matches come last first and do not overlap: each start lies at least a
   * term's length before the previous one (strictly before it for the empty
   * term).
   */
  lemma {:induction false} RMatchStartsDescending(t: string, p: string, end: nat)
    requires end <= |t|
    ensures DescendingBy(RMatchStarts(t, p, end), |p|)
    decreases end
  {
    var r := RMatchStarts(t, p, end);
    if |p| == 0 {
      if end > 0 {
        RMatchStartsDescending(t, p, end - 1);
        var rest := RMatchStarts(t, p, end - 1);
        assert r == [end] + rest;
        assert rest[0] == end - 1;
        forall k | 1 <= k < |r|
          ensures r[k] < r[k - 1]
        {
          assert r[k] == rest[k - 1];
          if k > 1 {
            assert r[k - 1] == rest[k - 2];
          }
        }
      }
    } else if end < |p| {
    } else if t[end - |p|..end] == p {
      RMatchStartsDescending(t, p, end - |p|);
      RMatchStartsAreOccurrences(t, p, end - |p|);
      var rest := RMatchStarts(t, p, end - |p|);
      assert r == [end - |p|] + rest;
      forall k | 1 <= k < |r|
        ensures r[k] + |p| <= r[k - 1]
      {
        assert r[k] == rest[k - 1];
        if k > 1 {
          assert r[k - 1] == rest[k - 2];
        } else {
          assert rest[0] + |p| <= end - |p|;
        }
      }
    } else {
      RMatchStartsDescending(t, p, end - 1);
    }
  }

  /** No occurrence ends at `end`: the scan over `t[..end]` finds what the scan over `t[..end - 1]` finds. */
  lemma FindsLastSkip(t: string, p: string, end: nat)
    requires 0 < |p| <= end <= |t| && t[end - |p|..end] != p
    requires var r := RMatchStarts(t, p, end - 1);
      && (|r| > 0 <==> exists i | 0 <= i <= end - 1 - |p| :: OccursAt(t, p, i))
      && (|r| > 0 ==> forall i :: r[0] < i <= end - 1 - |p| ==> !OccursAt(t, p, i))
    ensures var r := RMatchStarts(t, p, end);
      && (|r| > 0 <==> exists i | 0 <= i <= end - |p| :: OccursAt(t, p, i))
      && (|r| > 0 ==> forall i :: r[0] < i <= end - |p| ==> !OccursAt(t, p, i))
  {
    assert RMatchStarts(t, p, end) == RMatchStarts(t, p, end - 1);
    assert !OccursAt(t, p, end - |p|);
    if exists i | 0 <= i <= end - |p| :: OccursAt(t, p, i) {
      var i :| 0 <= i <= end - |p| && OccursAt(t, p, i);
      assert i <= end - 1 - |p|;
    }
  }

  /**
   * The scan finds something exactly when the term occurs in `t[..end]`,
   * and the first start yielded is the rightmost occurrence there.
   */
  lemma {:induction false} RMatchStartsFindsLast(t: string, p: string, end: nat)
    requires end <= |t|
    ensures |RMatchStarts(t, p, end)| > 0 <==> exists i | 0 <= i <= end - |p| :: OccursAt(t, p, i)
    ensures |RMatchStarts(t, p, end)| > 0 ==>
      forall i :: RMatchStarts(t, p, end)[0] < i <= end - |p| ==> !OccursAt(t, p, i)
    decreases end
  {
    if |p| == 0 {
      assert OccursAt(t, p, end);
    } else if end < |p| {
    } else if t[end - |p|..end] == p {
      assert OccursAt(t, p, end - |p|);
    } else {
      RMatchStartsFindsLast(t, p, end - 1);
      FindsLastSkip(t, p, end);
    }
  }

  /**
   * The character ranges recorded for a search hit: one `(from, to)` per
   * match of `rmatch_indices`, last match first.
   */
  function MatchPositions(t: string, p: string): (r: seq<(nat, nat)>)
  {
    var starts := RMatchStarts(t, p, |t|);
    seq(|starts|, k requires 0 <= k < |starts| => (starts[k], starts[k] + |p|))
  }

  /**
   * The recorded ranges: present exactly when the text contains the term,
   * each spanning the term's length in characters and covering an
   * occurrence of it, listed from the last match backwards without overlap.
   */
  lemma MatchPositionsProperties(t: string, p: string)
    ensures var r := MatchPositions(t, p);
      && (|r| > 0 <==> Contains(t, p))
      && (forall k :: 0 <= k < |r| ==> r[k].1 - r[k].0 == |p| && r[k].1 <= |t| && t[r[k].0..r[k].1] == p)
      && (forall k | 1 <= k < |r| :: r[k].1 <= r[k - 1].0 && r[k].0 < r[k - 1].0)
  {
    RMatchStartsAreOccurrences(t, p, |t|);
    RMatchStartsDescending(t, p, |t|);
    RMatchStartsFindsLast(t, p, |t|);
  }

  /** Worked case: in "我爱中国" the term "中国" is found once, at character 2. */
  lemma MatchPositionsExample()
    ensures MatchPositions("我爱中国", "中国") == [(2, 4)]
  {
    var t, p := "我爱中国", "中国";
    assert RMatchStarts(t, p, 1) == [];
    assert t[0..2][0] == '我';
    assert RMatchStarts(t, p, 2) == RMatchStarts(t, p, 1);
    assert t[2..4] == p;
    assert RMatchStarts(t, p, 4) == [2];
  }
}
