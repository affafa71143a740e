/**
 * The width-selection fold of the responsive-image service: a left fold over the
 * supported widths of an image, seeded with 0, that keeps the smallest width
 * reaching the target and otherwise the largest width seen.
 */
module WidthSelection {

  /**
   * `r` is the best fit for target `t` among `cands`: a member of `cands` that
   * reaches the target and is the smallest such member when some member reaches
   * the target, and the largest member otherwise.
   */
  ghost predicate IsBestFit(r: int, cands: seq<int>, t: real)
  {
    && r in cands
    && forall c :: c in cands ==>
         && (c as real >= t ==> t <= r as real <= c as real)
         && (r as real < t ==> c <= r)
  }

  /**
   * The reducer callback: `prevValue` is the running value, `item` the next
   * supported width. The result is the better fit of the two.
   */
  function PickWidth(prevValue: int, item: int, t: real): (r: int)
    ensures r == prevValue || r == item
    ensures IsBestFit(r, [prevValue, item], t)
  {
    if item as real >= t && prevValue as real >= t then
      (if item >= prevValue then prevValue else item)
    else
      (if item >= prevValue then item else prevValue)
  }

  /** `ws.reduce(PickWidth, acc)`: index 0 is combined with the seed first. */
  function ReduceWidths(ws: seq<int>, t: real, acc: int): (r: int)
    ensures r == acc || r in ws
    decreases |ws|
  {
    if ws == [] then acc else ReduceWidths(ws[1..], t, PickWidth(acc, ws[0], t))
  }

  /** The supported width chosen for target `t`: the fold seeded with 0. */
  function SelectWidth(ws: seq<int>, t: real): (r: int)
    ensures r == 0 || r in ws
  {
    ReduceWidths(ws, t, 0)
  }

  /** The fold computes the best fit among its seed and every width it visits. */
  lemma {:induction false} ReduceIsBestFit(ws: seq<int>, t: real, acc: int)
    ensures IsBestFit(ReduceWidths(ws, t, acc), [acc] + ws, t)
    decreases |ws|
  {
    if ws != [] {
      var s := PickWidth(acc, ws[0], t);
      var r := ReduceWidths(ws, t, acc);
      ReduceIsBestFit(ws[1..], t, s);
      assert r == ReduceWidths(ws[1..], t, s);
      assert ws == [ws[0]] + ws[1..];
      assert s in [s] + ws[1..];
      forall c | c in [acc] + ws
        ensures c as real >= t ==> t <= r as real <= c as real
        ensures r as real < t ==> c <= r
      {
        if c != acc && c != ws[0] {
          assert c in ws[1..];
          assert c in [s] + ws[1..];
        } else {
          assert c in [acc, ws[0]];
        }
      }
      assert r in [acc] + ws by {
        if r != s {
          assert r in ws[1..];
        } else if s == acc {
        } else {
          assert s == ws[0];
        }
      }
    }
  }

  /** The selection is the best fit among the seed 0 and the supported widths. */
  lemma SelectIsBestFit(ws: seq<int>, t: real)
    ensures IsBestFit(SelectWidth(ws, t), [0] + ws, t)
  {
    ReduceIsBestFit(ws, t, 0);
  }

  /** A best fit is determined by the target and the members of the candidates. */
  lemma BestFitUnique(r1: int, c1: seq<int>, r2: int, c2: seq<int>, t: real)
    requires forall x :: x in c1 <==> x in c2
    requires IsBestFit(r1, c1, t) && IsBestFit(r2, c2, t)
    ensures r1 == r2
  {
    assert r1 in c2 && r2 in c1;
  }

  /**
   * With a positive target, when some supported width reaches the target the
   * selection is the smallest width that does.
   */
  lemma SelectSmallestSufficient(ws: seq<int>, t: real)
    requires t > 0.0
    requires exists i :: 0 <= i < |ws| && ws[i] as real >= t
    ensures SelectWidth(ws, t) in ws
    ensures SelectWidth(ws, t) as real >= t
    ensures forall i :: 0 <= i < |ws| && ws[i] as real >= t ==> SelectWidth(ws, t) <= ws[i]
  {
    var r := SelectWidth(ws, t);
    SelectIsBestFit(ws, t);
    var i :| 0 <= i < |ws| && ws[i] as real >= t;
    assert ws[i] in [0] + ws;
    forall j | 0 <= j < |ws| && ws[j] as real >= t
      ensures r <= ws[j]
    {
      assert ws[j] in [0] + ws;
    }
  }

  /**
   * With a positive target, when no supported width reaches the target and the
   * widths are not negative, the selection is the largest supported width.
   */
  lemma SelectFallsBackToLargest(ws: seq<int>, t: real)
    requires t > 0.0
    requires |ws| > 0
    requires forall i :: 0 <= i < |ws| ==> ws[i] >= 0
    requires forall i :: 0 <= i < |ws| ==> (ws[i] as real) < t
    ensures SelectWidth(ws, t) in ws
    ensures forall i :: 0 <= i < |ws| ==> ws[i] <= SelectWidth(ws, t)
  {
    var r := SelectWidth(ws, t);
    SelectIsBestFit(ws, t);
    assert ws[0] in [0] + ws;
    forall i | 0 <= i < |ws|
      ensures ws[i] <= r
    {
      assert ws[i] in [0] + ws;
    }
  }

  /**
   * With a positive target and positive widths, the selection is one of the
   * supported widths; it is the seed 0 exactly when there are none.
   */
  lemma SelectIsMember(ws: seq<int>, t: real)
    requires t > 0.0
    requires forall i :: 0 <= i < |ws| ==> ws[i] > 0
    ensures |ws| > 0 <==> SelectWidth(ws, t) in ws
    ensures |ws| == 0 <==> SelectWidth(ws, t) == 0
  {
    if |ws| > 0 {
      if exists i :: 0 <= i < |ws| && ws[i] as real >= t {
        SelectSmallestSufficient(ws, t);
      } else {
        SelectFallsBackToLargest(ws, t);
      }
      var i :| 0 <= i < |ws| && ws[i] == SelectWidth(ws, t);
    }
  }

  /**
   * With a target of at most 0 and no negative widths, the seed 0 already
   * reaches the target and the fold never replaces it.
   */
  lemma SelectNonPositiveTarget(ws: seq<int>, t: real)
    requires t <= 0.0
    requires forall i :: 0 <= i < |ws| ==> ws[i] >= 0
    ensures SelectWidth(ws, t) == 0
  {
    SelectIsBestFit(ws, t);
    assert 0 in [0] + ws;
  }

  /** Reordering the supported widths does not change the selection. */
  lemma SelectPermutation(ws1: seq<int>, ws2: seq<int>, t: real)
    requires multiset(ws1) == multiset(ws2)
    ensures SelectWidth(ws1, t) == SelectWidth(ws2, t)
  {
    SelectIsBestFit(ws1, t);
    SelectIsBestFit(ws2, t);
    forall x
      ensures x in [0] + ws1 <==> x in [0] + ws2
    {
      assert x in ws1 <==> x in multiset(ws1);
      assert x in ws2 <==> x in multiset(ws2);
    }
    BestFitUnique(SelectWidth(ws1, t), [0] + ws1, SelectWidth(ws2, t), [0] + ws2, t);
  }

  /** A larger target never yields a smaller best fit. */
  lemma BestFitMonotone(r1: int, r2: int, cands: seq<int>, t1: real, t2: real)
    requires t1 <= t2
    requires IsBestFit(r1, cands, t1) && IsBestFit(r2, cands, t2)
    ensures r1 <= r2
  {
    if r2 as real >= t2 {
      assert r2 as real >= t1;
    } else if r1 as real < t1 {
      assert r2 <= r1 && r1 <= r2;
    } else {
      assert r1 in cands;
    }
  }

  /** A larger target never yields a smaller selected width. */
  lemma SelectMonotone(ws: seq<int>, t1: real, t2: real)
    requires t1 <= t2
    ensures SelectWidth(ws, t1) <= SelectWidth(ws, t2)
  {
    SelectIsBestFit(ws, t1);
    SelectIsBestFit(ws, t2);
    BestFitMonotone(SelectWidth(ws, t1), SelectWidth(ws, t2), [0] + ws, t1, t2);
  }

  /**
   * Widths 40, 80 and 160: a target of 70 selects 80, the smallest width
   * reaching it; a target of 500 selects 160, the largest width.
   */
  lemma SelectExamples()
    ensures SelectWidth([40, 80, 160], 70.0) == 80
    ensures SelectWidth([40, 80, 160], 500.0) == 160
  {
    var ws := [40, 80, 160];
    assert ws[1] as real >= 70.0;
    SelectSmallestSufficient(ws, 70.0);
    SelectFallsBackToLargest(ws, 500.0);
  }
}
