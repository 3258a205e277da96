/**
 * The counting behind `get_class_distribution`: how often each label value
 * occurs, the ascending run over the values present (the order `np.unique`
 * returns them in), and the insertion-ordered dictionary the loop fills.
 */
module Tally {
  import opened Seqs
  import opened Encoder

  /** How often `v` occurs in `y`. */
  function Occurrences(y: seq<int>, v: int): nat {
    if |y| == 0 then 0 else Occurrences(y[..|y| - 1], v) + (if y[|y| - 1] == v then 1 else 0)
  }

  /** How many entries of `y` lie in `[lo, hi)`. */
  function Between(y: seq<int>, lo: int, hi: int): nat {
    if |y| == 0 then 0 else Between(y[..|y| - 1], lo, hi) + (if lo <= y[|y| - 1] < hi then 1 else 0)
  }

  /** Widening the range by one value adds that value's occurrences. */
  lemma {:induction false} BetweenStep(y: seq<int>, lo: int, hi: int)
    requires lo <= hi
    ensures Between(y, lo, hi + 1) == Between(y, lo, hi) + Occurrences(y, hi)
  {
    if |y| > 0 {
      BetweenStep(y[..|y| - 1], lo, hi);
    }
  }

  /** An empty range counts nothing. */
  lemma {:induction false} BetweenEmpty(y: seq<int>, lo: int)
    ensures Between(y, lo, lo) == 0
  {
    if |y| > 0 {
      BetweenEmpty(y[..|y| - 1], lo);
    }
  }

  /** A range that holds every entry counts them all. */
  lemma {:induction false} BetweenAll(y: seq<int>, lo: int, hi: int)
    requires forall i :: 0 <= i < |y| ==> lo <= y[i] < hi
    ensures Between(y, lo, hi) == |y|
  {
    if |y| > 0 {
      BetweenAll(y[..|y| - 1], lo, hi);
    }
  }

  /** A value occurs exactly when it is an entry. */
  lemma {:induction false} OccursIff(y: seq<int>, v: int)
    ensures Occurrences(y, v) > 0 <==> v in y
  {
    if |y| > 0 {
      OccursIff(y[..|y| - 1], v);
      assert y == y[..|y| - 1] + [y[|y| - 1]];
    }
  }

  /** The smallest label value. */
  function MinOf(y: seq<int>): (r: int)
    requires |y| > 0
    ensures r in y && forall i :: 0 <= i < |y| ==> r <= y[i]
  {
    if |y| == 1 then y[0] else var m := MinOf(y[..|y| - 1]); if y[|y| - 1] < m then y[|y| - 1] else m
  }

  /** The largest label value. */
  function MaxOf(y: seq<int>): (r: int)
    requires |y| > 0
    ensures r in y && forall i :: 0 <= i < |y| ==> y[i] <= r
  {
    if |y| == 1 then y[0] else var m := MaxOf(y[..|y| - 1]); if y[|y| - 1] > m then y[|y| - 1] else m
  }

  /** One entry of the distribution: a character and how many labels name it. */
  type Entry = (string, nat)

  function EntryCount(e: Entry): nat { e.1 }

  /** Dictionary assignment on an insertion-ordered dictionary: an existing key keeps its place. */
  function DictSet(d: seq<Entry>, k: string, v: nat): (r: seq<Entry>)
    ensures |r| == |d| || |r| == |d| + 1
  {
    if |d| == 0 then [(k, v)]
    else if d[0].0 == k then [(k, v)] + d[1..]
    else [d[0]] + DictSet(d[1..], k, v)
  }

  /** A fresh key goes at the end. */
  lemma {:induction false} DictSetFresh(d: seq<Entry>, k: string, v: nat)
    requires forall j :: 0 <= j < |d| ==> d[j].0 != k
    ensures DictSet(d, k, v) == d + [(k, v)]
  {
    if |d| > 0 {
      DictSetFresh(d[1..], k, v);
      assert d == [d[0]] + d[1..];
    }
  }

  /**
   * The loop of `get_class_distribution` over the values `lo..v-1` in
   * ascending order, keeping those that occur (the order of `np.unique`):
   * each sets `distribution[decode(value)] = count`.
   */
  function DistributionFrom(enc: CharacterEncoder, y: seq<int>, lo: int, v: int): seq<Entry>
    requires lo <= v
    decreases v - lo
  {
    if v == lo then []
    else
      var d := DistributionFrom(enc, y, lo, v - 1);
      var c := Occurrences(y, v - 1);
      if c > 0 then DictSet(d, Decode(enc, v - 1), c) else d
  }

  /** The values in `lo..v-1` that occur in `y`, ascending: the `unique` of `np.unique`. */
  function Present(y: seq<int>, lo: int, v: int): (ws: seq<int>)
    requires lo <= v
    ensures forall k :: 0 <= k < |ws| ==> lo <= ws[k] < v && ws[k] in y
    ensures forall j, k :: 0 <= j < k < |ws| ==> ws[j] < ws[k]
    decreases v - lo
  {
    if v == lo then []
    else Present(y, lo, v - 1) + (if v - 1 in y then [v - 1] else [])
  }

  /** Every value of the range that occurs is present. */
  lemma {:induction false} PresentComplete(y: seq<int>, lo: int, v: int, w: int)
    requires lo <= w < v && w in y
    ensures w in Present(y, lo, v)
    decreases v - lo
  {
    if w < v - 1 {
      PresentComplete(y, lo, v - 1, w);
    }
  }

  /** A range that holds every entry has all of them present. */
  lemma PresentAll(y: seq<int>, lo: int, hi: int)
    requires lo <= hi && forall i :: 0 <= i < |y| ==> lo <= y[i] < hi
    ensures forall i :: 0 <= i < |y| ==> y[i] in Present(y, lo, hi)
  {
    forall i | 0 <= i < |y| ensures y[i] in Present(y, lo, hi) {
      PresentComplete(y, lo, hi, y[i]);
    }
  }

  /** One entry per class in `ws`: its character and its number of labels. */
  function Table(enc: CharacterEncoder, y: seq<int>, ws: seq<int>): (r: seq<Entry>)
    ensures |r| == |ws|
    ensures forall j :: 0 <= j < |ws| ==> r[j] == (Decode(enc, ws[j]), Occurrences(y, ws[j]))
  {
    seq(|ws|, j requires 0 <= j < |ws| => (Decode(enc, ws[j]), Occurrences(y, ws[j])))
  }

  lemma TableAppend(enc: CharacterEncoder, y: seq<int>, ws: seq<int>, w: int)
    ensures Table(enc, y, ws + [w]) == Table(enc, y, ws) + [(Decode(enc, w), Occurrences(y, w))]
  {
  }

  /** Different label values decode to different characters: no two classes share a dictionary key. */
  ghost predicate KeysDistinct(enc: CharacterEncoder, y: seq<int>) {
    forall i, j :: 0 <= i < |y| && 0 <= j < |y| && y[i] != y[j] ==> Decode(enc, y[i]) != Decode(enc, y[j])
  }

  /** Two different label values that both occur have different keys. */
  lemma DistinctKeys(enc: CharacterEncoder, y: seq<int>, a: int, b: int)
    requires KeysDistinct(enc, y) && a in y && b in y && a != b
    ensures Decode(enc, a) != Decode(enc, b)
  {
    var i :| 0 <= i < |y| && y[i] == a;
    var j :| 0 <= j < |y| && y[j] == b;
  }

  /**
   * The dictionary the loop builds is the table of the present classes in
   * ascending order: no assignment ever finds its key already there.
   */
  lemma {:induction false} DistributionIsTable(enc: CharacterEncoder, y: seq<int>, lo: int, v: int)
    requires lo <= v && KeysDistinct(enc, y)
    ensures DistributionFrom(enc, y, lo, v) == Table(enc, y, Present(y, lo, v))
    decreases v - lo
  {
    if v > lo {
      var w := v - 1;
      DistributionIsTable(enc, y, lo, w);
      var ws := Present(y, lo, w);
      var d := Table(enc, y, ws);
      OccursIff(y, w);
      if w in y {
        forall j | 0 <= j < |d| ensures d[j].0 != Decode(enc, w) {
          DistinctKeys(enc, y, ws[j], w);
        }
        DictSetFresh(d, Decode(enc, w), Occurrences(y, w));
        TableAppend(enc, y, ws, w);
      } else {
        assert Present(y, lo, v) == ws;
      }
    }
  }

  /** The counts of the table of present classes add up to the labels in the range. */
  lemma {:induction false} TableSum(enc: CharacterEncoder, y: seq<int>, lo: int, v: int)
    requires lo <= v
    ensures SumOf(Table(enc, y, Present(y, lo, v)), EntryCount) == Between(y, lo, v)
    decreases v - lo
  {
    if v > lo {
      TableSum(enc, y, lo, v - 1);
      TableSumStep(enc, y, lo, v - 1);
      BetweenStep(y, lo, v - 1);
    } else {
      BetweenEmpty(y, lo);
    }
  }

  /** Widening the range by one value adds that value's count to the table's sum. */
  lemma TableSumStep(enc: CharacterEncoder, y: seq<int>, lo: int, w: int)
    requires lo <= w
    ensures SumOf(Table(enc, y, Present(y, lo, w + 1)), EntryCount)
         == SumOf(Table(enc, y, Present(y, lo, w)), EntryCount) + Occurrences(y, w)
  {
    var ws := Present(y, lo, w);
    OccursIff(y, w);
    if w in y {
      var e := (Decode(enc, w), Occurrences(y, w));
      assert Present(y, lo, w + 1) == ws + [w];
      TableAppend(enc, y, ws, w);
      SumConcat(Table(enc, y, ws), [e], EntryCount);
      assert SumOf([e], EntryCount) == e.1 by { assert [e][..0] == []; }
    } else {
      assert Present(y, lo, w + 1) == ws;
    }
  }

  /** The smallest label is at most the largest. */
  lemma MinBelowMax(y: seq<int>)
    requires |y| > 0
    ensures MinOf(y) <= y[0] <= MaxOf(y)
  {
  }

  /** The dictionary `get_class_distribution` builds from the labels `y`. */
  function Distribution(enc: CharacterEncoder, y: seq<int>): seq<Entry> {
    if |y| == 0 then [] else DistributionFrom(enc, y, MinOf(y), MaxOf(y) + 1)
  }
}
