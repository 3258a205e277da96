/**
 * The dataset side of training: `TrainingDataset.prepare_data` (which items
 * become samples, how many copies each, which label index they carry), the
 * not-prepared guards of `split_data` and `get_class_distribution`, the
 * class distribution itself, and the integer pad/crop arithmetic of
 * `DataAugmenter.scale`. Pixels are opaque here: a sample is named by the item
 * it comes from and its copy number.
 */
module Training {
  import opened Wrappers
  import opened Seqs
  import opened Encoder
  import opened Tally
  import opened Arith

  /** One entry of `characters_data`; its image is known only by its position in the list. */
  datatype Item = Item(character: string)

  /** A prepared sample: copy 0 is the preprocessed original of item `source`, copy `c >= 1` its `c`-th augmented copy. */
  datatype Sample = Sample(source: nat, copy: nat)

  /** What `prepare_data` stores in `X` and `y`. */
  datatype Prepared = Prepared(x: seq<Sample>, y: seq<int>)

  /** A `TrainingDataset`; `prepared` is `None` until `prepare_data` has run. */
  datatype Dataset = Dataset(data: seq<Item>, encoder: CharacterEncoder, prepared: Option<Prepared>)

  /** Extra copies per item: `range(augment_factor)` runs no iteration for a factor below one. */
  function Copies(augment: bool, factor: int): (r: nat)
    ensures !augment ==> r == 0
    ensures augment ==> r == if factor > 0 then factor else 0
  {
    if augment && factor > 0 then factor else 0
  }

  /** The `m` samples of one item, original first. */
  function Block(source: nat, m: nat): (r: seq<Sample>)
    ensures |r| == m
    ensures forall c :: 0 <= c < m ==> r[c] == Sample(source, c)
  {
    seq(m, c requires 0 <= c < m => Sample(source, c))
  }

  /** `m` copies of one label index. */
  function Repeat(v: int, m: nat): (r: seq<int>)
    ensures |r| == m
    ensures forall c :: 0 <= c < m ==> r[c] == v
  {
    seq(m, c requires 0 <= c < m => v)
  }

  /**
   * The label index of every item, `encode(char_data['label'])` in list order;
   * -1 marks a label outside the alphabet.
   */
  function Codes(data: seq<Item>, enc: CharacterEncoder): (r: seq<int>)
    ensures |r| == |data|
    ensures forall k :: 0 <= k < |data| ==> r[k] == Encode(enc, data[k].character)
  {
    EncodeBatch(enc, seq(|data|, k requires 0 <= k < |data| => data[k].character))
  }

  /** Whether the label of item `k` is in the alphabet. */
  predicate Known(codes: seq<int>, k: nat)
    requires k < |codes|
  {
    codes[k] != -1
  }

  /** How many of the first `n` items have a known label. */
  function KnownCount(codes: seq<int>, n: nat): (r: nat)
    requires n <= |codes|
    ensures r <= n
  {
    if n == 0 then 0 else KnownCount(codes, n - 1) + (if Known(codes, n - 1) then 1 else 0)
  }

  /** The loop of `prepare_data` over the first `n` items, `copies` extra samples per kept item. */
  function PrepareUpTo(codes: seq<int>, copies: nat, n: nat): Prepared
    requires n <= |codes|
  {
    if n == 0 then Prepared([], [])
    else
      var p := PrepareUpTo(codes, copies, n - 1);
      var idx := codes[n - 1];
      if idx == -1 then p
      else Prepared(p.x + Block(n - 1, copies + 1), p.y + Repeat(idx, copies + 1))
  }

  /** Every kept item contributes `copies + 1` samples and as many labels. */
  lemma {:induction false} PrepareShape(codes: seq<int>, copies: nat, n: nat)
    requires n <= |codes|
    ensures |PrepareUpTo(codes, copies, n).x| == KnownCount(codes, n) * (copies + 1)
    ensures |PrepareUpTo(codes, copies, n).y| == |PrepareUpTo(codes, copies, n).x|
  {
    if n > 0 {
      PrepareShape(codes, copies, n - 1);
      var p := PrepareUpTo(codes, copies, n - 1);
      var k := KnownCount(codes, n - 1);
      if Known(codes, n - 1) {
        assert KnownCount(codes, n) == k + 1;
        MulSucc(k, copies + 1);
      } else {
        assert PrepareUpTo(codes, copies, n) == p;
      }
    }
  }

  lemma MulSucc(k: nat, m: nat)
    ensures (k + 1) * m == k * m + m
  {
  }

  /** Sample `i` and label `i` belong together. */
  ghost predicate Labelled(codes: seq<int>, copies: nat, n: nat, p: Prepared, i: nat)
    requires n <= |codes| && i < |p.x| && i < |p.y|
  {
    && p.x[i].source < n
    && p.x[i].copy <= copies
    && p.y[i] == codes[p.x[i].source]
    && p.y[i] != -1
  }

  /** Every sample is labelled, by one of the first `n` items. */
  ghost predicate AllLabelled(codes: seq<int>, copies: nat, n: nat, p: Prepared) {
    && n <= |codes|
    && |p.y| == |p.x|
    && forall i :: 0 <= i < |p.x| ==> Labelled(codes, copies, n, p, i)
  }

  /**
   * Each sample comes from a kept item among the first `n`, is one of its
   * `copies + 1` versions, and carries that item's label index, never -1.
   */
  lemma {:induction false} PrepareLabels(codes: seq<int>, copies: nat, n: nat)
    requires n <= |codes|
    ensures AllLabelled(codes, copies, n, PrepareUpTo(codes, copies, n))
  {
    PrepareShape(codes, copies, n);
    if n > 0 {
      PrepareLabels(codes, copies, n - 1);
      var p := PrepareUpTo(codes, copies, n - 1);
      var idx := codes[n - 1];
      if idx != -1 {
        LabelledAppend(codes, copies, n - 1, p, idx);
      } else {
        LabelledWiden(codes, copies, n - 1, p);
      }
    }
  }

  /** Labelled by the first `m` items is labelled by the first `m + 1`. */
  lemma LabelledWiden(codes: seq<int>, copies: nat, m: nat, p: Prepared)
    requires m < |codes| && AllLabelled(codes, copies, m, p)
    ensures AllLabelled(codes, copies, m + 1, p)
  {
    var n := m + 1;
    forall i | 0 <= i < |p.x| ensures Labelled(codes, copies, n, p, i) {
      assert Labelled(codes, copies, m, p, i);
    }
  }

  /** The step of PrepareLabels that appends the block of kept item `m`. */
  lemma LabelledAppend(codes: seq<int>, copies: nat, m: nat, p: Prepared, idx: int)
    requires m < |codes| && AllLabelled(codes, copies, m, p)
    requires idx == codes[m] && idx != -1
    ensures AllLabelled(codes, copies, m + 1, Prepared(p.x + Block(m, copies + 1), p.y + Repeat(idx, copies + 1)))
  {
    var q := Prepared(p.x + Block(m, copies + 1), p.y + Repeat(idx, copies + 1));
    var n := m + 1;
    forall i | 0 <= i < |q.x| ensures Labelled(codes, copies, n, q, i) {
      if i < |p.x| {
        assert q.x[i] == p.x[i] && q.y[i] == p.y[i];
        assert Labelled(codes, copies, m, p, i);
      } else {
        assert q.x[i] == Sample(m, i - |p.x|) && q.y[i] == idx;
      }
    }
  }

  /** Sample `a` comes before sample `b`: an earlier item, or the same item and an earlier copy. */
  predicate Precedes(a: Sample, b: Sample) {
    a.source < b.source || (a.source == b.source && a.copy < b.copy)
  }

  /** Samples in item order, each item's original before its augmented copies. */
  ghost predicate InOrder(x: seq<Sample>) {
    forall i, j :: 0 <= i < j < |x| ==> Precedes(x[i], x[j])
  }

  /** Samples are in item order, and each item's original comes before its augmented copies. */
  lemma {:induction false} PrepareOrder(codes: seq<int>, copies: nat, n: nat)
    requires n <= |codes|
    ensures InOrder(PrepareUpTo(codes, copies, n).x)
  {
    if n > 0 {
      PrepareOrder(codes, copies, n - 1);
      PrepareLabels(codes, copies, n - 1);
      var p := PrepareUpTo(codes, copies, n - 1);
      var idx := codes[n - 1];
      if idx != -1 {
        forall i | 0 <= i < |p.x| ensures p.x[i].source < n - 1 {
          assert Labelled(codes, copies, n - 1, p, i);
        }
        OrderAppend(p.x, Block(n - 1, copies + 1), n - 1);
      }
    }
  }

  /** Appending a block of a later item keeps the order. */
  lemma OrderAppend(xs: seq<Sample>, block: seq<Sample>, source: nat)
    requires InOrder(xs)
    requires forall i :: 0 <= i < |xs| ==> xs[i].source < source
    requires forall c :: 0 <= c < |block| ==> block[c] == Sample(source, c)
    ensures InOrder(xs + block)
  {
    var s := xs + block;
    forall i, j | 0 <= i < j < |s| ensures Precedes(s[i], s[j]) {
      if j < |xs| {
        assert s[i] == xs[i] && s[j] == xs[j];
      } else if i < |xs| {
        assert s[i] == xs[i] && s[j] == block[j - |xs|];
      } else {
        assert s[i] == block[i - |xs|] && s[j] == block[j - |xs|];
      }
    }
  }

  /** Every version of every kept item among the first `n` is in `x`. */
  ghost predicate Covers(codes: seq<int>, copies: nat, n: nat, x: seq<Sample>) {
    && n <= |codes|
    && forall k: nat, c: nat :: k < n && Known(codes, k) && c <= copies ==> Sample(k, c) in x
  }

  /** Every version of every kept item is among the samples. */
  lemma {:induction false} PrepareComplete(codes: seq<int>, copies: nat, n: nat)
    requires n <= |codes|
    ensures Covers(codes, copies, n, PrepareUpTo(codes, copies, n).x)
  {
    if n > 0 {
      PrepareComplete(codes, copies, n - 1);
      var p := PrepareUpTo(codes, copies, n - 1);
      if Known(codes, n - 1) {
        CoversAppend(codes, copies, n - 1, p.x);
      }
    }
  }

  /** The step of PrepareComplete that appends the block of kept item `m`. */
  lemma CoversAppend(codes: seq<int>, copies: nat, m: nat, x: seq<Sample>)
    requires m < |codes| && Covers(codes, copies, m, x)
    ensures Covers(codes, copies, m + 1, x + Block(m, copies + 1))
  {
    var b := Block(m, copies + 1);
    forall k: nat, c: nat | k < m + 1 && Known(codes, k) && c <= copies
      ensures Sample(k, c) in x + b
    {
      if k == m {
        assert (x + b)[|x| + c] == b[c];
      } else {
        assert Sample(k, c) in x;
      }
    }
  }

  /**
   * What the loop promises for label codes `codes` and `copies` extra samples:
   * the count, the labels, the order and the coverage.
   */
  ghost predicate PreparedFrom(codes: seq<int>, copies: nat, p: Prepared) {
    && |p.x| == KnownCount(codes, |codes|) * (copies + 1)
    && AllLabelled(codes, copies, |codes|, p)
    && InOrder(p.x)
    && Covers(codes, copies, |codes|, p.x)
  }

  lemma PrepareUpToSpec(codes: seq<int>, copies: nat)
    ensures PreparedFrom(codes, copies, PrepareUpTo(codes, copies, |codes|))
  {
    PrepareShape(codes, copies, |codes|);
    PrepareLabels(codes, copies, |codes|);
    PrepareOrder(codes, copies, |codes|);
    PrepareComplete(codes, copies, |codes|);
  }

  /** `prepare_data`: runs the loop over every item and stores the result. */
  function PrepareData(ds: Dataset, augment: bool, factor: int): (r: Dataset)
    ensures r.data == ds.data && r.encoder == ds.encoder && r.prepared.Some?
    ensures PreparedFrom(Codes(ds.data, ds.encoder), Copies(augment, factor), r.prepared.value)
  {
    var codes := Codes(ds.data, ds.encoder);
    var copies := Copies(augment, factor);
    PrepareUpToSpec(codes, copies);
    ds.(prepared := Some(PrepareUpTo(codes, copies, |codes|)))
  }

  // ---------------------------------------------------------------------------
  // Guards

  /** The guard of `split_data`: before `prepare_data` it raises; the split itself is a library call. */
  function SplitGuard(ds: Dataset): (r: Result<Prepared>)
    ensures r.Failure? <==> ds.prepared.None?
    ensures r.Failure? ==> r.error == NotPrepared
    ensures r.Success? ==> r.value == ds.prepared.value
  {
    match ds.prepared
    case None => Failure(NotPrepared)
    case Some(p) => Success(p)
  }

  // ---------------------------------------------------------------------------
  // Class distribution

  /** Every label is a class index that its own character encodes back to. */
  ghost predicate Coded(enc: CharacterEncoder, y: seq<int>) {
    forall i :: 0 <= i < |y| ==> 0 <= y[i] && Encode(enc, Decode(enc, y[i])) == y[i]
  }

  /** Class indices of their own characters never share a character. */
  lemma CodedKeys(enc: CharacterEncoder, y: seq<int>)
    requires Coded(enc, y)
    ensures KeysDistinct(enc, y)
  {
    forall i, j | 0 <= i < |y| && 0 <= j < |y| && y[i] != y[j]
      ensures Decode(enc, y[i]) != Decode(enc, y[j])
    {
      assert Encode(enc, Decode(enc, y[i])) == y[i] && Encode(enc, Decode(enc, y[j])) == y[j];
    }
  }

  /** `get_class_distribution`: raises before `prepare_data`, else counts each label value present, in ascending order. */
  function ClassDistribution(ds: Dataset): (r: Result<seq<Entry>>)
    ensures r.Failure? <==> ds.prepared.None?
    ensures r.Failure? ==> r.error == NotPrepared
  {
    match ds.prepared
    case None => Failure(NotPrepared)
    case Some(p) => Success(Distribution(ds.encoder, p.y))
  }

  /** Labels from a prepared dataset are class indices of their own characters. */
  lemma PreparedCoded(ds: Dataset, augment: bool, factor: int)
    ensures Coded(ds.encoder, PrepareData(ds, augment, factor).prepared.value.y)
  {
    var codes := Codes(ds.data, ds.encoder);
    var p := PrepareData(ds, augment, factor).prepared.value;
    forall i | 0 <= i < |p.y| ensures 0 <= p.y[i] && Encode(ds.encoder, Decode(ds.encoder, p.y[i])) == p.y[i] {
      assert Labelled(codes, Copies(augment, factor), |codes|, p, i);
      var c := ds.data[p.x[i].source].character;
      DecodeEncode(ds.encoder, c);
    }
  }

  /** For labels whose values have distinct keys, the counts add up to the number of labels. */
  lemma DistributionSum(enc: CharacterEncoder, y: seq<int>)
    requires KeysDistinct(enc, y)
    ensures SumOf(Distribution(enc, y), EntryCount) == |y|
  {
    if |y| > 0 {
      var lo, hi := MinOf(y), MaxOf(y) + 1;
      MinBelowMax(y);
      DistributionIsTable(enc, y, lo, hi);
      TableSum(enc, y, lo, hi);
      BetweenAll(y, lo, hi);
    }
  }

  /**
   * The distribution has one entry per label value present, ascending, each
   * the decoded character and its number of labels.
   */
  lemma DistributionEntries(enc: CharacterEncoder, y: seq<int>)
    requires |y| > 0 && KeysDistinct(enc, y)
    ensures Distribution(enc, y) == Table(enc, y, Present(y, MinOf(y), MaxOf(y) + 1))
  {
    MinBelowMax(y);
    assert Distribution(enc, y) == DistributionFrom(enc, y, MinOf(y), MaxOf(y) + 1);
    DistributionIsTable(enc, y, MinOf(y), MaxOf(y) + 1);
  }

  /** Every label value is among the classes the distribution lists. */
  lemma PresentCovers(y: seq<int>)
    requires |y| > 0
    ensures forall i :: 0 <= i < |y| ==> y[i] in Present(y, MinOf(y), MaxOf(y) + 1)
  {
    MinBelowMax(y);
    PresentAll(y, MinOf(y), MaxOf(y) + 1);
  }

  /** For a prepared dataset whose label values have distinct keys, the counts add up to the number of labels. */
  lemma DistributionTotal(ds: Dataset)
    requires ds.prepared.Some? && KeysDistinct(ds.encoder, ds.prepared.value.y)
    ensures ClassDistribution(ds).Success?
    ensures SumOf(ClassDistribution(ds).value, EntryCount) == |ds.prepared.value.y|
  {
    DistributionSum(ds.encoder, ds.prepared.value.y);
  }

  /** After `prepare_data`, the counts of the distribution add up to the number of labels. */
  lemma ClassDistributionSpec(ds: Dataset, augment: bool, factor: int)
    ensures var q := PrepareData(ds, augment, factor);
      ClassDistribution(q).Success? && SumOf(ClassDistribution(q).value, EntryCount) == |q.prepared.value.y|
  {
    PreparedKeys(ds, augment, factor);
    DistributionTotal(PrepareData(ds, augment, factor));
  }

  /** After `prepare_data`, no two label values share a character, so `KeyedDistribution` applies. */
  lemma PreparedKeys(ds: Dataset, augment: bool, factor: int)
    ensures KeysDistinct(ds.encoder, PrepareData(ds, augment, factor).prepared.value.y)
  {
    PreparedCoded(ds, augment, factor);
    CodedKeys(ds.encoder, PrepareData(ds, augment, factor).prepared.value.y);
  }

  /** A prepared dataset whose label values have distinct keys has the table of present classes as its distribution. */
  lemma KeyedDistribution(ds: Dataset)
    requires ds.prepared.Some? && |ds.prepared.value.y| > 0 && KeysDistinct(ds.encoder, ds.prepared.value.y)
    ensures var y := ds.prepared.value.y;
      ClassDistribution(ds) == Success(Table(ds.encoder, y, Present(y, MinOf(y), MaxOf(y) + 1)))
  {
    var y := ds.prepared.value.y;
    assert ClassDistribution(ds) == Success(Distribution(ds.encoder, y));
    DistributionEntries(ds.encoder, y);
  }

  /** Both guards raise on a dataset that was never prepared and pass once it is. */
  lemma GuardsAfterPrepare(ds: Dataset, augment: bool, factor: int)
    ensures ds.prepared.None? ==> SplitGuard(ds) == Failure(NotPrepared) && ClassDistribution(ds) == Failure(NotPrepared)
    ensures SplitGuard(PrepareData(ds, augment, factor)).Success?
    ensures ClassDistribution(PrepareData(ds, augment, factor)).Success?
  {
  }

  // ---------------------------------------------------------------------------
  // The pad/crop arithmetic of `DataAugmenter.scale`

  /**
   * `int(side * scale_factor)`, the factor given exactly as `num / den`: the
   * product is not negative, so truncation is the floor. A factor below one
   * shrinks every positive side, and one of at least one shrinks none.
   */
  function ScaledSide(side: nat, num: nat, den: nat): (r: nat)
    requires den > 0
    ensures num < den && side > 0 ==> r < side
    ensures num >= den ==> r >= side
  {
    QuotientBounds(side, num, den);
    side * num / den
  }

  lemma QuotientBounds(side: nat, num: nat, den: nat)
    requires den > 0
    ensures num < den && side > 0 ==> side * num / den < side
    ensures num >= den ==> side * num / den >= side
  {
    var r := side * num / den;
    Floor(side * num, den);
    if num < den && side > 0 {
      MulStrict(side, num, den);
      ProductBound(r, side, den);
    }
    if num >= den {
      MulMono(side, den, num);
      QuotientAtLeast(side, side * num, den);
    }
  }

  /** What `scale` does after resizing to `newH` x `newW`. */
  datatype ScaleStep =
    | Unchanged                                              // a zero side: the input is returned
    | Padded(top: nat, bottom: nat, left: nat, right: nat)   // `copyMakeBorder` with these margins
    | Cropped(startH: nat, startW: nat)                      // the window of the original size at this corner

  /** The branch and margins `scale` chooses. */
  function ScalePlan(h: nat, w: nat, newH: nat, newW: nat): (r: ScaleStep)
    ensures r.Unchanged? <==> newH == 0 || newW == 0
    ensures r.Padded? ==> r.top + r.bottom == (if h > newH then h - newH else 0) && r.top <= r.bottom <= r.top + 1
    ensures r.Padded? ==> r.left + r.right == (if w > newW then w - newW else 0) && r.left <= r.right <= r.left + 1
    ensures r.Cropped? ==> r.startH + h <= newH && r.startW + w <= newW
  {
    if newH > 0 && newW > 0 then
      if newH < h || newW < w then
        var padH := if h > newH then h - newH else 0;
        var padW := if w > newW then w - newW else 0;
        Padded(padH / 2, padH - padH / 2, padW / 2, padW - padW / 2)
      else
        Cropped((newH - h) / 2, (newW - w) / 2)
    else
      Unchanged
  }

  /**
   * The height and width of what `scale` returns. Padding only grows a side,
   * so a side the resize enlarged stays enlarged; the crop window is clamped
   * by slicing but never needs to be.
   */
  function ScaledShape(h: nat, w: nat, newH: nat, newW: nat): (r: (nat, nat))
    ensures newH == 0 || newW == 0 ==> r == (h, w)
    ensures newH > 0 && newW > 0 && (newH < h || newW < w) ==>
      r == (if h > newH then h else newH, if w > newW then w else newW)
    ensures newH > 0 && newW > 0 && newH >= h && newW >= w ==> r == (h, w)
  {
    match ScalePlan(h, w, newH, newW)
    case Unchanged => (h, w)
    case Padded(top, bottom, left, right) => (newH + top + bottom, newW + left + right)
    case Cropped(sh, sw) =>
      ((if sh + h < newH then sh + h else newH) - sh, (if sw + w < newW then sw + w else newW) - sw)
  }

  /** With one factor for both sides, `scale` always returns an image of the input's size. */
  lemma ScaleKeepsShape(h: nat, w: nat, num: nat, den: nat)
    requires den > 0
    ensures ScaledShape(h, w, ScaledSide(h, num, den), ScaledSide(w, num, den)) == (h, w)
  {
  }
}
