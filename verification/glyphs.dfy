/**
 * Glyph post-processing and grouping of `CharacterSegmenter`
 * (backend/services/character_grouping.py): the area filter over connected
 * components, the k-means cluster count, grouping by cluster label, the reading
 * order sort and the merging of two groups.
 *
 * The connected-component labeller and the clustering libraries are foreign:
 * their outputs (a table of component statistics, one cluster label per glyph)
 * are inputs here.
 */
module Glyphs {
  import opened Wrappers
  import opened Raster
  import opened Seqs

  /** One row of the connected-component statistics: bounding box and pixel count. */
  datatype ComponentStat = ComponentStat(left: nat, top: nat, width: nat, height: nat, area: nat)

  datatype Box = Box(x: nat, y: nat, w: nat, h: nat)

  /** A character candidate; `group` is the cluster label, set once it has been clustered. */
  datatype Glyph = Glyph(id: nat, box: Box, area: nat, image: Image, group: Option<int>)

  const DefaultMinArea: int := 20
  const DefaultMaxArea: int := 10000
  const DefaultMaxClusters: int := 50

  function Min(a: int, b: int): int { if a <= b then a else b }
  function Max(a: int, b: int): int { if a >= b then a else b }

  // ---------------------------------------------------------------------------
  // segment_characters

  predicate InAreaRange(area: nat, minArea: int, maxArea: int) {
    minArea <= area <= maxArea
  }

  /** The glyph cut out of `img` for component `s`, numbered `id`: the crop `img[y:y+h, x:x+w]`. */
  function GlyphOf(img: Image, s: ComponentStat, id: nat): (g: Glyph)
    ensures g.id == id && g.area == s.area && g.group == None
    ensures g.box == Box(s.left, s.top, s.width, s.height)
  {
    Glyph(id, Box(s.left, s.top, s.width, s.height), s.area,
      Crop(img, s.top, s.top + s.height, s.left, s.left + s.width), None)
  }

  /** A glyph whose box lies inside the page shows exactly the page's pixels under that box. */
  lemma GlyphImage(img: Image, s: ComponentStat, id: nat)
    requires s.top + s.height <= Height(img) && s.left + s.width <= Width(img) && s.height > 0
    ensures var g := GlyphOf(img, s, id);
      && Height(g.image) == s.height && Width(g.image) == s.width
      && forall i, j :: 0 <= i < s.height && 0 <= j < s.width ==> g.image[i][j] == img[s.top + i][s.left + j]
  {
  }

  /**
   * The labels below `n` that are kept: every label but the background 0 whose
   * area passes the filter, in increasing order.
   */
  function Kept(stats: seq<ComponentStat>, minArea: int, maxArea: int, n: nat): (ls: seq<nat>)
    requires n <= |stats|
    ensures forall l :: l in ls <==> 1 <= l < n && InAreaRange(stats[l].area, minArea, maxArea)
    ensures forall i :: 0 <= i < |ls| ==> 1 <= ls[i] < n
    ensures forall i, j :: 0 <= i < j < |ls| ==> ls[i] < ls[j]
    decreases n
  {
    if n <= 1 then []
    else
      var ls := Kept(stats, minArea, maxArea, n - 1);
      if InAreaRange(stats[n - 1].area, minArea, maxArea) then ls + [n - 1] else ls
  }

  /** `r` holds one glyph per label of `ls`, in that order, numbered from 0. */
  ghost predicate GlyphsFor(img: Image, stats: seq<ComponentStat>, ls: seq<nat>, r: seq<Glyph>) {
    && |r| == |ls|
    && forall i :: 0 <= i < |r| ==> ls[i] < |stats| && r[i] == GlyphOf(img, stats[ls[i]], i)
  }

  /** The loop of `segment_characters` over labels 1..n-1. */
  function SegmentUpTo(img: Image, stats: seq<ComponentStat>, minArea: int, maxArea: int, n: nat): seq<Glyph>
    requires n <= |stats|
    decreases n
  {
    if n <= 1 then []
    else
      var r := SegmentUpTo(img, stats, minArea, maxArea, n - 1);
      if InAreaRange(stats[n - 1].area, minArea, maxArea) then r + [GlyphOf(img, stats[n - 1], |r|)] else r
  }

  /** The loop emits one glyph per kept label, in label order, numbered from 0. */
  lemma {:induction false} SegmentUpToSpec(img: Image, stats: seq<ComponentStat>, minArea: int, maxArea: int, n: nat)
    requires n <= |stats|
    ensures GlyphsFor(img, stats, Kept(stats, minArea, maxArea, n), SegmentUpTo(img, stats, minArea, maxArea, n))
    decreases n
  {
    if n > 1 {
      SegmentUpToSpec(img, stats, minArea, maxArea, n - 1);
      var r := SegmentUpTo(img, stats, minArea, maxArea, n - 1);
      if InAreaRange(stats[n - 1].area, minArea, maxArea) {
        GlyphsForAppend(img, stats, Kept(stats, minArea, maxArea, n - 1), r, n - 1);
      }
    }
  }

  lemma GlyphsForAppend(img: Image, stats: seq<ComponentStat>, ls: seq<nat>, r: seq<Glyph>, l: nat)
    requires GlyphsFor(img, stats, ls, r) && l < |stats|
    ensures GlyphsFor(img, stats, ls + [l], r + [GlyphOf(img, stats[l], |r|)])
  {
  }

  /**
   * `segment_characters`: one glyph per kept component, in label order, numbered
   * from 0, each carrying its component's box, area and crop.
   */
  function SegmentCharacters(img: Image, stats: seq<ComponentStat>, minArea: int, maxArea: int): (r: seq<Glyph>)
    ensures GlyphsFor(img, stats, Kept(stats, minArea, maxArea, |stats|), r)
  {
    SegmentUpToSpec(img, stats, minArea, maxArea, |stats|);
    SegmentUpTo(img, stats, minArea, maxArea, |stats|)
  }

  /**
   * Every returned glyph comes from a non-background component whose area is in
   * range, ids run 0..k-1 in label order, and every such component is returned.
   */
  lemma SegmentCharactersSpec(img: Image, stats: seq<ComponentStat>, minArea: int, maxArea: int)
    ensures var r := SegmentCharacters(img, stats, minArea, maxArea);
      && (forall i :: 0 <= i < |r| ==> r[i].id == i && r[i].group == None && InAreaRange(r[i].area, minArea, maxArea))
      && (forall l :: 1 <= l < |stats| && InAreaRange(stats[l].area, minArea, maxArea) ==>
            exists i :: 0 <= i < |r| && r[i] == GlyphOf(img, stats[l], i))
  {
    var r := SegmentCharacters(img, stats, minArea, maxArea);
    var ks := Kept(stats, minArea, maxArea, |stats|);
    forall l | 1 <= l < |stats| && InAreaRange(stats[l].area, minArea, maxArea)
      ensures exists i :: 0 <= i < |r| && r[i] == GlyphOf(img, stats[l], i)
    {
      assert l in ks;
      var i :| 0 <= i < |ks| && ks[i] == l;
      assert r[i] == GlyphOf(img, stats[l], i);
    }
  }

  // ---------------------------------------------------------------------------
  // Clustering

  /**
   * The number of clusters `cluster_characters_kmeans` asks for, given `n` glyphs:
   * a third of them capped at `maxClusters` and at least one when not requested,
   * and in either case no more than there are glyphs.
   */
  function ClusterCount(n: nat, requested: Option<int>, maxClusters: int): (k: int)
    ensures k <= n
    ensures requested.Some? ==> k == Min(requested.value, n)
    ensures requested.None? && n >= 1 ==> 1 <= k
  {
    var k := if requested.Some? then requested.value else Max(Min(n / 3, maxClusters), 1);
    if n < k then n else k
  }

  /** With at least three glyphs and a positive cap, the automatic count is a third of them, capped. */
  lemma AutoClusterCount(n: nat, maxClusters: int)
    requires n >= 3 && maxClusters >= 1
    ensures ClusterCount(n, None, maxClusters) == Min(n / 3, maxClusters)
    ensures 3 * ClusterCount(n, None, maxClusters) <= n
  {
  }

  /** Each glyph carries the label the clustering assigned to it. */
  function Tag(glyphs: seq<Glyph>, labels: seq<int>): (r: seq<Glyph>)
    requires |labels| == |glyphs|
    ensures |r| == |glyphs|
    ensures forall i :: 0 <= i < |r| ==> r[i] == glyphs[i].(group := Some(labels[i]))
  {
    seq(|glyphs|, i requires 0 <= i < |glyphs| => glyphs[i].(group := Some(labels[i])))
  }

  /**
   * `cluster_characters_kmeans`, with the k-means labels as an input. No glyphs
   * gives no glyphs; a requested count below one is refused by the clustering
   * library.
   */
  function ClusterKMeans(glyphs: seq<Glyph>, requested: Option<int>, maxClusters: int, labels: seq<int>): (r: Result<seq<Glyph>>)
    requires |labels| == |glyphs|
    ensures r.Failure? <==> |glyphs| > 0 && requested.Some? && requested.value < 1
    ensures r.Failure? ==> r.error == InvalidClusterCount(requested.value)
    ensures r.Success? ==> r.value == Tag(glyphs, labels)
  {
    if |glyphs| == 0 then Success([])
    else
      var k := ClusterCount(|glyphs|, requested, maxClusters);
      if k < 1 then Failure(InvalidClusterCount(k)) else Success(Tag(glyphs, labels))
  }

  /** `cluster_characters_dbscan`, with the DBSCAN labels (-1 for noise) as an input. */
  function ClusterDbscan(glyphs: seq<Glyph>, labels: seq<int>): (r: seq<Glyph>)
    requires |labels| == |glyphs|
    ensures r == Tag(glyphs, labels)
  {
    if |glyphs| == 0 then [] else Tag(glyphs, labels)
  }

  /** The clustering step of `group_characters_by_similarity`: dispatch on the method `name`. */
  function Cluster(glyphs: seq<Glyph>, name: string, requested: Option<int>, maxClusters: int, labels: seq<int>): (r: Result<seq<Glyph>>)
    requires |labels| == |glyphs|
    ensures name != "kmeans" && name != "dbscan" ==> r == Failure(UnknownMethod(name))
    ensures r.Success? ==> r.value == Tag(glyphs, labels)
  {
    if name == "kmeans" then ClusterKMeans(glyphs, requested, maxClusters, labels)
    else if name == "dbscan" then Success(ClusterDbscan(glyphs, labels))
    else Failure(UnknownMethod(name))
  }

  // ---------------------------------------------------------------------------
  // Reading order

  /** The sort key `(y, -x)` for right-to-left reading, `(y, x)` otherwise. */
  function ReadingKey(rtl: bool): Glyph -> Key {
    (g: Glyph) => Key(g.box.y, if rtl then -(g.box.x as int) else g.box.x)
  }

  /** Top to bottom; within a row right to left when `rtl`, left to right otherwise. */
  predicate ReadsBefore(a: Glyph, b: Glyph, rtl: bool) {
    a.box.y < b.box.y || (a.box.y == b.box.y && (if rtl then a.box.x >= b.box.x else a.box.x <= b.box.x))
  }

  /**
   * `sort_characters_reading_order`: a stable sort by the reading key. The result
   * is a permutation of the input in reading order, and glyphs at the same
   * position keep their input order.
   */
  function ReadingOrder(glyphs: seq<Glyph>, rtl: bool): (r: seq<Glyph>)
    ensures multiset(r) == multiset(glyphs)
    ensures forall i, j :: 0 <= i < j < |r| ==> ReadsBefore(r[i], r[j], rtl)
    ensures forall k :: FilterKey(r, ReadingKey(rtl), k) == FilterKey(glyphs, ReadingKey(rtl), k)
  {
    if |glyphs| == 0 then []
    else
      var r := SortBy(glyphs, ReadingKey(rtl));
      assert forall i, j :: 0 <= i < j < |r| ==> KeyLe(ReadingKey(rtl)(r[i]), ReadingKey(rtl)(r[j]));
      r
  }

  // ---------------------------------------------------------------------------
  // Grouping by cluster label

  /** One entry of the groups dictionary: a cluster label and its glyphs. */
  datatype Group = Group(id: int, members: seq<Glyph>)

  predicate Clustered(gs: seq<Glyph>) {
    forall i :: 0 <= i < |gs| ==> gs[i].group.Some?
  }

  function Label(g: Glyph): int
    requires g.group.Some?
  {
    g.group.value
  }

  /** The glyphs among the first `n` labelled `id`, in input order. */
  function Members(gs: seq<Glyph>, n: nat, id: int): (ms: seq<Glyph>)
    requires n <= |gs| && Clustered(gs)
    ensures |ms| <= n
    decreases n
  {
    if n == 0 then []
    else Members(gs, n - 1, id) + (if Label(gs[n - 1]) == id then [gs[n - 1]] else [])
  }

  /** The labels of the first `n` glyphs, each once, in order of first appearance. */
  function FirstSeen(gs: seq<Glyph>, n: nat): (ids: seq<int>)
    requires n <= |gs| && Clustered(gs)
    decreases n
  {
    if n == 0 then []
    else
      var ids := FirstSeen(gs, n - 1);
      if Label(gs[n - 1]) in ids then ids else ids + [Label(gs[n - 1])]
  }

  /** A label is first seen among the first `n` glyphs exactly when one of them carries it; none twice. */
  lemma {:induction false} FirstSeenSpec(gs: seq<Glyph>, n: nat)
    requires n <= |gs| && Clustered(gs)
    ensures Distinct(FirstSeen(gs, n))
    ensures forall id :: id in FirstSeen(gs, n) <==> exists j :: 0 <= j < n && Label(gs[j]) == id
    decreases n
  {
    if n > 0 {
      FirstSeenSpec(gs, n - 1);
    }
  }

  /** A label has members among the first `n` glyphs exactly when it has been seen. */
  lemma {:induction false} MembersSpec(gs: seq<Glyph>, n: nat, id: int)
    requires n <= |gs| && Clustered(gs)
    ensures |Members(gs, n, id)| > 0 <==> exists j :: 0 <= j < n && Label(gs[j]) == id
    decreases n
  {
    if n > 0 {
      MembersSpec(gs, n - 1, id);
    }
  }

  /** A group holds only glyphs of its label, taken from the first `n`. */
  lemma {:induction false} MembersLabelled(gs: seq<Glyph>, n: nat, id: int)
    requires n <= |gs| && Clustered(gs)
    ensures forall g :: g in Members(gs, n, id) ==> g in gs[..n] && Label(g) == id
    decreases n
  {
    if n > 0 {
      MembersLabelled(gs, n - 1, id);
      assert gs[..n] == gs[..n - 1] + [gs[n - 1]];
    }
  }

  /** No label names two groups, as in the dictionary the groups are kept in. */
  predicate DistinctIds(groups: seq<Group>) {
    forall i, j :: 0 <= i < j < |groups| ==> groups[i].id != groups[j].id
  }

  /** The index of the group labelled `id`, or `|groups|` when there is none. */
  function Find(groups: seq<Group>, id: int): (i: nat)
    ensures i <= |groups|
    ensures i < |groups| ==> groups[i].id == id
    ensures forall j :: 0 <= j < i ==> groups[j].id != id
  {
    if |groups| == 0 then 0
    else if groups[0].id == id then 0
    else 1 + Find(groups[1..], id)
  }

  /** One step of the grouping loop: append `g` to its label's group, opening the group if new. */
  function Place(groups: seq<Group>, g: Glyph): seq<Group>
    requires g.group.Some?
  {
    var i := Find(groups, Label(g));
    if i < |groups| then groups[i := Group(groups[i].id, groups[i].members + [g])]
    else groups + [Group(Label(g), [g])]
  }

  /** The groups of the first `n` glyphs: one per label in first-seen order, with its members. */
  ghost predicate GroupsOf(gs: seq<Glyph>, n: nat, groups: seq<Group>)
    requires n <= |gs| && Clustered(gs)
  {
    && |groups| == |FirstSeen(gs, n)|
    && forall i :: 0 <= i < |groups| ==>
         groups[i] == Group(FirstSeen(gs, n)[i], Members(gs, n, FirstSeen(gs, n)[i]))
  }

  /** The grouping loop of `group_characters_by_similarity` over the first `n` glyphs. */
  function GroupUpTo(gs: seq<Glyph>, n: nat): seq<Group>
    requires n <= |gs| && Clustered(gs)
  {
    if n == 0 then [] else Place(GroupUpTo(gs, n - 1), gs[n - 1])
  }

  /** The loop builds one group per label, in first-seen order, holding that label's glyphs. */
  lemma {:induction false} GroupUpToSpec(gs: seq<Glyph>, n: nat)
    requires n <= |gs| && Clustered(gs)
    ensures GroupsOf(gs, n, GroupUpTo(gs, n))
    decreases n
  {
    if n > 0 {
      GroupUpToSpec(gs, n - 1);
      FirstSeenSpec(gs, n - 1);
      PlaceStep(gs, n, GroupUpTo(gs, n - 1));
    }
  }

  lemma PlaceStep(gs: seq<Glyph>, n: nat, groups: seq<Group>)
    requires 1 <= n <= |gs| && Clustered(gs)
    requires Distinct(FirstSeen(gs, n - 1))
    requires GroupsOf(gs, n - 1, groups)
    ensures GroupsOf(gs, n, Place(groups, gs[n - 1]))
  {
    var g := gs[n - 1];
    var ids := FirstSeen(gs, n - 1);
    var i := Find(groups, Label(g));
    if i < |groups| {
      assert Label(g) in ids;
      assert FirstSeen(gs, n) == ids;
    } else {
      assert Label(g) !in ids;
      assert FirstSeen(gs, n) == ids + [Label(g)];
      assert Members(gs, n - 1, Label(g)) == [] by {
        MembersSpec(gs, n - 1, Label(g));
        FirstSeenSpec(gs, n - 1);
      }
    }
  }

  function Size(g: Group): nat { |g.members| }

  /** The number of glyphs over all groups. */
  function Total(groups: seq<Group>): nat { SumOf(groups, Size) }

  /** Each grouping step files exactly one glyph. */
  lemma {:induction false} GroupUpToTotal(gs: seq<Glyph>, n: nat)
    requires n <= |gs| && Clustered(gs)
    ensures Total(GroupUpTo(gs, n)) == n
    decreases n
  {
    if n > 0 {
      GroupUpToTotal(gs, n - 1);
      PlaceTotal(GroupUpTo(gs, n - 1), gs[n - 1]);
    }
  }

  lemma PlaceTotal(groups: seq<Group>, g: Glyph)
    requires g.group.Some?
    ensures Total(Place(groups, g)) == Total(groups) + 1
  {
    var i := Find(groups, Label(g));
    if i < |groups| {
      SumUpdate(groups, i, Group(groups[i].id, groups[i].members + [g]), Size);
    } else {
      assert (groups + [Group(Label(g), [g])])[..|groups|] == groups;
    }
  }

  /** Larger groups sort first; equal sizes keep their order. */
  function SizeKey(g: Group): Key { Key(-(Size(g) as int), 0) }

  /**
   * The groups of `gs`, largest first. The sort is stable, so groups of equal size
   * stay in the order in which their labels first appear.
   */
  function SortGroups(gs: seq<Glyph>): (r: seq<Group>)
    requires Clustered(gs)
    ensures multiset(r) == multiset(GroupUpTo(gs, |gs|))
    ensures forall i, j :: 0 <= i < j < |r| ==> Size(r[i]) >= Size(r[j])
    ensures forall k :: FilterKey(r, SizeKey, k) == FilterKey(GroupUpTo(gs, |gs|), SizeKey, k)
  {
    var r := SortBy(GroupUpTo(gs, |gs|), SizeKey);
    assert forall i, j :: 0 <= i < j < |r| ==> KeyLe(SizeKey(r[i]), SizeKey(r[j]));
    r
  }

  /**
   * `groups` partitions the clustered glyphs `gs` by label: labels are distinct,
   * each group holds exactly the glyphs with its label in input order, no group is
   * empty, every glyph's label has a group, and groups come largest first.
   */
  ghost predicate PartitionsBySize(gs: seq<Glyph>, groups: seq<Group>)
    requires Clustered(gs)
  {
    && DistinctIds(groups)
    && (forall i :: 0 <= i < |groups| ==> groups[i].members == Members(gs, |gs|, groups[i].id))
    && (forall i :: 0 <= i < |groups| ==> Size(groups[i]) > 0)
    && (forall j :: 0 <= j < |gs| ==> exists i :: 0 <= i < |groups| && groups[i].id == Label(gs[j]))
    && (forall i, j :: 0 <= i < j < |groups| ==> Size(groups[i]) >= Size(groups[j]))
  }

  /** Sorting the first-seen grouping by size yields a partition by label. */
  lemma SortGroupsPartition(gs: seq<Glyph>)
    requires Clustered(gs)
    ensures PartitionsBySize(gs, SortGroups(gs))
  {
    var r := SortGroups(gs);
    var groups := GroupUpTo(gs, |gs|);
    var ids := FirstSeen(gs, |gs|);
    FirstSeenSpec(gs, |gs|);
    GroupUpToSpec(gs, |gs|);
    assert Distinct(groups) by {
      forall i, j | 0 <= i < j < |groups| ensures groups[i] != groups[j] {
        assert groups[i].id == ids[i] && groups[j].id == ids[j];
      }
    }
    DistinctPermutation(groups, r);
    forall i | 0 <= i < |r|
      ensures exists p :: 0 <= p < |groups| && r[i] == groups[p]
    {
      assert r[i] in multiset(groups);
    }
    forall i | 0 <= i < |r|
      ensures r[i].members == Members(gs, |gs|, r[i].id) && Size(r[i]) > 0
    {
      var p :| 0 <= p < |groups| && r[i] == groups[p];
      MembersSpec(gs, |gs|, ids[p]);
      assert ids[p] in ids;
    }
    forall i, j | 0 <= i < j < |r|
      ensures r[i].id != r[j].id
    {
      var p :| 0 <= p < |groups| && r[i] == groups[p];
      var q :| 0 <= q < |groups| && r[j] == groups[q];
      assert r[i] != r[j];
    }
    forall j | 0 <= j < |gs|
      ensures exists i :: 0 <= i < |r| && r[i].id == Label(gs[j])
    {
      assert Label(gs[j]) in ids;
      var p :| 0 <= p < |ids| && ids[p] == Label(gs[j]);
      assert groups[p] in multiset(r);
      var i :| 0 <= i < |r| && r[i] == groups[p];
    }
  }

  /** Grouping neither drops nor duplicates a glyph. */
  lemma SortGroupsTotal(gs: seq<Glyph>)
    requires Clustered(gs)
    ensures Total(SortGroups(gs)) == |gs|
  {
    GroupUpToTotal(gs, |gs|);
    SumPermutation(SortGroups(gs), GroupUpTo(gs, |gs|), Size);
  }

  /** With every label in `[0, k)`, as k-means assigns them, there are at most `k` groups. */
  lemma SortGroupsAtMost(gs: seq<Glyph>, k: nat)
    requires Clustered(gs)
    requires forall j :: 0 <= j < |gs| ==> 0 <= Label(gs[j]) < k
    ensures |SortGroups(gs)| <= k
  {
    var ids := FirstSeen(gs, |gs|);
    FirstSeenSpec(gs, |gs|);
    GroupUpToSpec(gs, |gs|);
    assert |multiset(SortGroups(gs))| == |multiset(GroupUpTo(gs, |gs|))|;
    forall i | 0 <= i < |ids| ensures 0 <= ids[i] < k {
      assert ids[i] in ids;
    }
    DistinctBounded(ids, k);
  }

  /**
   * `group_characters_by_similarity`: cluster with the named method, then group
   * the glyphs by cluster label, largest group first.
   */
  function GroupBySimilarity(glyphs: seq<Glyph>, name: string, requested: Option<int>, maxClusters: int, labels: seq<int>): (r: Result<seq<Group>>)
    requires |labels| == |glyphs|
    ensures name != "kmeans" && name != "dbscan" ==> r == Failure(UnknownMethod(name))
    ensures name == "kmeans" ==> (r.Failure? <==> |glyphs| > 0 && requested.Some? && requested.value < 1)
    ensures name == "dbscan" ==> r.Success?
    ensures r.Success? ==> Clustered(Tag(glyphs, labels)) && PartitionsBySize(Tag(glyphs, labels), r.value)
    ensures r.Success? ==> Total(r.value) == |glyphs|
  {
    match Cluster(glyphs, name, requested, maxClusters, labels)
    case Failure(e) => Failure(e)
    case Success(gs) =>
      SortGroupsPartition(gs);
      SortGroupsTotal(gs);
      Success(SortGroups(gs))
  }

  // ---------------------------------------------------------------------------
  // merge_character_groups

  /** With distinct labels, the group labelled `g.id` is `g` itself. */
  lemma FindMember(groups: seq<Group>, g: Group)
    requires DistinctIds(groups) && g in groups
    ensures Find(groups, g.id) < |groups| && groups[Find(groups, g.id)] == g
  {
    var k :| 0 <= k < |groups| && groups[k] == g;
    var i := Find(groups, g.id);
    assert !(k < i);
    assert !(i < k && i < |groups|);
  }

  /** Replacing a group by one with the same label moves no label. */
  lemma FindUpdate(groups: seq<Group>, i: nat, x: Group, id: int)
    requires i < |groups| && groups[i].id == x.id
    ensures Find(groups[i := x], id) == Find(groups, id)
  {
    var s := groups[i := x];
    assert forall j :: 0 <= j < |s| ==> s[j].id == groups[j].id;
    var k, k' := Find(groups, id), Find(s, id);
    assert !(k' < k);
    assert !(k < k');
  }

  /** `del groups[id]`: drops the group labelled `id` and keeps the others in order. */
  function Remove(groups: seq<Group>, id: int): (r: seq<Group>)
    ensures |r| <= |groups|
  {
    if |groups| == 0 then []
    else (if groups[0].id == id then [] else [groups[0]]) + Remove(groups[1..], id)
  }

  /** A group survives removal exactly when it carries another label. */
  lemma {:induction false} RemoveIn(groups: seq<Group>, id: int, g: Group)
    ensures g in Remove(groups, id) <==> g in groups && g.id != id
  {
    if |groups| > 0 {
      RemoveIn(groups[1..], id, g);
      assert groups == [groups[0]] + groups[1..];
    }
  }

  lemma {:induction false} RemoveDistinct(groups: seq<Group>, id: int)
    requires DistinctIds(groups)
    ensures DistinctIds(Remove(groups, id))
  {
    if |groups| > 0 {
      var rest := groups[1..];
      var tail := Remove(rest, id);
      RemoveDistinct(rest, id);
      if groups[0].id != id {
        forall k | 0 <= k < |tail|
          ensures tail[k].id != groups[0].id
        {
          RemoveIn(rest, id, tail[k]);
          var m :| 0 <= m < |rest| && rest[m] == tail[k];
          assert groups[m + 1] == rest[m];
        }
        assert Remove(groups, id) == [groups[0]] + tail;
      }
    }
  }

  /** Removing an absent label changes nothing. */
  lemma {:induction false} RemoveAbsent(groups: seq<Group>, id: int)
    requires Find(groups, id) == |groups|
    ensures Remove(groups, id) == groups
  {
    if |groups| > 0 {
      RemoveAbsent(groups[1..], id);
      assert groups == [groups[0]] + groups[1..];
    }
  }

  /** Removing a present label drops exactly one group and its members. */
  lemma {:induction false} RemovePresent(groups: seq<Group>, id: int)
    requires DistinctIds(groups) && Find(groups, id) < |groups|
    ensures |Remove(groups, id)| == |groups| - 1
    ensures Total(Remove(groups, id)) + Size(groups[Find(groups, id)]) == Total(groups)
  {
    var rest := groups[1..];
    assert groups == [groups[0]] + rest;
    SumConcat([groups[0]], rest, Size);
    assert SumOf([groups[0]], Size) == Size(groups[0]) by {
      assert [groups[0]][..0] == [];
    }
    if groups[0].id == id {
      forall j | 0 <= j < |rest|
        ensures rest[j].id != id
      {
        assert rest[j] == groups[j + 1];
      }
      RemoveAbsent(rest, id);
      assert Remove(groups, id) == Remove(rest, id);
    } else {
      RemovePresent(rest, id);
      SumConcat([groups[0]], Remove(rest, id), Size);
    }
  }

  /** Removing one label then another is removing them in the other order. */
  lemma {:induction false} RemoveCommutes(groups: seq<Group>, a: int, b: int)
    ensures Remove(Remove(groups, a), b) == Remove(Remove(groups, b), a)
  {
    if |groups| > 0 {
      var x, rest := groups[0], groups[1..];
      RemoveCommutes(rest, a, b);
      var ra, rb := Remove(rest, a), Remove(rest, b);
      assert Remove(groups, a) == if x.id == a then ra else [x] + ra;
      assert Remove(groups, b) == if x.id == b then rb else [x] + rb;
      if x.id != a {
        RemoveCons(x, ra, b);
      }
      if x.id != b {
        RemoveCons(x, rb, a);
      }
    }
  }

  lemma RemoveCons(x: Group, rest: seq<Group>, id: int)
    ensures Remove([x] + rest, id) == (if x.id == id then [] else [x]) + Remove(rest, id)
  {
    assert ([x] + rest)[1..] == rest;
  }

  /** Replacing the group labelled `id` by another labelled `id` does not change what removing `id` leaves. */
  lemma {:induction false} RemoveReplaced(groups: seq<Group>, i: nat, x: Group)
    requires i < |groups| && groups[i].id == x.id
    ensures Remove(groups[i := x], x.id) == Remove(groups, x.id)
  {
    if i > 0 {
      RemoveReplaced(groups[1..], i - 1, x);
      assert groups[i := x][1..] == groups[1..][i - 1 := x];
    }
  }

  /**
   * Replacing the group at `i` by one with the same label and removing another
   * label is removing first and replacing afterwards, at the label's new place.
   */
  lemma {:induction false} RemoveUpdate(groups: seq<Group>, i: nat, x: Group, id: int)
    requires DistinctIds(groups) && i < |groups| && groups[i].id == x.id && x.id != id
    ensures Find(Remove(groups, id), x.id) < |Remove(groups, id)|
    ensures Remove(groups[i := x], id) == Remove(groups, id)[Find(Remove(groups, id), x.id) := x]
  {
    var head, rest := groups[0], groups[1..];
    assert groups == [head] + rest;
    if i == 0 {
      assert groups[i := x] == [x] + rest;
      RemoveUpdateFirst(head, rest, x, id);
    } else {
      assert head.id != x.id;
      assert rest[i - 1] == groups[i];
      RemoveUpdate(rest, i - 1, x, id);
      assert groups[i := x] == [head] + rest[i - 1 := x];
      RemoveUpdateLater(head, rest, i - 1, x, id);
    }
  }

  /** The replaced group is the first one. */
  lemma RemoveUpdateFirst(head: Group, rest: seq<Group>, x: Group, id: int)
    requires head.id == x.id && x.id != id
    ensures Find(Remove([head] + rest, id), x.id) == 0 < |Remove([head] + rest, id)|
    ensures Remove([x] + rest, id) == Remove([head] + rest, id)[0 := x]
  {
    RemoveCons(head, rest, id);
    RemoveCons(x, rest, id);
    FindCons(head, Remove(rest, id), x.id);
  }

  /** The replaced group lies behind a head with another label. */
  lemma RemoveUpdateLater(head: Group, rest: seq<Group>, j: nat, x: Group, id: int)
    requires j < |rest| && rest[j].id == x.id && x.id != id && head.id != x.id
    requires Find(Remove(rest, id), x.id) < |Remove(rest, id)|
    requires Remove(rest[j := x], id) == Remove(rest, id)[Find(Remove(rest, id), x.id) := x]
    ensures Find(Remove([head] + rest, id), x.id) < |Remove([head] + rest, id)|
    ensures Remove([head] + rest[j := x], id) == Remove([head] + rest, id)[Find(Remove([head] + rest, id), x.id) := x]
  {
    if head.id != id {
      RemoveUpdateBehindKept(head, rest, j, x, id);
    } else {
      RemoveCons(head, rest, id);
      RemoveCons(head, rest[j := x], id);
      assert Remove([head] + rest, id) == [] + Remove(rest, id) == Remove(rest, id);
      assert Remove([head] + rest[j := x], id) == [] + Remove(rest[j := x], id) == Remove(rest[j := x], id);
    }
  }

  /** As RemoveUpdateLater, for a head that survives the removal. */
  lemma RemoveUpdateBehindKept(head: Group, rest: seq<Group>, j: nat, x: Group, id: int)
    requires j < |rest| && head.id != x.id && head.id != id
    requires Find(Remove(rest, id), x.id) < |Remove(rest, id)|
    requires Remove(rest[j := x], id) == Remove(rest, id)[Find(Remove(rest, id), x.id) := x]
    ensures Find(Remove([head] + rest, id), x.id) < |Remove([head] + rest, id)|
    ensures Remove([head] + rest[j := x], id) == Remove([head] + rest, id)[Find(Remove([head] + rest, id), x.id) := x]
  {
    RemoveCons(head, rest, id);
    RemoveCons(head, rest[j := x], id);
    assert Remove([head] + rest, id) == [head] + Remove(rest, id);
    assert Remove([head] + rest[j := x], id) == [head] + Remove(rest[j := x], id);
    RemoveUpdateKept(head, Remove(rest, id), x);
  }

  /** Updating behind a kept head: the label's index shifts by one. */
  lemma RemoveUpdateKept(head: Group, tail: seq<Group>, x: Group)
    requires head.id != x.id && Find(tail, x.id) < |tail|
    ensures Find([head] + tail, x.id) == 1 + Find(tail, x.id)
    ensures ([head] + tail)[1 + Find(tail, x.id) := x] == [head] + tail[Find(tail, x.id) := x]
  {
    FindCons(head, tail, x.id);
  }

  lemma FindCons(head: Group, tail: seq<Group>, id: int)
    ensures Find([head] + tail, id) == if head.id == id then 0 else 1 + Find(tail, id)
  {
    assert ([head] + tail)[1..] == tail;
  }

  /** Every member re-tagged with label `id`. */
  function Retag(ms: seq<Glyph>, id: int): (r: seq<Glyph>)
    ensures |r| == |ms|
    ensures forall i :: 0 <= i < |r| ==> r[i] == ms[i].(group := Some(id))
  {
    seq(|ms|, i requires 0 <= i < |ms| => ms[i].(group := Some(id)))
  }

  /**
   * `merge_character_groups` as written: when both labels are present the second
   * group's glyphs are appended to the first's, the second is deleted, and the
   * first is looked up again to re-tag its glyphs; that lookup fails when the two
   * labels are the same.
   */
  function MergeGroupsAsWritten(groups: seq<Group>, id1: int, id2: int): (r: Result<seq<Group>>)
    ensures r.Failure? ==> r.error == MissingKey(id1)
  {
    var i1, i2 := Find(groups, id1), Find(groups, id2);
    if i1 < |groups| && i2 < |groups| then
      var extended := groups[i1 := Group(id1, groups[i1].members + groups[i2].members)];
      var removed := Remove(extended, id2);
      var j := Find(removed, id1);
      if j < |removed| then Success(removed[j := Group(id1, Retag(removed[j].members, id1))])
      else Failure(MissingKey(id1))
    else Success(groups)
  }

  /** Merging a present group with itself, as written, deletes it and then fails to find it. */
  lemma MergeSameIdFails(groups: seq<Group>, id: int)
    requires Find(groups, id) < |groups|
    ensures MergeGroupsAsWritten(groups, id, id) == Failure(MissingKey(id))
  {
    var i := Find(groups, id);
    var extended := groups[i := Group(id, groups[i].members + groups[i].members)];
    var removed := Remove(extended, id);
    assert Find(removed, id) == |removed| by {
      if Find(removed, id) < |removed| {
        RemoveIn(extended, id, removed[Find(removed, id)]);
      }
    }
  }

  /**
   * `merge_character_groups` with distinct labels, both present: the first group
   * takes the second's glyphs after its own, all re-tagged with the first label,
   * and the second group is deleted. Otherwise, and when both labels are the same,
   * the groups are returned unchanged.
   */
  function MergeGroups(groups: seq<Group>, id1: int, id2: int): (r: seq<Group>)
    requires DistinctIds(groups)
  {
    var i1, i2 := Find(groups, id1), Find(groups, id2);
    if i1 < |groups| && i2 < |groups| && id1 != id2 then
      Remove(groups[i1 := Group(id1, Retag(groups[i1].members + groups[i2].members, id1))], id2)
    else groups
  }

  /**
   * After a merge of two distinct present labels the labels stay distinct, there
   * is one group fewer, no glyph is lost, the second label is gone, the first
   * holds both member lists re-tagged, and all other groups are untouched and in
   * order. In every other case nothing changes.
   */
  lemma MergeGroupsSpec(groups: seq<Group>, id1: int, id2: int)
    requires DistinctIds(groups)
    ensures var r := MergeGroups(groups, id1, id2);
      && DistinctIds(r)
      && Total(r) == Total(groups)
      && (Find(groups, id1) == |groups| || Find(groups, id2) == |groups| || id1 == id2 ==> r == groups)
      && (Find(groups, id1) < |groups| && Find(groups, id2) < |groups| && id1 != id2 ==>
            && |r| == |groups| - 1
            && Find(r, id2) == |r|
            && Find(r, id1) < |r|
            && r[Find(r, id1)] == Group(id1, Retag(groups[Find(groups, id1)].members + groups[Find(groups, id2)].members, id1))
            && Remove(r, id1) == Remove(Remove(groups, id1), id2))
  {
    var i1, i2 := Find(groups, id1), Find(groups, id2);
    if i1 < |groups| && i2 < |groups| && id1 != id2 {
      var x := Group(id1, Retag(groups[i1].members + groups[i2].members, id1));
      var updated := groups[i1 := x];
      var r := Remove(updated, id2);
      assert DistinctIds(updated);
      FindUpdate(groups, i1, x, id2);
      RemoveDistinct(updated, id2);
      RemovePresent(updated, id2);
      SumUpdate(groups, i1, x, Size);
      assert updated[i1] == x;
      RemoveIn(updated, id2, x);
      FindMember(r, x);
      assert Find(r, id2) == |r| by {
        if Find(r, id2) < |r| {
          RemoveIn(updated, id2, r[Find(r, id2)]);
        }
      }
      RemoveCommutes(updated, id2, id1);
      RemoveReplaced(groups, i1, x);
    }
  }

  /** With distinct labels the code as written agrees with the corrected merge. */
  lemma MergeAsWrittenAgrees(groups: seq<Group>, id1: int, id2: int)
    requires DistinctIds(groups) && id1 != id2
    ensures MergeGroupsAsWritten(groups, id1, id2) == Success(MergeGroups(groups, id1, id2))
  {
    var i1, i2 := Find(groups, id1), Find(groups, id2);
    if i1 < |groups| && i2 < |groups| {
      var joined := Group(id1, groups[i1].members + groups[i2].members);
      var x := Group(id1, Retag(joined.members, id1));
      var extended := groups[i1 := joined];
      assert DistinctIds(extended);
      RemoveUpdate(extended, i1, x, id2);
      var removed := Remove(extended, id2);
      var j := Find(removed, id1);
      RemoveDistinct(extended, id2);
      RemoveIn(extended, id2, joined);
      FindMember(removed, joined);
      assert extended[i1 := x] == groups[i1 := x];
    }
  }
}
