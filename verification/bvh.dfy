/** Bounding volume hierarchy construction (src/bvh.rs): the box comparator,
    the random split axis, the recursive range splitting of `BvhNode::new`,
    and properties of a node's traversal.

    The random axis draw and `sort_unstable_by` are parameters: `draws(start,
    end)` is the raw number behind the axis of the call on `[start, end)`
    (each range is visited at most once), and `sort(models, axis)` returns some
    permutation of its input, which is all the comparator, being no total order,
    lets one say of it. */
module Bvh {
  import opened Num
  import opened Options
  import opened Vectors
  import opened Models
  import Aabbs

  /** The box of a model, or the zero box when it has none. */
  function BoxOrZero<M>(m: Model<M>): (b: Aabbs.Aabb)
    ensures BoundingBox(m).Some? ==> b == BoundingBox(m).value
    ensures BoundingBox(m).None? ==> b == Aabbs.ZeroBox
  {
    match BoundingBox(m)
    case Some(box) => box
    case None => Aabbs.ZeroBox
  }

  /** `box_compare`: whether `a`'s box starts strictly below `b`'s on axis `c`,
      a missing box counting as the zero box. */
  function BoxCompare<M>(a: Model<M>, b: Model<M>, c: nat): bool
    requires c < 3
  {
    Comp(BoxOrZero(a).min, c) < Comp(BoxOrZero(b).min, c)
  }

  /** The comparator is a strict order on each axis, and it compares spheres
      by the lower end of their extent; equal starts compare false both ways,
      which is why it is not a total order. */
  lemma BoxCompareIsStrict<M>(a: Model<M>, b: Model<M>, d: Model<M>, c: nat)
    requires c < 3
    ensures !BoxCompare(a, a, c)
    ensures BoxCompare(a, b, c) ==> !BoxCompare(b, a, c)
    ensures BoxCompare(a, b, c) && BoxCompare(b, d, c) ==> BoxCompare(a, d, c)
    ensures a.Sphere? && b.Sphere? ==>
      (BoxCompare(a, b, c) <==> Comp(a.center, c) - a.radius < Comp(b.center, c) - b.radius)
    ensures BoundingBox(a).None? && BoundingBox(b).None? ==> !BoxCompare(a, b, c)
  {
  }

  /** The split axis of one call, `rng.gen_range(0, 2)` driven by a raw draw:
      x or y, never z, and each of the two for some draw. */
  function Axis(draw: nat): (axis: nat)
    ensures axis < 2
    ensures draw < 2 ==> axis == draw
  {
    draw % 2
  }

  /** `sort` returns a permutation of what it is given. */
  ghost predicate SortPermutes<M(!new)>(sort: (seq<Model<M>>, nat) -> seq<Model<M>>) {
    forall s, c :: multiset(sort(s, c)) == multiset(s)
  }

  /** A sequence ordered by the comparator on axis `c`: no later element
      compares below an earlier one. */
  ghost predicate SortedOn<M>(s: seq<Model<M>>, c: nat)
    requires c < 3
  {
    forall i, j :: 0 <= i < j < |s| ==> !BoxCompare(s[j], s[i], c)
  }

  /** A built hierarchy: a leaf is one of the input models (an `Arc` clone), a
      branch is a `BvhNode` with its stored box. */
  datatype Tree<M> = Leaf(model: Model<M>) | Branch(left: Tree<M>, right: Tree<M>, box: Aabbs.Aabb)

  /** The hierarchy as a model, for traversal. */
  function AsModel<M>(t: Tree<M>): (m: Model<M>)
    ensures t.Branch? ==> m.Node? && m.box == t.box
    ensures t.Leaf? ==> m == t.model
  {
    match t
    case Leaf(model) => model
    case Branch(left, right, box) => Node(AsModel(left), AsModel(right), box)
  }

  /** The box of a subtree, zero when it has none. */
  function TreeBox<M>(t: Tree<M>): Aabbs.Aabb {
    BoxOrZero(AsModel(t))
  }

  /** A node over two children: its box is the union of their boxes (zero for
      a child without one), so it contains both. */
  function MakeNode<M>(left: Tree<M>, right: Tree<M>): (t: Tree<M>)
    ensures t.Branch? && t.left == left && t.right == right
    ensures Aabbs.Contains(t.box, TreeBox(left)) && Aabbs.Contains(t.box, TreeBox(right))
  {
    Branch(left, right, Aabbs.Surrounding(TreeBox(left), TreeBox(right)))
  }

  /** The models a hierarchy holds at its leaves. */
  function Placed<M(==)>(t: Tree<M>): set<Model<M>> {
    match t
    case Leaf(model) => {model}
    case Branch(left, right, _) => Placed(left) + Placed(right)
  }

  /** The set of entries of a sequence. */
  function Elements<M(==)>(s: seq<Model<M>>): set<Model<M>> {
    set x | x in s
  }

  /** `BvhNode::new(models, start, end)` as written: returns the node and the
      vector after the call. Span 1 puts `models[start]` on both sides; span 2
      keeps the input order on either outcome of the comparison; a larger span
      sorts the WHOLE vector on the drawn axis, then builds `[start, mid)` and
      `[mid, end)` in turn, the second from the vector the first left behind.
      An empty range recurses without end in the source (see
      `EmptyRangeNeverEnds`), so it is excluded here. */
  function Build<M(==,!new)>(models: seq<Model<M>>, start: nat, end: nat,
                    draws: (nat, nat) -> nat, sort: (seq<Model<M>>, nat) -> seq<Model<M>>)
    : (res: (Tree<M>, seq<Model<M>>))
    requires start < end <= |models|
    requires SortPermutes(sort)
    ensures res.0.Branch?
    ensures multiset(res.1) == multiset(models)
    ensures |res.1| == |models|
    decreases end - start
  {
    var axis := Axis(draws(start, end));
    var span := end - start;
    if span == 1 then
      (MakeNode(Leaf(models[start]), Leaf(models[start])), models)
    else if span == 2 then
      if BoxCompare(models[start], models[start + 1], axis) then
        (MakeNode(Leaf(models[start]), Leaf(models[start + 1])), models)
      else
        (MakeNode(Leaf(models[start]), Leaf(models[start + 1])), models)
    else
      var sorted := sort(models, axis);
      assert |sorted| == |models| by {
        assert |multiset(sorted)| == |multiset(models)|;
      }
      var mid := start + span / 2;
      var left := Build(sorted, start, mid, draws, sort);
      var right := Build(left.1, mid, end, draws, sort);
      (MakeNode(left.0, right.0), right.1)
  }

  /** The shapes of the small cases: one model sits on both sides; two models
      sit in input order whatever the comparator says; a larger range has two
      nodes below it, one per non-empty half. Every node's box contains its
      children's boxes. */
  lemma BuildShape<M(!new)>(models: seq<Model<M>>, start: nat, end: nat,
                      draws: (nat, nat) -> nat, sort: (seq<Model<M>>, nat) -> seq<Model<M>>)
    requires start < end <= |models| && SortPermutes(sort)
    ensures var t := Build(models, start, end, draws, sort).0;
      && (end - start == 1 ==> t.left == Leaf(models[start]) && t.right == Leaf(models[start])
                               && t.box == TreeBox(Leaf(models[start])))
      && (end - start == 2 ==> t.left == Leaf(models[start]) && t.right == Leaf(models[start + 1]))
      && (end - start > 2 ==> t.left.Branch? && t.right.Branch?)
      && Aabbs.Contains(t.box, TreeBox(t.left)) && Aabbs.Contains(t.box, TreeBox(t.right))
  {
    var t := Build(models, start, end, draws, sort).0;
    if end - start == 1 {
      Aabbs.SurroundingLaws(TreeBox(Leaf(models[start])), TreeBox(Leaf(models[start])), Aabbs.ZeroBox);
    }
  }

  /** A range of one or two models leaves the vector as it is and places just
      those models. */
  lemma BuildSmall<M(!new)>(models: seq<Model<M>>, start: nat, end: nat,
                      draws: (nat, nat) -> nat, sort: (seq<Model<M>>, nat) -> seq<Model<M>>)
    requires start < end <= |models| && end - start <= 2 && SortPermutes(sort)
    ensures Build(models, start, end, draws, sort).1 == models
    ensures end - start == 1 ==> Placed(Build(models, start, end, draws, sort).0) == {models[start]}
    ensures end - start == 2 ==>
      Placed(Build(models, start, end, draws, sort).0) == {models[start], models[start + 1]}
  {
  }

  /** The box `BvhNode::new` stores, which `bounding_box` returns, encloses
      the box of every model the built node places (a model without a box
      counts with the zero box the constructor falls back to). */
  lemma {:induction false} BuildBoxEncloses<M(!new)>(models: seq<Model<M>>, start: nat, end: nat,
                                                    draws: (nat, nat) -> nat,
                                                    sort: (seq<Model<M>>, nat) -> seq<Model<M>>)
    requires start < end <= |models| && SortPermutes(sort)
    ensures var t := Build(models, start, end, draws, sort).0;
      && BoundingBox(AsModel(t)) == Some(t.box)
      && forall m :: m in Placed(t) ==> Aabbs.Contains(t.box, BoxOrZero(m))
    decreases end - start
  {
    var t := Build(models, start, end, draws, sort).0;
    assert BoundingBox(AsModel(t)) == Some(t.box);
    BuildShape(models, start, end, draws, sort);
    if end - start <= 2 {
      BuildSmall(models, start, end, draws, sort);
      assert t == MakeNode(t.left, t.right);
      MakeNodePlaces(t.left, t.right);
    } else {
      var sorted := sort(models, Axis(draws(start, end)));
      assert |sorted| == |models| by {
        assert |multiset(sorted)| == |multiset(models)|;
      }
      var mid := start + (end - start) / 2;
      var left := Build(sorted, start, mid, draws, sort);
      var right := Build(left.1, mid, end, draws, sort);
      BuildStep(models, start, end, draws, sort, sorted, mid, left, right);
      BuildBoxEncloses(sorted, start, mid, draws, sort);
      BuildBoxEncloses(left.1, mid, end, draws, sort);
      MakeNodePlaces(left.0, right.0);
      assert BoundingBox(AsModel(left.0)) == Some(left.0.box);
      assert BoundingBox(AsModel(right.0)) == Some(right.0.box);
      assert TreeBox(t.left) == left.0.box && TreeBox(t.right) == right.0.box;
      ChildBoxesEnclosed(t.box, left.0.box, right.0.box, Placed(left.0), Placed(right.0));
    }
  }

  /** A box containing two boxes, each of which encloses the boxes of a set
      of models, encloses the boxes of both sets. */
  lemma ChildBoxesEnclosed<M>(box: Aabbs.Aabb, lbox: Aabbs.Aabb, gbox: Aabbs.Aabb,
                              pl: set<Model<M>>, pg: set<Model<M>>)
    requires Aabbs.Contains(box, lbox) && Aabbs.Contains(box, gbox)
    requires forall m :: m in pl ==> Aabbs.Contains(lbox, BoxOrZero(m))
    requires forall m :: m in pg ==> Aabbs.Contains(gbox, BoxOrZero(m))
    ensures forall m :: m in pl + pg ==> Aabbs.Contains(box, BoxOrZero(m))
  {
    forall m | m in pl + pg
      ensures Aabbs.Contains(box, BoxOrZero(m))
    {
      if m in pl {
        Aabbs.ContainsTransitive(box, lbox, BoxOrZero(m), Zero);
      } else {
        Aabbs.ContainsTransitive(box, gbox, BoxOrZero(m), Zero);
      }
    }
  }

  // ---------------------------------------------------------------------
  // Range splitting done right.

  /** The vector with only `[start, end)` replaced by its sorted version. */
  function SortRange<M(==,!new)>(models: seq<Model<M>>, start: nat, end: nat, axis: nat,
                        sort: (seq<Model<M>>, nat) -> seq<Model<M>>): (s: seq<Model<M>>)
    requires start <= end <= |models| && SortPermutes(sort)
    ensures |s| == |models|
  {
    SortedLength(models[start..end], axis, sort);
    models[..start] + sort(models[start..end], axis) + models[end..]
  }

  /** A permuting sort keeps the length. */
  lemma SortedLength<M(!new)>(s: seq<Model<M>>, axis: nat, sort: (seq<Model<M>>, nat) -> seq<Model<M>>)
    requires SortPermutes(sort)
    ensures |sort(s, axis)| == |s|
  {
    assert |multiset(sort(s, axis))| == |multiset(s)|;
  }

  /** Sorting a range leaves the rest of the vector alone and permutes the
      range. */
  lemma SortRangeKeeps<M(!new)>(models: seq<Model<M>>, start: nat, end: nat, axis: nat,
                        sort: (seq<Model<M>>, nat) -> seq<Model<M>>)
    requires start <= end <= |models| && SortPermutes(sort)
    ensures var s := SortRange(models, start, end, axis, sort);
      && s[..start] == models[..start] && s[end..] == models[end..]
      && multiset(s[start..end]) == multiset(models[start..end])
  {
    var middle := sort(models[start..end], axis);
    SortedLength(models[start..end], axis, sort);
    var s := SortRange(models, start, end, axis, sort);
    assert s[start..end] == middle;
    assert s[..start] == models[..start];
    assert s[end..] == models[end..];
  }

  /** `BvhNode::new` with the sort restricted to the range, as the split on
      `[start, end)` needs. */
  function BuildRange<M(==,!new)>(models: seq<Model<M>>, start: nat, end: nat,
                         draws: (nat, nat) -> nat, sort: (seq<Model<M>>, nat) -> seq<Model<M>>)
    : (res: (Tree<M>, seq<Model<M>>))
    requires start < end <= |models|
    requires SortPermutes(sort)
    ensures res.0.Branch?
    ensures |res.1| == |models|
    decreases end - start
  {
    var axis := Axis(draws(start, end));
    var span := end - start;
    if span == 1 then
      (MakeNode(Leaf(models[start]), Leaf(models[start])), models)
    else if span == 2 then
      (MakeNode(Leaf(models[start]), Leaf(models[start + 1])), models)
    else
      var sorted := SortRange(models, start, end, axis, sort);
      var mid := start + span / 2;
      var left := BuildRange(sorted, start, mid, draws, sort);
      var right := BuildRange(left.1, mid, end, draws, sort);
      (MakeNode(left.0, right.0), right.1)
  }

  /** The range-restricted build on one or two models. */
  lemma BuildRangeSmall<M(!new)>(models: seq<Model<M>>, start: nat, end: nat,
                      draws: (nat, nat) -> nat, sort: (seq<Model<M>>, nat) -> seq<Model<M>>)
    requires start < end <= |models| && end - start <= 2 && SortPermutes(sort)
    ensures BuildRange(models, start, end, draws, sort).1 == models
    ensures Placed(BuildRange(models, start, end, draws, sort).0) == Elements(models[start..end])
  {
    if end - start == 1 {
      assert models[start..end] == [models[start]];
    } else {
      assert models[start..end] == [models[start], models[start + 1]];
    }
  }

  /** One level of the range-restricted build on more than two models. */
  lemma BuildRangeStep<M(!new)>(models: seq<Model<M>>, start: nat, end: nat,
                      draws: (nat, nat) -> nat, sort: (seq<Model<M>>, nat) -> seq<Model<M>>,
                      sorted: seq<Model<M>>, mid: nat, left: (Tree<M>, seq<Model<M>>),
                      right: (Tree<M>, seq<Model<M>>))
    requires start < end <= |models| && SortPermutes(sort) && end - start > 2
    requires sorted == SortRange(models, start, end, Axis(draws(start, end)), sort)
    requires mid == start + (end - start) / 2
    requires left == BuildRange(sorted, start, mid, draws, sort)
    requires right == BuildRange(left.1, mid, end, draws, sort)
    ensures BuildRange(models, start, end, draws, sort) == (MakeNode(left.0, right.0), right.1)
  {
    var r := BuildRange(models, start, end, draws, sort);
    assert r.0 == MakeNode(left.0, right.0);
    assert r.1 == right.1;
  }

  /** One step of `Build` on more than two models: sort, build the lower
      half, build the upper half on what the lower half returned. */
  lemma BuildStep<M(!new)>(models: seq<Model<M>>, start: nat, end: nat,
                  draws: (nat, nat) -> nat, sort: (seq<Model<M>>, nat) -> seq<Model<M>>,
                  sorted: seq<Model<M>>, mid: nat, left: (Tree<M>, seq<Model<M>>),
                  right: (Tree<M>, seq<Model<M>>))
    requires start < end <= |models| && SortPermutes(sort) && end - start > 2
    requires sorted == sort(models, Axis(draws(start, end)))
    requires mid == start + (end - start) / 2
    requires |sorted| == |models|
    requires left == Build(sorted, start, mid, draws, sort)
    requires right == Build(left.1, mid, end, draws, sort)
    ensures Build(models, start, end, draws, sort) == (MakeNode(left.0, right.0), right.1)
  {
    var r := Build(models, start, end, draws, sort);
    assert r.0 == MakeNode(left.0, right.0);
    assert r.1 == right.1;
  }

  /** A node places what its two children place. */
  lemma MakeNodePlaces<M>(left: Tree<M>, right: Tree<M>)
    ensures Placed(MakeNode(left, right)) == Placed(left) + Placed(right)
  {
  }

  /** Splitting a slice at `mid` splits its multiset and its elements. */
  lemma SliceSplit<M>(s: seq<Model<M>>, lo: nat, mid: nat, hi: nat)
    requires lo <= mid <= hi <= |s|
    ensures multiset(s[lo..hi]) == multiset(s[lo..mid]) + multiset(s[mid..hi])
    ensures Elements(s[lo..hi]) == Elements(s[lo..mid]) + Elements(s[mid..hi])
  {
    assert s[lo..hi] == s[lo..mid] + s[mid..hi];
  }

  /** Equal multisets have equal elements. */
  lemma SameElements<M>(a: seq<Model<M>>, b: seq<Model<M>>)
    requires multiset(a) == multiset(b)
    ensures Elements(a) == Elements(b)
  {
    forall x
      ensures x in a <==> x in b
    {
      assert x in a <==> x in multiset(a);
      assert x in b <==> x in multiset(b);
    }
  }

  /** The bookkeeping of one split: if the left build permutes `[start, mid)`
      of the range-sorted vector and the right build permutes `[mid, end)` of
      what the left left behind, the two place the models of the range and
      touch nothing outside it. */
  lemma CombineHalves<M>(models: seq<Model<M>>, sorted: seq<Model<M>>, out1: seq<Model<M>>,
                         out2: seq<Model<M>>, start: nat, mid: nat, end: nat,
                         placedLeft: set<Model<M>>, placedRight: set<Model<M>>)
    requires start <= mid <= end <= |models|
    requires |sorted| == |models| && |out1| == |models| && |out2| == |models|
    requires sorted[..start] == models[..start] && sorted[end..] == models[end..]
    requires multiset(sorted[start..end]) == multiset(models[start..end])
    requires placedLeft == Elements(sorted[start..mid])
    requires out1[..start] == sorted[..start] && out1[mid..] == sorted[mid..]
    requires multiset(out1[start..mid]) == multiset(sorted[start..mid])
    requires placedRight == Elements(out1[mid..end])
    requires out2[..mid] == out1[..mid] && out2[end..] == out1[end..]
    requires multiset(out2[mid..end]) == multiset(out1[mid..end])
    ensures placedLeft + placedRight == Elements(models[start..end])
    ensures out2[..start] == models[..start] && out2[end..] == models[end..]
    ensures multiset(out2[start..end]) == multiset(models[start..end])
  {
    // The right half of `sorted` survives the left build.
    assert out1[mid..end] == sorted[mid..end] by {
      assert out1[mid..end] == out1[mid..][..end - mid];
      assert sorted[mid..end] == sorted[mid..][..end - mid];
    }
    // The left half built first survives the right build.
    assert out2[start..mid] == out1[start..mid] by {
      assert out2[start..mid] == out2[..mid][start..];
      assert out1[start..mid] == out1[..mid][start..];
    }
    assert out2[..start] == models[..start] by {
      assert out2[..start] == out2[..mid][..start];
      assert out1[..start] == out1[..mid][..start];
    }
    assert out2[end..] == models[end..] by {
      assert out1[end..] == out1[mid..][end - mid..];
      assert sorted[end..] == sorted[mid..][end - mid..];
    }
    SliceSplit(sorted, start, mid, end);
    SliceSplit(out2, start, mid, end);
    SameElements(sorted[start..end], models[start..end]);
  }

  /** The range-restricted build places exactly the models of `[start, end)`,
      and leaves the vector outside the range untouched and the range a
      permutation of itself. */
  lemma {:induction false} BuildRangePlacesRange<M(!new)>(models: seq<Model<M>>, start: nat, end: nat,
                      draws: (nat, nat) -> nat, sort: (seq<Model<M>>, nat) -> seq<Model<M>>)
    requires start < end <= |models| && SortPermutes(sort)
    ensures var res := BuildRange(models, start, end, draws, sort);
      && Placed(res.0) == Elements(models[start..end])
      && res.1[..start] == models[..start] && res.1[end..] == models[end..]
      && multiset(res.1[start..end]) == multiset(models[start..end])
    decreases end - start
  {
    var span := end - start;
    if span <= 2 {
      BuildRangeSmall(models, start, end, draws, sort);
    } else {
      var sorted := SortRange(models, start, end, Axis(draws(start, end)), sort);
      SortRangeKeeps(models, start, end, Axis(draws(start, end)), sort);
      var mid := start + span / 2;
      var left := BuildRange(sorted, start, mid, draws, sort);
      var right := BuildRange(left.1, mid, end, draws, sort);
      BuildRangePlacesRange(sorted, start, mid, draws, sort);
      BuildRangePlacesRange(left.1, mid, end, draws, sort);
      BuildRangeStep(models, start, end, draws, sort, sorted, mid, left, right);
      MakeNodePlaces(left.0, right.0);
      CombineHalves(models, sorted, left.1, right.1, start, mid, end, Placed(left.0), Placed(right.0));
    }
  }

  // ---------------------------------------------------------------------
  // Traversal.

  /** A node's `hit`: a missed box is a miss; otherwise the node misses only if
      both children miss, and a left hit is returned whatever the right child
      would have given, without comparing `t`. */
  lemma NodeHitLeftFirst<M>(sqrt: real -> real, left: Model<M>, right: Model<M>, box: Aabbs.Aabb, r: Ray)
    ensures !Aabbs.Hit(box, r) ==> HitModel(sqrt, Node(left, right, box), r).None?
    ensures HitModel(sqrt, Node(left, right, box), r).None? <==>
      !Aabbs.Hit(box, r) || (HitModel(sqrt, left, r).None? && HitModel(sqrt, right, r).None?)
    ensures Aabbs.Hit(box, r) && HitModel(sqrt, left, r).Some? ==>
      HitModel(sqrt, Node(left, right, box), r) == HitModel(sqrt, left, r)
    ensures Aabbs.Hit(box, r) && HitModel(sqrt, left, r).None? ==>
      HitModel(sqrt, Node(left, right, box), r) == HitModel(sqrt, right, r)
  {
    NodeHitUnfold(sqrt, left, right, box, r);
  }

  /** The node case of `HitModel`, as one equation. */
  lemma NodeHitUnfold<M>(sqrt: real -> real, left: Model<M>, right: Model<M>, box: Aabbs.Aabb, r: Ray)
    ensures HitModel(sqrt, Node(left, right, box), r) ==
      if Aabbs.Hit(box, r) then
        (if HitModel(sqrt, left, r).Some? then HitModel(sqrt, left, r) else HitModel(sqrt, right, r))
      else None
  {
  }

  /** The nearest-hit node traversal: after the box test, the nearer of the two
      children's hits, the left one on a tie. */
  function NodeHitNearest<M>(sqrt: real -> real, left: Model<M>, right: Model<M>, box: Aabbs.Aabb, r: Ray)
    : (h: Option<Hit<M>>)
  {
    if Aabbs.Hit(box, r) then Closest([HitModel(sqrt, left, r), HitModel(sqrt, right, r)]) else None
  }

  /** The nearest-hit traversal misses exactly when the box or both children
      miss, and otherwise returns a child's hit no farther than the other's. */
  lemma NodeHitNearestIsNearest<M>(sqrt: real -> real, left: Model<M>, right: Model<M>, box: Aabbs.Aabb, r: Ray)
    ensures var h := NodeHitNearest(sqrt, left, right, box, r);
      var l, g := HitModel(sqrt, left, r), HitModel(sqrt, right, r);
      && (h.None? <==> !Aabbs.Hit(box, r) || (l.None? && g.None?))
      && (h.Some? ==> h == l || h == g)
      && (h.Some? && l.Some? ==> h.value.t <= l.value.t)
      && (h.Some? && g.Some? ==> h.value.t <= g.value.t)
  {
    ClosestOfTwo(HitModel(sqrt, left, r), HitModel(sqrt, right, r));
  }

  /** The nearest-hit traversal applied at every level of a built tree. */
  function TreeHitNearest<M>(sqrt: real -> real, t: Tree<M>, r: Ray): Option<Hit<M>> {
    match t
    case Leaf(model) => HitModel(sqrt, model, r)
    case Branch(left, right, box) =>
      if Aabbs.Hit(box, r) then Closest([TreeHitNearest(sqrt, left, r), TreeHitNearest(sqrt, right, r)])
      else None
  }

  /** The leaves of a tree, left to right. */
  function Leaves<M>(t: Tree<M>): (s: seq<Model<M>>)
    ensures |s| > 0
  {
    match t
    case Leaf(model) => [model]
    case Branch(left, right, _) => Leaves(left) + Leaves(right)
  }

  /** The leaves a ray reaches, left to right: those whose every enclosing
      box it hits. */
  function Reached<M>(t: Tree<M>, r: Ray): seq<Model<M>> {
    match t
    case Leaf(model) => [model]
    case Branch(left, right, box) =>
      if Aabbs.Hit(box, r) then Reached(left, r) + Reached(right, r) else []
  }

  /** The ray hits every branch box of the tree. */
  predicate BoxesHit<M>(t: Tree<M>, r: Ray) {
    match t
    case Leaf(_) => true
    case Branch(left, right, box) => Aabbs.Hit(box, r) && BoxesHit(left, r) && BoxesHit(right, r)
  }

  /** The hits of a concatenation of models are the concatenated hits. */
  lemma ChildHitsAppend<M>(sqrt: real -> real, a: seq<Model<M>>, b: seq<Model<M>>, r: Ray)
    ensures ChildHits(sqrt, a + b, r) == ChildHits(sqrt, a, r) + ChildHits(sqrt, b, r)
  {
    ChildHitsPrefix(sqrt, a, b, r);
    ChildHitsSuffix(sqrt, a, b, r);
    SplitAt(ChildHits(sqrt, a + b, r), ChildHits(sqrt, a, r), ChildHits(sqrt, b, r));
  }

  /** The hits of `a + b` start with the hits of `a`. */
  lemma ChildHitsPrefix<M>(sqrt: real -> real, a: seq<Model<M>>, b: seq<Model<M>>, r: Ray)
    ensures forall i :: 0 <= i < |a| ==> ChildHits(sqrt, a + b, r)[i] == ChildHits(sqrt, a, r)[i]
  {
    forall i | 0 <= i < |a|
      ensures ChildHits(sqrt, a + b, r)[i] == ChildHits(sqrt, a, r)[i]
    {
      assert (a + b)[i] == a[i];
    }
  }

  /** After `|a|` entries, the hits of `a + b` are the hits of `b`. */
  lemma ChildHitsSuffix<M>(sqrt: real -> real, a: seq<Model<M>>, b: seq<Model<M>>, r: Ray)
    ensures forall k :: 0 <= k < |b| ==> ChildHits(sqrt, a + b, r)[|a| + k] == ChildHits(sqrt, b, r)[k]
  {
    forall k | 0 <= k < |b|
      ensures ChildHits(sqrt, a + b, r)[|a| + k] == ChildHits(sqrt, b, r)[k]
    {
      assert (a + b)[|a| + k] == b[k];
    }
  }

  /** A sequence that agrees with `x` on its first `|x|` entries and with `y`
      after them is `x + y`. */
  lemma SplitAt<T>(l: seq<T>, x: seq<T>, y: seq<T>)
    requires |l| == |x| + |y|
    requires forall i :: 0 <= i < |x| ==> l[i] == x[i]
    requires forall k :: 0 <= k < |y| ==> l[|x| + k] == y[k]
    ensures l == x + y
  {
    forall i | 0 <= i < |l|
      ensures l[i] == (x + y)[i]
    {
      if |x| <= i {
        assert l[|x| + (i - |x|)] == y[i - |x|];
      }
    }
  }

  /** The nearest hit of a one-model list is that model's hit. */
  lemma ClosestOfOne<M>(h: Option<Hit<M>>)
    ensures Closest([h]) == h
  {
    assert [h][..0] == [];
  }

  /** The traversal of a whole tree is the list's loop over the leaves the ray
      reaches, in order: it misses iff none of them is hit, and otherwise
      returns the nearest of their hits, the leftmost on a tie. */
  lemma {:induction false} TreeHitNearestIsClosest<M>(sqrt: real -> real, t: Tree<M>, r: Ray)
    ensures TreeHitNearest(sqrt, t, r) == Closest(ChildHits(sqrt, Reached(t, r), r))
    decreases t
  {
    match t
    case Leaf(model) =>
      assert ChildHits(sqrt, [model], r) == [HitModel(sqrt, model, r)];
      ClosestOfOne(HitModel(sqrt, model, r));
    case Branch(left, right, box) =>
      if Aabbs.Hit(box, r) {
        TreeHitNearestIsClosest(sqrt, left, r);
        TreeHitNearestIsClosest(sqrt, right, r);
        ChildHitsAppend(sqrt, Reached(left, r), Reached(right, r), r);
        ClosestAppend(ChildHits(sqrt, Reached(left, r), r), ChildHits(sqrt, Reached(right, r), r));
        ClosestPair(TreeHitNearest(sqrt, left, r), TreeHitNearest(sqrt, right, r));
      } else {
        assert ChildHits(sqrt, Reached(t, r), r) == [];
      }
  }

  /** When the ray hits every box, it reaches every leaf. */
  lemma {:induction false} ReachedAll<M>(t: Tree<M>, r: Ray)
    requires BoxesHit(t, r)
    ensures Reached(t, r) == Leaves(t)
    decreases t
  {
    match t
    case Leaf(_) =>
    case Branch(left, right, _) =>
      ReachedAll(left, r);
      ReachedAll(right, r);
  }

  /** So the whole-tree traversal is the nearest hit over the placed leaves:
      none iff no reached leaf is hit, otherwise the first nearest of them;
      and if the ray hits every box, over all leaves. */
  lemma TreeHitNearestIsNearest<M>(sqrt: real -> real, t: Tree<M>, r: Ray)
    ensures var h := TreeHitNearest(sqrt, t, r);
      var reached := Reached(t, r);
      && (h.None? <==> forall i :: 0 <= i < |reached| ==> HitModel(sqrt, reached[i], r).None?)
      && (h.Some? ==> exists i :: FirstNearest(ChildHits(sqrt, reached, r), i) && HitModel(sqrt, reached[i], r) == h)
    ensures BoxesHit(t, r) ==> Reached(t, r) == Leaves(t) && Elements(Reached(t, r)) == Placed(t)
  {
    TreeHitNearestIsClosest(sqrt, t, r);
    ClosestIsFirstNearest(ChildHits(sqrt, Reached(t, r), r));
    if BoxesHit(t, r) {
      ReachedAll(t, r);
      LeavesArePlaced(t);
    }
  }

  /** A tree's leaves are the models it places. */
  lemma {:induction false} LeavesArePlaced<M>(t: Tree<M>)
    ensures Elements(Leaves(t)) == Placed(t)
    decreases t
  {
    match t
    case Leaf(model) =>
      assert Leaves(t) == [model];
      assert model in Leaves(t);
    case Branch(left, right, _) =>
      LeavesArePlaced(left);
      LeavesArePlaced(right);
      assert Elements(Leaves(left) + Leaves(right)) == Elements(Leaves(left)) + Elements(Leaves(right));
  }

  // ---------------------------------------------------------------------
  // Counterexamples to the source's intent.

  /** Five unit spheres, in x order, whose y order starts with the last two. */
  function SampleScene(): seq<Model<int>> {
    [Sphere(Vec3(0.0, 10.0, 0.0), 1.0, 0), Sphere(Vec3(1.0, 11.0, 0.0), 1.0, 1),
     Sphere(Vec3(2.0, 12.0, 0.0), 1.0, 2), Sphere(Vec3(3.0, 0.0, 0.0), 1.0, 3),
     Sphere(Vec3(4.0, 1.0, 0.0), 1.0, 4)]
  }

  /** A sort that, on axis y, moves the last two of five models to the front
      and otherwise keeps its input as it is. */
  function SampleSort(s: seq<Model<int>>, c: nat): seq<Model<int>> {
    if c == 1 && |s| == 5 then [s[3], s[4], s[0], s[1], s[2]] else s
  }

  /** The axis draws: y for the call on `[2, 5)`, x everywhere else. */
  function SampleDraws(start: nat, end: nat): nat {
    if start == 2 && end == 5 then 1 else 0
  }

  /** The sample sort is a permutation. */
  lemma SampleSortPermutes()
    ensures SortPermutes(SampleSort)
  {
    forall v, c
      ensures multiset(SampleSort(v, c)) == multiset(v)
    {
      if c == 1 && |v| == 5 {
        assert v == [v[0], v[1], v[2]] + [v[3], v[4]];
        assert SampleSort(v, c) == [v[3], v[4]] + [v[0], v[1], v[2]];
      }
    }
  }

  /** A sphere's box starts at its centre minus its radius. */
  lemma SphereBoxStart<M>(m: Model<M>)
    requires m.Sphere?
    ensures BoxOrZero(m).min == Vec3(m.center.x - m.radius, m.center.y - m.radius, m.center.z - m.radius)
  {
  }

  /** A sequence whose box starts rise strictly along axis `c` is ordered. */
  lemma RisingIsSorted<M>(s: seq<Model<M>>, c: nat)
    requires c < 3
    requires forall i, j :: 0 <= i < j < |s| ==> Comp(BoxOrZero(s[i]).min, c) < Comp(BoxOrZero(s[j]).min, c)
    ensures SortedOn(s, c)
  {
  }

  /** The box starts of the scene's spheres. */
  lemma SceneBoxStarts(s: seq<Model<int>>)
    requires s == SampleScene()
    ensures BoxOrZero(s[0]).min == Vec3(-1.0, 9.0, -1.0)
    ensures BoxOrZero(s[1]).min == Vec3(0.0, 10.0, -1.0)
    ensures BoxOrZero(s[2]).min == Vec3(1.0, 11.0, -1.0)
    ensures BoxOrZero(s[3]).min == Vec3(2.0, -1.0, -1.0)
    ensures BoxOrZero(s[4]).min == Vec3(3.0, 0.0, -1.0)
  {
    SphereBoxStart(s[0]);
    SphereBoxStart(s[1]);
    SphereBoxStart(s[2]);
    SphereBoxStart(s[3]);
    SphereBoxStart(s[4]);
  }

  /** Five models whose box starts rise strictly along axis `c` are ordered. */
  lemma RisingFive<M>(s: seq<Model<M>>, c: nat, a0: real, a1: real, a2: real, a3: real, a4: real)
    requires c < 3 && |s| == 5 && a0 < a1 < a2 < a3 < a4
    requires Comp(BoxOrZero(s[0]).min, c) == a0 && Comp(BoxOrZero(s[1]).min, c) == a1
    requires Comp(BoxOrZero(s[2]).min, c) == a2 && Comp(BoxOrZero(s[3]).min, c) == a3
    requires Comp(BoxOrZero(s[4]).min, c) == a4
    ensures SortedOn(s, c)
  {
    var keys := [a0, a1, a2, a3, a4];
    assert forall i :: 0 <= i < 5 ==> Comp(BoxOrZero(s[i]).min, c) == keys[i];
    assert forall i, j :: 0 <= i < j < 5 ==> keys[i] < keys[j];
    RisingIsSorted(s, c);
  }

  /** The scene is in x order. */
  lemma SceneSortedOnX()
    ensures SortedOn(SampleScene(), 0)
  {
    var s := SampleScene();
    SceneBoxStarts(s);
    RisingFive(s, 0, -1.0, 0.0, 1.0, 2.0, 3.0);
  }

  /** Its form under the sample sort on y is in y order. */
  lemma SortedSceneOnY()
    ensures SortedOn(SampleSort(SampleScene(), 1), 1)
  {
    var s := SampleScene();
    SceneBoxStarts(s);
    var y := SampleSort(s, 1);
    assert y == [s[3], s[4], s[0], s[1], s[2]];
    RisingFive(y, 1, -1.0, 0.0, 9.0, 10.0, 11.0);
  }

  /** The sample sort orders the inputs it sees: the scene is already in x
      order, and its y-sorted form is in y order. */
  lemma SampleSortIsASort()
    ensures SortedOn(SampleScene(), 0) && SortedOn(SampleSort(SampleScene(), 1), 1)
  {
    SceneSortedOnX();
    SortedSceneOnY();
  }

  /** The call on `[2, 5)` of a five-model vector whose sort there brings the
      last two models to the front: the range then holds the first three. */
  lemma BuildFiveRight<M(!new)>(v: seq<Model<M>>, draws: (nat, nat) -> nat,
                                sort: (seq<Model<M>>, nat) -> seq<Model<M>>)
    requires |v| == 5 && SortPermutes(sort)
    requires sort(v, Axis(draws(2, 5))) == [v[3], v[4], v[0], v[1], v[2]]
    ensures Placed(Build(v, 2, 5, draws, sort).0) == {v[0], v[1], v[2]}
  {
    BuildThree(v, 2, draws, sort);
  }

  /** A call on more than two models places what its two halves place: the
      lower half of the sorted vector and the upper half of what that call
      returned. */
  lemma BuildSplitPlaces<M(!new)>(models: seq<Model<M>>, start: nat, end: nat, draws: (nat, nat) -> nat,
                                  sort: (seq<Model<M>>, nat) -> seq<Model<M>>, sorted: seq<Model<M>>, mid: nat)
    requires start < end <= |models| && end - start > 2 && SortPermutes(sort)
    requires sorted == sort(models, Axis(draws(start, end))) && mid == start + (end - start) / 2
    ensures |sorted| == |models|
    ensures Placed(Build(models, start, end, draws, sort).0)
      == Placed(Build(sorted, start, mid, draws, sort).0)
         + Placed(Build(Build(sorted, start, mid, draws, sort).1, mid, end, draws, sort).0)
  {
    assert |sorted| == |models| by {
      assert |multiset(sorted)| == |multiset(models)|;
    }
    var left := Build(sorted, start, mid, draws, sort);
    var right := Build(left.1, mid, end, draws, sort);
    BuildStep(models, start, end, draws, sort, sorted, mid, left, right);
    MakeNodePlaces(left.0, right.0);
  }

  /** A call on three models places the three the sort puts in the range. */
  lemma BuildThree<M(!new)>(models: seq<Model<M>>, start: nat, draws: (nat, nat) -> nat,
                            sort: (seq<Model<M>>, nat) -> seq<Model<M>>)
    requires start + 3 <= |models| && SortPermutes(sort)
    ensures var y := sort(models, Axis(draws(start, start + 3)));
      && |y| == |models|
      && Placed(Build(models, start, start + 3, draws, sort).0) == {y[start], y[start + 1], y[start + 2]}
  {
    var y := sort(models, Axis(draws(start, start + 3)));
    assert |y| == |models| by {
      assert |multiset(y)| == |multiset(models)|;
    }
    var left := Build(y, start, start + 1, draws, sort);
    BuildSmall(y, start, start + 1, draws, sort);
    var right := Build(left.1, start + 1, start + 3, draws, sort);
    BuildSmall(y, start + 1, start + 3, draws, sort);
    BuildStep(models, start, start + 3, draws, sort, y, start + 1, left, right);
    MakeNodePlaces(left.0, right.0);
  }

  /** The top call on five models whose sort leaves them in place: the tree
      holds only the first three. */
  lemma BuildFive<M(!new)>(v: seq<Model<M>>, draws: (nat, nat) -> nat,
                           sort: (seq<Model<M>>, nat) -> seq<Model<M>>)
    requires |v| == 5 && SortPermutes(sort)
    requires sort(v, Axis(draws(0, 5))) == v
    requires sort(v, Axis(draws(2, 5))) == [v[3], v[4], v[0], v[1], v[2]]
    ensures Placed(Build(v, 0, 5, draws, sort).0) == {v[0], v[1], v[2]}
  {
    BuildSplitPlaces(v, 0, 5, draws, sort, v, 2);
    BuildSmall(v, 0, 2, draws, sort);
    BuildFiveRight(v, draws, sort);
  }

  /** A tree holding only the first three of five models loses the last two
      when they differ from those. */
  lemma FirstThreeLoses<M>(v: seq<Model<M>>, placed: set<Model<M>>)
    requires |v| == 5 && placed == {v[0], v[1], v[2]}
    requires v[3] != v[0] && v[3] != v[1] && v[3] != v[2]
    requires v[4] != v[0] && v[4] != v[1] && v[4] != v[2]
    ensures v[3] !in placed && v[4] !in placed && placed != Elements(v)
  {
    assert v[3] in Elements(v);
  }

  /** The last two spheres of the scene differ from the first three. */
  lemma SampleDistinct(s: seq<Model<int>>)
    requires s == SampleScene()
    ensures |s| == 5
    ensures s[3] != s[0] && s[3] != s[1] && s[3] != s[2]
    ensures s[4] != s[0] && s[4] != s[1] && s[4] != s[2]
  {
  }

  /** On five models the sample draws and sort keep the vector on the top
      call and bring the last two to the front on the call on `[2, 5)`. */
  lemma SampleSortOnFive(s: seq<Model<int>>)
    requires |s| == 5
    ensures SampleSort(s, Axis(SampleDraws(0, 5))) == s
    ensures SampleSort(s, Axis(SampleDraws(2, 5))) == [s[3], s[4], s[0], s[1], s[2]]
  {
    assert Axis(SampleDraws(0, 5)) == 0 && Axis(SampleDraws(2, 5)) == 1;
  }

  /** Building the scene as written: the top call sorts by x and splits at 2;
      the call on `[2, 5)` re-sorts the WHOLE vector by y, which moves the two
      low-y spheres to the front, so the tree repeats the first two spheres and
      never places the last two. */
  lemma BuildLosesModels(s: seq<Model<int>>)
    requires s == SampleScene()
    ensures SortPermutes(SampleSort)
    ensures var t := Build(s, 0, 5, SampleDraws, SampleSort).0;
      s[3] !in Placed(t) && s[4] !in Placed(t) && Placed(t) != Elements(s)
  {
    SampleSortPermutes();
    SampleDistinct(s);
    SampleSortOnFive(s);
    BuildFive(s, SampleDraws, SampleSort);
    FirstThreeLoses(s, Placed(Build(s, 0, 5, SampleDraws, SampleSort).0));
  }

  /** The range-restricted build places every sphere of the same scene under
      the same draws and sort. */
  lemma BuildRangeKeepsModels(s: seq<Model<int>>)
    requires s == SampleScene()
    ensures SortPermutes(SampleSort)
    ensures Placed(BuildRange(s, 0, 5, SampleDraws, SampleSort).0) == Elements(s)
  {
    SampleSortPermutes();
    BuildRangePlacesAll(s, SampleDraws, SampleSort);
  }

  /** Built over the whole vector, the range-restricted build places every
      model. */
  lemma BuildRangePlacesAll<M(!new)>(models: seq<Model<M>>, draws: (nat, nat) -> nat,
                                     sort: (seq<Model<M>>, nat) -> seq<Model<M>>)
    requires 0 < |models| && SortPermutes(sort)
    ensures Placed(BuildRange(models, 0, |models|, draws, sort).0) == Elements(models)
  {
    BuildRangePlacesRange(models, 0, |models|, draws, sort);
    assert models[0..|models|] == models;
  }

  /** The ranges `BvhNode::new` recurses on for `[start, end)`, as written:
      none for a span of one or two, otherwise `[start, mid)` and `[mid, end)`
      with `mid = start + span / 2`. A span of zero falls to the last case. */
  function SplitRanges(start: nat, end: nat): (rs: seq<(nat, nat)>)
    requires start <= end
    ensures forall k :: 0 <= k < |rs| ==> start <= rs[k].0 <= rs[k].1 <= end
  {
    var span := end - start;
    if span == 1 || span == 2 then []
    else
      var mid := start + span / 2;
      [(start, mid), (mid, end)]
  }

  /** The range reached by following the first recursive call of
      `BvhNode::new` `n` times, or until a call makes none. */
  function Descend(start: nat, end: nat, n: nat): (rg: (nat, nat))
    requires start <= end
    ensures start <= rg.0 <= rg.1 <= end
  {
    var rs := SplitRanges(start, end);
    if n == 0 || |rs| == 0 then (start, end) else Descend(rs[0].0, rs[0].1, n - 1)
  }

  /** On an empty range the first recursive call is the same empty range
      again, however deep the recursion goes: `BvhNode::new` on an empty
      world never returns. */
  lemma {:induction false} EmptyRangeNeverEnds(start: nat, n: nat)
    ensures |SplitRanges(start, start)| == 2
    ensures Descend(start, start, n) == (start, start)
  {
    if n > 0 {
      EmptyRangeNeverEnds(start, n - 1);
    }
  }

  /** On a non-empty range every recursive call is on a non-empty range
      strictly inside it, so the recursion ends. */
  lemma SplitRangesShrink(start: nat, end: nat)
    requires start < end
    ensures forall k :: 0 <= k < |SplitRanges(start, end)| ==>
      var rg := SplitRanges(start, end)[k];
      start <= rg.0 < rg.1 <= end && rg.1 - rg.0 < end - start
  {
    var span := end - start;
    if 2 < span {
      assert 1 <= span / 2 < span;
    }
  }

  /** The BVH over a whole world, built only when there is something to put
      in it: an empty world has no tree, and otherwise the tree places every
      model of the world. */
  function BuildWorld<M(==,!new)>(models: seq<Model<M>>, draws: (nat, nat) -> nat,
                                  sort: (seq<Model<M>>, nat) -> seq<Model<M>>): (t: Option<Tree<M>>)
    requires SortPermutes(sort)
    ensures t.None? <==> |models| == 0
    ensures t.Some? ==> Placed(t.value) == Elements(models)
  {
    if |models| == 0 then None
    else
      BuildRangePlacesAll(models, draws, sort);
      Some(BuildRange(models, 0, |models|, draws, sort).0)
  }

  /** The unit sphere centred `s` along a ray of unit direction: its
      quadratic is `t^2 - 2 s t + s^2 - 1`, because the origin seen from the
      centre is `-s` times the direction. */
  lemma AlongQuadratic(r: Ray, s: real)
    requires LenSqr(r.direction) == 1.0
    ensures SphereQuadratic(At(r, s), 1.0, r) == Quadratic(1.0, -s, s * s - 1.0)
  {
    var d := r.direction;
    var oc := Sub(r.origin, At(r, s));
    assert oc == Scale(-s, d);
    DotLaws(d, d, d, -s);
    assert Dot(oc, d) == -s;
    AlongLenSqr(d, s);
  }

  /** `|-s d|^2 = s^2` for a unit `d`. */
  lemma AlongLenSqr(d: Vec3, s: real)
    requires LenSqr(d) == 1.0
    ensures LenSqr(Scale(-s, d)) == s * s
  {
    var v := Scale(-s, d);
    assert v.x * v.x == s * s * (d.x * d.x);
    assert v.y * v.y == s * s * (d.y * d.y);
    assert v.z * v.z == s * s * (d.z * d.z);
    assert LenSqr(v) == s * s * LenSqr(d);
  }

  /** So the discriminant is one and the roots are `s - 1` and `s + 1`; only
      `sqrt(1) = 1` is needed of the square root. */
  lemma AlongRoots(sqrt: real -> real, r: Ray, s: real)
    requires sqrt(1.0) == 1.0 && LenSqr(r.direction) == 1.0
    ensures Discriminant(At(r, s), 1.0, r) == 1.0
    ensures Roots(sqrt, At(r, s), 1.0, r) == (s - 1.0, s + 1.0)
  {
    AlongQuadratic(r, s);
  }

  /** A ray of unit direction meets the unit sphere centred `s` along it first
      at `t = s - 1`, when that clears `T_MIN`. */
  lemma AlongSphereHit<M>(sqrt: real -> real, r: Ray, s: real, m: M)
    requires sqrt(1.0) == 1.0 && LenSqr(r.direction) == 1.0 && TMin() <= s - 1.0
    ensures SphereHit(sqrt, At(r, s), 1.0, m, r).Some?
    ensures SphereHit(sqrt, At(r, s), 1.0, m, r).value.t == s - 1.0
  {
    AlongRoots(sqrt, r, s);
    SphereHitAtSmallerRoot(sqrt, At(r, s), 1.0, m, r, s - 1.0, s + 1.0);
  }

  /** When both children are spheres that the ray hits and the right one is
      hit strictly nearer, `hit` returns the left sphere's hit and the nearest
      traversal the right's. */
  lemma NodeHitIgnoresNearerRight<M>(sqrt: real -> real, lc: Vec3, lr: real, lm: M,
                                     rc: Vec3, rr: real, rm: M, box: Aabbs.Aabb, r: Ray)
    requires Aabbs.Hit(box, r)
    requires SphereHit(sqrt, lc, lr, lm, r).Some? && SphereHit(sqrt, rc, rr, rm, r).Some?
    requires SphereHit(sqrt, rc, rr, rm, r).value.t < SphereHit(sqrt, lc, lr, lm, r).value.t
    ensures HitModel(sqrt, Node(Sphere(lc, lr, lm), Sphere(rc, rr, rm), box), r)
      == SphereHit(sqrt, lc, lr, lm, r)
    ensures NodeHitNearest(sqrt, Sphere(lc, lr, lm), Sphere(rc, rr, rm), box, r)
      == SphereHit(sqrt, rc, rr, rm, r)
  {
    NodeHitLeftFirst(sqrt, Sphere(lc, lr, lm), Sphere(rc, rr, rm), box, r);
    NodeHitNearestIsNearest(sqrt, Sphere(lc, lr, lm), Sphere(rc, rr, rm), box, r);
  }

  /** A node whose left child is a unit sphere `far` along a ray of unit
      direction and whose right child is a unit sphere `near < far` along it,
      under any box the ray passes: the node returns the far hit at
      `t = far - 1` although the near sphere is hit at `t = near - 1`, which
      the nearest traversal returns. `SampleNodeBox` gives one such input. */
  lemma NodeHitIsNotNearest(sqrt: real -> real, r: Ray, far: real, near: real, box: Aabbs.Aabb)
    requires sqrt(1.0) == 1.0 && LenSqr(r.direction) == 1.0
    requires TMin() <= near - 1.0 && near < far && Aabbs.Hit(box, r)
    ensures var farSphere, nearSphere := Sphere(At(r, far), 1.0, 0), Sphere(At(r, near), 1.0, 1);
      && HitModel(sqrt, Node(farSphere, nearSphere, box), r) == SphereHit(sqrt, At(r, far), 1.0, 0, r)
      && NodeHitNearest(sqrt, farSphere, nearSphere, box, r) == SphereHit(sqrt, At(r, near), 1.0, 1, r)
    ensures SphereHit(sqrt, At(r, far), 1.0, 0, r).Some?
    ensures SphereHit(sqrt, At(r, far), 1.0, 0, r).value.t == far - 1.0
    ensures SphereHit(sqrt, At(r, near), 1.0, 1, r).Some?
    ensures SphereHit(sqrt, At(r, near), 1.0, 1, r).value.t == near - 1.0
  {
    AlongSphereHit(sqrt, r, far, 0);
    AlongSphereHit(sqrt, r, near, 1);
    NodeHitIgnoresNearerRight(sqrt, At(r, far), 1.0, 0, At(r, near), 1.0, 1, box, r);
  }

  /** The ray along +x from the origin. */
  const AxisRay := Ray(Zero, Vec3(1.0, 0.0, 0.0))

  /** One input for `NodeHitIsNotNearest`: the +x ray from the origin has a
      unit direction, ... */
  lemma SampleRayUnit()
    ensures LenSqr(AxisRay.direction) == 1.0
  {
  }

  /** ... reaches `(s, 0, 0)` at parameter `s`, for instance the centres
      `(10, 0, 0)` and `(5, 0, 0)`, ... */
  lemma SampleNodeRay(s: real)
    ensures At(AxisRay, s) == Vec3(s, 0.0, 0.0)
  {
  }

  /** ... and it passes the box `BVHNode::new` stores for those spheres. */
  lemma SampleNodeBox()
    ensures Aabbs.Hit(Aabbs.Surrounding(SphereBox(Vec3(10.0, 0.0, 0.0), 1.0),
                                        SphereBox(Vec3(5.0, 0.0, 0.0), 1.0)), AxisRay)
  {
  }
}
