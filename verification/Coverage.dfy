/** Whether the fragments of a message tile it exactly. The source sorts the ranges by offset alone
    with an unstable sort, so every order of equal offsets has to be reckoned with. */
module Coverage {
  datatype Range = Range(off: nat, size: nat) {
    function End(): nat { off + size }

    predicate Covers(p: nat) { off <= p < off + size }
  }

  datatype FragmentInfo = FragmentInfo(offset: nat, size: nat, received: bool)

  // ----- Sorting as the library promises it -----

  ghost predicate Permutation(p: seq<nat>, n: nat) {
    && |p| == n
    && (forall i | 0 <= i < n :: p[i] < n)
    && (forall i, j | 0 <= i < j < n :: p[i] != p[j])
    && (forall k: nat | k < n :: k in p)
  }

  /** One of the orders a sort by offset may leave the ranges in. */
  ghost predicate SortOrder(rs: seq<Range>, p: seq<nat>) {
    Permutation(p, |rs|) && forall i, j | 0 <= i < j < |rs| :: rs[p[i]].off <= rs[p[j]].off
  }

  /** What the library sort does with each sequence of ranges: the position each one came from. */
  type Sorter = seq<Range> -> seq<nat>

  ghost predicate Sorts(sort: Sorter) {
    forall rs :: SortOrder(rs, sort(rs))
  }

  // ----- One such sort: insertion, which keeps ties in place -----

  function Inserted(rs: seq<Range>, order: seq<nat>, k: nat): (r: seq<nat>)
    requires k < |rs| && forall i | 0 <= i < |order| :: order[i] < |rs|
    ensures |r| == |order| + 1 && forall x :: x in r <==> x in order || x == k
  {
    var last := |order| - 1;
    if last < 0 || rs[order[last]].off <= rs[k].off then order + [k]
    else
      assert order == order[..last] + [order[last]];
      Inserted(rs, order[..last], k) + [order[last]]
  }

  ghost predicate InOrder(rs: seq<Range>, order: seq<nat>) {
    && (forall i | 0 <= i < |order| :: order[i] < |rs|)
    && (forall i, j | 0 <= i < j < |order| :: order[i] != order[j] && rs[order[i]].off <= rs[order[j]].off)
  }

  lemma OneBehind(rs: seq<Range>, order: seq<nat>, k: nat)
    requires InOrder(rs, order) && k < |rs|
    requires forall i | 0 <= i < |order| :: order[i] != k && rs[order[i]].off <= rs[k].off
    ensures InOrder(rs, order + [k])
  {
  }

  lemma {:induction false} InsertedInOrder(rs: seq<Range>, order: seq<nat>, k: nat)
    requires InOrder(rs, order) && k < |rs| && k !in order
    ensures InOrder(rs, Inserted(rs, order, k))
  {
    var last := |order| - 1;
    if last < 0 || rs[order[last]].off <= rs[k].off {
      OneBehind(rs, order, k);
    } else {
      InsertedInOrder(rs, order[..last], k);
      var r := Inserted(rs, order[..last], k);
      forall i | 0 <= i < |r| ensures r[i] != order[last] && rs[r[i]].off <= rs[order[last]].off {
        assert r[i] in r;
      }
      OneBehind(rs, r, order[last]);
    }
  }

  function Positions(rs: seq<Range>, n: nat): (r: seq<nat>)
    requires n <= |rs|
    ensures |r| == n && forall x: nat :: x in r <==> x < n
  {
    if n == 0 then []
    else
      var p := Positions(rs, n - 1);
      assert forall i | 0 <= i < |p| :: p[i] in p;
      Inserted(rs, p, n - 1)
  }

  lemma {:induction false} PositionsInOrder(rs: seq<Range>, n: nat)
    requires n <= |rs|
    ensures InOrder(rs, Positions(rs, n))
  {
    if n > 0 {
      PositionsInOrder(rs, n - 1);
      InsertedInOrder(rs, Positions(rs, n - 1), n - 1);
    }
  }

  function InsertionSort(rs: seq<Range>): seq<nat> {
    Positions(rs, |rs|)
  }

  lemma InsertionSorts()
    ensures Sorts(InsertionSort)
  {
    forall rs ensures SortOrder(rs, InsertionSort(rs)) {
      PositionsInOrder(rs, |rs|);
      assert forall i | 0 <= i < |rs| :: InsertionSort(rs)[i] in InsertionSort(rs);
    }
  }

  function Arrange(rs: seq<Range>, p: seq<nat>): (a: seq<Range>)
    requires forall i | 0 <= i < |p| :: p[i] < |rs|
    ensures |a| == |p| && forall i | 0 <= i < |p| :: a[i] == rs[p[i]]
  {
    seq(|p|, i requires 0 <= i < |p| => rs[p[i]])
  }

  // ----- What the loop checks, and what that means -----

  /** Each range starts where the one before it ends, from 0 up to the total. */
  ghost predicate Chain(a: seq<Range>, total: nat) {
    && |a| > 0
    && a[0].off == 0
    && (forall i, j | 0 <= i < j < |a| && j == i + 1 :: a[j].off == a[i].End())
    && a[|a| - 1].End() == total
  }

  /** The ranges are pairwise disjoint and their union is exactly [0, total). */
  ghost predicate ExactCover(rs: seq<Range>, total: nat) {
    && (forall k | 0 <= k < |rs| :: rs[k].End() <= total)
    && (forall p: nat | p < total :: Covered(rs, p))
    && (forall j, k, p: nat | 0 <= j < k < |rs| && rs[j].Covers(p) :: !rs[k].Covers(p))
  }

  ghost predicate Covered(rs: seq<Range>, p: nat) {
    exists k :: 0 <= k < |rs| && rs[k].Covers(p)
  }

  function RangesOf(frags: seq<FragmentInfo>): (rs: seq<Range>)
    ensures |rs| == |frags| && forall k | 0 <= k < |frags| :: rs[k] == Range(frags[k].offset, frags[k].size)
  {
    seq(|frags|, k requires 0 <= k < |frags| => Range(frags[k].offset, frags[k].size))
  }

  predicate AllReceived(frags: seq<FragmentInfo>) {
    forall k | 0 <= k < |frags| :: frags[k].received
  }

  /** The verdict on a message's fragments, for the order the sort happens to leave. */
  ghost predicate Accepted(sort: Sorter, frags: seq<FragmentInfo>, total: nat)
    requires Sorts(sort)
  {
    var rs := RangesOf(frags);
    AllReceived(frags) && Chain(Arrange(rs, sort(rs)), total)
  }

  method ValidateCoverage(sort: Sorter, frags: seq<FragmentInfo>, totalSize: nat) returns (ok: bool)
    requires Sorts(sort)
    ensures ok <==> Accepted(sort, frags, totalSize)
  {
    var ranges: seq<Range> := [];
    for i := 0 to |frags|
      invariant AllReceived(frags[..i])
      invariant ranges == RangesOf(frags[..i])
    {
      if !frags[i].received {
        return false;
      }
      ranges := ranges + [Range(frags[i].offset, frags[i].size)];
    }
    assert frags[..|frags|] == frags;
    assert SortOrder(ranges, sort(ranges));
    ranges := Arrange(ranges, sort(ranges));
    if |ranges| == 0 {
      return false;
    }
    if ranges[0].off != 0 {
      return false;
    }
    var end := ranges[0].off + ranges[0].size;
    for i := 1 to |ranges|
      invariant forall k, l | 0 <= k < l < i && l == k + 1 :: ranges[l].off == ranges[k].End()
      invariant end == ranges[i - 1].End()
    {
      if ranges[i].off != end {
        return false;
      }
      end := ranges[i].off + ranges[i].size;
    }
    return end == totalSize;
  }

  // ----- A chain is an exact cover -----

  lemma {:induction false} ChainOrdered(a: seq<Range>, total: nat, i: nat, j: nat)
    requires Chain(a, total) && i < j < |a|
    ensures a[i].End() <= a[j].off
    decreases j
  {
    if i + 1 < j {
      ChainOrdered(a, total, i, j - 1);
    }
  }

  lemma {:induction false} ChainReaches(a: seq<Range>, total: nat, i: nat, p: nat)
    requires Chain(a, total) && i < |a| && p < a[i].End()
    ensures exists k :: 0 <= k <= i && a[k].Covers(p)
    decreases i
  {
    if a[i].off <= p {
      assert a[i].Covers(p);
    } else {
      ChainReaches(a, total, i - 1, p);
    }
  }

  lemma ChainIsExact(a: seq<Range>, total: nat)
    requires Chain(a, total)
    ensures ExactCover(a, total)
  {
    forall k | 0 <= k < |a| ensures a[k].End() <= total {
      if k < |a| - 1 { ChainOrdered(a, total, k, |a| - 1); }
    }
    forall p: nat | p < total ensures Covered(a, p) {
      ChainReaches(a, total, |a| - 1, p);
    }
    forall j, k, p: nat | 0 <= j < k < |a| && a[j].Covers(p) ensures !a[k].Covers(p) {
      ChainOrdered(a, total, j, k);
    }
  }

  lemma ExactUnarranged(rs: seq<Range>, p: seq<nat>, total: nat)
    requires Permutation(p, |rs|) && ExactCover(Arrange(rs, p), total)
    ensures ExactCover(rs, total)
  {
    var a := Arrange(rs, p);
    forall k | 0 <= k < |rs| ensures rs[k].End() <= total {
      assert k in p;
      var i :| 0 <= i < |p| && p[i] == k;
      assert a[i] == rs[k];
    }
    forall q: nat | q < total ensures Covered(rs, q) {
      assert Covered(a, q);
      var i :| 0 <= i < |a| && a[i].Covers(q);
      assert rs[p[i]].Covers(q);
    }
    forall j, k, q: nat | 0 <= j < k < |rs| && rs[j].Covers(q) ensures !rs[k].Covers(q) {
      assert j in p && k in p;
      var i :| 0 <= i < |p| && p[i] == j;
      var l :| 0 <= l < |p| && p[l] == k;
      assert a[i] == rs[j] && a[l] == rs[k];
      assert i < l || l < i;
    }
  }

  /** Whatever the sort does with ties, an accepted message is tiled exactly. */
  lemma AcceptedIsExact(sort: Sorter, frags: seq<FragmentInfo>, total: nat)
    requires Sorts(sort) && Accepted(sort, frags, total)
    ensures AllReceived(frags) && ExactCover(RangesOf(frags), total)
  {
    var rs := RangesOf(frags);
    assert SortOrder(rs, sort(rs));
    ChainIsExact(Arrange(rs, sort(rs)), total);
    ExactUnarranged(rs, sort(rs), total);
  }

  // ----- When an exact cover is a chain -----

  lemma ExactArranged(rs: seq<Range>, p: seq<nat>, total: nat)
    requires Permutation(p, |rs|) && ExactCover(rs, total)
    ensures ExactCover(Arrange(rs, p), total)
  {
    var a := Arrange(rs, p);
    forall q: nat | q < total ensures Covered(a, q) {
      assert Covered(rs, q);
      var k :| 0 <= k < |rs| && rs[k].Covers(q);
      assert k in p;
      var i :| 0 <= i < |p| && p[i] == k;
      assert a[i].Covers(q);
    }
    forall j, k, q: nat | 0 <= j < k < |a| && a[j].Covers(q) ensures !a[k].Covers(q) {
      assert p[j] != p[k];
      assert p[j] < p[k] || p[k] < p[j];
    }
  }

  /** The fragments that can do no harm anywhere in the order: those that carry bytes, and empty
      ones placed at the very end. */
  ghost predicate NoStrayEmpty(rs: seq<Range>, total: nat) {
    forall k | 0 <= k < |rs| :: rs[k].size > 0 || rs[k].off == total
  }

  lemma Apart(rs: seq<Range>, total: nat, j: nat, k: nat, p: nat)
    requires ExactCover(rs, total) && j < k < |rs| && rs[j].Covers(p)
    ensures !rs[k].Covers(p)
  {
  }

  /** In a sorted exact cover, the byte after a range can only be the start of the next one. */
  lemma NothingBetween(a: seq<Range>, total: nat, i: nat, q: nat)
    requires ExactCover(a, total) && NoStrayEmpty(a, total)
    requires forall m, n | 0 <= m < n < |a| :: a[m].off <= a[n].off
    requires i < |a| && q < |a| && a[i].End() < total && a[q].Covers(a[i].End())
    ensures i < q
  {
    if q < i {
      Apart(a, total, q, i, a[i].off);
    }
  }

  lemma ExactIsChain(a: seq<Range>, total: nat)
    requires 0 < total && ExactCover(a, total) && NoStrayEmpty(a, total)
    requires forall m, n | 0 <= m < n < |a| :: a[m].off <= a[n].off
    ensures Chain(a, total)
  {
    assert Covered(a, 0);
    var z :| 0 <= z < |a| && a[z].Covers(0);
    assert a[0].off == 0;
    forall k, i | 0 <= k < i < |a| && i == k + 1 ensures a[i].off == a[k].End() {
      var e := a[k].End();
      if a[i].off < e {
        Apart(a, total, k, i, a[i].off);
      } else if a[i].off > e {
        assert Covered(a, e);
        var q :| 0 <= q < |a| && a[q].Covers(e);
        NothingBetween(a, total, k, q);
      }
    }
    var last := |a| - 1;
    if a[last].End() < total {
      assert Covered(a, a[last].End());
      var q :| 0 <= q < |a| && a[q].Covers(a[last].End());
      NothingBetween(a, total, last, q);
    }
  }

  /** Fragments that all carry bytes and tile the message are accepted whatever the sort does;
      empty fragments are harmless when they sit at the end. */
  lemma ExactIsAccepted(sort: Sorter, frags: seq<FragmentInfo>, total: nat)
    requires Sorts(sort) && 0 < total
    requires AllReceived(frags) && ExactCover(RangesOf(frags), total) && NoStrayEmpty(RangesOf(frags), total)
    ensures Accepted(sort, frags, total)
  {
    var rs := RangesOf(frags);
    var p := sort(rs);
    assert SortOrder(rs, p);
    ExactArranged(rs, p, total);
    ExactIsChain(Arrange(rs, p), total);
  }

  // ----- An empty fragment inside the message makes the verdict depend on the sort -----

  function Swap(p: seq<nat>, i: nat, j: nat): (r: seq<nat>)
    requires i < j < |p|
    ensures |r| == |p| && r[i] == p[j] && r[j] == p[i]
    ensures forall k | 0 <= k < |p| && k != i && k != j :: r[k] == p[k]
  {
    p[i := p[j]][j := p[i]]
  }

  lemma SwapKeepsPermutation(p: seq<nat>, n: nat, i: nat, j: nat)
    requires Permutation(p, n) && i < j < n
    ensures Permutation(Swap(p, i, j), n)
  {
    var r := Swap(p, i, j);
    forall k: nat | k < n ensures k in r {
      assert k in p;
      var m :| 0 <= m < n && p[m] == k;
      assert r[if m == i then j else if m == j then i else m] == k;
    }
  }

  lemma EmptyThenSame(a: seq<Range>, total: nat, i: nat)
    requires Chain(a, total) && i < |a| && a[i].size == 0 && a[i].off < total
    ensures i + 1 < |a| && a[i + 1].off == a[i].off
  {
  }

  /** In a chain, some range that carries bytes starts where an empty inner range sits. */
  lemma {:induction false} FirstFullAfter(a: seq<Range>, total: nat, i: nat) returns (j: nat)
    requires Chain(a, total) && i < |a| && a[i].size == 0 && a[i].off < total
    ensures i < j < |a| && a[j].size > 0
    ensures forall k | i <= k <= j :: a[k].off == a[i].off
    decreases |a| - i
  {
    hide Chain;
    EmptyThenSame(a, total, i);
    if a[i + 1].size > 0 {
      j := i + 1;
    } else {
      j := FirstFullAfter(a, total, i + 1);
    }
  }

  lemma SwapOfTiesSorts(rs: seq<Range>, p: seq<nat>, i: nat, j: nat)
    requires SortOrder(rs, p) && i < j < |p| && rs[p[i]].off == rs[p[j]].off
    ensures SortOrder(rs, Swap(p, i, j))
  {
    SwapKeepsPermutation(p, |rs|, i, j);
    hide Permutation;
    var r := Swap(p, i, j);
    forall m, n | 0 <= m < n < |rs| ensures rs[r[m]].off <= rs[r[n]].off {
      assert rs[r[m]].off == rs[p[m]].off && rs[r[n]].off == rs[p[n]].off;
    }
  }

  lemma SwapBreaksChain(a: seq<Range>, b: seq<Range>, total: nat, i: nat, j: nat)
    requires i < j < |a| == |b| && a[j].size > 0
    requires forall k | i <= k <= j :: a[k].off == a[i].off
    requires b == a[i := a[j]][j := a[i]]
    ensures !Chain(b, total)
  {
    assert b[i].off == b[i + 1].off && b[i].size > 0;
  }

  /** An empty fragment inside the message: some order of the ties is rejected, although the
      fragments tile the message. */
  lemma StrayEmptyCanBeRejected(rs: seq<Range>, p: seq<nat>, total: nat, k: nat)
    requires SortOrder(rs, p) && k < |rs| && rs[k].size == 0 && rs[k].off < total
    ensures exists r :: SortOrder(rs, r) && !Chain(Arrange(rs, r), total)
  {
    var a := Arrange(rs, p);
    assert k in p;
    var i :| 0 <= i < |p| && p[i] == k;
    hide Permutation;
    if Chain(a, total) {
      var j := FirstFullAfter(a, total, i);
      hide Chain;
      assert a[j].off == a[i].off;
      SwapOfTiesSorts(rs, p, i, j);
      SwapBreaksChain(a, Arrange(rs, Swap(p, i, j)), total, i, j);
    }
  }

  lemma HarmlessInEveryOrder(rs: seq<Range>, r: seq<nat>, total: nat)
    requires 0 < total && ExactCover(rs, total) && NoStrayEmpty(rs, total) && SortOrder(rs, r)
    ensures Chain(Arrange(rs, r), total)
  {
    ExactArranged(rs, r, total);
    ExactIsChain(Arrange(rs, r), total);
  }

  /** Exactly when a tiled message survives every order the sort may choose. */
  lemma AcceptedInEveryOrder(rs: seq<Range>, p: seq<nat>, total: nat)
    requires 0 < total && ExactCover(rs, total) && SortOrder(rs, p)
    ensures (forall r | SortOrder(rs, r) :: Chain(Arrange(rs, r), total)) <==> NoStrayEmpty(rs, total)
  {
    hide Chain;
    if NoStrayEmpty(rs, total) {
      forall r | SortOrder(rs, r) ensures Chain(Arrange(rs, r), total) {
        HarmlessInEveryOrder(rs, r, total);
      }
    } else {
      var k :| 0 <= k < |rs| && rs[k].size == 0 && rs[k].off != total;
      assert rs[k].End() <= total;
      StrayEmptyCanBeRejected(rs, p, total, k);
    }
  }
}
