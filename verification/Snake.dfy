/** The snake's body: a chain of points that follows its head and grows and shrinks with the
    experience. Coordinates are reals. */
module Snake {
  import opened LittleEndian

  datatype Point = Point(x: real, y: real)

  const STEP_DISTANCE: real := 50.0

  /** The length of a vector, as the mathematics library gives it. */
  type Hypot = (real, real) -> real

  ghost predicate IsHypot(h: Hypot) {
    forall x, y :: h(x, y) >= 0.0 && h(x, y) * h(x, y) == x * x + y * y
  }

  function Distance(h: Hypot, a: Point, b: Point): real {
    h(a.x - b.x, a.y - b.y)
  }

  // ----- Plane geometry -----

  lemma RootBelow(a: real, b: real)
    requires 0.0 <= b && a * a <= b * b
    ensures a <= b
  {
    assert (a - b) * (a + b) == a * a - b * b;
    if a > b {
      Product(a - b, a + b);
    }
  }

  lemma Product(a: real, b: real)
    requires a > 0.0 && b > 0.0
    ensures a * b > 0.0
  {
  }

  lemma SameRoot(a: real, b: real)
    requires 0.0 <= a && 0.0 <= b && a * a == b * b
    ensures a == b
  {
    RootBelow(a, b);
    RootBelow(b, a);
  }

  /** The inner product is at most the product of the lengths. */
  lemma CauchySchwarz(a: real, b: real, c: real, d: real, r: real, s: real)
    requires r >= 0.0 && s >= 0.0 && r * r == a * a + b * b && s * s == c * c + d * d
    ensures a * c + b * d <= r * s
  {
    var inner, outer := a * c + b * d, a * d - b * c;
    assert (r * s) * (r * s) == (r * r) * (s * s);
    assert (r * r) * (s * s) == (a * a + b * b) * (c * c + d * d);
    assert (a * a + b * b) * (c * c + d * d) == inner * inner + outer * outer;
    assert outer * outer >= 0.0;
    RootBelow(inner, r * s);
  }

  lemma SumLength(h: Hypot, a: real, b: real, c: real, d: real)
    requires IsHypot(h)
    ensures h(a + c, b + d) <= h(a, b) + h(c, d)
  {
    var r, s, t := h(a, b), h(c, d), h(a + c, b + d);
    CauchySchwarz(a, b, c, d, r, s);
    assert t * t == (a + c) * (a + c) + (b + d) * (b + d);
    assert (a + c) * (a + c) + (b + d) * (b + d) == (a * a + b * b) + (c * c + d * d) + 2.0 * (a * c + b * d);
    assert (r + s) * (r + s) == r * r + s * s + 2.0 * (r * s);
    RootBelow(t, r + s);
  }

  lemma Triangle(h: Hypot, a: Point, b: Point, c: Point)
    requires IsHypot(h)
    ensures Distance(h, a, c) <= Distance(h, a, b) + Distance(h, b, c)
  {
    SumLength(h, a.x - b.x, a.y - b.y, b.x - c.x, b.y - c.y);
    assert (a.x - b.x) + (b.x - c.x) == a.x - c.x && (a.y - b.y) + (b.y - c.y) == a.y - c.y;
  }

  lemma NoDistance(h: Hypot, a: Point)
    requires IsHypot(h)
    ensures Distance(h, a, a) == 0.0
  {
    SameRoot(h(0.0, 0.0), 0.0);
  }

  /** A multiple of a vector has that multiple of its length. */
  lemma ScaledLength(h: Hypot, x: real, y: real, k: real)
    requires IsHypot(h) && k >= 0.0
    ensures h(k * x, k * y) == k * h(x, y)
  {
    var d := h(x, y);
    assert (k * x) * (k * x) + (k * y) * (k * y) == (k * k) * (x * x + y * y);
    assert (k * d) * (k * d) == (k * k) * (d * d);
    SameRoot(h(k * x, k * y), k * d);
  }

  // ----- One segment -----

  /** A segment too far from the one ahead moves towards it until it is limit away. */
  function Pulled(h: Hypot, prev: Point, current: Point, limit: real): Point {
    var distance := Distance(h, prev, current);
    if distance > limit && distance != 0.0 then
      Point(current.x + (distance - limit) * ((prev.x - current.x) / distance),
            current.y + (distance - limit) * ((prev.y - current.y) / distance))
    else current
  }

  lemma PulledBy(h: Hypot, prev: Point, current: Point, limit: real, distance: real)
    requires distance == Distance(h, prev, current) && distance > limit >= 0.0
    ensures Pulled(h, prev, current, limit)
         == Point(current.x + (distance - limit) * ((prev.x - current.x) / distance),
                  current.y + (distance - limit) * ((prev.y - current.y) / distance))
  {
  }

  lemma MultipleOf(h: Hypot, x: real, y: real, k: real, u: real, v: real, m: real)
    requires IsHypot(h) && k >= 0.0 && u == k * x && v == k * y && m == k * h(x, y)
    ensures h(u, v) == m
  {
    ScaledLength(h, x, y, k);
  }

  lemma PulledFar(h: Hypot, prev: Point, current: Point, limit: real)
    requires IsHypot(h) && Distance(h, prev, current) > limit >= 0.0
    ensures Distance(h, prev, Pulled(h, prev, current, limit)) == limit
    ensures Distance(h, Pulled(h, prev, current, limit), current) == Distance(h, prev, current) - limit
  {
    hide IsHypot, Pulled;
    var d, p := Distance(h, prev, current), Pulled(h, prev, current, limit);
    var x, y := prev.x - current.x, prev.y - current.y;
    PulledParts(h, prev, current, limit);
    Quotients(d, limit);
    MultipleOf(h, x, y, limit / d, prev.x - p.x, prev.y - p.y, limit);
    MultipleOf(h, x, y, (d - limit) / d, p.x - current.x, p.y - current.y, d - limit);
  }

  /** Afterwards it is within the limit, and it has moved just the excess. */
  lemma PulledWithin(h: Hypot, prev: Point, current: Point, limit: real)
    requires IsHypot(h) && limit >= 0.0
    ensures var (p, d) := (Pulled(h, prev, current, limit), Distance(h, prev, current));
            && Distance(h, prev, p) == (if d > limit then limit else d)
            && Distance(h, p, current) == (if d > limit then d - limit else 0.0)
  {
    if Distance(h, prev, current) > limit {
      PulledFar(h, prev, current, limit);
      hide *;
    } else {
      assert Pulled(h, prev, current, limit) == current;
      hide *;
      NoDistance(h, current);
    }
  }

  lemma PulledParts(h: Hypot, prev: Point, current: Point, limit: real)
    requires Distance(h, prev, current) > limit >= 0.0
    ensures var (p, d) := (Pulled(h, prev, current, limit), Distance(h, prev, current));
            && p.x - current.x == (d - limit) / d * (prev.x - current.x)
            && p.y - current.y == (d - limit) / d * (prev.y - current.y)
            && prev.x - p.x == limit / d * (prev.x - current.x)
            && prev.y - p.y == limit / d * (prev.y - current.y)
  {
  }

  lemma Quotients(d: real, limit: real)
    requires d > limit >= 0.0
    ensures (d - limit) / d >= 0.0 && (d - limit) / d * d == d - limit
    ensures limit / d >= 0.0 && limit / d * d == limit
  {
  }

  /** A segment never moves further than the one ahead of it moved. */
  lemma PulledNoFurther(h: Hypot, before: Point, prev: Point, current: Point, limit: real)
    requires IsHypot(h) && limit >= 0.0 && Distance(h, before, current) <= limit
    ensures Distance(h, Pulled(h, prev, current, limit), current) <= Distance(h, prev, before)
  {
    PulledWithin(h, prev, current, limit);
    Triangle(h, prev, before, current);
    assert Distance(h, prev, before) >= 0.0;
  }

  // ----- The whole chain -----

  ghost predicate Chain(h: Hypot, segments: seq<Point>, limit: real) {
    forall i, j | 0 <= i < |segments| && j == i + 1 && j < |segments| :: Distance(h, segments[i], segments[j]) <= limit
  }

  /** The first n segments after the move: each is pulled towards where the one ahead went. */
  function Moved(h: Hypot, segments: seq<Point>, limit: real, n: nat): (r: seq<Point>)
    requires n <= |segments|
    ensures |r| == n
  {
    if n == 0 then []
    else if n == 1 then [segments[0]]
    else
      var ahead := Moved(h, segments, limit, n - 1);
      ahead + [Pulled(h, ahead[n - 2], segments[n - 1], limit)]
  }

  /** However the body lay before, after the move it is a chain. */
  lemma {:induction false} MoveMakesChain(h: Hypot, segments: seq<Point>, limit: real, n: nat)
    requires IsHypot(h) && limit >= 0.0 && n <= |segments|
    ensures Chain(h, Moved(h, segments, limit, n), limit)
  {
    hide IsHypot, Distance, Pulled;
    if n > 1 {
      MoveMakesChain(h, segments, limit, n - 1);
      var ahead := Moved(h, segments, limit, n - 1);
      PulledWithin(h, ahead[n - 2], segments[n - 1], limit);
    }
  }

  /** If only the head had left the chain, no segment moves further than the one ahead of it. */
  lemma {:induction false} NoneOvertakes(h: Hypot, before: seq<Point>, head: Point, limit: real, n: nat, i: nat)
    requires IsHypot(h) && limit >= 0.0 && Chain(h, before, limit) && 0 < i < n <= |before|
    ensures var after := Moved(h, before[0 := head], limit, n);
            Distance(h, after[i], before[i]) <= Distance(h, after[i - 1], before[i - 1])
    decreases n
  {
    hide IsHypot, Distance, Pulled;
    var placed := before[0 := head];
    var ahead := Moved(h, placed, limit, n - 1);
    if i < n - 1 {
      NoneOvertakes(h, before, head, limit, n - 1, i);
    } else {
      assert Distance(h, before[n - 2], before[n - 1]) <= limit;
      PulledNoFurther(h, before[n - 2], ahead[n - 2], before[n - 1], limit);
      HeadStays(h, placed, limit, n);
    }
  }

  lemma {:induction false} HeadStays(h: Hypot, segments: seq<Point>, limit: real, n: nat)
    requires 0 < n <= |segments|
    ensures Moved(h, segments, limit, n)[0] == segments[0]
  {
    hide Pulled;
    if n > 1 { HeadStays(h, segments, limit, n - 1); }
  }

  /** So none moves further than the head. */
  lemma {:induction false} NoneOutrunsHead(h: Hypot, before: seq<Point>, head: Point, limit: real, i: nat)
    requires IsHypot(h) && limit >= 0.0 && Chain(h, before, limit) && i < |before|
    ensures Distance(h, Moved(h, before[0 := head], limit, |before|)[i], before[i]) <= Distance(h, head, before[0])
  {
    hide IsHypot, Distance, Moved, Chain;
    if i == 0 {
      HeadStays(h, before[0 := head], limit, |before|);
    } else {
      NoneOutrunsHead(h, before, head, limit, i - 1);
      NoneOvertakes(h, before, head, limit, |before|, i);
    }
  }

  // ----- Growing and shrinking -----

  /** The second segment is repeated, or the tail is cut off. */
  function Resized(segments: seq<Point>, n: nat): (r: seq<Point>)
    requires n <= |segments| || |segments| >= 2
    ensures |r| == n
  {
    if n > |segments| then [segments[0]] + Copies(segments[1], n - |segments|) + segments[1..] else segments[..n]
  }

  function Copies(p: Point, n: nat): (r: seq<Point>)
    ensures |r| == n && forall i | 0 <= i < n :: r[i] == p
  {
    seq(n, _ => p)
  }

  /** Every segment of the resized body is an old one: the head is the head, what was grown lies on
      the second segment, and the rest follows in its old order. */
  lemma ResizedShape(segments: seq<Point>, n: nat, i: nat)
    requires (n <= |segments| || |segments| >= 2) && i < n
    ensures var k := n - |segments|;
            Resized(segments, n)[i]
            == if i == 0 then segments[0] else if i <= k then segments[1] else segments[if k > 0 then i - k else i]
  {
  }

  /** A chain stays one: repeated segments lie on each other. */
  lemma ResizedChain(h: Hypot, segments: seq<Point>, limit: real, n: nat)
    requires IsHypot(h) && limit >= 0.0 && Chain(h, segments, limit) && (n <= |segments| || |segments| >= 2)
    ensures Chain(h, Resized(segments, n), limit)
  {
    hide IsHypot, Distance, Copies;
    if n > |segments| {
      var r, k := Resized(segments, n), n - |segments|;
      forall i, j | 0 <= i < |r| && j == i + 1 && j < |r|
        ensures Distance(h, r[i], r[j]) <= limit
      {
        NoDistance(h, segments[1]);
        if i > k {
          assert r[i] == segments[i - k] && r[j] == segments[j - k];
        } else if i == 0 {
          assert r[1] == segments[1] && Distance(h, segments[0], segments[1]) <= limit;
        } else {
          assert r[i] == segments[1] && r[j] == segments[1];
        }
      }
    }
  }

  // ----- The snake -----

  datatype State = State(segments: seq<Point>, experience: u32)

  function Born(start: Point): State {
    State([start, start, start], 30)
  }

  ghost predicate Valid(h: Hypot, s: State) {
    && Chain(h, s.segments, STEP_DISTANCE)
    && |s.segments| == s.experience / 10
    && |s.segments| >= 3
  }

  function AfterMove(h: Hypot, s: State, head: Point): State
    requires s.segments != []
  {
    s.(segments := Moved(h, s.segments[0 := head], STEP_DISTANCE, |s.segments|))
  }

  function AfterResize(s: State, experience: u32): State
    requires experience / 10 <= |s.segments| || |s.segments| >= 2
  {
    State(Resized(s.segments, experience / 10), experience)
  }

  /** 32-bit addition, as the source's unsigned counter does it. */
  function Gained(experience: u32, count: u32): u32 {
    (experience + count) % 0x1_0000_0000
  }

  /** Whether the snake can afford the loss, and what is left. */
  function Lost(experience: u32, count: u32): (u32, bool) {
    if (experience - 30) % 0x1_0000_0000 <= count then (experience, false)
    else ((experience - count) % 0x1_0000_0000, true)
  }

  function AllAt(s: State, p: Point): State {
    s.(segments := Copies(p, |s.segments|))
  }

  datatype Op =
    | AcceptMove(head: Point) | AddExperience(gain: u32) | TakeExperience(loss: u32)
    | SetPosition(at: Point) | Respawn(at: Point)

  function Apply(h: Hypot, s: State, op: Op): State
    requires |s.segments| >= 3
  {
    match op
    case AcceptMove(head) => AfterMove(h, s, head)
    case AddExperience(count) => AfterResize(s, Gained(s.experience, count))
    case TakeExperience(count) =>
      var (left, ok) := Lost(s.experience, count);
      if ok then AfterResize(s, left) else s
    case SetPosition(p) => AllAt(s, p)
    case Respawn(p) => AllAt(AfterResize(s, 30), p)
  }

  lemma TogetherIsChain(h: Hypot, p: Point, n: nat)
    requires IsHypot(h)
    ensures Chain(h, Copies(p, n), STEP_DISTANCE)
  {
  }

  /** Gaining experience keeps the snake whole exactly when the 32-bit counter does not come out
      below 30; everything else always keeps it whole. */
  lemma WholeIff(h: Hypot, s: State, op: Op)
    requires IsHypot(h) && Valid(h, s)
    ensures Valid(h, Apply(h, s, op)) <==> (op.AddExperience? ==> Gained(s.experience, op.gain) >= 30)
  {
    hide IsHypot, Chain, Copies, Resized, Moved;
    match op
    case AcceptMove(head) => MoveMakesChain(h, s.segments[0 := head], STEP_DISTANCE, |s.segments|);
    case AddExperience(count) => ResizedChain(h, s.segments, STEP_DISTANCE, Gained(s.experience, count) / 10);
    case TakeExperience(count) =>
      var (left, ok) := Lost(s.experience, count);
      if ok { ResizedChain(h, s.segments, STEP_DISTANCE, left / 10); }
    case SetPosition(p) => TogetherIsChain(h, p, |s.segments|);
    case Respawn(p) => TogetherIsChain(h, p, 3);
  }

  /** The snake after a run, as long as it stays long enough for the operations to make sense. */
  function Run(h: Hypot, start: Point, ops: seq<Op>): State {
    if |ops| == 0 then Born(start)
    else
      var s := Run(h, start, ops[..|ops| - 1]);
      if |s.segments| >= 3 then Apply(h, s, ops[|ops| - 1]) else s
  }

  /** No gain in the run takes the 32-bit counter over the top. */
  predicate NoOverflow(h: Hypot, start: Point, ops: seq<Op>) {
    |ops| > 0 ==>
      && NoOverflow(h, start, ops[..|ops| - 1])
      && (ops[|ops| - 1].AddExperience? ==>
            Run(h, start, ops[..|ops| - 1]).experience + ops[|ops| - 1].gain < 0x1_0000_0000)
  }

  /** Every run keeps adjacent segments within the step distance and the length at a tenth of the
      experience. */
  lemma {:induction false} RunKeepsWhole(h: Hypot, start: Point, ops: seq<Op>)
    requires IsHypot(h) && NoOverflow(h, start, ops)
    ensures Valid(h, Run(h, start, ops)) && Chain(h, Run(h, start, ops).segments, 50.0)
  {
    hide IsHypot, Distance;
    if |ops| == 0 {
      NoDistance(h, start);
    } else {
      RunKeepsWhole(h, start, ops[..|ops| - 1]);
      hide Chain, Apply;
      WholeIff(h, Run(h, start, ops[..|ops| - 1]), ops[|ops| - 1]);
    }
  }

  /** Where the head was last put: accepted, set, or reborn. */
  function LastPlace(start: Point, ops: seq<Op>): Point {
    if |ops| == 0 then start
    else
      match ops[|ops| - 1]
      case AcceptMove(head) => head
      case SetPosition(p) => p
      case Respawn(p) => p
      case _ => LastPlace(start, ops[..|ops| - 1])
  }

  /** The experience as a plain account: a gain counts in full, a loss only if it leaves more than
      30, and a new life starts at 30. */
  function Account(ops: seq<Op>): int {
    if |ops| == 0 then 30
    else
      var before := Account(ops[..|ops| - 1]);
      match ops[|ops| - 1]
      case AddExperience(gain) => before + gain
      case TakeExperience(loss) => if before - loss > 30 then before - loss else before
      case Respawn(_) => 30
      case _ => before
  }

  lemma HeadAfter(h: Hypot, s: State, op: Op)
    requires IsHypot(h) && Valid(h, s) && (op.AddExperience? ==> s.experience + op.gain < 0x1_0000_0000)
    ensures var t := Apply(h, s, op);
            && |t.segments| >= 3
            && t.segments[0] == match op
                                case AcceptMove(head) => head
                                case SetPosition(p) => p
                                case Respawn(p) => p
                                case _ => s.segments[0]
  {
    WholeIff(h, s, op);
    hide IsHypot, Chain, Moved, Pulled, Distance;
    if op.AcceptMove? { HeadStays(h, s.segments[0 := op.head], STEP_DISTANCE, |s.segments|); }
  }

  /** In every run without overflow the head is where it was last put. */
  lemma {:induction false} HeadIsWherePut(h: Hypot, start: Point, ops: seq<Op>)
    requires IsHypot(h) && NoOverflow(h, start, ops)
    ensures Run(h, start, ops).segments != [] && Run(h, start, ops).segments[0] == LastPlace(start, ops)
  {
    if |ops| > 0 {
      hide IsHypot, Valid, Apply;
      var front := ops[..|ops| - 1];
      HeadIsWherePut(h, start, front);
      RunKeepsWhole(h, start, front);
      LongEnough(h, Run(h, start, front));
      HeadAfter(h, Run(h, start, front), ops[|ops| - 1]);
    }
  }

  lemma LongEnough(h: Hypot, s: State)
    requires Valid(h, s)
    ensures |s.segments| >= 3 && s.experience >= 30
  {
  }

  lemma AccountAfter(h: Hypot, s: State, op: Op)
    requires |s.segments| >= 3 && s.experience >= 30
    requires op.AddExperience? ==> s.experience + op.gain < 0x1_0000_0000
    ensures Apply(h, s, op).experience
         == match op
            case AddExperience(gain) => s.experience + gain
            case TakeExperience(loss) => if s.experience - loss > 30 then s.experience - loss else s.experience
            case Respawn(_) => 30
            case _ => s.experience
  {
    hide Moved, Resized, Copies;
  }

  /** In every run without overflow the 32-bit counter is the account. */
  lemma {:induction false} ExperienceIsAccount(h: Hypot, start: Point, ops: seq<Op>)
    requires IsHypot(h) && NoOverflow(h, start, ops)
    ensures Run(h, start, ops).experience == Account(ops)
  {
    if |ops| > 0 {
      hide IsHypot, Valid, Apply;
      var front := ops[..|ops| - 1];
      ExperienceIsAccount(h, start, front);
      RunKeepsWhole(h, start, front);
      LongEnough(h, Run(h, start, front));
      AccountAfter(h, Run(h, start, front), ops[|ops| - 1]);
    }
  }

  // ----- The snake object -----

  lemma OneCopyMore(before: seq<Point>, k: nat)
    requires |before| >= 2
    ensures var s := [before[0]] + Copies(before[1], k) + before[1..];
            s[..1] + [s[1]] + s[1..] == [before[0]] + Copies(before[1], k + 1) + before[1..]
  {
    var s := [before[0]] + Copies(before[1], k) + before[1..];
    assert s[1] == before[1];
    assert Copies(before[1], k + 1) == [before[1]] + Copies(before[1], k);
  }

  class SnakeEntity {
    const hypot: Hypot
    var segments: seq<Point>
    var experience: u32
    var frameCreated: u32
    var frameKilled: u32

    ghost function Contents(): State
      reads this
    {
      State(segments, experience)
    }

    constructor (hypot: Hypot, frame: u32, start: Point)
      ensures Contents() == Born(start) && this.hypot == hypot && frameCreated == frame
      ensures segments == [start, start, start] && experience == 30
    {
      this.hypot := hypot;
      experience := 30;
      frameCreated, frameKilled := frame, 0;
      segments := [];
      new;
      var k := 0;
      while k < 3
        invariant k <= 3 && segments == [start, start, start][..k] && experience == 30
        invariant this.hypot == hypot && frameCreated == frame
      {
        segments := segments + [start];
        k := k + 1;
      }
      assert [start, start, start][..3] == [start, start, start];
    }

    method Follow(prev: Point, segment: Point, limit: real) returns (current: Point)
      requires limit >= 0.0
      ensures current == Pulled(hypot, prev, segment, limit)
    {
      current := segment;
      var distance := hypot(prev.x - current.x, prev.y - current.y);
      if distance > limit {
        PulledBy(hypot, prev, segment, limit, distance);
        hide Pulled, Distance;
        var cos, sin := (prev.x - current.x) / distance, (prev.y - current.y) / distance;
        current := Point(current.x + (distance - limit) * cos, current.y + (distance - limit) * sin);
      }
    }

    /** Walks down the list, each segment following where the one before it went. */
    method MoveEverySegmentToTop(limit: real)
      requires segments != [] && limit >= 0.0
      modifies this`segments
      ensures segments == Moved(hypot, old(segments), limit, |old(segments)|)
    {
      hide Pulled;
      var prev := segments[0];
      var k := 1;
      while k < |segments|
        invariant 1 <= k <= |segments| == |old(segments)|
        invariant segments[..k] == Moved(hypot, old(segments), limit, k)
        invariant segments[k..] == old(segments)[k..]
        invariant prev == segments[k - 1]
      {
        ghost var ahead := segments[..k];
        assert segments[k] == segments[k..][0];
        var current := Follow(prev, segments[k], limit);
        segments := segments[k := current];
        assert segments[..k + 1] == ahead + [current];
        prev := segments[k];
        k := k + 1;
      }
    }

    method AcceptMove(head: Point)
      requires segments != []
      modifies this`segments
      ensures Contents() == AfterMove(hypot, old(Contents()), head)
      ensures segments != [] && segments[0] == head && experience == old(experience)
    {
      HeadStays(hypot, segments[0 := head], STEP_DISTANCE, |segments|);
      hide Moved;
      segments := segments[0 := head];
      MoveEverySegmentToTop(STEP_DISTANCE);
    }

    method RecalculateLength()
      requires experience / 10 <= |segments| || |segments| >= 2
      modifies this`segments
      ensures segments == Resized(old(segments), experience / 10)
    {
      var change := experience / 10 - |segments|;
      var count := if change < 0 then -change else change;
      ghost var before := segments;
      var k := 0;
      while k < count
        invariant k <= count
        invariant change > 0 ==> segments == [before[0]] + Copies(before[1], k) + before[1..]
        invariant change <= 0 ==> segments == before[..|before| - k]
      {
        if change > 0 {
          OneCopyMore(before, k);
          segments := segments[..1] + [segments[1]] + segments[1..];
        } else {
          segments := segments[..|segments| - 1];
        }
        k := k + 1;
      }
    }

    method AddExperience(count: u32)
      requires |segments| >= 2
      modifies this`segments, this`experience
      ensures Contents() == AfterResize(old(Contents()), Gained(old(experience), count))
      ensures experience == (old(experience) + count) % 0x1_0000_0000 && |segments| == experience / 10
    {
      experience := (experience + count) % 0x1_0000_0000;
      RecalculateLength();
    }

    method TakeExperience(count: u32) returns (ok: bool)
      requires |segments| >= 2
      modifies this`segments, this`experience
      ensures var (left, affordable) := Lost(old(experience), count);
              ok == affordable && Contents() == if ok then AfterResize(old(Contents()), left) else old(Contents())
      ensures ok <==> (old(experience) - 30) % 0x1_0000_0000 > count
      ensures ok ==> experience == (old(experience) - count) % 0x1_0000_0000 && |segments| == experience / 10
    {
      if (experience - 30) % 0x1_0000_0000 <= count {
        return false;
      }
      experience := (experience - count) % 0x1_0000_0000;
      RecalculateLength();
      return true;
    }

    method SetPosition(p: Point)
      modifies this`segments
      ensures Contents() == AllAt(old(Contents()), p)
      ensures |segments| == |old(segments)| && forall i | 0 <= i < |segments| :: segments[i] == p
    {
      var k := 0;
      while k < |segments|
        invariant k <= |segments| == |old(segments)|
        invariant forall i | 0 <= i < k :: segments[i] == p
      {
        segments := segments[k := p];
        k := k + 1;
      }
    }

    method Respawn(frame: u32, p: Point)
      requires |segments| >= 2
      modifies this
      ensures frameKilled == 0 && frameCreated == frame
      ensures Contents() == AllAt(AfterResize(old(Contents()), 30), p)
      ensures experience == 30 && segments == [p, p, p]
    {
      frameKilled := 0;
      frameCreated := frame;
      experience := 30;
      RecalculateLength();
      SetPosition(p);
    }
  }
}
