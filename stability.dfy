/**
 * Which discs _CalculateStability (Lib/Board.cs) marks stable, stated without
 * the breadth-first loop: the least set of squares that holds every occupied
 * corner and every occupied square that is secured on all four axes by the
 * set. The Board class is proved to compute exactly this set.
 */
module Stability {
  import opened Geometry
  import opened Masks
  import opened Rules

  /** The square next to (x, y) in direction d is off the board, or in T and of the same colour. */
  predicate Secured(g: Grid, t: set<int>, x: int, y: int, d: int)
    requires OnBoard(x, y) && 0 <= d < 8
  {
    var nx, ny := x + DX(d), y + DY(d);
    !OnBoard(nx, ny) || (Index(nx, ny) in t && Cell(g, x, y) == Cell(g, nx, ny))
  }

  /**
   * The test applied to a child square: on each of the four axes (direction
   * d and its opposite d + 4) one side is secured.
   */
  predicate Eligible(g: Grid, t: set<int>, x: int, y: int)
    requires OnBoard(x, y)
  {
    (Secured(g, t, x, y, 0) || Secured(g, t, x, y, 4)) &&
    (Secured(g, t, x, y, 1) || Secured(g, t, x, y, 5)) &&
    (Secured(g, t, x, y, 2) || Secured(g, t, x, y, 6)) &&
    (Secured(g, t, x, y, 3) || Secured(g, t, x, y, 7))
  }

  /** Eligible for the square with index i. */
  predicate EligibleAt(g: Grid, t: set<int>, i: int)
    requires 0 <= i < 64
  {
    IndexOfSquare(i);
    Eligible(g, t, SquareOf(i).x, SquareOf(i).y)
  }

  /** The four corners, which seed the search. */
  predicate IsCorner(i: int) {
    i == 0 || i == 7 || i == 56 || i == 63
  }

  /** The colour on the square with index i. */
  function At(g: Grid, i: int): Color {
    if 0 <= i < |g| then g[i] else None
  }

  /** T holds every occupied square that is a corner or eligible with respect to T. */
  predicate Closed(g: Grid, t: set<int>) {
    forall i :: 0 <= i < 64 && At(g, i) != None && (IsCorner(i) || EligibleAt(g, t, i)) ==> i in t
  }

  /** Square i belongs to every closed set. */
  ghost predicate InEveryClosed(g: Grid, i: int) {
    forall t :: Closed(g, t) ==> i in t
  }

  /** The stable squares: those in every closed set. */
  ghost function StableClosure(g: Grid): set<int> {
    set i | 0 <= i < 64 && InEveryClosed(g, i)
  }

  /** Securing only gets easier as T grows. */
  lemma SecuredMonotone(g: Grid, t: set<int>, u: set<int>, x: int, y: int, d: int)
    requires OnBoard(x, y) && 0 <= d < 8 && t <= u
    ensures Secured(g, t, x, y, d) ==> Secured(g, u, x, y, d)
  {
  }

  /** Eligibility only gets easier as T grows. */
  lemma EligibleMonotone(g: Grid, t: set<int>, u: set<int>, x: int, y: int)
    requires OnBoard(x, y) && t <= u
    ensures Eligible(g, t, x, y) ==> Eligible(g, u, x, y)
  {
    forall d | 0 <= d < 8
      ensures Secured(g, t, x, y, d) ==> Secured(g, u, x, y, d)
    {
      SecuredMonotone(g, t, u, x, y, d);
    }
  }

  lemma EligibleAtMonotone(g: Grid, t: set<int>, u: set<int>, i: int)
    requires 0 <= i < 64 && t <= u
    ensures EligibleAt(g, t, i) ==> EligibleAt(g, u, i)
  {
    IndexOfSquare(i);
    EligibleMonotone(g, t, u, SquareOf(i).x, SquareOf(i).y);
  }

  /** The stable set lies inside every closed set. */
  lemma ClosureLeast(g: Grid, t: set<int>)
    requires Closed(g, t)
    ensures StableClosure(g) <= t
  {
  }

  /** The stable set is itself closed, hence the least closed set. */
  lemma ClosureClosed(g: Grid)
    ensures Closed(g, StableClosure(g))
  {
    var s := StableClosure(g);
    forall i | 0 <= i < 64 && At(g, i) != None && (IsCorner(i) || EligibleAt(g, s, i))
      ensures i in s
    {
      forall t | Closed(g, t)
        ensures i in t
      {
        ClosureLeast(g, t);
        EligibleAtMonotone(g, s, t, i);
      }
    }
  }

  /** A closed set that lies inside every closed set is the stable set. */
  lemma ClosureUnique(g: Grid, s: set<int>)
    requires Closed(g, s)
    requires forall i :: i in s ==> 0 <= i < 64
    requires forall t :: Closed(g, t) ==> s <= t
    ensures s == StableClosure(g)
  {
    ClosureLeast(g, s);
  }

  /** Only occupied squares are stable. */
  lemma ClosureOccupied(g: Grid)
    ensures forall i :: i in StableClosure(g) ==> 0 <= i < 64 && At(g, i) != None
  {
    var occupied := set i | 0 <= i < 64 && At(g, i) != None;
    assert Closed(g, occupied);
    ClosureLeast(g, occupied);
  }

  /** Every occupied corner is stable. */
  lemma ClosureCorners(g: Grid)
    ensures forall i :: 0 <= i < 64 && IsCorner(i) && At(g, i) != None ==> i in StableClosure(g)
  {
    ClosureClosed(g);
  }

  /**
   * A stable square that is not a corner is eligible with respect to the
   * stable set: each axis has a side off the board or a stable disc of its
   * own colour.
   */
  lemma ClosureEligible(g: Grid)
    ensures forall i :: i in StableClosure(g) && !IsCorner(i) ==> 0 <= i < 64 && EligibleAt(g, StableClosure(g), i)
  {
    var s := StableClosure(g);
    var kept := set i | i in s && (IsCorner(i) || (0 <= i < 64 && EligibleAt(g, s, i)));
    ClosureClosed(g);
    forall i | 0 <= i < 64 && At(g, i) != None && (IsCorner(i) || EligibleAt(g, kept, i))
      ensures i in kept
    {
      EligibleAtMonotone(g, kept, s, i);
    }
    ClosureLeast(g, kept);
  }

  /** The non-corner stable squares of colour c: what the stable counters add up. */
  function StableDiscs(g: Grid, s: set<int>, c: Color): set<int> {
    set i | i in s && !IsCorner(i) && At(g, i) == c
  }

  /** Marking one more non-corner square of colour c adds one to its count and nothing to the others. */
  lemma StableDiscsAdd(g: Grid, s: set<int>, i: int, c: Color)
    requires i !in s && !IsCorner(i)
    ensures |StableDiscs(g, s + {i}, c)| == |StableDiscs(g, s, c)| + (if At(g, i) == c then 1 else 0)
  {
    if At(g, i) == c {
      assert StableDiscs(g, s + {i}, c) == StableDiscs(g, s, c) + {i};
    } else {
      assert StableDiscs(g, s + {i}, c) == StableDiscs(g, s, c);
    }
  }

  /** Marking a corner changes no count. */
  lemma StableDiscsCorner(g: Grid, s: set<int>, i: int, c: Color)
    requires IsCorner(i)
    ensures StableDiscs(g, s + {i}, c) == StableDiscs(g, s, c)
  {
  }

  // ---------------------------------------------------------------------
  // Facts the breadth-first search of _CalculateStability relies on
  // ---------------------------------------------------------------------

  /** Relative to the empty set only the corners are eligible: every other square has an axis with both sides on the board. */
  lemma EligibleEmpty(g: Grid, i: int)
    requires 0 <= i < 64 && EligibleAt(g, {}, i)
    ensures IsCorner(i)
  {
    IndexOfSquare(i);
    var x, y := SquareOf(i).x, SquareOf(i).y;
    assert x == 0 || x == 7 by {
      assert !Secured(g, {}, x, y, 2) || !Secured(g, {}, x, y, 6) || x == 0 || x == 7;
    }
    assert y == 0 || y == 7 by {
      assert !Secured(g, {}, x, y, 0) || !Secured(g, {}, x, y, 4) || y == 0 || y == 7;
    }
  }

  /** The direction opposite to d. */
  function Reverse(d: int): (r: int)
    requires 0 <= d < 8
    ensures 0 <= r < 8 && DX(r) == -DX(d) && DY(r) == -DY(d)
  {
    if d < 4 then d + 4 else d - 4
  }

  /**
   * Marking square m changes the eligibility of square k only when m is one
   * of k's eight neighbours.
   */
  lemma EligibleAway(g: Grid, t: set<int>, k: int, mx: int, my: int)
    requires 0 <= k < 64 && OnBoard(mx, my)
    requires forall e :: 0 <= e < 8 ==> SquareOf(k).x + DX(e) != mx || SquareOf(k).y + DY(e) != my
    ensures EligibleAt(g, t + {Index(mx, my)}, k) == EligibleAt(g, t, k)
  {
    IndexOfSquare(k);
    var x, y := SquareOf(k).x, SquareOf(k).y;
    forall e | 0 <= e < 8
      ensures Secured(g, t + {Index(mx, my)}, x, y, e) == Secured(g, t, x, y, e)
    {
      if OnBoard(x + DX(e), y + DY(e)) {
        IndexInjective(x + DX(e), y + DY(e), mx, my);
      }
    }
  }

  /** The BFS has dealt with square (x, y): it is empty, marked, or not eligible relative to p. */
  predicate Handled(g: Grid, stable: set<int>, p: set<int>, x: int, y: int) {
    OnBoard(x, y) && At(g, Index(x, y)) != None ==>
      (IndexInjective(x, y, 0, 0);
       Index(x, y) in stable || !EligibleAt(g, p, Index(x, y)))
  }

  /** Every occupied square left unmarked is not eligible relative to p. */
  predicate Settled(g: Grid, stable: set<int>, p: set<int>) {
    forall k :: 0 <= k < 64 && At(g, k) != None && k !in stable ==> !EligibleAt(g, p, k)
  }

  /**
   * Processing square (sx, sy) of the queue: once all eight of its
   * neighbours have been handled relative to p + {(sx, sy)}, every unmarked
   * occupied square is not eligible relative to p + {(sx, sy)} either.
   */
  lemma SettledStep(g: Grid, stable: set<int>, p: set<int>, p': set<int>, sx: int, sy: int)
    requires OnBoard(sx, sy) && Settled(g, stable, p) && p' == p + {Index(sx, sy)}
    requires forall e :: 0 <= e < 8 ==> Handled(g, stable, p', sx + DX(e), sy + DY(e))
    ensures Settled(g, stable, p')
  {
    forall k | 0 <= k < 64 && At(g, k) != None && k !in stable
      ensures !EligibleAt(g, p', k)
    {
      IndexOfSquare(k);
      var x, y := SquareOf(k).x, SquareOf(k).y;
      if e :| 0 <= e < 8 && x + DX(e) == sx && y + DY(e) == sy {
        var r := Reverse(e);
        assert sx + DX(r) == x && sy + DY(r) == y;
        assert Handled(g, stable, p', sx + DX(r), sy + DY(r));
      } else {
        EligibleAway(g, p, k, sx, sy);
      }
    }
  }

  /** The bit indices of the squares waiting in the queue. */
  function Indices(queue: seq<Square>): set<int> {
    set q | q in queue :: q.ToIndex()
  }

  /** Queuing q adds its index. */
  lemma IndicesSnoc(queue: seq<Square>, q: Square)
    ensures Indices(queue + [q]) == Indices(queue) + {q.ToIndex()}
  {
    forall i | i in Indices(queue + [q])
      ensures i in Indices(queue) + {q.ToIndex()}
    {
      var r :| r in queue + [q] && r.ToIndex() == i;
      if r != q {
        assert r in queue;
      }
    }
  }

  /** The squares not marked; it shrinks each time a square is marked. */
  function Unmarked(stable: set<int>): set<int> {
    set k | 0 <= k < 64 && k !in stable
  }

  /**
   * The shape of the search between steps: the queue holds squares on the
   * board, the marked squares are the processed ones and the queued ones,
   * every mark is a stable square and every occupied corner is marked.
   */
  ghost predicate Frontier(g: Grid, stable: set<int>, p: set<int>, queue: seq<Square>) {
    (forall q :: q in queue ==> OnBoard(q.x, q.y)) &&
    stable == p + Indices(queue) &&
    stable <= StableClosure(g) &&
    (forall i :: 0 <= i < 64 && IsCorner(i) && At(g, i) != None ==> i in stable)
  }

  /** The queue after the seeding: the occupied corners in the order (0, 0), (0, 7), (7, 0), (7, 7). */
  function CornerSeeds(occupied: set<int>): seq<Square> {
    var q0 := if 0 in occupied then [Square(0, 0)] else [];
    var q1 := if 7 in occupied then q0 + [Square(0, 7)] else q0;
    var q2 := if 56 in occupied then q1 + [Square(7, 0)] else q1;
    if 63 in occupied then q2 + [Square(7, 7)] else q2
  }

  /** The seeding queues squares on the board, and their indices are the occupied corners. */
  lemma CornerSeedsQueue(occupied: set<int>)
    ensures forall q :: q in CornerSeeds(occupied) ==> OnBoard(q.x, q.y)
    ensures occupied * {0, 7, 56, 63} == Indices(CornerSeeds(occupied))
  {
    var q0 := if 0 in occupied then [Square(0, 0)] else [];
    var q1 := if 7 in occupied then q0 + [Square(0, 7)] else q0;
    var q2 := if 56 in occupied then q1 + [Square(7, 0)] else q1;
    var q3 := if 63 in occupied then q2 + [Square(7, 7)] else q2;
    assert Indices(q0) == occupied * {0} by {
      assert Indices([]) == {};
      IndicesSnoc([], Square(0, 0));
    }
    assert Indices(q1) == occupied * {0, 7} by {
      IndicesSnoc(q0, Square(0, 7));
    }
    assert Indices(q2) == occupied * {0, 7, 56} by {
      IndicesSnoc(q1, Square(7, 0));
    }
    assert Indices(q3) == occupied * {0, 7, 56, 63} by {
      IndicesSnoc(q2, Square(7, 7));
    }
    assert q3 == CornerSeeds(occupied);
  }

  /** The corners the seeding marks are exactly the occupied ones. */
  lemma CornerSeedsMarks(occupied: set<int>, owner: set<int>)
    ensures forall i :: i in occupied * {0, 7, 56, 63} ==> 0 <= i < 64 && IsCorner(i) && At(Decode(occupied, owner), i) != None
    ensures forall i :: 0 <= i < 64 && IsCorner(i) && At(Decode(occupied, owner), i) != None ==> i in occupied * {0, 7, 56, 63}
  {
    var g := Decode(occupied, owner);
    forall i | 0 <= i < 64
      ensures At(g, i) != None <==> i in occupied
    {
    }
  }

  /**
   * The seeding done: with the occupied corners marked and queued and nothing
   * processed, the search is in shape and no other square is eligible yet.
   */
  lemma Seeded(g: Grid, stable: set<int>, queue: seq<Square>, b0: int, w0: int)
    requires forall q :: q in queue ==> OnBoard(q.x, q.y)
    requires stable == Indices(queue)
    requires forall i :: i in stable ==> 0 <= i < 64 && IsCorner(i) && At(g, i) != None
    requires forall i :: 0 <= i < 64 && IsCorner(i) && At(g, i) != None ==> i in stable
    ensures Searching(g, stable, {}, queue, b0, w0, b0, w0)
  {
    assert StableDiscs(g, stable, Black) == {} && StableDiscs(g, stable, White) == {};
    ClosureCorners(g);
    forall k | 0 <= k < 64 && At(g, k) != None && k !in stable
      ensures !EligibleAt(g, {}, k)
    {
      if EligibleAt(g, {}, k) {
        EligibleEmpty(g, k);
      }
    }
  }

  /** A marked square stays handled as more squares are marked. */
  lemma HandledGrows(g: Grid, stable: set<int>, more: set<int>, p: set<int>, x: int, y: int)
    requires Handled(g, stable, p, x, y) && stable <= more
    ensures Handled(g, more, p, x, y)
  {
  }

  /**
   * Marking an occupied square that is eligible relative to the marks keeps
   * every mark inside the stable closure.
   */
  lemma MarkSound(g: Grid, stable: set<int>, x: int, y: int)
    requires OnBoard(x, y) && At(g, Index(x, y)) != None
    requires stable <= StableClosure(g) && Eligible(g, stable, x, y)
    ensures Index(x, y) in StableClosure(g)
  {
    IndexInjective(x, y, 0, 0);
    SquareOfIndex(x, y);
    EligibleMonotone(g, stable, StableClosure(g), x, y);
    ClosureClosed(g);
  }

  /**
   * When the queue runs empty with every unmarked square not eligible
   * relative to the marks, the marks are exactly the stable closure.
   */
  lemma SearchDone(g: Grid, stable: set<int>, p: set<int>, b0: int, w0: int, b: int, w: int)
    requires Searching(g, stable, p, [], b0, w0, b, w)
    ensures stable == StableClosure(g)
    ensures b == b0 + |StableDiscs(g, StableClosure(g), Black)| && w == w0 + |StableDiscs(g, StableClosure(g), White)|
  {
    assert stable == p;
    assert Closed(g, stable);
    ClosureLeast(g, stable);
  }

  /** The search marks child: an occupied square, not yet marked, eligible relative to the marks. */
  predicate Marks(g: Grid, stable: set<int>, child: Square) {
    OnBoard(child.x, child.y) && At(g, child.ToIndex()) != None && child.ToIndex() !in stable &&
    Eligible(g, stable, child.x, child.y)
  }

  /** Each stable counter is its value before the search plus the marked non-corner discs of its colour. */
  predicate Counted(g: Grid, stable: set<int>, b0: int, w0: int, b: int, w: int) {
    b == b0 + |StableDiscs(g, stable, Black)| && w == w0 + |StableDiscs(g, stable, White)|
  }

  /**
   * Visiting a child of a processed square keeps the search in shape: the
   * child ends up handled, a marked child is counted for its colour, and
   * marking it leaves fewer unmarked squares.
   */
  lemma VisitStep(g: Grid, stable: set<int>, p: set<int>, queue: seq<Square>, child: Square,
                  b0: int, w0: int, b: int, w: int)
    requires Frontier(g, stable, p, queue) && Counted(g, stable, b0, w0, b, w)
    ensures Marks(g, stable, child) ==>
      var i := child.ToIndex();
      Frontier(g, stable + {i}, p, queue + [child]) &&
      Handled(g, stable + {i}, p, child.x, child.y) &&
      Counted(g, stable + {i}, b0, w0, b + (if At(g, i) == Black then 1 else 0), w + (if At(g, i) == White then 1 else 0)) &&
      Unmarked(stable + {i}) < Unmarked(stable)
    ensures !Marks(g, stable, child) ==> Handled(g, stable, p, child.x, child.y)
  {
    var i := child.ToIndex();
    if Marks(g, stable, child) {
      IndexInjective(child.x, child.y, 0, 0);
      MarkSound(g, stable, child.x, child.y);
      assert !IsCorner(i);
      StableDiscsAdd(g, stable, i, Black);
      StableDiscsAdd(g, stable, i, White);
      IndicesSnoc(queue, child);
      assert i in Unmarked(stable);
    } else if OnBoard(child.x, child.y) && At(g, i) != None && i !in stable {
      IndexInjective(child.x, child.y, 0, 0);
      SquareOfIndex(child.x, child.y);
      EligibleMonotone(g, p, stable, child.x, child.y);
    }
  }

  /** What visiting child does: when the search marks it, it is marked, queued and counted for its colour; otherwise nothing changes. */
  predicate Visited(g: Grid, stable: set<int>, queue: seq<Square>, b: int, w: int, child: Square,
                    stable': set<int>, queue': seq<Square>, b': int, w': int) {
    if Marks(g, stable, child) then
      var i := child.ToIndex();
      stable' == stable + {i} && queue' == queue + [child] &&
      b' == b + (if At(g, i) == Black then 1 else 0) && w' == w + (if At(g, i) == White then 1 else 0)
    else
      stable' == stable && queue' == queue && b' == b && w' == w
  }

  /**
   * The state of the child loop after the children in directions 0..d-1 of
   * the dequeued square s: the search is in shape with s processed, the
   * squares unmarked before s was dequeued are not eligible relative to
   * the processed squares before it, and each child visited so far is
   * handled.
   */
  ghost predicate Exploring(g: Grid, stable: set<int>, before: set<int>, p: set<int>, queue: seq<Square>,
                            s: Square, d: int, b0: int, w0: int, b: int, w: int) {
    OnBoard(s.x, s.y) && p == before + {s.ToIndex()} && 0 <= d <= 8 &&
    Frontier(g, stable, p, queue) && Settled(g, stable, before) && Counted(g, stable, b0, w0, b, w) &&
    forall e :: 0 <= e < d ==> Handled(g, stable, p, s.x + DX(e), s.y + DY(e))
  }

  /** One pass of the child loop keeps it in shape, and either marks a square or changes nothing. */
  lemma ExploreStep(g: Grid, stable: set<int>, before: set<int>, p: set<int>, queue: seq<Square>,
                    s: Square, d: int, b0: int, w0: int, b: int, w: int,
                    stable': set<int>, queue': seq<Square>, b': int, w': int)
    requires Exploring(g, stable, before, p, queue, s, d, b0, w0, b, w) && d < 8
    requires Visited(g, stable, queue, b, w, Square(s.x + DX(d), s.y + DY(d)), stable', queue', b', w')
    ensures Exploring(g, stable', before, p, queue', s, d + 1, b0, w0, b', w')
    ensures Unmarked(stable') < Unmarked(stable) || (queue' == queue && stable' == stable)
  {
    var child := Square(s.x + DX(d), s.y + DY(d));
    VisitStep(g, stable, p, queue, child, b0, w0, b, w);
    forall e | 0 <= e < d
      ensures Handled(g, stable', p, s.x + DX(e), s.y + DY(e))
    {
      HandledGrows(g, stable, stable', p, s.x + DX(e), s.y + DY(e));
    }
  }

  /** After all eight children, the dequeued square counts as processed in Settled as well. */
  lemma ExploreDone(g: Grid, stable: set<int>, before: set<int>, p: set<int>, queue: seq<Square>,
                    s: Square, b0: int, w0: int, b: int, w: int)
    requires Exploring(g, stable, before, p, queue, s, 8, b0, w0, b, w)
    ensures Searching(g, stable, p, queue, b0, w0, b, w)
  {
    SettledStep(g, stable, before, p, s.x, s.y);
  }

  /** The state of the search between dequeues, with p the processed squares. */
  ghost predicate Searching(g: Grid, stable: set<int>, p: set<int>, queue: seq<Square>, b0: int, w0: int, b: int, w: int) {
    Frontier(g, stable, p, queue) && Settled(g, stable, p) && Counted(g, stable, b0, w0, b, w)
  }

  /** Dequeuing the head of the queue starts the child loop in shape, with the head processed. */
  lemma Dequeue(g: Grid, stable: set<int>, p: set<int>, queue: seq<Square>, b0: int, w0: int, b: int, w: int)
    requires Searching(g, stable, p, queue, b0, w0, b, w) && |queue| > 0
    ensures Exploring(g, stable, p, p + {queue[0].ToIndex()}, queue[1..], queue[0], 0, b0, w0, b, w)
  {
    assert queue == [queue[0]] + queue[1..];
    assert Indices(queue) == {queue[0].ToIndex()} + Indices(queue[1..]);
  }
}
