/**
  The task decomposition of the threaded Game of Life (gol2.c), run
  sequentially: a task names a square of the board; a 1 x 1 task updates its
  cell, a larger one is replaced by its four quadrants at the tail of a FIFO
  queue. A generation starts from one task covering the whole board and ends
  when the number of updated cells reaches n * n.
*/
module LifeTasks {
  import opened Life
  import opened Arith

  /** A square of the board: top-left corner (x, y) and extent dx by dy. */
  datatype Task = Task(x: int, y: int, dx: int, dy: int)

  /** A task over a square of positive side. */
  predicate IsSquareTask(t: Task)
  {
    t.dx == t.dy && t.dx >= 1
  }

  predicate IsLeaf(t: Task)
  {
    t.dx == 1 && t.dy == 1
  }

  /** The cells a task covers. */
  predicate Covers(t: Task, c: Cell)
  {
    t.x <= c.0 < t.x + t.dx && t.y <= c.1 < t.y + t.dy
  }

  /**
    The four quadrants process_task creates, in the order it chains them:
    (x, y), (x + dx/2, y), (x, y + dy/2), (x + dx/2, y + dy/2), each of half
    the extent.
  */
  function Quadrants(t: Task): (q: seq<Task>)
    ensures |q| == 4
  {
    var hx, hy := t.dx / 2, t.dy / 2;
    [Task(t.x, t.y, hx, hy), Task(t.x + hx, t.y, hx, hy),
     Task(t.x, t.y + hy, hx, hy), Task(t.x + hx, t.y + hy, hx, hy)]
  }

  /** What processing one task does. */
  datatype Effect = UpdateCell(cell: Cell) | Enqueue(batch: seq<Task>)

  /**
    process_task: a 1 x 1 task updates its own cell; any other task enqueues
    its four quadrants (QuadrantsPartition says what they cover).
  */
  function ProcessTask(t: Task): (e: Effect)
    ensures IsLeaf(t) <==> e.UpdateCell?
    ensures IsLeaf(t) ==> e.cell == (t.x, t.y) && Covers(t, e.cell)
    ensures !IsLeaf(t) ==> e.batch == Quadrants(t)
  {
    if IsLeaf(t) then UpdateCell((t.x, t.y)) else Enqueue(Quadrants(t))
  }

  /** The index of the quadrant of t that cell c falls in. */
  function QuadrantOf(t: Task, c: Cell): (m: nat)
    ensures m < 4
  {
    (if c.0 >= t.x + t.dx / 2 then 1 else 0) + (if c.1 >= t.y + t.dy / 2 then 2 else 0)
  }

  /**
    The quadrants of a square task of even side are square tasks of half the
    side that partition the task: every covered cell lies in exactly one of
    them, and no quadrant reaches outside the task.
  */
  lemma QuadrantsPartition(t: Task)
    requires IsSquareTask(t) && t.dx % 2 == 0
    ensures forall m | 0 <= m < 4 :: IsSquareTask(Quadrants(t)[m]) && 2 * Quadrants(t)[m].dx == t.dx
    ensures forall c: Cell | Covers(t, c) :: Covers(Quadrants(t)[QuadrantOf(t, c)], c)
    ensures forall c: Cell, m | 0 <= m < 4 && Covers(Quadrants(t)[m], c) :: Covers(t, c) && m == QuadrantOf(t, c)
  {
  }

  // ---------------------------------------------------------------------------
  // The cells a task ends up updating
  // ---------------------------------------------------------------------------

  /** The cells the leaves of a square task's recursive split update, in depth-first order. */
  function Leaves(t: Task): seq<Cell>
    requires IsSquareTask(t)
    decreases t.dx
  {
    if IsLeaf(t) then [(t.x, t.y)]
    else
      var q := Quadrants(t);
      Leaves(q[0]) + Leaves(q[1]) + Leaves(q[2]) + Leaves(q[3])
  }

  /** For a side of 2^k, the leaves of a task update cell c once if the task covers it and never otherwise. */
  lemma {:induction false} LeafCount(t: Task, k: nat, c: Cell)
    requires IsSquareTask(t) && t.dx == Pow2(k)
    ensures multiset(Leaves(t))[c] == if Covers(t, c) then 1 else 0
    decreases k, 1
  {
    if k == 0 {
      assert Leaves(t) == [(t.x, t.y)];
    } else {
      var q := Quadrants(t);
      var h := Pow2(k - 1);
      assert t.dx == 2 * h && !IsLeaf(t);
      var l0, l1, l2, l3 := Leaves(q[0]), Leaves(q[1]), Leaves(q[2]), Leaves(q[3]);
      assert Leaves(t) == l0 + l1 + l2 + l3;
      assert multiset(Leaves(t)) == multiset(l0) + multiset(l1) + multiset(l2) + multiset(l3);
      QuadrantCount(t, k, c, 0);
      QuadrantCount(t, k, c, 1);
      QuadrantCount(t, k, c, 2);
      QuadrantCount(t, k, c, 3);
    }
  }

  /** The leaves of quadrant m of a task of side 2^k update c once if c lies in that quadrant. */
  lemma {:induction false} QuadrantCount(t: Task, k: nat, c: Cell, m: nat)
    requires IsSquareTask(t) && t.dx == Pow2(k) && k > 0 && m < 4
    ensures IsSquareTask(Quadrants(t)[m])
    ensures multiset(Leaves(Quadrants(t)[m]))[c] == if Covers(t, c) && QuadrantOf(t, c) == m then 1 else 0
    decreases k, 0
  {
    var h := Pow2(k - 1);
    assert t.dx == 2 * h && t.dx / 2 == h;
    var q := Quadrants(t)[m];
    assert q.dx == h && q.dy == h;
    LeafCount(q, k - 1, c);
    CellInOneQuadrant(t, c);
  }

  /** Cell c is in quadrant QuadrantOf(t, c) of t exactly when t covers it, and in no other quadrant. */
  lemma CellInOneQuadrant(t: Task, c: Cell)
    requires IsSquareTask(t) && t.dx % 2 == 0
    ensures Covers(Quadrants(t)[0], c) <==> Covers(t, c) && QuadrantOf(t, c) == 0
    ensures Covers(Quadrants(t)[1], c) <==> Covers(t, c) && QuadrantOf(t, c) == 1
    ensures Covers(Quadrants(t)[2], c) <==> Covers(t, c) && QuadrantOf(t, c) == 2
    ensures Covers(Quadrants(t)[3], c) <==> Covers(t, c) && QuadrantOf(t, c) == 3
  {
  }

  /** A task of side 2^k has side * side leaves. */
  lemma {:induction false} LeafTotal(t: Task, k: nat)
    requires IsSquareTask(t) && t.dx == Pow2(k)
    ensures |Leaves(t)| == t.dx * t.dx
    decreases k
  {
    if k > 0 {
      var q := Quadrants(t);
      var h := Pow2(k - 1);
      assert t.dx == 2 * h && !IsLeaf(t);
      forall m | 0 <= m < 4
        ensures IsSquareTask(q[m]) && |Leaves(q[m])| == h * h
      {
        assert q[m].dx == h && q[m].dy == h;
        LeafTotal(q[m], k - 1);
      }
      SplitLength(t);
      DoubleSquared(h);
    }
  }

  /** A split task has as many leaves as its four quadrants together. */
  lemma SplitLength(t: Task)
    requires IsSquareTask(t) && !IsLeaf(t)
    requires forall m | 0 <= m < 4 :: IsSquareTask(Quadrants(t)[m])
    ensures |Leaves(t)| == |Leaves(Quadrants(t)[0])| + |Leaves(Quadrants(t)[1])|
                          + |Leaves(Quadrants(t)[2])| + |Leaves(Quadrants(t)[3])|
  {
  }

  /**
    For a side of 2^k, the leaves of a task update every covered cell exactly
    once and nothing else, so there are side * side of them.
  */
  lemma LeavesCoverOnce(t: Task, k: nat)
    requires IsSquareTask(t) && t.dx == Pow2(k)
    ensures forall c: Cell :: multiset(Leaves(t))[c] == if Covers(t, c) then 1 else 0
    ensures |Leaves(t)| == t.dx * t.dx
  {
    forall c: Cell
      ensures multiset(Leaves(t))[c] == if Covers(t, c) then 1 else 0
    {
      LeafCount(t, k, c);
    }
    LeafTotal(t, k);
  }

  // ---------------------------------------------------------------------------
  // A generation driven by the FIFO queue (gol2.c:171-208, 404-431)
  // ---------------------------------------------------------------------------

  /** Every task of the queue is a square task. */
  predicate AllSquare(q: seq<Task>)
  {
    forall k | 0 <= k < |q| :: IsSquareTask(q[k])
  }

  /** The cells still to be updated by the tasks of a queue, front first. */
  function QueueLeaves(q: seq<Task>): seq<Cell>
    requires AllSquare(q)
  {
    if |q| == 0 then [] else Leaves(q[0]) + QueueLeaves(q[1..])
  }

  lemma {:induction false} QueueLeavesAppend(a: seq<Task>, b: seq<Task>)
    requires AllSquare(a)
    requires AllSquare(b)
    ensures QueueLeaves(a + b) == QueueLeaves(a) + QueueLeaves(b)
  {
    if |a| > 0 {
      assert (a + b)[1..] == a[1..] + b;
      QueueLeavesAppend(a[1..], b);
    } else {
      assert a + b == b;
    }
  }

  /** Queues of well-formed tasks. */
  ghost predicate WellFormedQueue(q: seq<Task>, n: nat)
  {
    AllSquare(q) && forall k | 0 <= k < |q| :: WellFormedTask(q[k], n)
  }

  /** Tasks whose sides are powers of two and that lie on the n x n board. */
  ghost predicate WellFormedTask(t: Task, n: nat)
  {
    IsSquareTask(t) && 0 <= t.x && t.x + t.dx <= n && 0 <= t.y && t.y + t.dy <= n
    && exists k: nat :: t.dx == Pow2(k)
  }

  /** Tasks left to process if a square task of side d is split all the way down. */
  function Work(d: nat): (w: nat)
    requires d >= 1
    ensures w >= 1
  {
    if d == 1 then 1 else 1 + 4 * Work(d / 2)
  }

  function QueueWork(q: seq<Task>): nat
    requires AllSquare(q)
  {
    if |q| == 0 then 0
    else
      assert IsSquareTask(q[0]);
      Work(q[0].dx) + QueueWork(q[1..])
  }

  lemma {:induction false} QueueWorkAppend(a: seq<Task>, b: seq<Task>)
    requires AllSquare(a)
    requires AllSquare(b)
    ensures QueueWork(a + b) == QueueWork(a) + QueueWork(b)
  {
    if |a| > 0 {
      assert (a + b)[1..] == a[1..] + b;
      QueueWorkAppend(a[1..], b);
    } else {
      assert a + b == b;
    }
  }

  /** Splitting a well-formed task keeps its quadrants well formed. */
  lemma QuadrantsWellFormed(t: Task, n: nat)
    requires WellFormedTask(t, n) && !IsLeaf(t)
    ensures WellFormedQueue(Quadrants(t), n)
  {
    var k: nat :| t.dx == Pow2(k);
    assert k > 0;
    var q := Quadrants(t);
    var h := Pow2(k - 1);
    assert t.dx == 2 * h && t.dx / 2 == h;
    forall m | 0 <= m < 4
      ensures WellFormedTask(q[m], n)
    {
      assert q[m].dx == h;
    }
  }

  /** The pending updates of a queue of four tasks, spelled out. */
  lemma QueueLeavesFour(q: seq<Task>)
    requires |q| == 4 && AllSquare(q)
    ensures QueueLeaves(q) == Leaves(q[0]) + Leaves(q[1]) + Leaves(q[2]) + Leaves(q[3])
  {
    var l0, l1, l2, l3 := Leaves(q[0]), Leaves(q[1]), Leaves(q[2]), Leaves(q[3]);
    assert QueueLeaves(q[3..]) == l3 by {
      assert q[3..][1..] == [];
    }
    assert QueueLeaves(q[2..]) == l2 + l3 by {
      assert q[2..][1..] == q[3..];
    }
    assert QueueLeaves(q[1..]) == l1 + (l2 + l3) by {
      assert q[1..][1..] == q[2..];
    }
    assert QueueLeaves(q) == l0 + (l1 + (l2 + l3));
    ConcatAssoc(l0, l1, l2, l3);
  }

  lemma ConcatAssoc<T>(a: seq<T>, b: seq<T>, c: seq<T>, d: seq<T>)
    ensures a + (b + (c + d)) == a + b + c + d
  {
  }

  /** The work of a queue of four tasks, spelled out. */
  lemma QueueWorkFour(q: seq<Task>)
    requires |q| == 4 && AllSquare(q)
    ensures QueueWork(q) == Work(q[0].dx) + Work(q[1].dx) + Work(q[2].dx) + Work(q[3].dx)
  {
    assert QueueWork(q[3..]) == Work(q[3].dx) by {
      assert q[3..][1..] == [];
    }
    assert QueueWork(q[2..]) == Work(q[2].dx) + Work(q[3].dx) by {
      assert q[2..][1..] == q[3..];
    }
    assert QueueWork(q[1..]) == Work(q[1].dx) + Work(q[2].dx) + Work(q[3].dx) by {
      assert q[1..][1..] == q[2..];
    }
  }

  /** The quadrants of a task, queued in order, still have to update exactly the task's leaves. */
  lemma QuadrantsLeaves(t: Task)
    requires IsSquareTask(t) && !IsLeaf(t)
    ensures AllSquare(Quadrants(t))
    ensures QueueLeaves(Quadrants(t)) == Leaves(t)
  {
    QueueLeavesFour(Quadrants(t));
  }

  /** Splitting a task uses up one unit of work and leaves the rest to its quadrants. */
  lemma QuadrantsWork(t: Task)
    requires IsSquareTask(t) && !IsLeaf(t)
    ensures AllSquare(Quadrants(t))
    ensures QueueWork(Quadrants(t)) + 1 == Work(t.dx)
  {
    QueueWorkFour(Quadrants(t));
  }

  /** Taking a leaf off the front of the queue: its cell is on the board and is the first pending update. */
  lemma {:induction false} PopLeaf(queue: seq<Task>, n: nat)
    requires |queue| > 0 && IsLeaf(queue[0])
    requires WellFormedQueue(queue, n)
    ensures WellFormedQueue(queue[1..], n)
    ensures InBoard(n, (queue[0].x, queue[0].y))
    ensures QueueLeaves(queue) == [(queue[0].x, queue[0].y)] + QueueLeaves(queue[1..])
    ensures QueueWork(queue[1..]) < QueueWork(queue)
  {
    assert WellFormedTask(queue[0], n);
  }

  /** Updating the front leaf's cell moves it from the pending updates to the done ones. */
  lemma {:induction false} LeafStep(queue: seq<Task>, updated: seq<Cell>, n: nat, goal: multiset<Cell>, total: nat)
    requires |queue| > 0 && IsLeaf(queue[0])
    requires WellFormedQueue(queue, n)
    requires multiset(updated + QueueLeaves(queue)) == goal
    requires |updated| + |QueueLeaves(queue)| == total
    ensures WellFormedQueue(queue[1..], n)
    ensures InBoard(n, (queue[0].x, queue[0].y))
    ensures multiset(updated + [(queue[0].x, queue[0].y)] + QueueLeaves(queue[1..])) == goal
    ensures |updated| + 1 + |QueueLeaves(queue[1..])| == total
    ensures QueueWork(queue[1..]) < QueueWork(queue)
  {
    PopLeaf(queue, n);
    var c, pending := (queue[0].x, queue[0].y), QueueLeaves(queue[1..]);
    assert updated + [c] + pending == updated + QueueLeaves(queue);
  }

  /**
    Replacing the front task by its quadrants at the tail: the pending updates
    are the same multiset and the remaining work shrinks.
  */
  lemma {:induction false} PopSplit(queue: seq<Task>, n: nat)
    requires |queue| > 0 && !IsLeaf(queue[0])
    requires WellFormedQueue(queue, n)
    ensures WellFormedQueue(queue[1..] + Quadrants(queue[0]), n)
    ensures multiset(QueueLeaves(queue[1..] + Quadrants(queue[0]))) == multiset(QueueLeaves(queue))
    ensures |QueueLeaves(queue[1..] + Quadrants(queue[0]))| == |QueueLeaves(queue)|
    ensures QueueWork(queue[1..] + Quadrants(queue[0])) < QueueWork(queue)
  {
    var t, rest := queue[0], queue[1..];
    var batch := Quadrants(t);
    SplitWellFormed(queue, n);
    assert QueueLeaves(rest + batch) == QueueLeaves(rest) + Leaves(t) by {
      QuadrantsLeaves(t);
      QueueLeavesAppend(rest, batch);
    }
    assert QueueLeaves(queue) == Leaves(t) + QueueLeaves(rest);
    assert QueueWork(rest + batch) < QueueWork(queue) by {
      QuadrantsWork(t);
      QueueWorkAppend(rest, batch);
    }
  }

  /** The queue after a split is well formed. */
  lemma SplitWellFormed(queue: seq<Task>, n: nat)
    requires |queue| > 0 && !IsLeaf(queue[0])
    requires WellFormedQueue(queue, n)
    ensures WellFormedQueue(queue[1..] + Quadrants(queue[0]), n)
  {
    var t, rest := queue[0], queue[1..];
    var batch := Quadrants(t);
    assert WellFormedTask(t, n);
    QuadrantsWellFormed(t, n);
    forall m | 0 <= m < |rest + batch|
      ensures WellFormedTask((rest + batch)[m], n)
    {
      if m < |rest| {
        assert (rest + batch)[m] == queue[m + 1];
      } else {
        assert (rest + batch)[m] == batch[m - |rest|];
      }
    }
  }

  /** The queue a generation starts from: one well-formed task covering the board, with n * n leaves. */
  lemma InitialQueue(n: nat, k: nat)
    requires n == Pow2(k)
    ensures WellFormedQueue([Task(0, 0, n, n)], n)
    ensures QueueLeaves([Task(0, 0, n, n)]) == Leaves(Task(0, 0, n, n))
    ensures |Leaves(Task(0, 0, n, n))| == n * n > 0
  {
    var root := Task(0, 0, n, n);
    assert WellFormedTask(root, n) by {
      assert root.dx == Pow2(k);
    }
    assert QueueLeaves([root]) == Leaves(root) by {
      assert [root][1..] == [];
      assert QueueLeaves([root]) == Leaves(root) + QueueLeaves([]);
    }
    LeafTotal(root, k);
    assert n * n > 0 by {
      MulPositive(n, n);
    }
  }

  /** A run of updates that is a permutation of the whole board's leaves visits every cell exactly once. */
  lemma BoardCovered(updated: seq<Cell>, n: nat, k: nat)
    requires n == Pow2(k)
    requires multiset(updated) == multiset(Leaves(Task(0, 0, n, n)))
    ensures forall c: Cell :: multiset(updated)[c] == if InBoard(n, c) then 1 else 0
    ensures |updated| == n * n
    ensures forall r, c | 0 <= r < n && 0 <= c < n :: (r, c) in updated
  {
    forall c: Cell
      ensures multiset(updated)[c] == if InBoard(n, c) then 1 else 0
    {
      CellCount(updated, n, k, c);
    }
    LeavesCoverOnce(Task(0, 0, n, n), k);
    assert |multiset(updated)| == |multiset(Leaves(Task(0, 0, n, n)))|;
    forall r, c | 0 <= r < n && 0 <= c < n
      ensures (r, c) in updated
    {
      CellCount(updated, n, k, (r, c));
    }
  }

  lemma CellCount(updated: seq<Cell>, n: nat, k: nat, c: Cell)
    requires n == Pow2(k)
    requires multiset(updated) == multiset(Leaves(Task(0, 0, n, n)))
    ensures multiset(updated)[c] == if InBoard(n, c) then 1 else 0
  {
    LeavesCoverOnce(Task(0, 0, n, n), k);
    assert Covers(Task(0, 0, n, n), c) == InBoard(n, c);
  }

  /**
    The state of a generation part-way through: the updates done so far are
    on the board, together with the pending ones they are the leaves of the
    whole board, and the workspace holds exactly the updates done.
  */
  ghost predicate Progress(board: Board, workspace: Board, n: nat, queue: seq<Task>, updated: seq<Cell>, ws: Board)
  {
    && n >= 1 && IsSquare(board, n) && IsSquare(workspace, n)
    && WellFormedQueue(queue, n)
    && (forall m | 0 <= m < |updated| :: InBoard(n, updated[m]))
    && multiset(updated + QueueLeaves(queue)) == multiset(Leaves(Task(0, 0, n, n)))
    && ws == ApplyUpdates(board, workspace, n, updated)
    && |updated| + |QueueLeaves(queue)| == n * n
  }

  /** Updating the front leaf's cell keeps the progress invariant, one cell short of or reaching n * n. */
  lemma LeafPreserves(board: Board, workspace: Board, n: nat, queue: seq<Task>, updated: seq<Cell>, ws: Board)
    requires Progress(board, workspace, n, queue, updated, ws)
    requires |queue| > 0 && IsLeaf(queue[0])
    ensures InBoard(n, (queue[0].x, queue[0].y)) && IsSquare(ws, n)
    ensures Progress(board, workspace, n, queue[1..], updated + [(queue[0].x, queue[0].y)],
                     UpdateAt(board, ws, n, (queue[0].x, queue[0].y)))
    ensures |updated| < n * n
    ensures QueueWork(queue[1..]) < QueueWork(queue)
  {
    var c := (queue[0].x, queue[0].y);
    LeafStep(queue, updated, n, multiset(Leaves(Task(0, 0, n, n))), n * n);
    UpdateStep(board, workspace, n, updated, ws, c);
  }

  /** Writing one more on-board cell extends the run of updates the workspace holds. */
  lemma UpdateStep(board: Board, workspace: Board, n: nat, updated: seq<Cell>, ws: Board, c: Cell)
    requires IsSquare(board, n) && IsSquare(workspace, n) && InBoard(n, c)
    requires forall m | 0 <= m < |updated| :: InBoard(n, updated[m])
    requires ws == ApplyUpdates(board, workspace, n, updated)
    ensures forall m | 0 <= m < |updated + [c]| :: InBoard(n, (updated + [c])[m])
    ensures UpdateAt(board, ws, n, c) == ApplyUpdates(board, workspace, n, updated + [c])
  {
    InBoardSnoc(n, updated, c);
    ApplyUpdatesSnoc(board, workspace, n, updated, c);
  }

  /** Appending an on-board cell to on-board cells keeps them all on the board. */
  lemma InBoardSnoc(n: nat, updated: seq<Cell>, c: Cell)
    requires InBoard(n, c)
    requires forall m | 0 <= m < |updated| :: InBoard(n, updated[m])
    ensures forall m | 0 <= m < |updated + [c]| :: InBoard(n, (updated + [c])[m])
  {
    var updated' := updated + [c];
    forall m | 0 <= m < |updated'|
      ensures InBoard(n, updated'[m])
    {
      if m < |updated| {
        assert updated'[m] == updated[m];
      }
    }
  }

  /** Replacing the front task by its quadrants keeps the progress invariant. */
  lemma SplitPreserves(board: Board, workspace: Board, n: nat, queue: seq<Task>, updated: seq<Cell>, ws: Board)
    requires Progress(board, workspace, n, queue, updated, ws)
    requires |queue| > 0 && !IsLeaf(queue[0])
    ensures Progress(board, workspace, n, queue[1..] + Quadrants(queue[0]), updated, ws)
    ensures AllSquare(queue[1..] + Quadrants(queue[0]))
    ensures QueueWork(queue[1..] + Quadrants(queue[0])) < QueueWork(queue)
  {
    var queue' := queue[1..] + Quadrants(queue[0]);
    PopSplit(queue, n);
    assert multiset(updated + QueueLeaves(queue')) == multiset(updated + QueueLeaves(queue));
  }

  /**
    One pass of the worker loop: take the front task and process it. A leaf
    updates its cell and counts it, signalling when the count reaches n * n;
    any other task is replaced by its quadrants at the tail. The progress
    invariant is kept and the pending work shrinks.
  */
  method WorkerPass(board: Board, workspace: Board, n: nat, queue: seq<Task>, updated: seq<Cell>, ws: Board, signals: nat)
    returns (queue': seq<Task>, updated': seq<Cell>, ws': Board, signals': nat)
    requires Progress(board, workspace, n, queue, updated, ws) && |queue| > 0
    requires signals == if |updated| == n * n then 1 else 0
    ensures Progress(board, workspace, n, queue', updated', ws')
    ensures signals' == if |updated'| == n * n then 1 else 0
    ensures QueueWork(queue') < QueueWork(queue)
    ensures IsLeaf(queue[0]) ==> updated' == updated + [(queue[0].x, queue[0].y)] && queue' == queue[1..]
    ensures !IsLeaf(queue[0]) ==> updated' == updated && queue' == queue[1..] + Quadrants(queue[0])
  {
    var t := queue[0];
    match ProcessTask(t)
    case UpdateCell(c) =>
      LeafPreserves(board, workspace, n, queue, updated, ws);
      ws' := UpdateAt(board, ws, n, c);
      updated' := updated + [c];
      queue' := queue[1..];
      signals' := if |updated'| == n * n then signals + 1 else signals;
    case Enqueue(batch) =>
      SplitPreserves(board, workspace, n, queue, updated, ws);
      queue', updated', ws', signals' := queue[1..] + batch, updated, ws, signals;
  }

  /**
    One generation, run by a single worker: start from the task covering the
    whole board; repeatedly take the front task, update its cell if it is a
    leaf, or enqueue its quadrants at the tail. Each update counts one cell,
    and the count reaching n * n is the completion signal.

    Every cell is updated exactly once, the signal fires exactly once, and the
    workspace then holds the synchronous next generation.
  */
  method RunGeneration(board: Board, workspace: Board, n: nat, ghost k: nat) returns (updated: seq<Cell>, ws: Board, signals: nat)
    requires n == Pow2(k)
    requires IsSquare(board, n) && IsSquare(workspace, n)
    ensures forall c: Cell :: multiset(updated)[c] == if InBoard(n, c) then 1 else 0
    ensures |updated| == n * n
    ensures signals == 1
    ensures ws == Generation(board, n)
  {
    var root := Task(0, 0, n, n);
    var queue := [root];
    InitialQueue(n, k);
    updated, ws, signals := [], workspace, 0;
    assert updated + QueueLeaves(queue) == Leaves(root);
    while |queue| > 0
      invariant Progress(board, workspace, n, queue, updated, ws)
      invariant signals == if |updated| == n * n then 1 else 0
      decreases QueueWork(queue)
    {
      queue, updated, ws, signals := WorkerPass(board, workspace, n, queue, updated, ws, signals);
    }
    assert updated + QueueLeaves(queue) == updated;
    BoardCovered(updated, n, k);
    ApplyUpdatesGeneration(board, workspace, n, updated);
  }
}
