/**
  The task queue of the threaded Game of Life (gol2.c) as a doubly linked list
  in an explicit heap, without the locks and condition variables around it.

  A node holds a task and its next/prev links; the queue holds the front and
  end references and the has-tasks flag. `Linked(h, ids)` says that the nodes
  `ids` form a well-linked chain in `h`, and `Holds(h, q, ids)` that the queue
  `q` is exactly that chain. The operations are stated both for arbitrary
  heaps (what the failed ASSERTs abort on) and, under `Holds`, as FIFO
  operations on the sequence of queued tasks.
*/
module TaskQueue {
  import opened Wrappers
  import opened LifeTasks

  /** A reference to a heap-allocated task node. */
  type Ref = nat

  datatype Node = Node(task: Task, next: Option<Ref>, prev: Option<Ref>)

  type Heap = map<Ref, Node>

  /** g_queueFront, g_queueEnd and g_hasTasksVal. */
  datatype Queue = Queue(front: Option<Ref>, end: Option<Ref>, hasTasks: bool)

  // ---------------------------------------------------------------------------
  // Chains and the queue abstraction
  // ---------------------------------------------------------------------------

  predicate AllIn(h: Heap, ids: seq<Ref>)
  {
    forall i | 0 <= i < |ids| :: ids[i] in h
  }

  predicate Distinct(ids: seq<Ref>)
  {
    forall i, j | 0 <= i < j < |ids| :: ids[i] != ids[j]
  }

  /**
    The nodes `ids` form a chain: each links forward to the next and back to
    the previous, the first has no predecessor and the last no successor.
  */
  predicate Linked(h: Heap, ids: seq<Ref>)
  {
    && AllIn(h, ids)
    && Distinct(ids)
    && (forall i | 0 <= i < |ids| - 1 :: h[ids[i]].next == Some(ids[i + 1]))
    && (forall i | 1 <= i < |ids| :: h[ids[i]].prev == Some(ids[i - 1]))
    && (|ids| > 0 ==> h[ids[0]].prev.None? && h[ids[|ids| - 1]].next.None?)
  }

  function Head(ids: seq<Ref>): Option<Ref>
  {
    if |ids| == 0 then None else Some(ids[0])
  }

  function Tail(ids: seq<Ref>): Option<Ref>
  {
    if |ids| == 0 then None else Some(ids[|ids| - 1])
  }

  /** The queue is exactly the chain `ids`, and the flag says whether it is non-empty. */
  predicate Holds(h: Heap, q: Queue, ids: seq<Ref>)
  {
    Linked(h, ids) && q.front == Head(ids) && q.end == Tail(ids) && q.hasTasks == (|ids| > 0)
  }

  /** The tasks of a chain, front first. */
  function Tasks(h: Heap, ids: seq<Ref>): (ts: seq<Task>)
    requires AllIn(h, ids)
    ensures |ts| == |ids|
    ensures forall i | 0 <= i < |ids| :: ts[i] == h[ids[i]].task
  {
    seq(|ids|, i requires 0 <= i < |ids| && AllIn(h, ids) => h[ids[i]].task)
  }

  predicate Disjoint(a: seq<Ref>, b: seq<Ref>)
  {
    forall i, j | 0 <= i < |a| && 0 <= j < |b| :: a[i] != b[j]
  }

  // ---------------------------------------------------------------------------
  // chain_tasks (gol2.c:453-458)
  // ---------------------------------------------------------------------------

  /**
    Link `second` after `first`. Aborts (None) when `first` already has a
    successor, or when `second` already has a predecessor once the forward
    link is written; otherwise only those two links change.
  */
  function ChainTasks(h: Heap, first: Ref, second: Ref): (r: Option<Heap>)
    requires first in h && second in h
    ensures h[first].next.Some? ==> r.None?
    ensures first != second ==> (r.Some? <==> h[first].next.None? && h[second].prev.None?)
    ensures r.Some? ==>
      && r.value.Keys == h.Keys
      && r.value[first].next == Some(second)
      && r.value[second].prev == Some(first)
      && r.value[first].prev == (if first == second then Some(first) else h[first].prev)
      && r.value[second].next == (if first == second then Some(second) else h[second].next)
      && (forall x | x in h && x != first && x != second :: r.value[x] == h[x])
      && (forall x | x in h :: r.value[x].task == h[x].task)
  {
    if h[first].next.Some? then None
    else
      var h1 := h[first := h[first].(next := Some(second))];
      if h1[second].prev.Some? then None
      else Some(h1[second := h1[second].(prev := Some(first))])
  }

  /** Chaining the head of one chain after the tail of another, disjoint one joins them into one chain. */
  lemma ChainJoins(h: Heap, xs: seq<Ref>, ys: seq<Ref>)
    requires Linked(h, xs) && Linked(h, ys) && Disjoint(xs, ys)
    requires |xs| > 0 && |ys| > 0
    ensures ChainTasks(h, xs[|xs| - 1], ys[0]).Some?
    ensures Linked(ChainTasks(h, xs[|xs| - 1], ys[0]).value, xs + ys)
    ensures Tasks(ChainTasks(h, xs[|xs| - 1], ys[0]).value, xs + ys) == Tasks(h, xs) + Tasks(h, ys)
  {
    var a, b := xs[|xs| - 1], ys[0];
    var h' := ChainTasks(h, a, b).value;
    var zs := xs + ys;
    forall i | 0 <= i < |zs| - 1
      ensures h'[zs[i]].next == Some(zs[i + 1])
    {
      if i < |xs| - 1 {
        assert zs[i] == xs[i] && zs[i + 1] == xs[i + 1];
      } else if i == |xs| - 1 {
        assert zs[i] == a && zs[i + 1] == b;
      } else {
        assert zs[i] == ys[i - |xs|] && zs[i + 1] == ys[i + 1 - |xs|];
      }
    }
    forall i | 1 <= i < |zs|
      ensures h'[zs[i]].prev == Some(zs[i - 1])
    {
      if i < |xs| {
        assert zs[i] == xs[i] && zs[i - 1] == xs[i - 1];
      } else if i == |xs| {
        assert zs[i] == b && zs[i - 1] == a;
      } else {
        assert zs[i] == ys[i - |xs|] && zs[i - 1] == ys[i - 1 - |xs|];
      }
    }
    forall i, j | 0 <= i < j < |zs|
      ensures zs[i] != zs[j]
    {
      if j < |xs| {
      } else if i >= |xs| {
        assert zs[i] == ys[i - |xs|] && zs[j] == ys[j - |xs|];
      } else {
        assert zs[i] == xs[i] && zs[j] == ys[j - |xs|];
      }
    }
    assert zs[0] == xs[0] && zs[|zs| - 1] == ys[|ys| - 1];
    if |xs| == 1 {
      assert h'[zs[0]].prev == h[a].prev;
    }
    if |ys| == 1 {
      assert h'[zs[|zs| - 1]].next == h[b].next;
    }
  }

  // ---------------------------------------------------------------------------
  // enque_task (gol2.c:370-402)
  // ---------------------------------------------------------------------------

  datatype EnqueResult = EnqueAborted | Enqueued(heap: Heap, queue: Queue)

  /**
    Walk from `first` along the next links to the last task of the batch,
    then append the batch at the tail (or make it the whole queue when the
    queue has no end), and raise the has-tasks flag. The only way to abort is
    the check in chain_tasks.

    On a queue that holds the chain `ids`, appending a disjoint batch never
    aborts and leaves a queue holding `ids + batch` whose tasks are the old
    tasks followed by the batch's, in chain order.
  */
  method Enque(h: Heap, q: Queue, first: Ref, ghost batch: seq<Ref>, ghost ids: seq<Ref>) returns (r: EnqueResult)
    requires Linked(h, batch) && |batch| > 0 && batch[0] == first
    requires q.end.Some? ==> q.end.value in h
    ensures q.end.None? ==> r == Enqueued(h, Queue(Some(first), Some(batch[|batch| - 1]), true))
    ensures q.end.Some? ==> (r.EnqueAborted? <==> ChainTasks(h, q.end.value, first).None?)
    ensures r.Enqueued? ==> r.heap.Keys == h.Keys && r.queue.hasTasks && r.queue.end == Some(batch[|batch| - 1])
    ensures Holds(h, q, ids) && Disjoint(ids, batch) ==>
      && r.Enqueued?
      && Holds(r.heap, r.queue, ids + batch)
      && Tasks(r.heap, ids + batch) == Tasks(h, ids) + Tasks(h, batch)
  {
    var last := first;
    ghost var i := 0;
    while h[last].next.Some?
      invariant 0 <= i < |batch| && last == batch[i]
      decreases |batch| - i
    {
      assert i < |batch| - 1 && h[batch[i]].next == Some(batch[i + 1]);
      last := h[last].next.value;
      i := i + 1;
    }
    assert h[batch[i]].next.None?;
    assert i == |batch| - 1;
    if q.end.None? {
      r := Enqueued(h, Queue(Some(first), Some(last), true));
      if Holds(h, q, ids) && Disjoint(ids, batch) {
        assert ids == [] && ids + batch == batch;
      }
    } else {
      var chained := ChainTasks(h, q.end.value, first);
      if chained.None? {
        r := EnqueAborted;
      } else {
        r := Enqueued(chained.value, Queue(q.front, Some(last), true));
        if Holds(h, q, ids) && Disjoint(ids, batch) {
          ChainJoins(h, ids, batch);
          assert (ids + batch)[0] == ids[0];
        }
      }
    }
  }

  // ---------------------------------------------------------------------------
  // deque_task (gol2.c:315-368)
  // ---------------------------------------------------------------------------

  /**
    Blocked: the flag is down, so the caller would wait on the condition.
    DequeAborted: one of the two ASSERTs failed. Took: the front node was
    removed and is returned with both links cleared.
  */
  datatype DequeResult = Blocked | DequeAborted | Took(node: Ref, heap: Heap, queue: Queue)

  /** The nodes the queue operations dereference are allocated: the end, the front and the front's successor. */
  predicate Readable(h: Heap, q: Queue)
  {
    && (q.end.Some? ==> q.end.value in h)
    && (q.front.Some? ==> q.front.value in h && (h[q.front.value].next.Some? ==> h[q.front.value].next.value in h))
  }

  /**
    Take the front task: unlink it, clear the new front's back link, and
    lower the flag when nothing is left.

    On a queue that holds a non-empty chain `ids`, this takes `ids[0]` and
    leaves a queue holding `ids[1..]`: the tasks behave as a FIFO queue and
    the flag stays true exactly while tasks remain.
  */
  function Deque(h: Heap, q: Queue): (r: DequeResult)
    requires Readable(h, q)
    ensures !q.hasTasks <==> r.Blocked?
    ensures q.hasTasks && (q.front.None? || h[q.front.value].prev.Some?) <==> r.DequeAborted?
    ensures r.Took? ==>
      && Some(r.node) == q.front
      && r.heap.Keys == h.Keys
      && r.heap[r.node] == Node(h[r.node].task, None, None)
      && r.queue.front == h[r.node].next
      && r.queue.hasTasks == r.queue.front.Some?
      && (r.queue.end.Some? ==> r.queue.end.value in r.heap)
    ensures forall ids :: Holds(h, q, ids) && |ids| > 0 ==>
      && r.Took? && r.node == ids[0]
      && Holds(r.heap, r.queue, ids[1..])
      && Tasks(r.heap, ids[1..]) == Tasks(h, ids)[1..]
  {
    if !q.hasTasks then Blocked
    else if q.front.None? then DequeAborted
    else
      var task := q.front.value;
      if h[task].prev.Some? then DequeAborted
      else
        var front := h[task].next;
        var end := if q.end == Some(task) then h[task].next else q.end;
        var h1 := h[task := h[task].(next := None)];
        if front.Some? then
          var h2 := h1[front.value := h1[front.value].(prev := None)];
          DequeKeepsChain(h, q, task);
          Took(task, h2, Queue(front, end, true))
        else
          DequeKeepsChain(h, q, task);
          Took(task, h1, Queue(front, end, false))
  }

  /** The rest of a chain after its front node has been unlinked is still a chain. */
  lemma DequeKeepsChain(h: Heap, q: Queue, task: Ref)
    requires q.front == Some(task) && task in h && h[task].prev.None?
    requires h[task].next.Some? ==> h[task].next.value in h
    ensures forall ids | Holds(h, q, ids) && |ids| > 0 ::
      var front := h[task].next;
      var h1 := h[task := h[task].(next := None)];
      var h2 := if front.Some? then h1[front.value := h1[front.value].(prev := None)] else h1;
      var end := if q.end == Some(task) then h[task].next else q.end;
      && Holds(h2, Queue(front, end, front.Some?), ids[1..])
      && Tasks(h2, ids[1..]) == Tasks(h, ids)[1..]
  {
    var front := h[task].next;
    var h1 := h[task := h[task].(next := None)];
    var h2 := if front.Some? then h1[front.value := h1[front.value].(prev := None)] else h1;
    var end := if q.end == Some(task) then h[task].next else q.end;
    forall ids | Holds(h, q, ids) && |ids| > 0
      ensures Holds(h2, Queue(front, end, front.Some?), ids[1..])
      ensures Tasks(h2, ids[1..]) == Tasks(h, ids)[1..]
    {
      DequeRest(h, q, task, ids, front, h2, end);
    }
  }

  /** DequeKeepsChain for one chain `ids` the queue holds. */
  lemma DequeRest(h: Heap, q: Queue, task: Ref, ids: seq<Ref>, front: Option<Ref>, h2: Heap, end: Option<Ref>)
    requires q.front == Some(task) && task in h && h[task].prev.None?
    requires front == h[task].next && (front.Some? ==> front.value in h)
    requires h2 == (var h1 := h[task := h[task].(next := None)];
                    if front.Some? then h1[front.value := h1[front.value].(prev := None)] else h1)
    requires end == if q.end == Some(task) then front else q.end
    requires Holds(h, q, ids) && |ids| > 0
    ensures Holds(h2, Queue(front, end, front.Some?), ids[1..])
    ensures Tasks(h2, ids[1..]) == Tasks(h, ids)[1..]
  {
    var rest := ids[1..];
    assert ids[0] == task;
    assert forall i | 0 <= i < |rest| :: rest[i] == ids[i + 1];
    assert forall i | 0 <= i < |rest| :: rest[i] != task;
    if |rest| > 0 {
      assert front == Some(rest[0]);
      assert forall i | 1 <= i < |rest| :: rest[i] != rest[0];
    } else {
      assert front.None?;
    }
    assert forall i | 0 <= i < |rest| :: h2[rest[i]].task == h[rest[i]].task;
  }

  // ---------------------------------------------------------------------------
  // create_task and the quadrant batch of process_task (gol2.c:404-451)
  // ---------------------------------------------------------------------------

  /** create_task: a fresh node with no links. */
  function CreateTask(h: Heap, r: Ref, t: Task): (h': Heap)
    requires r !in h
    ensures h'.Keys == h.Keys + {r}
    ensures h'[r] == Node(t, None, None)
    ensures forall x | x in h :: h'[x] == h[x]
  {
    h[r := Node(t, None, None)]
  }

  /**
    The batch process_task enqueues for a task that is not a leaf: the four
    quadrants in fresh nodes `refs`, chained in order. None if a chain_tasks
    check fails, which QuadrantBatchLinked shows cannot happen.
  */
  function QuadrantBatch(h: Heap, t: Task, refs: seq<Ref>): (r: Option<Heap>)
    requires |refs| == 4 && Distinct(refs) && forall i | 0 <= i < 4 :: refs[i] !in h
  {
    var q := Quadrants(t);
    var h1 := CreateTask(CreateTask(CreateTask(CreateTask(h, refs[0], q[0]), refs[1], q[1]), refs[2], q[2]), refs[3], q[3]);
    match ChainTasks(h1, refs[0], refs[1])
    case None => None
    case Some(h2) =>
      match ChainTasks(h2, refs[1], refs[2])
      case None => None
      case Some(h3) => ChainTasks(h3, refs[2], refs[3])
  }

  /** The four nodes of the quadrant batch after chaining, and the untouched rest of the heap. */
  lemma QuadrantBatchNodes(h: Heap, t: Task, refs: seq<Ref>) returns (hb: Heap)
    requires |refs| == 4 && Distinct(refs) && forall i | 0 <= i < 4 :: refs[i] !in h
    ensures QuadrantBatch(h, t, refs) == Some(hb)
    ensures hb.Keys == h.Keys + {refs[0], refs[1], refs[2], refs[3]}
    ensures hb[refs[0]] == Node(Quadrants(t)[0], Some(refs[1]), None)
    ensures hb[refs[1]] == Node(Quadrants(t)[1], Some(refs[2]), Some(refs[0]))
    ensures hb[refs[2]] == Node(Quadrants(t)[2], Some(refs[3]), Some(refs[1]))
    ensures hb[refs[3]] == Node(Quadrants(t)[3], None, Some(refs[2]))
    ensures forall x | x in h :: hb[x] == h[x]
    ensures AllIn(hb, refs)
  {
    var q := Quadrants(t);
    var r0, r1, r2, r3 := refs[0], refs[1], refs[2], refs[3];
    assert r0 != r1 && r0 != r2 && r0 != r3 && r1 != r2 && r1 != r3 && r2 != r3;
    var h1 := CreateFour(h, refs, q);
    var h2 := LinkPair(h1, r0, r1);
    var h3 := LinkPair(h2, r1, r2);
    hb := LinkPair(h3, r2, r3);
    assert AllIn(hb, refs) by {
      assert hb.Keys == h1.Keys;
    }
  }

  /** The four fresh, unlinked nodes process_task creates before chaining them. */
  lemma CreateFour(h: Heap, refs: seq<Ref>, q: seq<Task>) returns (h1: Heap)
    requires |refs| == 4 && |q| == 4 && Distinct(refs) && forall i | 0 <= i < 4 :: refs[i] !in h
    ensures h1 == CreateTask(CreateTask(CreateTask(CreateTask(h, refs[0], q[0]), refs[1], q[1]), refs[2], q[2]), refs[3], q[3])
    ensures h1.Keys == h.Keys + {refs[0], refs[1], refs[2], refs[3]}
    ensures forall x | x in h :: h1[x] == h[x]
    ensures AllIn(h1, refs)
    ensures forall i | 0 <= i < 4 :: h1[refs[i]] == Node(q[i], None, None)
  {
    h1 := CreateTask(CreateTask(CreateTask(CreateTask(h, refs[0], q[0]), refs[1], q[1]), refs[2], q[2]), refs[3], q[3]);
  }

  /**
    Chaining two distinct unlinked nodes sets exactly their two links. A
    ghost helper that returns the resulting heap.
  */
  lemma LinkPair(h: Heap, a: Ref, b: Ref) returns (h': Heap)
    requires a in h && b in h && a != b
    requires h[a].next.None? && h[b].prev.None?
    ensures ChainTasks(h, a, b) == Some(h')
    ensures h'.Keys == h.Keys
    ensures h'[a] == h[a].(next := Some(b)) && h'[b] == h[b].(prev := Some(a))
    ensures forall x | x in h && x != a && x != b :: h'[x] == h[x]
  {
    h' := ChainTasks(h, a, b).value;
  }

  /**
    The quadrant batch never aborts: it is a chain of the four quadrants in
    split order, and every node that existed before is untouched.
  */
  lemma QuadrantBatchLinked(h: Heap, t: Task, refs: seq<Ref>)
    requires |refs| == 4 && Distinct(refs) && forall i | 0 <= i < 4 :: refs[i] !in h
    ensures QuadrantBatch(h, t, refs).Some?
    ensures Linked(QuadrantBatch(h, t, refs).value, refs)
    ensures Tasks(QuadrantBatch(h, t, refs).value, refs) == Quadrants(t)
    ensures forall x | x in h :: QuadrantBatch(h, t, refs).value[x] == h[x]
  {
    var hb := QuadrantBatchNodes(h, t, refs);
    FourLinked(hb, refs, Quadrants(t));
  }

  /** Four distinct nodes linked in order form a chain whose tasks are theirs. */
  lemma FourLinked(hb: Heap, refs: seq<Ref>, ts: seq<Task>)
    requires |refs| == 4 && |ts| == 4 && Distinct(refs) && AllIn(hb, refs)
    requires hb[refs[0]] == Node(ts[0], Some(refs[1]), None)
    requires hb[refs[1]] == Node(ts[1], Some(refs[2]), Some(refs[0]))
    requires hb[refs[2]] == Node(ts[2], Some(refs[3]), Some(refs[1]))
    requires hb[refs[3]] == Node(ts[3], None, Some(refs[2]))
    ensures Linked(hb, refs)
    ensures Tasks(hb, refs) == ts
  {
    assert forall i | 0 <= i < 3 :: hb[refs[i]].next == Some(refs[i + 1]);
    assert forall i | 1 <= i < 4 :: hb[refs[i]].prev == Some(refs[i - 1]);
  }

  // ---------------------------------------------------------------------------
  // One worker iteration: deque_task followed by process_task (gol2.c:460-465)
  // ---------------------------------------------------------------------------

  /** A chain only depends on its own nodes. */
  lemma {:induction false} LinkedFrame(h: Heap, h': Heap, xs: seq<Ref>)
    requires AllIn(h, xs)
    requires forall i | 0 <= i < |xs| :: xs[i] in h' && h'[xs[i]] == h[xs[i]]
    ensures Linked(h', xs) == Linked(h, xs)
    ensures AllIn(h', xs) && Tasks(h', xs) == Tasks(h, xs)
  {
  }

  /** Deque on a queue holding a non-empty chain takes its first node and leaves the rest of the chain. */
  lemma TakenFront(h: Heap, q: Queue, ids: seq<Ref>)
    requires Readable(h, q) && Holds(h, q, ids) && |ids| > 0
    ensures Deque(h, q).Took? && Deque(h, q).node == ids[0]
    ensures Holds(Deque(h, q).heap, Deque(h, q).queue, ids[1..])
    ensures Tasks(Deque(h, q).heap, ids[1..]) == Tasks(h, ids)[1..]
    ensures forall i | 0 <= i < |ids| - 1 :: ids[1..][i] != ids[0] && ids[1..][i] in Deque(h, q).heap
  {
    var rest := ids[1..];
    assert forall i | 0 <= i < |rest| :: rest[i] == ids[i + 1];
  }

  /** Freeing a node outside the queue's chain leaves the queue as it was. */
  lemma FreeOutside(h: Heap, q: Queue, xs: seq<Ref>, node: Ref)
    requires Holds(h, q, xs) && forall i | 0 <= i < |xs| :: xs[i] != node
    ensures Holds(h - {node}, q, xs) && Tasks(h - {node}, xs) == Tasks(h, xs)
  {
    LinkedFrame(h, h - {node}, xs);
  }

  /**
    The split half of process_task: create the four quadrants of `t` in the
    fresh nodes `refs`, chain them and enqueue the batch. On a queue holding
    `rest` the quadrants join at the tail.
  */
  method EnqueQuadrants(h: Heap, q: Queue, t: Task, refs: seq<Ref>, ghost rest: seq<Ref>) returns (e: EnqueResult)
    requires q.end.Some? ==> q.end.value in h
    requires |refs| == 4 && Distinct(refs) && forall i | 0 <= i < 4 :: refs[i] !in h
    ensures e.Enqueued? ==> forall x | x in h :: x in e.heap
    ensures Holds(h, q, rest) ==>
      && e.Enqueued?
      && Holds(e.heap, e.queue, rest + refs)
      && Tasks(e.heap, rest + refs) == Tasks(h, rest) + Quadrants(t)
  {
    var hb := QuadrantBatch(h, t, refs);
    QuadrantBatchLinked(h, t, refs);
    ghost var hb' := QuadrantBatchNodes(h, t, refs);
    e := Enque(hb.value, q, refs[0], refs, rest);
    if Holds(h, q, rest) {
      LinkedFrame(h, hb.value, rest);
      assert Disjoint(rest, refs);
    }
  }

  datatype StepResult = StepBlocked | StepAborted | Stepped(task: Task, heap: Heap, queue: Queue)

  /**
    One iteration of a worker: take the front task; a leaf is done (its cell
    update is LifeTasks' business), any other task has its four quadrants
    created in the fresh nodes `refs`, chained and enqueued; the taken node is
    freed.

    On a queue holding a non-empty chain `ids`, the step never blocks or
    aborts, and the queued tasks change exactly as in LifeTasks.RunGeneration:
    the front task leaves, and a split task's quadrants join at the tail.
  */
  method WorkerStep(h: Heap, q: Queue, refs: seq<Ref>, ghost ids: seq<Ref>) returns (r: StepResult)
    requires Readable(h, q)
    requires |refs| == 4 && Distinct(refs) && forall i | 0 <= i < 4 :: refs[i] !in h
    ensures !q.hasTasks <==> r.StepBlocked?
    ensures Holds(h, q, ids) && |ids| > 0 ==>
      var rest := if IsLeaf(h[ids[0]].task) then ids[1..] else ids[1..] + refs;
      && r.Stepped?
      && r.task == Tasks(h, ids)[0]
      && ids[0] !in r.heap
      && Holds(r.heap, r.queue, rest)
      && Tasks(r.heap, rest) == Tasks(h, ids)[1..] + (if IsLeaf(r.task) then [] else Quadrants(r.task))
  {
    var d := Deque(h, q);
    if d.Blocked? {
      return StepBlocked;
    }
    if d.DequeAborted? {
      return StepAborted;
    }
    var node, h1, q1 := d.node, d.heap, d.queue;
    ghost var chain := Holds(h, q, ids) && |ids| > 0;
    if chain {
      TakenFront(h, q, ids);
    }
    var t := h1[node].task;
    if IsLeaf(t) {
      r := Stepped(t, h1 - {node}, q1);
      if chain {
        FreeOutside(h1, q1, ids[1..], node);
        assert Tasks(h, ids)[1..] + [] == Tasks(h, ids)[1..];
      }
    } else {
      var e := EnqueQuadrants(h1, q1, t, refs, if chain then ids[1..] else []);
      if e.EnqueAborted? {
        return StepAborted;
      }
      r := Stepped(t, e.heap - {node}, e.queue);
      if chain {
        var all := ids[1..] + refs;
        assert forall i | 0 <= i < |all| :: all[i] != node;
        FreeOutside(e.heap, e.queue, all, node);
      }
    }
  }
}
