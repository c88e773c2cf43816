/** The hand-over of messages between the I/O thread and the worker threads, under every interleaving. */
module Queues {
  import opened Sequences

  // ---------- One queue from the I/O thread to a worker ----------

  /**
   * The stations of a message on its way to a worker: the list of the I/O thread, the shared list, the batch the
   * worker has taken, and the messages it has handled.
   */
  datatype HandOff<T> = HandOff(io: seq<T>, inbox: seq<T>, batch: seq<T>, done: seq<T>)

  function Empty<T>(): HandOff<T> { HandOff([], [], [], []) }

  /** The I/O thread appends to its own list. */
  function Push<T>(h: HandOff<T>, x: T): HandOff<T> { h.(io := h.io + [x]) }

  /** Under the lock the I/O thread moves its list behind the shared one. */
  function Move<T>(h: HandOff<T>): HandOff<T> { h.(inbox := h.inbox + h.io, io := []) }

  /** Under the lock the worker swaps the shared list with an empty one. */
  function Swap<T>(h: HandOff<T>): HandOff<T> { h.(batch := h.inbox, inbox := []) }

  /** The worker handles the first message of its batch. */
  function HandleFirst<T>(h: HandOff<T>): HandOff<T>
    requires h.batch != []
  {
    h.(batch := h.batch[1..], done := h.done + [h.batch[0]])
  }

  /** Everything on its way, oldest first. */
  function Flow<T>(h: HandOff<T>): seq<T> { h.done + h.batch + h.inbox + h.io }

  lemma FlowSteps<T>(h: HandOff<T>, x: T)
    ensures Flow(Push(h, x)) == Flow(h) + [x]
    ensures Flow(Move(h)) == Flow(h)
    ensures h.batch == [] ==> Flow(Swap(h)) == Flow(h)
    ensures h.batch != [] ==> Flow(HandleFirst(h)) == Flow(h)
  {
    FlowPush(h, x);
    FlowMove(h);
    if h.batch == [] {
      FlowSwap(h);
    } else {
      FlowHandle(h);
    }
  }

  lemma FlowPush<T>(h: HandOff<T>, x: T)
    ensures Flow(Push(h, x)) == Flow(h) + [x]
  {
    assert h.done + h.batch + h.inbox + (h.io + [x]) == h.done + h.batch + h.inbox + h.io + [x];
  }

  lemma FlowMove<T>(h: HandOff<T>)
    ensures Flow(Move(h)) == Flow(h)
  {
    assert h.done + h.batch + (h.inbox + h.io) + [] == h.done + h.batch + h.inbox + h.io;
  }

  lemma FlowSwap<T>(h: HandOff<T>)
    requires h.batch == []
    ensures Flow(Swap(h)) == Flow(h)
  {
    assert h.done + h.inbox + [] + h.io == h.done + [] + h.inbox + h.io;
  }

  lemma FlowHandle<T>(h: HandOff<T>)
    requires h.batch != []
    ensures Flow(HandleFirst(h)) == Flow(h)
  {
    assert h.batch == [h.batch[0]] + h.batch[1..];
    assert h.done + [h.batch[0]] + h.batch[1..] == h.done + h.batch;
  }

  // ---------- The whole system ----------

  /**
   * Where a worker thread is: before the swap of handler_msgs, in its loop, or between the two statements of
   * handler_reply, when its replies have been appended to the shared list and not yet cleared.
   */
  datatype Phase = Waiting | Handling | Clearing

  datatype Worker<M, R> = Worker(phase: Phase, queue: HandOff<M>, replies: seq<R>, routed: seq<M>, produced: seq<R>)

  /** A reply with the worker it comes from. */
  datatype Tagged<R> = Tagged(from: nat, reply: R)

  /** All workers, the shared list of replies, the replies that the I/O thread has fetched, and those it has sent. */
  datatype System<M, R> = System(workers: seq<Worker<M, R>>, shared: seq<Tagged<R>>, fetched: seq<Tagged<R>>, sent: seq<Tagged<R>>)

  /** One atomic step of one thread; `w` is the worker concerned. */
  datatype Step<M, R> =
    | Route(w: nat, msg: M)
    | Notify(w: nat)
    | Fetch
    | WriteOne
    | Wake(w: nat)
    | HandleOne(w: nat, answers: seq<R>)
    | Publish(w: nat)
    | Clear(w: nat)

  function Start<M, R>(n: nat): System<M, R> {
    System(seq(n, i => Worker(Waiting, Empty(), [], [], [])), [], [], [])
  }

  /** Whether the thread that would take the step is there; a worker may wake at any time. */
  predicate Enabled<M, R>(s: System<M, R>, step: Step<M, R>) {
    match step
    case Route(w, msg) => w < |s.workers|
    case Notify(w) => w < |s.workers|
    case Fetch => s.fetched == []
    case WriteOne => s.fetched != []
    case Wake(w) => w < |s.workers| && s.workers[w].phase == Waiting
    case HandleOne(w, answers) => w < |s.workers| && s.workers[w].phase == Handling && s.workers[w].queue.batch != []
    case Publish(w) => w < |s.workers| && s.workers[w].phase == Handling && s.workers[w].queue.batch == []
    case Clear(w) => w < |s.workers| && s.workers[w].phase == Clearing
  }

  function TagAll<R>(w: nat, replies: seq<R>): seq<Tagged<R>> {
    if replies == [] then [] else TagAll(w, replies[..|replies| - 1]) + [Tagged(w, replies[|replies| - 1])]
  }

  function Do<M, R>(s: System<M, R>, step: Step<M, R>): System<M, R>
    requires Enabled(s, step)
  {
    match step
    case Route(w, msg) =>
      var x := s.workers[w];
      s.(workers := s.workers[w := x.(queue := Push(x.queue, msg), routed := x.routed + [msg])])
    case Notify(w) =>
      var x := s.workers[w];
      s.(workers := s.workers[w := x.(queue := Move(x.queue))])
    case Fetch => s.(fetched := s.shared, shared := [])
    case WriteOne => s.(fetched := s.fetched[1..], sent := s.sent + [s.fetched[0]])
    case Wake(w) =>
      var x := s.workers[w];
      s.(workers := s.workers[w := x.(phase := Handling, queue := Swap(x.queue))])
    case HandleOne(w, answers) =>
      var x := s.workers[w];
      s.(workers := s.workers[w := x.(queue := HandleFirst(x.queue), replies := x.replies + answers, produced := x.produced + answers)])
    case Publish(w) =>
      var x := s.workers[w];
      s.(workers := s.workers[w := x.(phase := Clearing)], shared := s.shared + TagAll(w, x.replies))
    case Clear(w) =>
      var x := s.workers[w];
      s.(workers := s.workers[w := x.(phase := Waiting, replies := [])])
  }

  /** The state after a run, if every step of it was possible. */
  datatype Outcome<M, R> = Reached(s: System<M, R>) | Impossible

  function Run<M, R>(n: nat, steps: seq<Step<M, R>>): Outcome<M, R> {
    if steps == [] then Reached(Start(n))
    else
      match Run(n, steps[..|steps| - 1])
      case Impossible => Impossible
      case Reached(s) =>
        var step := steps[|steps| - 1];
        if Enabled(s, step) then Reached(Do(s, step)) else Impossible
  }

  // ---------- What the steps of a run ask for, told without the states they lead to ----------

  /** The messages that the I/O thread routes to worker `w`, in order. */
  function RoutedOf<M, R>(steps: seq<Step<M, R>>, w: nat): seq<M> {
    if steps == [] then []
    else
      var before, step := RoutedOf(steps[..|steps| - 1], w), steps[|steps| - 1];
      if step.Route? && step.w == w then before + [step.msg] else before
  }

  /** The replies that the handlers of worker `w` give, in order. */
  function AnswersOf<M, R>(steps: seq<Step<M, R>>, w: nat): seq<R> {
    if steps == [] then []
    else
      var before, step := AnswersOf(steps[..|steps| - 1], w), steps[|steps| - 1];
      if step.HandleOne? && step.w == w then before + step.answers else before
  }

  /** What is on either side of a list of steps is put together. */
  lemma {:induction false} OfAppend<M, R>(a: seq<Step<M, R>>, b: seq<Step<M, R>>, w: nat)
    ensures RoutedOf(a + b, w) == RoutedOf(a, w) + RoutedOf(b, w) && AnswersOf(a + b, w) == AnswersOf(a, w) + AnswersOf(b, w)
    decreases |b|
  {
    if b == [] {
      assert a + b == a;
    } else {
      var k := |b| - 1;
      OfAppend(a, b[..k], w);
      assert (a + b)[..|a| + k] == a + b[..k] && (a + b)[|a| + k] == b[k];
      Associate(RoutedOf(a, w), RoutedOf(b[..k], w), if b[k].Route? then [b[k].msg] else []);
      Associate(AnswersOf(a, w), AnswersOf(b[..k], w), if b[k].HandleOne? then b[k].answers else []);
    }
  }

  lemma OfOne<M, R>(step: Step<M, R>, w: nat)
    ensures RoutedOf([step], w) == if step.Route? && step.w == w then [step.msg] else []
    ensures AnswersOf([step], w) == if step.HandleOne? && step.w == w then step.answers else []
  {
    var none: seq<Step<M, R>> := [];
    assert [step][..0] == none;
    assert RoutedOf(none, w) == [] && AnswersOf(none, w) == [];
  }

  // ---------- Where each step takes what it moves ----------

  /** The step of worker `x` leaves its queue and its replies like this. */
  lemma WorkerStep<M, R>(s: System<M, R>, step: Step<M, R>)
    requires Enabled(s, step) && !step.Fetch? && !step.WriteOne?
    ensures var x, y := s.workers[step.w], Do(s, step).workers[step.w];
            match step
            case Route(_, msg) =>
              y.queue == HandOff(x.queue.io + [msg], x.queue.inbox, x.queue.batch, x.queue.done) && y.replies == x.replies && y.phase == x.phase
            case Notify(_) =>
              y.queue == HandOff([], x.queue.inbox + x.queue.io, x.queue.batch, x.queue.done) && y.replies == x.replies && y.phase == x.phase
            case Wake(_) =>
              y.queue == HandOff(x.queue.io, [], x.queue.inbox, x.queue.done) && y.replies == x.replies && y.phase == Handling
            case HandleOne(_, answers) =>
              && x.queue.batch != [] && [x.queue.batch[0]] + y.queue.batch == x.queue.batch
              && y.queue == HandOff(x.queue.io, x.queue.inbox, y.queue.batch, x.queue.done + [x.queue.batch[0]])
              && y.replies == x.replies + answers && y.phase == Handling
            case Publish(_) => y.queue == x.queue && y.replies == x.replies && y.phase == Clearing
            case Clear(_) => y.queue == x.queue && y.replies == [] && y.phase == Waiting
            case _ => true
  {
  }

  /** The shared list and the replies on their way out; no worker but the one concerned changes. */
  lemma SharedStep<M, R>(s: System<M, R>, step: Step<M, R>)
    requires Enabled(s, step)
    ensures var t := Do(s, step);
            && (step.Fetch? ==> s.fetched == [] && t.fetched == s.shared && t.shared == [] && t.sent == s.sent)
            && (step.WriteOne? ==> s.fetched != [] && [s.fetched[0]] + t.fetched == s.fetched && t.sent == s.sent + [s.fetched[0]] && t.shared == s.shared)
            && (step.Publish? ==> |t.shared| == |s.shared| + |s.workers[step.w].replies| && s.shared <= t.shared
                                  && forall i :: 0 <= i < |s.workers[step.w].replies| ==>
                                       t.shared[|s.shared| + i] == Tagged(step.w, s.workers[step.w].replies[i]))
            && (!step.Fetch? && !step.WriteOne? ==> t.fetched == s.fetched && t.sent == s.sent)
            && (!step.Fetch? && !step.WriteOne? && !step.Publish? ==> t.shared == s.shared)
            && |t.workers| == |s.workers|
            && forall v :: 0 <= v < |s.workers| && (step.Fetch? || step.WriteOne? || v != step.w) ==> t.workers[v] == s.workers[v]
  {
    if step.Publish? {
      TagAt(step.w, s.workers[step.w].replies);
    }
    hide TagAll;
  }

  lemma {:induction false} TagAt<R>(w: nat, replies: seq<R>)
    ensures |TagAll(w, replies)| == |replies| && forall i :: 0 <= i < |replies| ==> TagAll(w, replies)[i] == Tagged(w, replies[i])
    decreases |replies|
  {
    if replies != [] {
      TagAt(w, replies[..|replies| - 1]);
    }
  }

  /** When each step is possible: the I/O thread may always route and notify, a worker may wake at any time. */
  lemma WhenEnabled<M, R>(s: System<M, R>, w: nat, msg: M, answers: seq<R>)
    ensures Enabled(s, Route(w, msg)) <==> w < |s.workers|
    ensures Enabled(s, Notify(w)) <==> w < |s.workers|
    ensures Enabled(s, Fetch) <==> s.fetched == []
    ensures Enabled(s, WriteOne) <==> s.fetched != []
    ensures Enabled(s, Wake(w)) <==> w < |s.workers| && s.workers[w].phase == Waiting
    ensures Enabled(s, HandleOne(w, answers)) <==> w < |s.workers| && s.workers[w].phase == Handling && s.workers[w].queue.batch != []
    ensures Enabled(s, Publish(w)) <==> w < |s.workers| && s.workers[w].phase == Handling && s.workers[w].queue.batch == []
    ensures Enabled(s, Clear(w)) <==> w < |s.workers| && s.workers[w].phase == Clearing
  {
  }

  /** A run starts with idle workers, and goes on as long as its steps are possible. */
  lemma RunSteps<M, R>(n: nat, steps: seq<Step<M, R>>, step: Step<M, R>)
    ensures Run<M, R>(n, []) == Reached(Start(n))
    ensures Run(n, steps).Reached? && Enabled(Run(n, steps).s, step) ==> Run(n, steps + [step]) == Reached(Do(Run(n, steps).s, step))
    ensures Run(n, steps).Impossible? || !Enabled(Run(n, steps).s, step) ==> Run(n, steps + [step]).Impossible?
  {
    assert (steps + [step])[..|steps|] == steps;
    hide Do, Enabled;
  }

  // ---------- Replies of one worker ----------

  function From<R>(w: nat, xs: seq<Tagged<R>>): seq<R> {
    if xs == [] then []
    else if xs[|xs| - 1].from == w then From(w, xs[..|xs| - 1]) + [xs[|xs| - 1].reply]
    else From(w, xs[..|xs| - 1])
  }

  lemma {:induction false} FromAppend<R>(w: nat, a: seq<Tagged<R>>, b: seq<Tagged<R>>)
    ensures From(w, a + b) == From(w, a) + From(w, b)
    decreases |b|
  {
    if b == [] {
      assert a + b == a;
    } else {
      var k := |b| - 1;
      FromAppend(w, a, b[..k]);
      assert (a + b)[..|a + b| - 1] == a + b[..k];
      if b[k].from == w {
        assert From(w, a) + From(w, b[..k]) + [b[k].reply] == From(w, a) + (From(w, b[..k]) + [b[k].reply]);
      }
    }
  }

  lemma {:induction false} FromTagged<R>(w: nat, v: nat, replies: seq<R>)
    ensures From(w, TagAll(v, replies)) == if w == v then replies else []
    decreases |replies|
  {
    if replies != [] {
      var k := |replies| - 1;
      FromTagged(w, v, replies[..k]);
      var t := TagAll(v, replies);
      assert t[..|t| - 1] == TagAll(v, replies[..k]);
    }
  }

  // ---------- The invariant ----------

  /** The messages routed to a worker are those handled, in its batch, in its inbox and in the I/O thread's list, in order. */
  ghost predicate InputKept<M, R>(x: Worker<M, R>) {
    && x.routed == Flow(x.queue)
    && (x.phase != Handling ==> x.queue.batch == [])
    && (x.phase == Waiting ==> x.replies == [])
  }

  /** The replies of worker `w` that have left it: sent, fetched or shared. */
  function Left<M, R>(s: System<M, R>, w: nat): seq<R> { From(w, s.sent) + From(w, s.fetched) + From(w, s.shared) }

  /** The replies of a worker are those that have left it and those it has still to publish, in order. */
  ghost predicate OutputKept<M, R>(s: System<M, R>, w: nat)
    requires w < |s.workers|
  {
    var x := s.workers[w];
    x.produced == Left(s, w) + (if x.phase == Clearing then [] else x.replies)
  }

  ghost predicate Kept<M, R>(s: System<M, R>) {
    forall w :: 0 <= w < |s.workers| ==> InputKept(s.workers[w]) && OutputKept(s, w)
  }

  lemma LeftStays<M, R>(s: System<M, R>, step: Step<M, R>, w: nat)
    requires Enabled(s, step)
    ensures Left(Do(s, step), w) == Left(s, w) + if step.Publish? && step.w == w then s.workers[w].replies else []
  {
    var t := Do(s, step);
    match step {
      case Fetch =>
        FetchKeeps(From(w, s.sent), From(w, s.shared));
      case WriteOne =>
        var head, rest := [s.fetched[0]], s.fetched[1..];
        assert s.fetched == head + rest;
        FromAppend(w, s.sent, head);
        FromAppend(w, head, rest);
        Associate(From(w, s.sent), From(w, head), From(w, rest));
      case Publish(v) =>
        var more := TagAll(v, s.workers[v].replies);
        FromAppend(w, s.shared, more);
        FromTagged(w, v, s.workers[v].replies);
        Associate(From(w, s.sent) + From(w, s.fetched), From(w, s.shared), From(w, more));
      case Route(_, _) => Nothing(Left(s, w));
      case Notify(_) => Nothing(Left(s, w));
      case Wake(_) => Nothing(Left(s, w));
      case HandleOne(_, _) => Nothing(Left(s, w));
      case Clear(_) => Nothing(Left(s, w));
    }
    hide From, TagAll;
  }

  lemma FetchKeeps<R>(a: seq<R>, b: seq<R>)
    ensures a + b + [] == a + [] + b
    ensures a + [] + b + [] == a + [] + b
  {
  }

  /** A step changes no worker but its own. */
  lemma InputStays<M, R>(s: System<M, R>, step: Step<M, R>, w: nat)
    requires Enabled(s, step) && w < |s.workers| && InputKept(s.workers[w])
    ensures |Do(s, step).workers| == |s.workers| && InputKept(Do(s, step).workers[w])
  {
    hide Flow;
    var q := s.workers[w].queue;
    FlowMove(q);
    match step {
      case Route(v, msg) => FlowPush(q, msg);
      case Wake(v) => if v == w { FlowSwap(q); }
      case HandleOne(v, answers) => if v == w { FlowHandle(q); }
      case Notify(_) =>
      case Fetch =>
      case WriteOne =>
      case Publish(_) =>
      case Clear(_) =>
    }
  }

  lemma OutputStays<M, R>(s: System<M, R>, step: Step<M, R>, w: nat)
    requires Enabled(s, step) && w < |s.workers| && InputKept(s.workers[w]) && OutputKept(s, w)
    ensures |Do(s, step).workers| == |s.workers| && OutputKept(Do(s, step), w)
  {
    LeftStays(s, step, w);
    hide Left, Flow;
    var x := s.workers[w];
    Nothing(Left(s, w));
    match step {
      case HandleOne(v, answers) => Associate(Left(s, w), x.replies, answers);
      case Publish(v) => Nothing(Left(s, w) + x.replies);
      case Route(_, _) =>
      case Notify(_) =>
      case Fetch =>
      case WriteOne =>
      case Wake(_) =>
      case Clear(_) =>
    }
  }

  lemma StartKept<M, R>(n: nat)
    ensures |Start<M, R>(n).workers| == n && Kept(Start<M, R>(n))
    ensures forall w :: 0 <= w < n ==> Start<M, R>(n).workers[w] == Worker(Waiting, HandOff([], [], [], []), [], [], [])
  {
  }

  /** What the state records of a worker is what the steps have asked for. */
  ghost predicate Recorded<M, R>(s: System<M, R>, steps: seq<Step<M, R>>) {
    forall w :: 0 <= w < |s.workers| ==>
      s.workers[w].routed == RoutedOf(steps, w) && s.workers[w].produced == AnswersOf(steps, w)
  }

  lemma RecordOne<M, R>(s: System<M, R>, step: Step<M, R>, w: nat)
    requires Enabled(s, step) && w < |s.workers|
    ensures |Do(s, step).workers| == |s.workers|
    ensures Do(s, step).workers[w].routed == s.workers[w].routed + if step.Route? && step.w == w then [step.msg] else []
    ensures Do(s, step).workers[w].produced == s.workers[w].produced + if step.HandleOne? && step.w == w then step.answers else []
  {
  }

  /**
   * In every run of any number of workers, nothing is lost, duplicated or reordered on either way: what the steps have
   * routed to a worker is at its stations, and what its handlers have answered has left it or is still to be published.
   */
  lemma {:induction false} RunKept<M, R>(n: nat, steps: seq<Step<M, R>>)
    requires Run(n, steps).Reached?
    ensures |Run(n, steps).s.workers| == n && Kept(Run(n, steps).s) && Recorded(Run(n, steps).s, steps)
    decreases |steps|
  {
    if steps == [] {
      StartKept<M, R>(n);
    } else {
      var before, step := steps[..|steps| - 1], steps[|steps| - 1];
      RunKept(n, before);
      var s := Run(n, before).s;
      forall w | 0 <= w < n
        ensures InputKept(Do(s, step).workers[w]) && OutputKept(Do(s, step), w) && |Do(s, step).workers| == n
        ensures Do(s, step).workers[w].routed == RoutedOf(steps, w) && Do(s, step).workers[w].produced == AnswersOf(steps, w)
      {
        InputStays(s, step, w);
        OutputStays(s, step, w);
        RecordOne(s, step, w);
      }
      hide InputKept, OutputKept, Do, Enabled;
      DoKeepsCount(s, step);
    }
  }

  lemma DoKeepsCount<M, R>(s: System<M, R>, step: Step<M, R>)
    requires Enabled(s, step)
    ensures |Do(s, step).workers| == |s.workers|
  {
  }

  /** What a worker has handled and what has been sent for it never overtake what was routed to it and what it answered. */
  lemma PrefixesHold<M, R>(n: nat, steps: seq<Step<M, R>>, w: nat)
    requires Run(n, steps).Reached? && w < n
    ensures var s := Run(n, steps).s;
            |s.workers| == n && s.workers[w].queue.done <= RoutedOf(steps, w) && From(w, s.sent) <= AnswersOf(steps, w)
  {
    RunKept(n, steps);
    hide From;
    var x := Run(n, steps).s.workers[w];
    assert x.queue.done <= Flow(x.queue);
  }

  /** When nothing is under way any more, everything routed has been handled and every reply has been sent. */
  predicate Quiet<M, R>(s: System<M, R>) {
    && s.shared == [] && s.fetched == []
    && forall w :: 0 <= w < |s.workers| ==>
         var q := s.workers[w].queue; q.io == [] && q.inbox == [] && s.workers[w].phase == Waiting
  }

  lemma QuietDelivers<M, R>(n: nat, steps: seq<Step<M, R>>, w: nat)
    requires Run(n, steps).Reached? && Quiet(Run(n, steps).s) && w < n
    ensures var s := Run(n, steps).s;
            |s.workers| == n && s.workers[w].queue.done == RoutedOf(steps, w) && From(w, s.sent) == AnswersOf(steps, w)
  {
    RunKept(n, steps);
    var s := Run(n, steps).s;
    var x := s.workers[w];
    Nothing(x.queue.done);
    Nothing(From(w, s.sent));
  }

  // ---------- Nothing gets stuck ----------

  /** How much there is still to do for one worker, and for all. */
  function Load<M, R>(x: Worker<M, R>): nat {
    10 * |x.queue.io| + 8 * |x.queue.inbox| + 4 * |x.queue.batch|
    + if x.phase == Handling then 4 * |x.replies| + 2 else if x.phase == Clearing then 1 else 0
  }

  function Loads<M, R>(workers: seq<Worker<M, R>>): nat {
    if workers == [] then 0 else Loads(workers[..|workers| - 1]) + Load(workers[|workers| - 1])
  }

  function ToDo<M, R>(s: System<M, R>): nat { Loads(s.workers) + 3 * |s.shared| + 2 * |s.fetched| }

  lemma {:induction false} LoadsChange<M, R>(workers: seq<Worker<M, R>>, w: nat, x: Worker<M, R>)
    requires w < |workers|
    ensures Loads(workers[w := x]) == Loads(workers) - Load(workers[w]) + Load(x)
    decreases |workers|
  {
    hide Load;
    var k := |workers| - 1;
    if w == k {
      assert workers[w := x][..k] == workers[..k];
    } else {
      LoadsChange(workers[..k], w, x);
      assert workers[w := x][..k] == workers[..k][w := x];
    }
  }

  /** A step of one worker that lightens its load by more than it shares. */
  lemma LighterStep<M, R>(s: System<M, R>, step: Step<M, R>)
    requires Enabled(s, step) && !step.Fetch? && !step.WriteOne? && InputKept(s.workers[step.w])
    requires match step
             case Notify(w) => s.workers[w].queue.io != []
             case Wake(w) => s.workers[w].queue.inbox != []
             case HandleOne(_, answers) => answers == []
             case Publish(_) => true
             case Clear(_) => true
             case _ => false
    ensures ToDo(Do(s, step)) < ToDo(s)
  {
    hide Loads, Flow;
    var w := step.w;
    LoadsChange(s.workers, w, Do(s, step).workers[w]);
    if step.Publish? {
      TagAt(w, s.workers[w].replies);
    }
    hide TagAll;
  }

  /** Where something is under way, some thread can take a step, without a new message and without new replies. */
  lemma NextStep<M, R>(s: System<M, R>) returns (step: Step<M, R>)
    requires Kept(s) && !Quiet(s)
    ensures Enabled(s, step) && !step.Route? && (step.HandleOne? ==> step.answers == []) && ToDo(Do(s, step)) < ToDo(s)
  {
    hide Loads, OutputKept, Flow;
    if s.fetched != [] {
      step := WriteOne;
    } else if s.shared != [] {
      step := Fetch;
    } else {
      var w :| 0 <= w < |s.workers| && !(s.workers[w].queue.io == [] && s.workers[w].queue.inbox == [] && s.workers[w].phase == Waiting);
      var x := s.workers[w];
      assert InputKept(x);
      if x.phase == Clearing {
        step := Clear(w);
      } else if x.phase == Handling && x.queue.batch != [] {
        step := HandleOne(w, []);
      } else if x.phase == Handling {
        step := Publish(w);
      } else if x.queue.io != [] {
        step := Notify(w);
      } else {
        step := Wake(w);
      }
      LighterStep(s, step);
    }
  }

  /**
   * From every state that a run reaches, steps that bring nothing new lead to a state where nothing is under way: then
   * every message that was routed has been handled, in order, and every reply that was given has been sent.
   */
  lemma {:induction false} EverythingArrives<M, R>(n: nat, steps: seq<Step<M, R>>) returns (more: seq<Step<M, R>>)
    requires Run(n, steps).Reached?
    ensures var s := Run(n, steps + more);
            && s.Reached? && Quiet(s.s) && |s.s.workers| == n
            && forall w :: 0 <= w < n ==>
                 s.s.workers[w].queue.done == RoutedOf(steps, w) && From(w, s.s.sent) == AnswersOf(steps, w)
    decreases ToDo(Run(n, steps).s)
  {
    hide Quiet, Kept, Recorded, Do, Enabled, ToDo, From, RoutedOf, AnswersOf;
    RunKept(n, steps);
    var s := Run(n, steps).s;
    if Quiet(s) {
      more := [];
      assert steps + [] == steps;
      forall w | 0 <= w < n ensures s.workers[w].queue.done == RoutedOf(steps, w) && From(w, s.sent) == AnswersOf(steps, w) {
        QuietDelivers(n, steps, w);
      }
    } else {
      var step := NextStep(s);
      RunSteps(n, steps, step);
      var rest := EverythingArrives(n, steps + [step]);
      more := [step] + rest;
      assert steps + more == steps + [step] + rest;
      forall w | 0 <= w < n
        ensures RoutedOf(steps + [step], w) == RoutedOf(steps, w) && AnswersOf(steps + [step], w) == AnswersOf(steps, w)
      {
        OfAppend(steps, [step], w);
        OfOne(step, w);
        Nothing(RoutedOf(steps, w));
        Nothing(AnswersOf(steps, w));
      }
    }
  }

  // ---------- The same hand-over of events from the gate's I/O thread ----------

  datatype GateStep<E> = PushEvent(w: nat, event: E) | MoveEvents(w: nat) | TakeEvents(w: nat) | HandleEvent(w: nat)

  datatype GateWorker<E> = GateWorker(queue: HandOff<E>, pushed: seq<E>)

  predicate GateEnabled<E>(s: seq<GateWorker<E>>, step: GateStep<E>) {
    && step.w < |s|
    && (step.TakeEvents? ==> s[step.w].queue.batch == [])
    && (step.HandleEvent? ==> s[step.w].queue.batch != [])
  }

  function GateDo<E>(s: seq<GateWorker<E>>, step: GateStep<E>): seq<GateWorker<E>>
    requires GateEnabled(s, step)
  {
    var x := s[step.w];
    s[step.w :=
      match step
      case PushEvent(_, event) => GateWorker(Push(x.queue, event), x.pushed + [event])
      case MoveEvents(_) => x.(queue := Move(x.queue))
      case TakeEvents(_) => x.(queue := Swap(x.queue))
      case HandleEvent(_) => x.(queue := HandleFirst(x.queue))]
  }

  datatype GateOutcome<E> = GateReached(s: seq<GateWorker<E>>) | GateImpossible

  function GateRun<E>(n: nat, steps: seq<GateStep<E>>): GateOutcome<E> {
    if steps == [] then GateReached(seq(n, i => GateWorker(Empty(), [])))
    else
      match GateRun(n, steps[..|steps| - 1])
      case GateImpossible => GateImpossible
      case GateReached(s) =>
        var step := steps[|steps| - 1];
        if GateEnabled(s, step) then GateReached(GateDo(s, step)) else GateImpossible
  }

  /** The events pushed for worker `w`, told from the steps alone. */
  function PushedOf<E>(steps: seq<GateStep<E>>, w: nat): seq<E> {
    if steps == [] then []
    else
      var before, step := PushedOf(steps[..|steps| - 1], w), steps[|steps| - 1];
      if step.PushEvent? && step.w == w then before + [step.event] else before
  }

  /** Where each step takes what it moves. */
  lemma GateStations<E>(s: seq<GateWorker<E>>, step: GateStep<E>)
    requires GateEnabled(s, step)
    ensures var x, y := s[step.w].queue, GateDo(s, step)[step.w].queue;
            match step
            case PushEvent(_, event) => y == HandOff(x.io + [event], x.inbox, x.batch, x.done)
            case MoveEvents(_) => y == HandOff([], x.inbox + x.io, x.batch, x.done)
            case TakeEvents(_) => x.batch == [] && y == HandOff(x.io, [], x.inbox, x.done)
            case HandleEvent(_) =>
              x.batch != [] && [x.batch[0]] + y.batch == x.batch && y == HandOff(x.io, x.inbox, y.batch, x.done + [x.batch[0]])
    ensures |GateDo(s, step)| == |s| && forall v :: 0 <= v < |s| && v != step.w ==> GateDo(s, step)[v] == s[v]
  {
  }

  lemma GateWhenEnabled<E>(s: seq<GateWorker<E>>, step: GateStep<E>)
    ensures step.PushEvent? || step.MoveEvents? ==> (GateEnabled(s, step) <==> step.w < |s|)
    ensures step.TakeEvents? ==> (GateEnabled(s, step) <==> step.w < |s| && s[step.w].queue.batch == [])
    ensures step.HandleEvent? ==> (GateEnabled(s, step) <==> step.w < |s| && s[step.w].queue.batch != [])
  {
  }

  lemma GateRunSteps<E>(n: nat, steps: seq<GateStep<E>>, step: GateStep<E>)
    ensures GateRun<E>(n, []).GateReached? && |GateRun<E>(n, []).s| == n
    ensures GateRun(n, steps).GateReached? && GateEnabled(GateRun(n, steps).s, step)
            ==> GateRun(n, steps + [step]) == GateReached(GateDo(GateRun(n, steps).s, step))
  {
    assert (steps + [step])[..|steps|] == steps;
    hide GateDo, GateEnabled;
  }

  /** The events pushed for a worker are handled, in its batch, in its inbox or in the I/O thread's list, in order. */
  lemma {:induction false} GateRunKept<E>(n: nat, steps: seq<GateStep<E>>)
    requires GateRun(n, steps).GateReached?
    ensures var s := GateRun(n, steps).s;
            |s| == n && forall w :: 0 <= w < n ==> s[w].pushed == Flow(s[w].queue) && s[w].pushed == PushedOf(steps, w)
    decreases |steps|
  {
    if steps != [] {
      var before, step := steps[..|steps| - 1], steps[|steps| - 1];
      GateRunKept(n, before);
      hide Flow;
      var q := GateRun(n, before).s[step.w].queue;
      FlowMove(q);
      match step {
        case PushEvent(_, event) => FlowPush(q, event);
        case MoveEvents(_) =>
        case TakeEvents(_) => FlowSwap(q);
        case HandleEvent(_) => FlowHandle(q);
      }
    }
  }
}
