/** The objects of the gate server that hand connect events over. */
module GateServer {
  import opened Queues
  import opened Sequences

  /** An event of the gate's I/O thread; `connect` is the flag FD_EVENT_CONNECT. */
  datatype EventNode = EventNode(sfd: int, uid: int, connect: bool)

  function Connects(events: seq<EventNode>): seq<EventNode> {
    if events == [] then []
    else if events[|events| - 1].connect then Connects(events[..|events| - 1]) + [events[|events| - 1]]
    else Connects(events[..|events| - 1])
  }

  /** The connect events of a list are those of its parts one behind the other; of one event it is that event or nothing. */
  lemma {:induction false} ConnectsAppend(a: seq<EventNode>, b: seq<EventNode>)
    ensures Connects(a + b) == Connects(a) + Connects(b)
    ensures |b| == 1 ==> Connects(b) == if b[0].connect then [b[0]] else []
    decreases |b|
  {
    if b == [] {
      assert a + b == a;
    } else {
      var k := |b| - 1;
      ConnectsAppend(a, b[..k]);
      assert (a + b)[..|a + b| - 1] == a + b[..k];
      Associate(Connects(a), Connects(b[..k]), [b[k]]);
    }
  }

  /** In every run, the connections a worker has set up are the first of those pushed for it, in order. */
  lemma ConnectionsInOrder(n: nat, steps: seq<GateStep<EventNode>>, w: nat)
    requires GateRun(n, steps).GateReached? && w < n
    ensures var s := GateRun(n, steps).s; |s| == n && Connects(s[w].queue.done) <= Connects(PushedOf(steps, w))
  {
    hide Connects;
    GateRunKept(n, steps);
    var q := GateRun(n, steps).s[w].queue;
    assert Flow(q) == q.done + (q.batch + q.inbox + q.io);
    ConnectsAppend(q.done, q.batch + q.inbox + q.io);
  }

  class Worker {
    var eventsIo: seq<EventNode>
    var ioevsIn: seq<EventNode>
    var connected: seq<EventNode>
    ghost var queue: HandOff<EventNode>

    ghost predicate Valid()
      reads this
    {
      queue.io == eventsIo && queue.inbox == ioevsIn && connected == Connects(queue.done)
    }

    constructor ()
      ensures Valid() && queue == Empty()
    {
      eventsIo, ioevsIn, connected, queue := [], [], [], Empty();
    }

    /** GateIO appends to the list that only it uses. */
    method PushIo(event: EventNode)
      requires Valid()
      modifies this`eventsIo, this`queue
      ensures Valid() && queue == Push(old(queue), event) && eventsIo == old(eventsIo) + [event]
    {
      eventsIo, queue := eventsIo + [event], Push(queue, event);
    }

    method MoveIoEventToIn()
      requires Valid()
      modifies this`eventsIo, this`ioevsIn, this`queue
      ensures Valid() && queue == Move(old(queue)) && eventsIo == [] && ioevsIn == old(ioevsIn) + old(eventsIo)
    {
      ioevsIn := ioevsIn + eventsIo;
      eventsIo := [];
      queue := Move(queue);
    }

    /** handler_ioevent, the part under the lock; clearing behind the swap changes nothing. */
    method TakeEvents() returns (events: seq<EventNode>)
      requires Valid()
      modifies this`ioevsIn, this`queue
      ensures Valid() && queue == Swap(old(queue)) && events == queue.batch && events == old(ioevsIn) && ioevsIn == []
    {
      events, ioevsIn := ioevsIn, [];
      ioevsIn := [];
      queue := Swap(queue);
    }

    /** handler_ioevent, the loop: connect events set up a connection, others are reported and dropped. */
    method HandleEvents(events: seq<EventNode>)
      requires Valid() && events == queue.batch
      modifies this`connected, this`queue
      ensures Valid() && Flow(queue) == old(Flow(queue))
      ensures queue == old(queue).(batch := [], done := old(queue.done) + events)
      ensures connected == old(connected) + Connects(events)
    {
      hide Flow, Connects;
      ghost var done := queue.done;
      assert events[0..] == events && done + events[..0] == done;
      for i := 0 to |events|
        invariant Valid() && queue == old(queue).(batch := events[i..], done := done + events[..i])
        invariant Flow(queue) == old(Flow(queue))
      {
        FlowHandle(queue);
        OneMore(queue.done, events[i]);
        if events[i].connect {
          connected := connected + [events[i]];
        }
        queue := HandleFirst(queue);
        assert done + events[..i] + [events[i]] == done + events[..i + 1];
      }
      assert events[..|events|] == events;
      ConnectsAppend(done, events);
    }

    static lemma OneMore(done: seq<EventNode>, event: EventNode)
      ensures Connects(done + [event]) == if event.connect then Connects(done) + [event] else Connects(done)
    {
      assert (done + [event])[..|done|] == done;
    }
  }

  /** GateIO::notify_workers: every worker with something new gets it under its lock. */
  method NotifyWorkers(workers: seq<Worker>)
    requires forall i, j :: 0 <= i < j < |workers| ==> workers[i] != workers[j]
    requires forall i :: 0 <= i < |workers| ==> workers[i].Valid()
    modifies workers
    ensures forall i :: 0 <= i < |workers| ==> workers[i].Valid() && workers[i].queue == Move(old(workers[i].queue))
    ensures forall i :: 0 <= i < |workers| ==> workers[i].connected == old(workers[i].connected)
  {
    hide Connects;
    for n := 0 to |workers|
      invariant forall i :: 0 <= i < |workers| ==> workers[i].Valid() && workers[i].connected == old(workers[i].connected)
      invariant forall i :: 0 <= i < n ==> workers[i].queue == Move(old(workers[i].queue))
      invariant forall i :: n <= i < |workers| ==> workers[i].queue == old(workers[i].queue)
    {
      if workers[n].eventsIo != [] {
        workers[n].MoveIoEventToIn();
      } else {
        assert Move(workers[n].queue) == workers[n].queue by { Nothing(workers[n].queue.inbox); }
      }
    }
  }
}
