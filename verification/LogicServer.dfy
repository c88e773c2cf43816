/** The objects of the logic server that hand messages over: the I/O side, the workers, and the locked list between them. */
module LogicServer {
  import opened Frames
  import opened Queues
  import opened Sequences

  const UINT_MAX: nat := 0xFFFF_FFFF

  datatype Option<T> = None | Some(value: T)

  class MutexList<T> {
    var datas: seq<T>

    constructor ()
      ensures datas == []
    {
      datas := [];
    }

    method AddOne(one: T)
      modifies this
      ensures datas == old(datas) + [one]
    {
      datas := datas + [one];
    }

    method AddMore(more: seq<T>)
      modifies this
      ensures datas == old(datas) + more
    {
      datas := datas + more;
    }

    /** The oldest element; a default-constructed one, here None, from an empty list. */
    method GetOne() returns (one: Option<T>)
      modifies this
      ensures old(datas) == [] ==> one == None && datas == []
      ensures old(datas) != [] ==> one.Some? && old(datas) == [one.value] + datas
    {
      if |datas| == 0 {
        return None;
      }
      one, datas := Some(datas[0]), datas[1..];
    }

    method GetMore() returns (ret: seq<T>)
      modifies this
      ensures ret == old(datas) && datas == []
    {
      ret, datas := datas, [];
    }
  }

  function AllAnswers(answer: Msg -> seq<Msg>, msgs: seq<Msg>): seq<Msg> {
    if msgs == [] then [] else AllAnswers(answer, msgs[..|msgs| - 1]) + answer(msgs[|msgs| - 1])
  }

  lemma LastAnswers(answer: Msg -> seq<Msg>, msgs: seq<Msg>)
    ensures msgs == [] ==> AllAnswers(answer, msgs) == []
    ensures msgs != [] ==> var k := |msgs| - 1; AllAnswers(answer, msgs) == AllAnswers(answer, msgs[..k]) + answer(msgs[k])
  {
  }

  /** The answers of a list of messages are those of its parts one behind the other, and those of one message are its own. */
  lemma {:induction false} AnswersInOrder(answer: Msg -> seq<Msg>, a: seq<Msg>, b: seq<Msg>)
    ensures AllAnswers(answer, a + b) == AllAnswers(answer, a) + AllAnswers(answer, b)
    ensures |b| == 1 ==> AllAnswers(answer, b) == answer(b[0])
    decreases |b|
  {
    hide AllAnswers;
    LastAnswers(answer, b);
    if b == [] {
      assert a + b == a;
    } else {
      var k := |b| - 1;
      AnswersInOrder(answer, a, b[..k]);
      LastAnswers(answer, a + b);
      LastAnswers(answer, b[..k]);
      assert (a + b)[..|a| + k] == a + b[..k];
      Associate(AllAnswers(answer, a), AllAnswers(answer, b[..k]), answer(b[k]));
    }
  }

  /** A worker; `queue` records where every message routed to it is. */
  class LogicWorker {
    var uids: set<int>
    var ioMsgs: seq<Msg>
    var msgsIn: seq<Msg>
    var outMsgs: seq<Msg>
    ghost var queue: HandOff<Msg>

    ghost predicate Valid()
      reads this
    {
      queue.io == ioMsgs && queue.inbox == msgsIn
    }

    constructor (uids: set<int>)
      ensures Valid() && queue == Empty() && outMsgs == [] && this.uids == uids
    {
      this.uids := uids;
      ioMsgs, msgsIn, outMsgs, queue := [], [], [], Empty();
    }

    /** LogicIO appends to the list that only it uses. */
    method PushIo(msg: Msg)
      requires Valid()
      modifies this`ioMsgs, this`queue
      ensures Valid() && queue == Push(old(queue), msg) && ioMsgs == old(ioMsgs) + [msg]
    {
      ioMsgs, queue := ioMsgs + [msg], Push(queue, msg);
    }

    /** notify_msg_in, the part under the lock. */
    method NotifyMsgIn()
      requires Valid()
      modifies this`ioMsgs, this`msgsIn, this`queue
      ensures Valid() && queue == Move(old(queue)) && ioMsgs == [] && msgsIn == old(msgsIn) + old(ioMsgs)
    {
      msgsIn := msgsIn + ioMsgs;
      ioMsgs := [];
      queue := Move(queue);
    }

    /** handler_msgs, the part under the lock: the shared list is swapped with an empty one. */
    method TakeMsgs() returns (msgs: seq<Msg>)
      requires Valid()
      modifies this`msgsIn, this`queue
      ensures Valid() && queue == Swap(old(queue)) && msgs == queue.batch && msgs == old(msgsIn) && msgsIn == []
    {
      msgs, msgsIn := msgsIn, [];
      queue := Swap(queue);
    }

    /** handler_msgs, the loop; `answer` gives what the handler of a message pushes to the reply list. */
    method HandleBatch(msgs: seq<Msg>, answer: Msg -> seq<Msg>)
      requires Valid() && msgs == queue.batch
      modifies this`outMsgs, this`queue
      ensures Valid() && queue == old(queue).(batch := [], done := old(queue.done) + msgs)
      ensures Flow(queue) == old(Flow(queue))
      ensures outMsgs == old(outMsgs) + AllAnswers(answer, msgs)
    {
      hide Flow;
      assert msgs[0..] == msgs;
      for i := 0 to |msgs|
        invariant Valid() && queue == old(queue).(batch := msgs[i..], done := old(queue.done) + msgs[..i])
        invariant Flow(queue) == old(Flow(queue))
        invariant outMsgs == old(outMsgs) + AllAnswers(answer, msgs[..i])
      {
        FlowHandle(queue);
        outMsgs := outMsgs + answer(msgs[i]);
        queue := HandleFirst(queue);
        assert msgs[..i + 1][..i] == msgs[..i];
      }
      assert msgs[..|msgs|] == msgs;
    }

    /** handler_reply: the replies go behind the shared ones, then the worker's own list is cleared. */
    method HandlerReply(list: MutexList<Msg>)
      modifies this`outMsgs, list
      ensures list.datas == old(list.datas) + old(outMsgs) && outMsgs == []
    {
      list.AddMore(outMsgs);
      outMsgs := [];
    }
  }

  // ---------- Which worker ----------

  /** The first worker that serves the user, or the number of workers. */
  function FirstHolder(views: seq<set<int>>, uid: int): (k: nat)
    ensures k <= |views| && (k < |views| ==> uid in views[k]) && forall j :: 0 <= j < k ==> uid !in views[j]
  {
    if views == [] then 0 else if uid in views[0] then 0 else 1 + FirstHolder(views[1..], uid)
  }

  /** The first of the workers with the fewest users. */
  function Fewest(views: seq<set<int>>): (k: nat)
    requires views != []
    ensures k < |views| && forall j :: 0 <= j < |views| ==> |views[k]| <= |views[j]|
    ensures forall j :: 0 <= j < k ==> |views[k]| < |views[j]|
  {
    var n := |views| - 1;
    if n == 0 then 0
    else
      var k := Fewest(views[..n]);
      if |views[n]| < |views[k]| then n else k
  }

  function Choice(views: seq<set<int>>, uid: int): (k: nat)
    requires views != []
    ensures k < |views|
    ensures (exists i :: 0 <= i < |views| && uid in views[i]) ==> uid in views[k] && forall j :: 0 <= j < k ==> uid !in views[j]
    ensures (forall i :: 0 <= i < |views| ==> uid !in views[i]) ==>
              (forall j :: 0 <= j < |views| ==> |views[k]| <= |views[j]|) && forall j :: 0 <= j < k ==> |views[k]| < |views[j]|
  {
    var k := FirstHolder(views, uid);
    if k < |views| then k else Fewest(views)
  }

  /** The user sets that the routing finds, message by message: workers may change them in between. */
  predicate Found(seen: seq<seq<set<int>>>, count: nat, workers: nat) {
    |seen| == count && forall n :: 0 <= n < count ==> |seen[n]| == workers && forall i :: 0 <= i < workers ==> |seen[n][i]| < UINT_MAX
  }

  /** What reaches worker `k` of a list of messages: not the answers to the verification, and what get_worker gives it. */
  function Share(seen: seq<seq<set<int>>>, isVerify: Msg -> bool, msgs: seq<Msg>, k: nat): seq<Msg>
    requires |seen| == |msgs| && forall n :: 0 <= n < |seen| ==> seen[n] != []
  {
    if msgs == [] then []
    else
      var n := |msgs| - 1;
      var before := Share(seen[..n], isVerify, msgs[..n], k);
      before + if !isVerify(msgs[n]) && Choice(seen[n], msgs[n].uid) == k then [msgs[n]] else []
  }

  lemma NothingShared(seen: seq<seq<set<int>>>, isVerify: Msg -> bool, msgs: seq<Msg>, k: nat)
    ensures Share(seen[..0], isVerify, msgs[..0], k) == []
  {
  }

  lemma ShareNext(seen: seq<seq<set<int>>>, isVerify: Msg -> bool, msgs: seq<Msg>, n: nat, k: nat)
    requires |seen| == |msgs| && n < |msgs| && forall i :: 0 <= i < |seen| ==> seen[i] != []
    ensures Share(seen[..n + 1], isVerify, msgs[..n + 1], k)
         == Share(seen[..n], isVerify, msgs[..n], k) + if !isVerify(msgs[n]) && Choice(seen[n], msgs[n].uid) == k then [msgs[n]] else []
  {
    hide Choice;
    assert msgs[..n + 1][..n] == msgs[..n] && seen[..n + 1][..n] == seen[..n];
  }

  class LogicIO {
    const workers: seq<LogicWorker>
    var sent: seq<Msg>

    constructor (workers: seq<LogicWorker>)
      ensures this.workers == workers && sent == []
    {
      this.workers := workers;
      sent := [];
    }

    ghost predicate Valid()
      reads workers
    {
      && (forall i, j :: 0 <= i < j < |workers| ==> workers[i] != workers[j])
      && forall i :: 0 <= i < |workers| ==> workers[i].Valid()
    }

    ghost function Views(): seq<set<int>>
      reads workers
    {
      seq(|workers|, i requires 0 <= i < |workers| reads workers => workers[i].uids)
    }

    /** get_worker: null when there is no worker with fewer than UINT_MAX users. */
    method GetWorker(uid: int) returns (w: LogicWorker?)
      ensures w == null <==> FirstHolder(Views(), uid) == |workers| && forall j :: 0 <= j < |workers| ==> |workers[j].uids| >= 0xFFFF_FFFF
      ensures w != null ==> workers != [] && w == workers[Choice(Views(), uid)]
    {
      ghost var views := Views();
      for i := 0 to |workers|
        invariant forall j :: 0 <= j < i ==> uid !in views[j]
      {
        if uid in workers[i].uids {
          assert uid in views[i] && FirstHolder(views, uid) == i;
          return workers[i];
        }
      }
      w := null;
      var min := UINT_MAX;
      ghost var k := 0;
      for i := 0 to |workers|
        invariant w == null ==> min == UINT_MAX && forall j :: 0 <= j < i ==> |workers[j].uids| >= UINT_MAX
        invariant w != null ==> k < i && w == workers[k] && min == |views[k]| < UINT_MAX
        invariant w != null ==> (forall j :: 0 <= j < i ==> min <= |views[j]|) && forall j :: 0 <= j < k ==> min < |views[j]|
      {
        var n := |workers[i].uids|;
        if n < min {
          w, min, k := workers[i], n, i;
        }
      }
      assert FirstHolder(views, uid) == |workers|;
      if w != null {
        Unique(views, k);
      }
    }

    static lemma Unique(views: seq<set<int>>, k: nat)
      requires k < |views| && (forall j :: 0 <= j < |views| ==> |views[k]| <= |views[j]|) && forall j :: 0 <= j < k ==> |views[k]| < |views[j]|
      ensures Fewest(views) == k
    {
      var f := Fewest(views);
      assert |views[f]| <= |views[k]|;
    }

    /** handler_epevent, the routing loop over what parse_package returned. */
    method RouteAll(msgs: seq<Msg>, seen: seq<seq<set<int>>>, isVerify: Msg -> bool)
      requires Valid() && workers != [] && Found(seen, |msgs|, |workers|)
      modifies workers
      ensures Valid()
      ensures forall i :: 0 <= i < |workers| ==>
                workers[i].queue == old(workers[i].queue).(io := old(workers[i].ioMsgs) + Share(seen, isVerify, msgs, i))
      ensures forall i :: 0 <= i < |workers| ==> workers[i].outMsgs == old(workers[i].outMsgs)
    {
      hide Choice, Share, Sent;
      ghost var before := Queues();
      forall i | 0 <= i < |workers| ensures workers[i].queue == Sent(before[i], Share(seen[..0], isVerify, msgs[..0], i)) {
        NothingShared(seen, isVerify, msgs, i);
        NothingSent(before[i]);
      }
      for n := 0 to |msgs|
        invariant Valid() && forall i :: 0 <= i < |workers| ==> workers[i].outMsgs == old(workers[i].outMsgs)
        invariant forall i :: 0 <= i < |workers| ==> workers[i].queue == Sent(before[i], Share(seen[..n], isVerify, msgs[..n], i))
      {
        RouteNext(msgs[n], seen[n], isVerify(msgs[n]));
        forall i | 0 <= i < |workers|
          ensures workers[i].queue == Sent(before[i], Share(seen[..n + 1], isVerify, msgs[..n + 1], i))
        {
          ShareNext(seen, isVerify, msgs, n, i);
          SentNext(before[i], Share(seen[..n], isVerify, msgs[..n], i), msgs[n]);
        }
      }
      assert msgs[..|msgs|] == msgs && seen[..|msgs|] == seen;
      forall i | 0 <= i < |workers|
        ensures workers[i].queue == before[i].(io := before[i].io + Share(seen, isVerify, msgs, i))
      {
        SentIs(before[i], Share(seen, isVerify, msgs, i));
      }
    }

    ghost function Queues(): seq<HandOff<Msg>>
      reads workers
    {
      seq(|workers|, i requires 0 <= i < |workers| reads workers => workers[i].queue)
    }

    /** A queue with more on the I/O list. */
    static ghost function Sent(q: HandOff<Msg>, msgs: seq<Msg>): HandOff<Msg> { q.(io := q.io + msgs) }

    static lemma SentIs(q: HandOff<Msg>, msgs: seq<Msg>)
      ensures Sent(q, msgs) == q.(io := q.io + msgs)
    {
    }

    static lemma NothingSent(q: HandOff<Msg>)
      ensures Sent(q, []) == q
    {
      Nothing(q.io);
    }

    static lemma SentNext(q: HandOff<Msg>, msgs: seq<Msg>, msg: Msg)
      ensures Sent(q, msgs + []) == Sent(q, msgs)
      ensures Sent(q, msgs + [msg]) == Push(Sent(q, msgs), msg)
    {
      Nothing(msgs);
      Associate(q.io, msgs, [msg]);
    }

    /** One message, with the user sets as they are found. */
    method RouteNext(msg: Msg, now: seq<set<int>>, verify: bool)
      requires Valid() && workers != [] && |now| == |workers| && forall i :: 0 <= i < |now| ==> |now[i]| < UINT_MAX
      modifies workers
      ensures Valid()
      ensures forall i :: 0 <= i < |workers| ==>
                workers[i].queue == if !verify && Choice(now, msg.uid) == i then Push(old(workers[i].queue), msg) else old(workers[i].queue)
      ensures forall i :: 0 <= i < |workers| ==> workers[i].outMsgs == old(workers[i].outMsgs)
    {
      hide Choice;
      UsersChange(now);
      if !verify {
        RouteOne(msg);
      }
    }

    /** The user sets have become these; whatever the workers have done to them, the queues are not touched. */
    method UsersChange(now: seq<set<int>>)
      requires Valid() && |now| == |workers|
      modifies workers
      ensures Valid() && Views() == now && forall i :: 0 <= i < |workers| ==> workers[i].uids == now[i]
      ensures forall i :: 0 <= i < |workers| ==> workers[i].queue == old(workers[i].queue) && workers[i].outMsgs == old(workers[i].outMsgs)
    {
      for n := 0 to |workers|
        invariant Valid() && forall i :: 0 <= i < n ==> workers[i].uids == now[i]
        invariant forall i :: 0 <= i < |workers| ==> workers[i].queue == old(workers[i].queue) && workers[i].outMsgs == old(workers[i].outMsgs)
      {
        workers[n].uids := now[n];
      }
    }

    method RouteOne(msg: Msg)
      requires Valid() && workers != [] && forall i :: 0 <= i < |workers| ==> |workers[i].uids| < UINT_MAX
      modifies workers
      ensures Valid() && Views() == old(Views())
      ensures forall i :: 0 <= i < |workers| ==>
                workers[i].queue == if i == Choice(old(Views()), msg.uid) then Push(old(workers[i].queue), msg) else old(workers[i].queue)
      ensures forall i :: 0 <= i < |workers| ==> workers[i].outMsgs == old(workers[i].outMsgs) && workers[i].uids == old(workers[i].uids)
    {
      hide Choice;
      ghost var views := Views();
      var w := GetWorker(msg.uid);
      w.PushIo(msg);
      assert Views() == views;
    }

    /** handler_worker_msgs: the replies are fetched under the lock, then written one after the other. */
    method HandlerWorkerMsgs(list: MutexList<Msg>)
      modifies this`sent, list
      ensures sent == old(sent) + old(list.datas) && list.datas == []
    {
      var msgs := list.GetMore();
      for i := 0 to |msgs|
        invariant sent == old(sent) + msgs[..i] && list.datas == []
      {
        sent := sent + [msgs[i]];
      }
      assert msgs[..|msgs|] == msgs;
    }

    /** handler_epevent, the last loop: every worker with something new is notified. */
    method NotifyAll()
      requires Valid()
      modifies workers
      ensures Valid()
      ensures forall i :: 0 <= i < |workers| ==> workers[i].queue == Move(old(workers[i].queue))
      ensures forall i :: 0 <= i < |workers| ==> workers[i].outMsgs == old(workers[i].outMsgs)
    {
      for n := 0 to |workers|
        invariant Valid()
        invariant forall i :: 0 <= i < n ==> workers[i].queue == Move(old(workers[i].queue))
        invariant forall i :: n <= i < |workers| ==> workers[i].queue == old(workers[i].queue)
        invariant forall i :: 0 <= i < |workers| ==> workers[i].outMsgs == old(workers[i].outMsgs)
      {
        if |workers[n].ioMsgs| != 0 {
          workers[n].NotifyMsgIn();
        } else {
          assert Move(workers[n].queue) == workers[n].queue by { Nothing(workers[n].queue.inbox); }
        }
      }
    }
  }
}
