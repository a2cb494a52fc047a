// Flow control over whole runs: when a transmit queue may be stopped because rings are
// full, and what the rings and the hash look like at every point.

module FlowControl {
  import opened Wrappers
  import opened FlowSpec
  import opened FlowTable

  // Ring `i` feeds interface `x` and is blocked.
  predicate BlockedRing(f: Flow, x: int, i: int) {
    0 <= i && Live(f, i) && IfidxOf(f, i) == x && f.rings[i].value.blocked
  }

  ghost predicate StopsHaveCause(f: Flow)
    requires Shaped(f)
  {
    forall x :: 0 <= x < MAX_IFS && f.ifs[x].Some? && FlowFull in f.ifs[x].value.stop ==>
      exists i :: BlockedRing(f, x, i)
  }

  ghost predicate BlockedAreFull(f: Flow) {
    forall i {:trigger f.rings[i]} :: 0 <= i < |f.rings| && f.rings[i].Some? && f.rings[i].value.blocked ==>
      |f.rings[i].value.queue| >= LOW
  }

  ghost predicate QueuesFollowStops(f: Flow)
    requires Shaped(f)
  {
    forall x :: 0 <= x < MAX_IFS && f.ifs[x].Some? ==>
      (f.ifs[x].value.queueStopped <==> f.ifs[x].value.stop != {})
  }

  ghost predicate Controlled(f: Flow) {
    Linked(f) && StopsHaveCause(f) && BlockedAreFull(f) && QueuesFollowStops(f)
  }

  // ---- blocking and unblocking one ring ----

  lemma FlowBlockIfMeans(iface: Iface, reason: Reason, state: bool)
    requires iface.queueStopped <==> iface.stop != {}
    ensures var r := FlowBlockIf(Some(iface), reason, state).value;
            && (r.queueStopped <==> r.stop != {})
            && (reason in r.stop <==> state)
            && forall o :: o != reason ==> (o in r.stop <==> o in iface.stop)
  {
  }

  lemma BlockQueues(f: Flow, flowid: nat, blocked: bool)
    requires Controlled(f) && Live(f, flowid)
    ensures IfidxOf(f, flowid) < MAX_IFS && QueuesFollowStops(Block(f, flowid, blocked))
  {
    BlockKeepsTable(f, flowid, blocked);
    var x := IfidxOf(f, flowid);
    if f.ifs[x].Some? {
      FlowBlockIfMeans(f.ifs[x].value, FlowFull, blocked);
    }
  }

  lemma BlockCause(f: Flow, flowid: nat, blocked: bool)
    requires Controlled(f) && Live(f, flowid)
    ensures IfidxOf(f, flowid) < MAX_IFS && StopsHaveCause(Block(f, flowid, blocked))
  {
    BlockKeepsTable(f, flowid, blocked);
    var f' := Block(f, flowid, blocked);
    var x := IfidxOf(f, flowid);
    forall y | 0 <= y < MAX_IFS && f'.ifs[y].Some? && FlowFull in f'.ifs[y].value.stop
      ensures exists i :: BlockedRing(f', y, i)
    {
      if y == x && blocked {
        assert BlockedRing(f', x, flowid);
      } else if y == x && !f.rings[flowid].value.blocked {
        var i :| BlockedRing(f, y, i);
        assert BlockedRing(f', y, i);
      } else if y == x {
        // still stopped after unblocking: another open ring is blocked
        assert OtherBlocked(f, flowid, x);
        var i :| 0 <= i < |f.rings| && i != flowid && Live(f, i) && IfidxOf(f, i) == x && f.rings[i].value.blocked;
        assert f'.rings[i] == f.rings[i] && Live(f', i) && IfidxOf(f', i) == IfidxOf(f, i);
        assert BlockedRing(f', x, i);
      } else {
        var i :| BlockedRing(f, y, i);
        assert i != flowid && f'.rings[i] == f.rings[i];
        assert BlockedRing(f', y, i);
      }
    }
  }

  lemma BlockControlled(f: Flow, flowid: nat, blocked: bool)
    requires Controlled(f) && Live(f, flowid)
    requires blocked ==> |f.rings[flowid].value.queue| >= LOW
    ensures IfidxOf(f, flowid) < MAX_IFS && Controlled(Block(f, flowid, blocked))
  {
    BlockKeepsTable(f, flowid, blocked);
    BlockCause(f, flowid, blocked);
    BlockQueues(f, flowid, blocked);
  }

  // A ring whose block flag stays as it is may change its queue as long as a blocked ring
  // keeps enough frames.
  lemma QueueChange(f: Flow, flowid: nat, ring: Ring)
    requires Linked(f) && StopsHaveCause(f) && QueuesFollowStops(f) && BlockedAreFull(f) && Live(f, flowid)
    requires ring.hashId == f.rings[flowid].value.hashId && ring.blocked == f.rings[flowid].value.blocked
    requires ring.blocked ==> |ring.queue| >= LOW
    ensures Controlled(WithRing(f, flowid, ring))
  {
    RingChangeLinked(f, flowid, ring);
    var f' := WithRing(f, flowid, ring);
    forall x | 0 <= x < MAX_IFS && f'.ifs[x].Some? && FlowFull in f'.ifs[x].value.stop
      ensures exists i :: BlockedRing(f', x, i)
    {
      var i :| BlockedRing(f, x, i);
      assert BlockedRing(f', x, i);
    }
  }

  lemma EnqueueControlled(f: Flow, flowid: nat, frame: Frame)
    requires Controlled(f) && Live(f, flowid)
    ensures IfidxOf(f, flowid) < MAX_IFS && Controlled(Enqueue(f, flowid, frame))
  {
    var ring := f.rings[flowid].value;
    var ring' := ring.(queue := ring.queue + [frame]);
    QueueChange(f, flowid, ring');
    RingChangeLinked(f, flowid, ring');
    BlockControlled(WithRing(f, flowid, ring'), flowid, |ring'.queue| > HIGH);
  }

  lemma ReinsertControlled(f: Flow, flowid: nat, frame: Frame)
    requires Controlled(f) && Live(f, flowid)
    ensures Controlled(Reinsert(f, flowid, frame))
  {
    var ring := f.rings[flowid].value;
    QueueChange(f, flowid, ring.(queue := [frame] + ring.queue));
  }

  // Taking the last frame above the low watermark and unblocking commute: blocking looks
  // only at flags.
  lemma DequeueControlled(f: Flow, flowid: nat)
    requires Controlled(f) && Live(f, flowid)
    ensures IfidxOf(f, flowid) < MAX_IFS && Controlled(Dequeue(f, flowid).0)
  {
    RingChangeLinked(f, flowid, f.rings[flowid].value);
    var ring := f.rings[flowid].value;
    if ring.status == Open {
      var q := if ring.queue == [] then [] else ring.queue[1..];
      if ring.blocked && |q| < LOW {
        BlockControlled(f, flowid, false);
        var f1 := Block(f, flowid, false);
        QueueChange(f1, flowid, f1.rings[flowid].value.(queue := q));
        UnblockThenTake(f, flowid, q);
      } else {
        QueueChange(f, flowid, ring.(queue := q));
      }
    }
  }

  lemma UnblockThenTake(f: Flow, flowid: nat, q: seq<Frame>)
    requires Linked(f) && Live(f, flowid) && IfidxOf(f, flowid) < MAX_IFS
    ensures var ring := f.rings[flowid].value;
            var taken := WithRing(f, flowid, ring.(queue := q));
            var f1 := Block(f, flowid, false);
            && Live(taken, flowid) && IfidxOf(taken, flowid) < MAX_IFS
            && Block(taken, flowid, false) == WithRing(f1, flowid, f1.rings[flowid].value.(queue := q))
  {
    var ring := f.rings[flowid].value;
    var taken := WithRing(f, flowid, ring.(queue := q));
    var f1 := Block(f, flowid, false);
    var f2 := Block(taken, flowid, false);
    var x := IfidxOf(f, flowid);
    OthersSame(f, taken, flowid, x);
    assert f2.rings == WithRing(f1, flowid, f1.rings[flowid].value.(queue := q)).rings;
  }

  lemma OthersSame(f: Flow, g: Flow, flowid: nat, x: nat)
    requires f.hash == g.hash && |f.rings| == |g.rings|
    requires forall i :: 0 <= i < |f.rings| && i != flowid ==> f.rings[i] == g.rings[i]
    ensures OtherBlocked(f, flowid, x) == OtherBlocked(g, flowid, x)
  {
    if OtherBlocked(f, flowid, x) {
      var i :| 0 <= i < |f.rings| && i != flowid && Live(f, i) && f.rings[i].value.status == Open
               && IfidxOf(f, i) == x && f.rings[i].value.blocked;
      assert Live(g, i) && IfidxOf(g, i) == x;
    }
    if OtherBlocked(g, flowid, x) {
      var i :| 0 <= i < |g.rings| && i != flowid && Live(g, i) && g.rings[i].value.status == Open
               && IfidxOf(g, i) == x && g.rings[i].value.blocked;
      assert Live(f, i) && IfidxOf(f, i) == x;
    }
  }

  lemma DeleteControlled(f: Flow, flowid: nat)
    requires Controlled(f) && Live(f, flowid)
    ensures IfidxOf(f, flowid) < MAX_IFS && Controlled(Delete(f, flowid))
  {
    BlockControlled(f, flowid, false);
    DeleteLinked(f, flowid);
    var f1, f' := Block(f, flowid, false), Delete(f, flowid);
    forall x | 0 <= x < MAX_IFS && f'.ifs[x].Some? && FlowFull in f'.ifs[x].value.stop
      ensures exists i :: BlockedRing(f', x, i)
    {
      var i :| BlockedRing(f1, x, i);
      assert i != flowid && f1.rings[i].value.hashId != f1.rings[flowid].value.hashId;
      assert BlockedRing(f', x, i);
    }
  }

  lemma CreateControlled(f: Flow, q: Query)
    requires Controlled(f) && q.ifidx < MAX_IFS
    ensures Controlled(Create(f, q).0)
  {
    CreateLinked(f, q);
    var f' := Create(f, q).0;
    forall x | 0 <= x < MAX_IFS && f'.ifs[x].Some? && FlowFull in f'.ifs[x].value.stop
      ensures exists i :: BlockedRing(f', x, i)
    {
      var i :| BlockedRing(f, x, i);
      assert BlockedRing(f', x, i);
    }
  }

  lemma CloseGoneControlled(f: Flow, gone: Slot -> bool)
    requires Controlled(f)
    ensures Controlled(CloseGone(f, gone))
  {
    var f' := CloseGone(f, gone);
    forall x | 0 <= x < MAX_IFS && f'.ifs[x].Some? && FlowFull in f'.ifs[x].value.stop
      ensures exists i :: BlockedRing(f', x, i)
    {
      var i :| BlockedRing(f, x, i);
      assert BlockedRing(f', x, i);
    }
  }

  lemma ModeControlled(f: Flow, modes: seq<bool>)
    requires Controlled(f) && |modes| == MAX_IFS
    ensures Controlled(f.(indirect := modes))
  {
    var f' := f.(indirect := modes);
    forall x | 0 <= x < MAX_IFS && f'.ifs[x].Some? && FlowFull in f'.ifs[x].value.stop
      ensures exists i :: BlockedRing(f', x, i)
    {
      var i :| BlockedRing(f, x, i);
      assert BlockedRing(f', x, i);
    }
  }

  // ---- runs ----

  // Everything that happens to the rings, in any order.  Whether a destination is a TDLS
  // peer is up to the list of peers at the time.
  datatype Event =
    | Get(da: Mac, prio: nat, ifidx: nat, isTdls: bool)    // a frame's ring: lookup, create if missed
    | Make(da: Mac, prio: nat, ifidx: nat, isTdls: bool)   // a ring is created, looked up or not
    | OpenRing(flowid: nat)
    | CloseRing(flowid: nat)                               // the firmware is asked to delete the ring
    | DeleteRing(flowid: nat)
    | Enq(flowid: nat, frame: Frame)
    | Deq(flowid: nat)
    | Reins(flowid: nat, frame: Frame)
    | OtherStop(ifidx: nat, reason: Reason, state: bool)   // a stop for another reason
    | SwitchMode(ifidx: nat, indirect: bool)
    | Depart(ifidx: nat, peer: Mac, isTdls: bool)

  predicate Enabled(f: Flow, e: Event)
    requires Shaped(f)
  {
    match e
    case Get(_, prio, ifidx, _) => prio < 8 && ifidx < MAX_IFS
    case Make(_, prio, ifidx, _) => prio < 8 && ifidx < MAX_IFS
    case OpenRing(i) => i < |f.rings|
    case CloseRing(i) => Live(f, i)
    case DeleteRing(i) => i < |f.rings|
    case Enq(i, _) => Live(f, i)
    case Deq(i) => Live(f, i)
    case Reins(i, _) => Live(f, i)
    case OtherStop(x, reason, _) => x < MAX_IFS && reason != FlowFull
    case SwitchMode(x, _) => x < MAX_IFS
    case Depart(x, _, _) => x < MAX_IFS
  }

  lemma LiveIfidx(f: Flow, i: nat)
    requires Linked(f) && i < |f.rings| && f.rings[i].Some?
    ensures Live(f, i) && IfidxOf(f, i) < MAX_IFS
  {
  }

  function TheQuery(f: Flow, da: Mac, prio: nat, ifidx: nat, isTdls: bool): (q: Query)
    requires Shaped(f) && prio < 8 && ifidx < MAX_IFS
    ensures q.ifidx == ifidx
  {
    Classify(f.indirect[ifidx], isTdls, da, prio, ifidx)
  }

  ghost function Apply(f: Flow, e: Event): Flow
    requires Controlled(f) && Enabled(f, e)
  {
    match e
    case Get(da, prio, ifidx, isTdls) =>
      var q := TheQuery(f, da, prio, ifidx, isTdls);
      if Lookup(f, q).Some? then f else Create(f, q).0
    case Make(da, prio, ifidx, isTdls) => Create(f, TheQuery(f, da, prio, ifidx, isTdls)).0
    case OpenRing(i) => SetStatus(f, i, Open)
    case CloseRing(i) => SetStatus(f, i, Closing)
    case DeleteRing(i) => if f.rings[i].Some? then LiveIfidx(f, i); Delete(f, i) else f
    case Enq(i, frame) => LiveIfidx(f, i); Enqueue(f, i, frame)
    case Deq(i) => LiveIfidx(f, i); Dequeue(f, i).0
    case Reins(i, frame) => Reinsert(f, i, frame)
    case OtherStop(x, reason, state) => f.(ifs := f.ifs[x := FlowBlockIf(f.ifs[x], reason, state)])
    case SwitchMode(x, indirect) => Configured(f, x, indirect)
    case Depart(x, peer, isTdls) => Departed(f, x, peer, isTdls)
  }

  lemma StatusControlled(f: Flow, i: nat, status: Status)
    requires Controlled(f) && i < |f.rings|
    ensures Controlled(SetStatus(f, i, status))
  {
    if f.rings[i].Some? {
      LiveIfidx(f, i);
      QueueChange(f, i, f.rings[i].value.(status := status));
    }
  }

  lemma OtherStopControlled(f: Flow, x: nat, reason: Reason, state: bool)
    requires Controlled(f) && x < MAX_IFS && reason != FlowFull
    ensures Controlled(f.(ifs := f.ifs[x := FlowBlockIf(f.ifs[x], reason, state)]))
  {
    var f' := f.(ifs := f.ifs[x := FlowBlockIf(f.ifs[x], reason, state)]);
    if f.ifs[x].Some? {
      FlowBlockIfMeans(f.ifs[x].value, reason, state);
    }
    forall y | 0 <= y < MAX_IFS && f'.ifs[y].Some? && FlowFull in f'.ifs[y].value.stop
      ensures exists i :: BlockedRing(f', y, i)
    {
      var i :| BlockedRing(f, y, i);
      assert BlockedRing(f', y, i);
    }
  }

  lemma ConfiguredControlled(f: Flow, x: nat, indirect: bool)
    requires Controlled(f) && x < MAX_IFS
    ensures Controlled(Configured(f, x, indirect))
  {
    CloseGoneControlled(f, OfInterface(x));
    var f1 := CloseGone(f, OfInterface(x));
    ModeControlled(f1, f1.indirect[x := indirect]);
  }

  lemma DepartedControlled(f: Flow, x: nat, peer: Mac, isTdls: bool)
    requires Controlled(f) && x < MAX_IFS
    ensures Controlled(Departed(f, x, peer, isTdls))
  {
    CloseGoneControlled(f, OfPeer(f.indirect[x] && !isTdls, peer, x));
  }

  // Every event keeps flow control and the correspondence of slots and rings.
  lemma StepControlled(f: Flow, e: Event)
    requires Controlled(f) && Enabled(f, e)
    ensures Controlled(Apply(f, e))
  {
    hide Create, Lookup, Delete, Enqueue, Dequeue, CloseGone, Configured, Departed;
    hide StopsHaveCause, BlockedAreFull, QueuesFollowStops;
    match e
    case Get(da, prio, ifidx, isTdls) => CreateControlled(f, TheQuery(f, da, prio, ifidx, isTdls));
    case Make(da, prio, ifidx, isTdls) => CreateControlled(f, TheQuery(f, da, prio, ifidx, isTdls));
    case OpenRing(i) => StatusControlled(f, i, Open);
    case CloseRing(i) => StatusControlled(f, i, Closing);
    case DeleteRing(i) =>
      if f.rings[i].Some? {
        LiveIfidx(f, i);
        DeleteControlled(f, i);
      }
    case Enq(i, frame) => EnqueueControlled(f, i, frame);
    case Deq(i) => DequeueControlled(f, i);
    case Reins(i, frame) => ReinsertControlled(f, i, frame);
    case OtherStop(x, reason, state) => OtherStopControlled(f, x, reason, state);
    case SwitchMode(x, indirect) => ConfiguredControlled(f, x, indirect);
    case Depart(x, peer, isTdls) => DepartedControlled(f, x, peer, isTdls);
  }

  ghost predicate Legal(f: Flow, events: seq<Event>)
    requires Controlled(f)
    decreases |events|
  {
    events == [] ||
    (Enabled(f, events[0]) && (StepControlled(f, events[0]); Legal(Apply(f, events[0]), events[1..])))
  }

  ghost function After(f: Flow, events: seq<Event>): (f': Flow)
    requires Controlled(f) && Legal(f, events)
    ensures Controlled(f')
    decreases |events|
  {
    if events == [] then f
    else StepControlled(f, events[0]); After(Apply(f, events[0]), events[1..])
  }

  // An attached driver with no rings, on interfaces not stopped for a full ring.
  function Attached(rings: nat, ifs: seq<Option<Iface>>, indirect: seq<bool>): Flow {
    Flow(seq(HASHSIZE, _ => Slot(ZERO_MAC, 0, INVALID_IFIDX, 0)), seq(rings, _ => None), ifs, indirect)
  }

  predicate Unstopped(ifs: seq<Option<Iface>>) {
    && |ifs| == MAX_IFS
    && forall x :: 0 <= x < MAX_IFS && ifs[x].Some? ==>
         FlowFull !in ifs[x].value.stop && (ifs[x].value.queueStopped <==> ifs[x].value.stop != {})
  }

  lemma AttachedControlled(rings: nat, ifs: seq<Option<Iface>>, indirect: seq<bool>)
    requires Unstopped(ifs) && |indirect| == MAX_IFS
    ensures Controlled(Attached(rings, ifs, indirect))
  {
  }

  // In every run, with any mode switches, departing peers and rings of TDLS peers, a queue is
  // stopped for flow only while some ring of its interface is blocked and holds at least the
  // low-watermark number of frames; a queue with no reason to be stopped runs.
  lemma NeverStoppedByNothing(f: Flow, events: seq<Event>, x: nat)
    requires Controlled(f) && Legal(f, events) && x < MAX_IFS && After(f, events).ifs[x].Some?
    ensures var g := After(f, events);
            && (FlowFull in g.ifs[x].value.stop ==>
                  exists i :: BlockedRing(g, x, i) && |g.rings[i].value.queue| >= LOW)
            && (g.ifs[x].value.queueStopped <==> g.ifs[x].value.stop != {})
  {
    var g := After(f, events);
    if FlowFull in g.ifs[x].value.stop {
      var i :| BlockedRing(g, x, i);
      assert g.rings[i].Some? && |g.rings[i].value.queue| >= LOW;
    }
  }

  // In every such run a slot is in use exactly when a ring says so, no two rings share a
  // slot, and a used slot leads back to its ring.
  lemma SlotsMatchRings(f: Flow, events: seq<Event>)
    requires Controlled(f) && Legal(f, events)
    ensures var g := After(f, events);
            && Shaped(g)
            && (forall s :: 0 <= s < HASHSIZE ==>
                  (!IsFree(g.hash[s]) <==> exists i: nat :: Live(g, i) && g.rings[i].value.hashId == s))
            && (forall i: nat, j: nat :: Live(g, i) && Live(g, j) ==>
                  g.rings[i].value.hashId != g.rings[j].value.hashId || i == j)
            && (forall i: nat :: Live(g, i) ==> g.hash[g.rings[i].value.hashId].flowid == i)
            && (forall i :: 0 <= i < |g.rings| && g.rings[i].Some? ==> Live(g, i))
  {
    var g := After(f, events);
    forall s | 0 <= s < HASHSIZE && !IsFree(g.hash[s])
      ensures exists i: nat :: Live(g, i) && g.rings[i].value.hashId == s
    {
      var i: nat := g.hash[s].flowid;
      assert Live(g, i);
    }
  }
}
