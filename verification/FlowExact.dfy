// The converse of flow control: when the stop bit of an interface says exactly whether one of
// its rings is blocked.

module FlowExact {
  import opened Wrappers
  import opened FlowSpec
  import opened FlowTable
  import opened FlowControl

  // The stop bit of an existing interface says exactly whether a ring of it is blocked.
  ghost predicate Exact(f: Flow, x: nat)
    requires Shaped(f) && x < MAX_IFS && f.ifs[x].Some?
  {
    FlowFull in f.ifs[x].value.stop <==> exists i :: BlockedRing(f, x, i)
  }

  // Other rings of the interface are blocked, and all of them are closed or closing: blocking
  // and unblocking do not see them.
  ghost predicate Unseen(f: Flow, flowid: nat, x: nat) {
    !OtherBlocked(f, flowid, x) && exists i :: i != flowid && BlockedRing(f, x, i)
  }

  lemma OtherIsBlocked(f: Flow, flowid: nat, x: nat)
    requires OtherBlocked(f, flowid, x)
    ensures exists i :: i != flowid && BlockedRing(f, x, i)
  {
    var i :| 0 <= i < |f.rings| && i != flowid && Live(f, i) && f.rings[i].value.status == Open
             && IfidxOf(f, i) == x && f.rings[i].value.blocked;
    assert BlockedRing(f, x, i);
  }

  lemma BlockedAfter(f: Flow, flowid: nat, blocked: bool, y: nat, i: int)
    requires Linked(f) && Live(f, flowid)
    ensures IfidxOf(f, flowid) < MAX_IFS
    ensures BlockedRing(Block(f, flowid, blocked), y, i)
        <==> if i == flowid then blocked && IfidxOf(f, flowid) == y else BlockedRing(f, y, i)
  {
    BlockKeepsTable(f, flowid, blocked);
  }

  // Unblocking a ring keeps the bit exact if and only if the interface's other blocked
  // rings, if any, are not all closed or closing.
  lemma UnblockExactIff(f: Flow, flowid: nat)
    requires Linked(f) && Live(f, flowid) && f.rings[flowid].value.blocked
    requires IfidxOf(f, flowid) < MAX_IFS && f.ifs[IfidxOf(f, flowid)].Some?
    requires Exact(f, IfidxOf(f, flowid))
    ensures var x := IfidxOf(f, flowid);
            var f' := Block(f, flowid, false);
            f'.ifs[x].Some? && (Exact(f', x) <==> !Unseen(f, flowid, x))
  {
    var x := IfidxOf(f, flowid);
    var f' := Block(f, flowid, false);
    assert BlockedRing(f, x, flowid);
    forall i
      ensures BlockedRing(f', x, i) <==> i != flowid && BlockedRing(f, x, i)
    {
      BlockedAfter(f, flowid, false, x, i);
    }
    if OtherBlocked(f, flowid, x) {
      OtherIsBlocked(f, flowid, x);
    }
  }

  // Blocking a ring keeps it exact always.
  lemma BlockExact(f: Flow, flowid: nat, x: nat)
    requires Linked(f) && Live(f, flowid) && IfidxOf(f, flowid) < MAX_IFS
    requires x < MAX_IFS && f.ifs[x].Some? && Exact(f, x)
    ensures Block(f, flowid, true).ifs[x].Some? && Exact(Block(f, flowid, true), x)
  {
    var f' := Block(f, flowid, true);
    forall i
      ensures BlockedRing(f', x, i) <==> if i == flowid then IfidxOf(f, flowid) == x else BlockedRing(f, x, i)
    {
      BlockedAfter(f, flowid, true, x, i);
    }
    if IfidxOf(f, flowid) == x {
      assert BlockedRing(f', x, flowid);
      if OtherBlocked(f, flowid, x) {
        OtherIsBlocked(f, flowid, x);
      }
    } else {
      assert !BlockedRing(f, x, flowid);
    }
  }

  // Other interfaces do not notice.
  lemma BlockElsewhere(f: Flow, flowid: nat, blocked: bool, x: nat)
    requires Linked(f) && Live(f, flowid) && IfidxOf(f, flowid) < MAX_IFS && IfidxOf(f, flowid) != x
    requires x < MAX_IFS && f.ifs[x].Some? && Exact(f, x)
    ensures Block(f, flowid, blocked).ifs[x].Some? && Exact(Block(f, flowid, blocked), x)
  {
    hide Block, Exact;
    var f' := Block(f, flowid, blocked);
    assert !BlockedRing(f, x, flowid);
    forall i
      ensures BlockedRing(f', x, i) <==> BlockedRing(f, x, i)
    {
      BlockedAfter(f, flowid, blocked, x, i);
    }
    BlockOtherIfs(f, flowid, blocked, x);
    SameExact(f, f', x);
  }

  lemma BlockOtherIfs(f: Flow, flowid: nat, blocked: bool, x: nat)
    requires Shaped(f) && Live(f, flowid) && IfidxOf(f, flowid) < MAX_IFS && IfidxOf(f, flowid) != x < MAX_IFS
    ensures Block(f, flowid, blocked).ifs[x] == f.ifs[x]
  {
    hide OtherBlocked, FlowBlockIf;
  }

  // Two states with the same blocked rings and the same stop bits.
  lemma SameExact(f: Flow, g: Flow, x: nat)
    requires Shaped(f) && Shaped(g) && x < MAX_IFS && f.ifs[x].Some? && g.ifs[x].Some? && Exact(f, x)
    requires FlowFull in f.ifs[x].value.stop <==> FlowFull in g.ifs[x].value.stop
    requires forall i :: BlockedRing(f, x, i) <==> BlockedRing(g, x, i)
    ensures Exact(g, x)
  {
  }

  // The events that lose the bit: the last open blocked ring of the interface is unblocked, by
  // a dequeue or a deletion, while others of it are blocked but not open.
  ghost predicate Loses(f: Flow, e: Event, x: nat)
    requires Shaped(f)
  {
    match e
    case Deq(i) =>
      && Live(f, i) && IfidxOf(f, i) == x && f.rings[i].value.status == Open && f.rings[i].value.blocked
      && |f.rings[i].value.queue| <= LOW && Unseen(f, i, x)
    case DeleteRing(i) => Live(f, i) && IfidxOf(f, i) == x && f.rings[i].value.blocked && Unseen(f, i, x)
    case _ => false
  }

  lemma QueueExact(f: Flow, i: nat, ring: Ring, x: nat)
    requires Linked(f) && Live(f, i) && x < MAX_IFS && f.ifs[x].Some?
    requires ring.hashId == f.rings[i].value.hashId && ring.blocked == f.rings[i].value.blocked
    ensures WithRing(f, i, ring).ifs[x].Some? && Shaped(WithRing(f, i, ring))
    ensures Exact(WithRing(f, i, ring), x) <==> Exact(f, x)
  {
    var f' := WithRing(f, i, ring);
    forall k
      ensures BlockedRing(f', x, k) <==> BlockedRing(f, x, k)
    {
    }
  }

  lemma EnqueueExact(f: Flow, i: nat, frame: Frame, x: nat)
    requires Controlled(f) && Live(f, i) && x < MAX_IFS && f.ifs[x].Some? && Exact(f, x)
    ensures IfidxOf(f, i) < MAX_IFS
    ensures Enqueue(f, i, frame).ifs[x].Some? && Exact(Enqueue(f, i, frame), x)
  {
    LiveIfidx(f, i);
    var ring := f.rings[i].value;
    var ring' := ring.(queue := ring.queue + [frame]);
    var f1 := WithRing(f, i, ring');
    QueueExact(f, i, ring', x);
    RingChangeLinked(f, i, ring');
    if !ring.blocked && |ring.queue| + 1 > HIGH {
      BlockExact(f1, i, x);
    }
  }

  lemma DequeueExact(f: Flow, i: nat, x: nat)
    requires Controlled(f) && Live(f, i) && x < MAX_IFS && f.ifs[x].Some? && Exact(f, x)
    ensures IfidxOf(f, i) < MAX_IFS
    ensures Dequeue(f, i).0.ifs[x].Some? && (Exact(Dequeue(f, i).0, x) <==> !Loses(f, Deq(i), x))
  {
    LiveIfidx(f, i);
    var ring := f.rings[i].value;
    if ring.status == Open {
      var q := if ring.queue == [] then [] else ring.queue[1..];
      var ring' := ring.(queue := q);
      var f1 := WithRing(f, i, ring');
      QueueExact(f, i, ring', x);
      RingChangeLinked(f, i, ring');
      if ring.blocked && |q| < LOW {
        if IfidxOf(f, i) == x {
          UnblockExactIff(f1, i);
          SameUnseen(f, f1, i, x);
        } else {
          BlockElsewhere(f1, i, false, x);
        }
      }
    }
  }

  lemma SameUnseen(f: Flow, g: Flow, i: nat, x: nat)
    requires f.hash == g.hash && |f.rings| == |g.rings|
    requires forall k :: 0 <= k < |f.rings| && k != i ==> f.rings[k] == g.rings[k]
    ensures Unseen(f, i, x) <==> Unseen(g, i, x)
  {
    OthersSame(f, g, i, x);
    forall k | k != i
      ensures BlockedRing(f, x, k) <==> BlockedRing(g, x, k)
    {
    }
  }

  lemma DeleteExact(f: Flow, i: nat, x: nat)
    requires Controlled(f) && Live(f, i) && x < MAX_IFS && f.ifs[x].Some? && Exact(f, x)
    ensures IfidxOf(f, i) < MAX_IFS
    ensures Delete(f, i).ifs[x].Some? && (Exact(Delete(f, i), x) <==> !Loses(f, DeleteRing(i), x))
  {
    LiveIfidx(f, i);
    var f1, f' := Block(f, i, false), Delete(f, i);
    BlockKeepsTable(f, i, false);
    if f.rings[i].value.blocked {
      if IfidxOf(f, i) == x {
        UnblockExactIff(f, i);
      } else {
        BlockElsewhere(f, i, false, x);
      }
    }
    forall k
      ensures BlockedRing(f', x, k) <==> BlockedRing(f1, x, k)
    {
      GoneRing(f, i, x, k);
    }
  }

  // The ring that is deleted was unblocked before, and no other shares its slot.
  lemma GoneRing(f: Flow, i: nat, x: nat, k: int)
    requires Linked(f) && Live(f, i) && IfidxOf(f, i) < MAX_IFS && x < MAX_IFS
    ensures BlockedRing(Delete(f, i), x, k) <==> BlockedRing(Block(f, i, false), x, k)
  {
    BlockKeepsTable(f, i, false);
    BlockedAfter(f, i, false, x, k);
    var f1 := Block(f, i, false);
    if 0 <= k < |f1.rings| && f1.rings[k].Some? && k != i {
      assert f1.rings[k].value.hashId != f1.rings[i].value.hashId;
    }
  }

  lemma CreateExact(f: Flow, q: Query, x: nat)
    requires Controlled(f) && q.ifidx < MAX_IFS && x < MAX_IFS && f.ifs[x].Some? && Exact(f, x)
    ensures Create(f, q).0.ifs[x].Some? && Exact(Create(f, q).0, x)
  {
    hide Create, Exact, StopsHaveCause, BlockedAreFull, QueuesFollowStops;
    var f' := Create(f, q).0;
    forall i
      ensures BlockedRing(f', x, i) <==> BlockedRing(f, x, i)
    {
      CreatedRing(f, q, x, i);
    }
    CreateKeepsIfs(f, q);
    SameExact(f, f', x);
  }

  lemma CreateKeepsIfs(f: Flow, q: Query)
    requires Shaped(f)
    ensures Create(f, q).0.ifs == f.ifs
  {
    hide Probe, FreeRing;
  }

  // A new ring is not blocked, and its slot was nobody's.
  lemma CreatedRing(f: Flow, q: Query, x: nat, k: int)
    requires Linked(f)
    ensures BlockedRing(Create(f, q).0, x, k) <==> BlockedRing(f, x, k)
  {
    hide Probe, HomeSlot;
  }

  lemma StatusExact(f: Flow, i: nat, status: Status, x: nat)
    requires Controlled(f) && i < |f.rings| && x < MAX_IFS && f.ifs[x].Some? && Exact(f, x)
    ensures SetStatus(f, i, status).ifs[x].Some? && Exact(SetStatus(f, i, status), x)
  {
    if f.rings[i].Some? {
      LiveIfidx(f, i);
      QueueExact(f, i, f.rings[i].value.(status := status), x);
    }
  }

  lemma OtherStopExact(f: Flow, y: nat, reason: Reason, state: bool, x: nat)
    requires Controlled(f) && y < MAX_IFS && reason != FlowFull && x < MAX_IFS && f.ifs[x].Some? && Exact(f, x)
    ensures var f' := f.(ifs := f.ifs[y := FlowBlockIf(f.ifs[y], reason, state)]);
            f'.ifs[x].Some? && Exact(f', x)
  {
    var f' := f.(ifs := f.ifs[y := FlowBlockIf(f.ifs[y], reason, state)]);
    forall i
      ensures BlockedRing(f', x, i) <==> BlockedRing(f, x, i)
    {
    }
    SameExact(f, f', x);
  }

  lemma CloseGoneExact(f: Flow, gone: Slot -> bool, modes: seq<bool>, x: nat)
    requires Controlled(f) && |modes| == MAX_IFS && x < MAX_IFS && f.ifs[x].Some? && Exact(f, x)
    ensures Exact(CloseGone(f, gone).(indirect := modes), x)
  {
    var f' := CloseGone(f, gone).(indirect := modes);
    forall i
      ensures BlockedRing(f', x, i) <==> BlockedRing(f, x, i)
    {
    }
  }

  // Every event keeps the bit exact, but for those that lose it, and those never do.
  lemma StepExactIff(f: Flow, e: Event, x: nat)
    requires Controlled(f) && Enabled(f, e) && x < MAX_IFS && f.ifs[x].Some? && Exact(f, x)
    ensures Controlled(Apply(f, e)) && Apply(f, e).ifs[x].Some?
    ensures Exact(Apply(f, e), x) <==> !Loses(f, e, x)
  {
    hide Create, Lookup, Delete, Enqueue, Dequeue, CloseGone, Exact, Unseen;
    hide StopsHaveCause, BlockedAreFull, QueuesFollowStops;
    StepControlled(f, e);
    match e
    case Get(da, prio, ifidx, isTdls) => CreateExact(f, TheQuery(f, da, prio, ifidx, isTdls), x);
    case Make(da, prio, ifidx, isTdls) => CreateExact(f, TheQuery(f, da, prio, ifidx, isTdls), x);
    case OpenRing(i) => StatusExact(f, i, Open, x);
    case CloseRing(i) => StatusExact(f, i, Closing, x);
    case DeleteRing(i) =>
      if f.rings[i].Some? {
        LiveIfidx(f, i);
        DeleteExact(f, i, x);
      }
    case Enq(i, frame) => EnqueueExact(f, i, frame, x);
    case Deq(i) => DequeueExact(f, i, x);
    case Reins(i, frame) =>
      var ring := f.rings[i].value;
      QueueExact(f, i, ring.(queue := [frame] + ring.queue), x);
    case OtherStop(y, reason, state) => OtherStopExact(f, y, reason, state, x);
    case SwitchMode(y, indirect) =>
      CloseGoneExact(f, OfInterface(y), f.indirect[y := indirect], x);
    case Depart(y, peer, isTdls) =>
      CloseGoneExact(f, OfPeer(f.indirect[y] && !isTdls, peer, y), f.indirect, x);
  }

  // ---- a run that loses the bit ----

  function Repeat(e: Event, n: nat): (es: seq<Event>)
    ensures |es| == n
  {
    if n == 0 then [] else [e] + Repeat(e, n - 1)
  }

  lemma {:induction false} RunOn(f: Flow, a: seq<Event>, b: seq<Event>)
    requires Controlled(f) && Legal(f, a) && Legal(After(f, a), b)
    ensures Legal(f, a + b) && After(f, a + b) == After(After(f, a), b)
    decreases |a|
  {
    hide Controlled, Enabled, Apply;
    if a == [] {
      assert a + b == b;
    } else {
      assert (a + b)[1..] == a[1..] + b && (a + b)[0] == a[0];
      StepControlled(f, a[0]);
      RunOn(Apply(f, a[0]), a[1..], b);
    }
  }

  lemma One(f: Flow, e: Event)
    requires Controlled(f) && Enabled(f, e)
    ensures Legal(f, [e]) && After(f, [e]) == Apply(f, e)
  {
    StepControlled(f, e);
    assert [e][1..] == [];
  }

  // Two rings on interface 0, the second one open, with the stop bit of the interface exact.
  ghost predicate Pair(f: Flow, status: Status, q0: nat, b0: bool, q1: nat, b1: bool) {
    && Controlled(f) && |f.rings| == 2 && Live(f, 0) && Live(f, 1) && IfidxOf(f, 0) == 0 && IfidxOf(f, 1) == 0
    && f.rings[0].value.status == status && f.rings[1].value.status == Open
    && |f.rings[0].value.queue| == q0 && f.rings[0].value.blocked == b0
    && |f.rings[1].value.queue| == q1 && f.rings[1].value.blocked == b1
    && f.ifs[0].Some? && Exact(f, 0)
  }

  lemma FillOne(f: Flow, i: nat, status: Status, q0: nat, b0: bool, q1: nat, b1: bool)
    requires Pair(f, status, q0, b0, q1, b1) && i < 2
    ensures Pair(Apply(f, Enq(i, 0)), status,
                 if i == 0 then q0 + 1 else q0, b0 || (i == 0 && q0 + 1 > HIGH),
                 if i == 1 then q1 + 1 else q1, b1 || (i == 1 && q1 + 1 > HIGH))
  {
    hide Exact, StopsHaveCause, BlockedAreFull, QueuesFollowStops;
    StepExactIff(f, Enq(i, 0), 0);
    BlockKeepsRings(WithQueued(f, i), i);
  }

  function WithQueued(f: Flow, i: nat): Flow
    requires Live(f, i)
  {
    var ring := f.rings[i].value;
    WithRing(f, i, ring.(queue := ring.queue + [0]))
  }

  lemma BlockKeepsRings(f: Flow, i: nat)
    requires Shaped(f) && Live(f, i) && IfidxOf(f, i) < MAX_IFS
    ensures forall b :: Block(f, i, b).hash == f.hash && Block(f, i, b).indirect == f.indirect
    ensures forall b :: Block(f, i, b).rings == f.rings[i := Some(f.rings[i].value.(blocked := b))]
  {
    forall b: bool
      ensures Block(f, i, b).rings == f.rings[i := Some(f.rings[i].value.(blocked := b))]
    {
    }
  }

  lemma {:induction false} FillMany(f: Flow, i: nat, n: nat, status: Status, q0: nat, b0: bool, q1: nat, b1: bool)
    requires Pair(f, status, q0, b0, q1, b1) && i < 2
    requires b0 == (q0 > HIGH) && b1 == (q1 > HIGH)
    ensures Legal(f, Repeat(Enq(i, 0), n))
    ensures var p0, p1 := if i == 0 then q0 + n else q0, if i == 1 then q1 + n else q1;
            Pair(After(f, Repeat(Enq(i, 0), n)), status, p0, p0 > HIGH, p1, p1 > HIGH)
    decreases n
  {
    hide Pair, Apply, Controlled, Live;
    PairIs(f, status, q0, b0, q1, b1);
    if n > 0 {
      FillOne(f, i, status, q0, b0, q1, b1);
      var f1 := Apply(f, Enq(i, 0));
      var p0, p1 := if i == 0 then q0 + 1 else q0, if i == 1 then q1 + 1 else q1;
      FillMany(f1, i, n - 1, status, p0, p0 > HIGH, p1, p1 > HIGH);
    }
  }

  lemma PairIs(f: Flow, status: Status, q0: nat, b0: bool, q1: nat, b1: bool)
    requires Pair(f, status, q0, b0, q1, b1)
    ensures Controlled(f) && Live(f, 0) && Live(f, 1)
  {
  }

  // Taking a frame from the second ring, still above the low watermark.
  lemma DrainOne(f: Flow, status: Status, q0: nat, b0: bool, q1: nat)
    requires Pair(f, status, q0, b0, q1, true) && q1 > LOW
    ensures Pair(Apply(f, Deq(1)), status, q0, b0, q1 - 1, true)
  {
    hide Exact, StopsHaveCause, BlockedAreFull, QueuesFollowStops;
    StepExactIff(f, Deq(1), 0);
  }

  lemma {:induction false} DrainMany(f: Flow, n: nat, status: Status, q0: nat, b0: bool, q1: nat)
    requires Pair(f, status, q0, b0, q1, true) && q1 >= LOW + n
    ensures Legal(f, Repeat(Deq(1), n))
    ensures Pair(After(f, Repeat(Deq(1), n)), status, q0, b0, q1 - n, true)
    decreases n
  {
    hide Pair, Apply, Controlled, Live;
    PairIs(f, status, q0, b0, q1, true);
    if n > 0 {
      DrainOne(f, status, q0, b0, q1);
      var f1 := Apply(f, Deq(1));
      DrainMany(f1, n - 1, status, q0, b0, q1 - 1);
    }
  }

  // The last frame above the low watermark, while the first ring is closing and blocked.
  lemma DrainLast(f: Flow, q0: nat)
    requires Pair(f, Closing, q0, true, LOW, true)
    ensures Enabled(f, Deq(1)) && Apply(f, Deq(1)).ifs[0].Some?
    ensures FlowFull !in Apply(f, Deq(1)).ifs[0].value.stop && BlockedRing(Apply(f, Deq(1)), 0, 0)
  {
    StepControlled(f, Deq(1));
    LastUnseen(f);
    StepExactIff(f, Deq(1), 0);
    StillBlocked(f);
  }

  lemma LastUnseen(f: Flow)
    requires |f.rings| == 2 && Live(f, 0) && IfidxOf(f, 0) == 0
    requires f.rings[0].value.status == Closing && f.rings[0].value.blocked
    ensures Unseen(f, 1, 0)
  {
    assert BlockedRing(f, 0, 0);
  }

  lemma StillBlocked(f: Flow)
    requires Controlled(f) && |f.rings| == 2 && Live(f, 0) && Live(f, 1) && IfidxOf(f, 0) == 0
    requires f.rings[0].value.blocked
    ensures BlockedRing(Apply(f, Deq(1)), 0, 0)
  {
    LiveIfidx(f, 1);
    var q := if f.rings[1].value.queue == [] then [] else f.rings[1].value.queue[1..];
    BlockKeepsRings(WithRing(f, 1, f.rings[1].value.(queue := q)), 1);
  }

  const QUIET: seq<Option<Iface>> := [Some(Iface({}, false))] + seq(MAX_IFS - 1, _ => None)
  const STATION: seq<bool> := seq(MAX_IFS, _ => true)

  // Two rings for two priorities, opened.
  const SETUP: seq<Event> := [Get(ZERO_MAC, 0, 0, false), Get(ZERO_MAC, 1, 0, false), OpenRing(0), OpenRing(1)]

  lemma GetCreates(f: Flow, prio: nat)
    requires Controlled(f) && prio < 2 && f.indirect[0]
    requires forall s :: 0 <= s < HASHSIZE ==> !Matches(f.hash[s], Query(true, ZERO_MAC, prio, 0))
    requires IsFree(f.hash[prio]) && FreeRing(f.rings) == prio < |f.rings|
    ensures var f' := Apply(f, Get(ZERO_MAC, prio, 0, false));
            && f'.hash == f.hash[prio := Slot(ZERO_MAC, prio, 0, prio)]
            && f'.rings == f.rings[prio := Some(Ring(prio, false, Closed, []))]
            && f'.ifs == f.ifs && f'.indirect == f.indirect
  {
    hide Linked, StopsHaveCause, BlockedAreFull, QueuesFollowStops, Lookup, Create, FreeRing, Matches, HomeSlot;
    ShapedOf(f);
    SetupQuery(f, prio);
    NewKey(f, Query(true, ZERO_MAC, prio, 0));
  }

  lemma SetupQuery(f: Flow, prio: nat)
    requires Shaped(f) && prio < 2 && f.indirect[0]
    ensures TheQuery(f, ZERO_MAC, prio, 0, false) == Query(true, ZERO_MAC, prio, 0)
    ensures HomeSlot(Query(true, ZERO_MAC, prio, 0)) == prio
  {
  }

  // A key that is not there, whose home slot is free.
  lemma NewKey(f: Flow, q: Query)
    requires Shaped(f) && IsFree(f.hash[HomeSlot(q)]) && FreeRing(f.rings) < |f.rings|
    requires forall s :: 0 <= s < HASHSIZE ==> !Matches(f.hash[s], q)
    ensures Lookup(f, q).None?
    ensures var s, i := HomeSlot(q), FreeRing(f.rings);
            && Create(f, q).0.hash == f.hash[s := Slot(q.mac, q.fifo, q.ifidx, i)]
            && Create(f, q).0.rings == f.rings[i := Some(Ring(s, false, Closed, []))]
            && Create(f, q).0.ifs == f.ifs && Create(f, q).0.indirect == f.indirect
  {
    hide Matches, HomeSlot, FreeRing;
    assert Probe(f.hash, HomeSlot(q), 0, slot => Matches(slot, q)).None?;
    assert Probe(f.hash, HomeSlot(q), 0, IsFree) == Some(HomeSlot(q));
  }

  lemma SetupPair()
    ensures Unstopped(QUIET) && |STATION| == MAX_IFS && Controlled(Attached(2, QUIET, STATION))
    ensures Legal(Attached(2, QUIET, STATION), SETUP)
    ensures Pair(After(Attached(2, QUIET, STATION), SETUP), Open, 0, false, 0, false)
  {
    AttachedControlled(2, QUIET, STATION);
    var f := Attached(2, QUIET, STATION);
    assert FreeRing(f.rings) == 0;
    GetCreates(f, 0);
    StepControlled(f, SETUP[0]);
    var f1 := Apply(f, SETUP[0]);
    assert f1.rings == [Some(Ring(0, false, Closed, [])), None];
    assert f1.rings[1..] == [None];
    GetCreates(f1, 1);
    StepControlled(f1, SETUP[1]);
    var f2 := Apply(f1, SETUP[1]);
    SetupOpens(f, f1, f2);
  }

  lemma OpenOne(f: Flow, i: nat)
    requires Controlled(f) && i < |f.rings| && f.rings[i].Some?
    ensures Enabled(f, OpenRing(i)) && Controlled(Apply(f, OpenRing(i)))
    ensures Apply(f, OpenRing(i)) == f.(rings := f.rings[i := Some(f.rings[i].value.(status := Open))])
  {
    hide Linked, StopsHaveCause, BlockedAreFull, QueuesFollowStops;
    StepControlled(f, OpenRing(i));
  }

  // Two open rings on an interface that is not stopped.
  lemma OpenPair(f: Flow)
    requires Controlled(f) && f.rings == [Some(Ring(0, false, Open, [])), Some(Ring(1, false, Open, []))]
    requires |f.hash| == HASHSIZE && f.hash[0].ifidx == 0 && f.hash[1].ifidx == 0 && f.ifs == QUIET
    ensures Pair(f, Open, 0, false, 0, false)
  {
    hide Linked, StopsHaveCause, BlockedAreFull, QueuesFollowStops;
    ShapedOf(f);
    assert forall i :: !BlockedRing(f, 0, i);
  }

  lemma SetupOpens(f: Flow, f1: Flow, f2: Flow)
    requires Controlled(f) && Controlled(f1) && Controlled(f2)
    requires Enabled(f, SETUP[0]) && Apply(f, SETUP[0]) == f1 && Enabled(f1, SETUP[1]) && Apply(f1, SETUP[1]) == f2
    requires f2.rings == [Some(Ring(0, false, Closed, [])), Some(Ring(1, false, Closed, []))]
    requires |f2.hash| == HASHSIZE && f2.hash[0].ifidx == 0 && f2.hash[1].ifidx == 0 && f2.ifs == QUIET
    ensures Legal(f, SETUP) && Pair(After(f, SETUP), Open, 0, false, 0, false)
  {
    hide Controlled, Apply, Enabled, Legal, After, Pair;
    OpenOne(f2, 0);
    var f3 := Apply(f2, OpenRing(0));
    OpenOne(f3, 1);
    var f4 := Apply(f3, OpenRing(1));
    FourSteps(f, f1, f2, f3, f4);
    OpenPair(f4);
  }

  lemma ShapedOf(f: Flow)
    requires Controlled(f)
    ensures Shaped(f)
  {
  }

  lemma Extended(f: Flow, events: seq<Event>, e: Event)
    requires Controlled(f) && Legal(f, events) && Enabled(After(f, events), e)
    ensures Legal(f, events + [e]) && After(f, events + [e]) == Apply(After(f, events), e)
  {
    hide Controlled, Enabled, Apply, Legal, After;
    One(After(f, events), e);
    RunOn(f, events, [e]);
  }

  lemma FourSteps(f: Flow, f1: Flow, f2: Flow, f3: Flow, f4: Flow)
    requires Controlled(f) && Controlled(f1) && Controlled(f2) && Controlled(f3) && Controlled(f4)
    requires Enabled(f, SETUP[0]) && Apply(f, SETUP[0]) == f1 && Enabled(f1, SETUP[1]) && Apply(f1, SETUP[1]) == f2
    requires Enabled(f2, SETUP[2]) && Apply(f2, SETUP[2]) == f3 && Enabled(f3, SETUP[3]) && Apply(f3, SETUP[3]) == f4
    ensures Legal(f, SETUP) && After(f, SETUP) == f4
  {
    hide Controlled, Enabled, Apply, Legal, After;
    var e0, e1, e2, e3 := SETUP[0], SETUP[1], SETUP[2], SETUP[3];
    One(f, e0);
    Extended(f, [e0], e1);
    Extended(f, [e0] + [e1], e2);
    Extended(f, [e0] + [e1] + [e2], e3);
    assert SETUP == [e0] + [e1] + [e2] + [e3];
  }

  lemma ClosePair(f: Flow, q0: nat, b0: bool, q1: nat, b1: bool)
    requires Pair(f, Open, q0, b0, q1, b1)
    ensures Enabled(f, CloseRing(0)) && Pair(Apply(f, CloseRing(0)), Closing, q0, b0, q1, b1)
  {
    hide Exact, StopsHaveCause, BlockedAreFull, QueuesFollowStops;
    StepExactIff(f, CloseRing(0), 0);
  }

  // Both rings filled beyond the high watermark, the first one closed, the second one drained
  // below the low watermark.
  const LOSING: seq<Event> :=
    SETUP + Repeat(Enq(0, 0), HIGH + 1) + Repeat(Enq(1, 0), HIGH + 1) + [CloseRing(0)]
    + Repeat(Deq(1), HIGH + 1 - LOW) + [Deq(1)]

  // A run after which a ring is blocked and its interface is not stopped for it.
  lemma LosingRun()
    ensures Controlled(Attached(2, QUIET, STATION)) && Legal(Attached(2, QUIET, STATION), LOSING)
    ensures var g := After(Attached(2, QUIET, STATION), LOSING);
            BlockedRing(g, 0, 0) && g.ifs[0].Some? && FlowFull !in g.ifs[0].value.stop
  {
    hide Pair, Attached, Repeat, Apply, Enabled, Legal, Controlled, BlockedRing;
    SetupPair();
    var f := Attached(2, QUIET, STATION);
    var a1 := SETUP + Repeat(Enq(0, 0), HIGH + 1);
    var a2 := a1 + Repeat(Enq(1, 0), HIGH + 1);
    var a3 := a2 + [CloseRing(0)];
    var a4 := a3 + Repeat(Deq(1), HIGH + 1 - LOW);
    FillMany(After(f, SETUP), 0, HIGH + 1, Open, 0, false, 0, false);
    RunOn(f, SETUP, Repeat(Enq(0, 0), HIGH + 1));
    FillMany(After(f, a1), 1, HIGH + 1, Open, HIGH + 1, true, 0, false);
    RunOn(f, a1, Repeat(Enq(1, 0), HIGH + 1));
    ClosePair(After(f, a2), HIGH + 1, true, HIGH + 1, true);
    One(After(f, a2), CloseRing(0));
    RunOn(f, a2, [CloseRing(0)]);
    DrainMany(After(f, a3), HIGH + 1 - LOW, Closing, HIGH + 1, true, HIGH + 1);
    RunOn(f, a3, Repeat(Deq(1), HIGH + 1 - LOW));
    DrainLast(After(f, a4), HIGH + 1);
    One(After(f, a4), Deq(1));
    RunOn(f, a4, [Deq(1)]);
  }
}
