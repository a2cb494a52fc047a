// The flow-ring object itself: the code of flowring.c over its arrays.

module FlowRings {
  import opened Wrappers
  import opened RingIndex
  import opened FlowSpec
  import TdlsPeers
  import TdlsSpec

  class FlowRings {
    const hash: array<Slot>
    const rings: array<Option<Ring>>
    const ifs: array<Option<Iface>>
    const modes: array<bool>
    const peers: TdlsPeers.Peers

    ghost function State(): Flow
      reads hash, rings, ifs, modes
    {
      Flow(hash[..], rings[..], ifs[..], modes[..])
    }

    ghost predicate Valid()
      reads hash, rings, ifs, modes
    {
      Shaped(State()) && HashIdsInRange(State())
    }

    constructor (nrofrings: nat)
      ensures Valid() && fresh(hash) && fresh(rings) && fresh(ifs) && fresh(modes)
      ensures peers.Valid() && peers.Macs() == []
      ensures rings.Length == nrofrings && (forall i :: 0 <= i < nrofrings ==> rings[i].None?)
      ensures forall s :: 0 <= s < HASHSIZE ==> hash[s] == Slot(ZERO_MAC, 0, INVALID_IFIDX, 0)
      ensures forall x :: 0 <= x < MAX_IFS ==> modes[x] && ifs[x] == None
    {
      hash := new Slot[HASHSIZE](_ => Slot(ZERO_MAC, 0, INVALID_IFIDX, 0));
      rings := new Option<Ring>[nrofrings](_ => None);
      ifs := new Option<Iface>[MAX_IFS](_ => None);
      modes := new bool[MAX_IFS](_ => true);
      peers := new TdlsPeers.Peers();
    }

    method Sort(da: Mac, prio: nat, ifidx: nat) returns (q: Query)
      requires Valid() && peers.Valid() && prio < 8 && ifidx < MAX_IFS
      ensures q == Classify(modes[ifidx], da in peers.Macs(), da, prio, ifidx)
    {
      var fifo := Fifo(prio);
      var sta := modes[ifidx];
      var mac := da;
      if !sta && IsMulticast(da) {
        mac := ALLFFMAC;
        fifo := 0;
      }
      if sta && peers.active {
        var tdls := peers.IsTdlsMac(da);
        if tdls {
          sta := false;
        }
      }
      q := Query(sta, mac, fifo, ifidx);
    }

    method ProbeFor(h: nat, p: Slot -> bool) returns (s: Option<nat>)
      requires Valid() && h < HASHSIZE
      ensures s == Probe(hash[..], h, 0, p)
    {
      var hashIdx := h;
      var i := 0;
      while i < HASHSIZE
        invariant i <= HASHSIZE && hashIdx == Advance(h, i, HASHSIZE)
        invariant Probe(hash[..], h, 0, p) == Probe(hash[..], h, i, p)
      {
        if p(hash[hashIdx]) {
          return Some(hashIdx);
        }
        hashIdx := if hashIdx + 1 == HASHSIZE then 0 else hashIdx + 1;
        i := i + 1;
      }
      s := None;
    }

    method Lookup(da: Mac, prio: nat, ifidx: nat) returns (flowid: Option<nat>)
      requires Valid() && peers.Valid() && prio < 8 && ifidx < MAX_IFS
      ensures flowid == FlowSpec.Lookup(State(), Classify(modes[ifidx], da in peers.Macs(), da, prio, ifidx))
    {
      var q := Sort(da, prio, ifidx);
      var s := ProbeFor(HomeSlot(q), slot => Matches(slot, q));
      flowid := if s.None? then None else Some(hash[s.value].flowid);
    }

    method Create(da: Mac, prio: nat, ifidx: nat) returns (r: Result<nat, CreateError>)
      requires Valid() && peers.Valid() && prio < 8 && ifidx < MAX_IFS
      modifies hash, rings
      ensures Valid()
      ensures (State(), r)
           == FlowSpec.Create(old(State()), old(Classify(modes[ifidx], da in peers.Macs(), da, prio, ifidx)))
    {
      var q := Sort(da, prio, ifidx);
      var s := ProbeFor(HomeSlot(q), IsFree);
      if s.None? {
        return Err(HashFull);
      }
      var i := FindFreeRing();
      if i == rings.Length {
        return Err(NoRing);
      }
      hash[s.value] := Slot(q.mac, q.fifo, q.ifidx, i);
      rings[i] := Some(Ring(s.value, false, Closed, []));
      r := Ok(i);
    }

    method FindFreeRing() returns (i: nat)
      ensures i == FreeRing(rings[..])
    {
      i := 0;
      while i < rings.Length && rings[i].Some?
        invariant i <= rings.Length && FreeRing(rings[..]) == i + FreeRing(rings[i..])
      {
        i := i + 1;
      }
    }

    method IfidxGet(flowid: nat) returns (ifidx: nat)
      requires Valid() && Live(State(), flowid)
      ensures ifidx == IfidxOf(State(), flowid)
    {
      ifidx := hash[rings[flowid].value.hashId].ifidx;
    }

    method TxFlowBlockIf(x: nat, reason: Reason, state: bool)
      requires Valid() && x < MAX_IFS
      modifies ifs
      ensures Valid() && ifs[..] == old(ifs[..])[x := FlowBlockIf(old(ifs[x]), reason, state)]
    {
      if ifs[x].None? {
        return;
      }
      var ifp := ifs[x].value;
      if state {
        if ifp.stop == {} {
          ifp := ifp.(queueStopped := true);
        }
        ifp := ifp.(stop := ifp.stop + {reason});
      } else {
        ifp := ifp.(stop := ifp.stop - {reason});
        if ifp.stop == {} {
          ifp := ifp.(queueStopped := false);
        }
      }
      ifs[x] := Some(ifp);
    }

    method AnyOtherBlocked(flowid: nat, ifidx: nat) returns (currentlyBlocked: bool)
      requires Valid()
      ensures currentlyBlocked == OtherBlocked(State(), flowid, ifidx)
    {
      currentlyBlocked := false;
      var i := 0;
      while i < rings.Length
        invariant i <= rings.Length
        invariant forall j :: (0 <= j < i && j != flowid && Live(State(), j) && rings[j].value.status == Open
                               && IfidxOf(State(), j) == ifidx) ==> !rings[j].value.blocked
      {
        if rings[i].Some? && i != flowid {
          var ring := rings[i].value;
          if ring.status == Open && hash[ring.hashId].ifidx == ifidx {
            if ring.blocked {
              assert Live(State(), i) && IfidxOf(State(), i) == ifidx;
              return true;
            }
          }
        }
        i := i + 1;
      }
    }

    method Block(flowid: nat, blocked: bool)
      requires Valid() && Live(State(), flowid) && IfidxOf(State(), flowid) < MAX_IFS
      modifies rings, ifs
      ensures Valid() && State() == FlowSpec.Block(old(State()), flowid, blocked)
    {
      var ring := rings[flowid].value;
      if ring.blocked == blocked {
        return;
      }
      var ifidx := IfidxGet(flowid);
      var currentlyBlocked := AnyOtherBlocked(flowid, ifidx);
      rings[flowid] := Some(ring.(blocked := blocked));
      if currentlyBlocked {
        return;
      }
      TxFlowBlockIf(ifidx, FlowFull, blocked);
    }

    // Deleting a ring; the frames it still held are returned for completion as not sent.
    method Delete(flowid: nat) returns (dropped: seq<Frame>)
      requires Valid() && flowid < rings.Length
      requires rings[flowid].Some? ==> Live(State(), flowid) && IfidxOf(State(), flowid) < MAX_IFS
      modifies hash, rings, ifs
      ensures Valid() && State() == FlowSpec.Delete(old(State()), flowid)
      ensures dropped == if old(rings[flowid]).Some? then old(rings[flowid]).value.queue else []
    {
      if rings[flowid].None? {
        return [];
      }
      var ring := rings[flowid].value;
      Block(flowid, false);
      hash[ring.hashId] := hash[ring.hashId].(ifidx := INVALID_IFIDX, mac := ZERO_MAC);
      rings[flowid] := None;
      dropped := [];
      var left := ring.queue;
      while left != []
        invariant dropped + left == ring.queue
        decreases |left|
      {
        dropped, left := dropped + [left[0]], left[1..];
      }
    }

    method Enqueue(flowid: nat, frame: Frame) returns (qlen: nat)
      requires Valid() && Live(State(), flowid) && IfidxOf(State(), flowid) < MAX_IFS
      modifies rings, ifs
      ensures Valid() && State() == FlowSpec.Enqueue(old(State()), flowid, frame)
      ensures qlen == |old(rings[flowid]).value.queue| + 1
    {
      var ring := rings[flowid].value;
      ring := ring.(queue := ring.queue + [frame]);
      rings[flowid] := Some(ring);
      if !ring.blocked && |ring.queue| > HIGH {
        Block(flowid, true);
        // the source looks at the length again, in case a dequeue came in between; in a
        // sequential run it finds nothing to do
        assert |rings[flowid].value.queue| >= LOW;
      }
      qlen := |rings[flowid].value.queue|;
    }

    method Dequeue(flowid: nat) returns (frame: Option<Frame>)
      requires Valid() && Live(State(), flowid) && IfidxOf(State(), flowid) < MAX_IFS
      modifies rings, ifs
      ensures Valid() && (State(), frame) == FlowSpec.Dequeue(old(State()), flowid)
    {
      var ring := rings[flowid].value;
      if ring.status != Open {
        return None;
      }
      if ring.queue == [] {
        frame := None;
      } else {
        frame := Some(ring.queue[0]);
        ring := ring.(queue := ring.queue[1..]);
      }
      rings[flowid] := Some(ring);
      if ring.blocked && |ring.queue| < LOW {
        Block(flowid, false);
      }
    }

    method Reinsert(flowid: nat, frame: Frame)
      requires Valid() && Live(State(), flowid)
      modifies rings
      ensures Valid() && State() == FlowSpec.Reinsert(old(State()), flowid, frame)
    {
      rings[flowid] := Some(rings[flowid].value.(queue := [frame] + rings[flowid].value.queue));
    }

    method OpenRing(flowid: nat)
      requires Valid() && flowid < rings.Length
      modifies rings
      ensures Valid() && State() == SetStatus(old(State()), flowid, Open)
    {
      if rings[flowid].None? {
        return;
      }
      rings[flowid] := Some(rings[flowid].value.(status := Open));
    }

    // Ask for the deletion of every open ring whose slot is `gone`.
    method CloseRings(gone: Slot -> bool)
      requires Valid()
      requires forall s :: 0 <= s < HASHSIZE && gone(hash[s]) ==>
                 hash[s].flowid < rings.Length && rings[hash[s].flowid].Some? && rings[hash[s].flowid].value.hashId == s
      requires forall i :: 0 <= i < rings.Length && rings[i].Some? ==> hash[rings[i].value.hashId].flowid == i
      modifies rings
      ensures Valid() && State() == CloseGone(old(State()), gone)
    {
      ghost var f := State();
      ghost var closed := CloseGone(f, gone);
      var i := 0;
      while i < HASHSIZE
        invariant i <= HASHSIZE && rings.Length == |f.rings|
        invariant forall k :: 0 <= k < rings.Length ==>
                    rings[k] == if f.rings[k].Some? && f.rings[k].value.hashId < i then closed.rings[k] else f.rings[k]
      {
        if gone(hash[i]) {
          var flowid := hash[i].flowid;
          if rings[flowid].value.status == Open {
            rings[flowid] := Some(rings[flowid].value.(status := Closing));
          }
        }
        i := i + 1;
      }
      assert rings[..] == closed.rings;
    }

    // A peer leaves: its rings, or in station mode without it being a TDLS peer all rings
    // of the interface, are closed, and it is taken off the TDLS list.
    method DeletePeer(ifidx: nat, peer: Mac)
      requires Valid() && peers.Valid() && ifidx < MAX_IFS
      requires forall s :: 0 <= s < HASHSIZE && hash[s].ifidx == ifidx ==>
                 hash[s].flowid < rings.Length && rings[hash[s].flowid].Some? && rings[hash[s].flowid].value.hashId == s
      requires forall i :: 0 <= i < rings.Length && rings[i].Some? ==> hash[rings[i].value.hashId].flowid == i
      modifies rings, peers, peers.nodes
      ensures Valid() && peers.Valid()
      ensures State() == Departed(old(State()), ifidx, peer, peer in old(peers.Macs()))
      ensures peers.Macs() == TdlsSpec.Removed(old(peers.Macs()), peer)
    {
      hide CloseGone, HashIdsInRange;
      var tdls := peers.IsTdlsMac(peer);
      var sta := modes[ifidx] && !tdls;
      CloseRings(OfPeer(sta, peer, ifidx));
      ghost var closed := State();
      var _ := peers.RemovePeer(peer);
      assert State() == closed;
    }

    method ConfigureAddrMode(ifidx: nat, indirect: bool)
      requires Valid() && ifidx < MAX_IFS
      requires forall s :: 0 <= s < HASHSIZE && hash[s].ifidx == ifidx ==>
                 hash[s].flowid < rings.Length && rings[hash[s].flowid].Some? && rings[hash[s].flowid].value.hashId == s
      requires forall i :: 0 <= i < rings.Length && rings[i].Some? ==> hash[rings[i].value.hashId].flowid == i
      modifies rings, modes
      ensures Valid()
      ensures State() == Configured(old(State()), ifidx, indirect)
    {
      if modes[ifidx] != indirect {
        CloseRings(OfInterface(ifidx));
        modes[ifidx] := indirect;
      }
    }
  }
}
