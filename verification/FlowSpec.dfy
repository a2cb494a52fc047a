// Flow rings (flowring.c): an open-addressed hash cross-linked to an array of rings, each
// holding queued frames, and the stop bits of the interfaces they feed
// (brcmf_txflowblock_if in core.c).

module FlowSpec {
  import opened Wrappers
  import opened Bytes
  import opened RingIndex

  const HASHSIZE: nat := 512
  const HIGH: nat := 1024
  const LOW: nat := HIGH - 256
  const INVALID_IFIDX: nat := 0xff
  const MAX_IFS: nat := 16

  type Mac = m: seq<byte> | |m| == 6 witness [0, 0, 0, 0, 0, 0]
  type Frame = nat

  const ZERO_MAC: Mac := [0, 0, 0, 0, 0, 0]
  const ALLFFMAC: Mac := [0xff, 0xff, 0xff, 0xff, 0xff, 0xff]

  datatype Slot = Slot(mac: Mac, fifo: nat, ifidx: nat, flowid: nat)

  datatype Status = Closed | Closing | Open

  datatype Ring = Ring(hashId: nat, blocked: bool, status: Status, queue: seq<Frame>)

  datatype Reason = FwsFc | FlowFull | Disconnected

  // What core.c keeps for an interface, and whether its transmit queue is stopped.
  datatype Iface = Iface(stop: set<Reason>, queueStopped: bool)

  datatype Flow = Flow(
    hash: seq<Slot>,
    rings: seq<Option<Ring>>,
    ifs: seq<Option<Iface>>,      // None: no such interface, or one without a device
    indirect: seq<bool>           // the address mode of each interface; indirect is station mode
  )

  predicate Shaped(f: Flow) {
    |f.hash| == HASHSIZE && |f.ifs| == MAX_IFS && |f.indirect| == MAX_IFS
  }

  predicate IsFree(slot: Slot) {
    slot.ifidx == INVALID_IFIDX && slot.mac == ZERO_MAC
  }

  function Fifo(prio: nat): (fifo: nat)
    requires prio < 8
    ensures fifo < 4
  {
    [0, 1, 1, 0, 2, 2, 3, 3][prio]
  }

  predicate IsMulticast(mac: Mac) {
    mac[0] % 2 == 1
  }

  // What a frame is filed under: `sta` if its destination does not matter.
  datatype Query = Query(sta: bool, mac: Mac, fifo: nat, ifidx: nat)

  function Classify(indirect: bool, isTdls: bool, da: Mac, prio: nat, ifidx: nat): (q: Query)
    requires prio < 8
    ensures q.fifo < 4 && q.ifidx == ifidx
  {
    if !indirect && IsMulticast(da) then Query(false, ALLFFMAC, 0, ifidx)
    else Query(indirect && !isTdls, da, Fifo(prio), ifidx)
  }

  function HomeSlot(q: Query): (h: nat)
    ensures h < HASHSIZE
  {
    (if q.sta then q.fifo + q.ifidx * 16 else q.mac[5] as int * 2 + q.fifo + q.ifidx * 16) % HASHSIZE
  }

  predicate Matches(slot: Slot, q: Query) {
    (q.sta || slot.mac == q.mac) && slot.fifo == q.fifo && slot.ifidx == q.ifidx
  }

  // The first of the slots probed from `h`, starting with the `i`th, that satisfies `p`.
  function Probe(hash: seq<Slot>, h: nat, i: nat, p: Slot -> bool): (r: Option<nat>)
    requires |hash| == HASHSIZE && h < HASHSIZE && i <= HASHSIZE
    ensures r.Some? ==> r.value < HASHSIZE && p(hash[r.value])
    decreases HASHSIZE - i
  {
    if i == HASHSIZE then None
    else
      var s := Advance(h, i, HASHSIZE);
      if p(hash[s]) then Some(s) else Probe(hash, h, i + 1, p)
  }

  function FreeRing(rings: seq<Option<Ring>>): (i: nat)
    ensures i <= |rings| && (i < |rings| ==> rings[i].None?)
    ensures forall k :: 0 <= k < i ==> rings[k].Some?
  {
    if rings == [] || rings[0].None? then 0 else 1 + FreeRing(rings[1..])
  }

  function Lookup(f: Flow, q: Query): (r: Option<nat>)
    requires Shaped(f)
  {
    var s := Probe(f.hash, HomeSlot(q), 0, slot => Matches(slot, q));
    if s.None? then None else Some(f.hash[s.value].flowid)
  }

  datatype CreateError = HashFull | NoRing

  function Create(f: Flow, q: Query): (r: (Flow, Result<nat, CreateError>))
    requires Shaped(f)
    ensures Shaped(r.0)
  {
    var s := Probe(f.hash, HomeSlot(q), 0, IsFree);
    var i := FreeRing(f.rings);
    if s.None? then (f, Err(HashFull))
    else if i == |f.rings| then (f, Err(NoRing))
    else
      (f.(hash := f.hash[s.value := Slot(q.mac, q.fifo, q.ifidx, i)],
          rings := f.rings[i := Some(Ring(s.value, false, Closed, []))]),
       Ok(i))
  }

  predicate Live(f: Flow, flowid: nat) {
    flowid < |f.rings| && f.rings[flowid].Some? && f.rings[flowid].value.hashId < |f.hash|
  }

  function IfidxOf(f: Flow, flowid: nat): nat
    requires Live(f, flowid)
  {
    f.hash[f.rings[flowid].value.hashId].ifidx
  }

  function WithRing(f: Flow, flowid: nat, ring: Ring): Flow
    requires flowid < |f.rings|
  {
    f.(rings := f.rings[flowid := Some(ring)])
  }

  // brcmf_txflowblock_if
  function FlowBlockIf(iface: Option<Iface>, reason: Reason, state: bool): Option<Iface> {
    if iface.None? then None
    else
      var stop := if state then iface.value.stop + {reason} else iface.value.stop - {reason};
      Some(Iface(stop,
                 if state then iface.value.queueStopped || iface.value.stop == {}
                 else iface.value.queueStopped && stop != {}))
  }

  // Another ring of the interface is open and blocked.
  predicate OtherBlocked(f: Flow, flowid: nat, ifidx: nat) {
    exists i | 0 <= i < |f.rings| ::
      i != flowid && Live(f, i) && f.rings[i].value.status == Open && IfidxOf(f, i) == ifidx && f.rings[i].value.blocked
  }

  function Block(f: Flow, flowid: nat, blocked: bool): (f': Flow)
    requires Shaped(f) && Live(f, flowid) && IfidxOf(f, flowid) < MAX_IFS
    ensures Shaped(f') && Live(f', flowid)
    ensures f'.hash == f.hash && |f'.rings| == |f.rings| && f'.indirect == f.indirect
  {
    var ring := f.rings[flowid].value;
    if ring.blocked == blocked then f
    else
      var x := IfidxOf(f, flowid);
      var f1 := WithRing(f, flowid, ring.(blocked := blocked));
      if OtherBlocked(f, flowid, x) then f1
      else f1.(ifs := f1.ifs[x := FlowBlockIf(f1.ifs[x], FlowFull, blocked)])
  }

  function Delete(f: Flow, flowid: nat): (f': Flow)
    requires Shaped(f) && flowid < |f.rings|
    requires f.rings[flowid].Some? ==> Live(f, flowid) && IfidxOf(f, flowid) < MAX_IFS
    ensures Shaped(f')
  {
    if f.rings[flowid].None? then f
    else
      var s := f.rings[flowid].value.hashId;
      var f1 := Block(f, flowid, false);
      f1.(hash := f1.hash[s := f1.hash[s].(ifidx := INVALID_IFIDX, mac := ZERO_MAC)],
          rings := f1.rings[flowid := None])
  }

  function Enqueue(f: Flow, flowid: nat, frame: Frame): (f': Flow)
    requires Shaped(f) && Live(f, flowid) && IfidxOf(f, flowid) < MAX_IFS
    ensures Shaped(f')
  {
    var ring := f.rings[flowid].value;
    var f1 := WithRing(f, flowid, ring.(queue := ring.queue + [frame]));
    if !ring.blocked && |ring.queue| + 1 > HIGH then Block(f1, flowid, true) else f1
  }

  // The frame taken, and the rings afterwards.
  function Dequeue(f: Flow, flowid: nat): (r: (Flow, Option<Frame>))
    requires Shaped(f) && Live(f, flowid) && IfidxOf(f, flowid) < MAX_IFS
    ensures Shaped(r.0)
  {
    var ring := f.rings[flowid].value;
    if ring.status != Open then (f, None)
    else
      var q := if ring.queue == [] then [] else ring.queue[1..];
      var f1 := WithRing(f, flowid, ring.(queue := q));
      (if ring.blocked && |q| < LOW then Block(f1, flowid, false) else f1,
       if ring.queue == [] then None else Some(ring.queue[0]))
  }

  function Reinsert(f: Flow, flowid: nat, frame: Frame): Flow
    requires Live(f, flowid)
  {
    var ring := f.rings[flowid].value;
    WithRing(f, flowid, ring.(queue := [frame] + ring.queue))
  }

  // Opening a ring, or closing it while its deletion is under way.
  function SetStatus(f: Flow, flowid: nat, status: Status): Flow
    requires flowid < |f.rings|
  {
    if f.rings[flowid].None? then f else WithRing(f, flowid, f.rings[flowid].value.(status := status))
  }

  // Rings an address-mode switch or a departing peer asks the firmware to delete: the open
  // ones whose slot is `gone`.
  function CloseGone(f: Flow, gone: Slot -> bool): (f': Flow)
    requires Shaped(f) && HashIdsInRange(f)
    ensures f'.hash == f.hash && f'.ifs == f.ifs && f'.indirect == f.indirect && |f'.rings| == |f.rings|
    ensures forall i :: 0 <= i < |f.rings| ==> (f'.rings[i].Some? <==> f.rings[i].Some?)
    ensures forall i :: 0 <= i < |f.rings| && f.rings[i].Some? ==>
              f'.rings[i].value == f.rings[i].value.(status := f'.rings[i].value.status)
  {
    f.(rings := seq(|f.rings|, i requires 0 <= i < |f.rings| =>
         if f.rings[i].Some? && f.rings[i].value.status == Open && gone(f.hash[f.rings[i].value.hashId])
         then Some(f.rings[i].value.(status := Closing)) else f.rings[i]))
  }

  function OfPeer(sta: bool, peer: Mac, ifidx: nat): Slot -> bool {
    (slot: Slot) => (sta || slot.mac == peer) && slot.ifidx == ifidx
  }

  function OfInterface(ifidx: nat): Slot -> bool {
    (slot: Slot) => slot.ifidx == ifidx
  }

  predicate HashIdsInRange(f: Flow) {
    forall i :: 0 <= i < |f.rings| && f.rings[i].Some? ==> f.rings[i].value.hashId < HASHSIZE
  }

  // An interface changes its address mode.
  function Configured(f: Flow, ifidx: nat, indirect: bool): (f': Flow)
    requires Shaped(f) && HashIdsInRange(f) && ifidx < MAX_IFS
    ensures Shaped(f')
  {
    if f.indirect[ifidx] == indirect then f
    else
      var f1 := CloseGone(f, OfInterface(ifidx));
      f1.(indirect := f1.indirect[ifidx := indirect])
  }

  // A peer leaves.
  function Departed(f: Flow, ifidx: nat, peer: Mac, isTdls: bool): (f': Flow)
    requires Shaped(f) && HashIdsInRange(f) && ifidx < MAX_IFS
    ensures Shaped(f')
  {
    CloseGone(f, OfPeer(f.indirect[ifidx] && !isTdls, peer, ifidx))
  }
}
