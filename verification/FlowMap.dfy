// The hash over whole runs in which the address modes stay and there are no TDLS peers: a
// plain map.

module FlowMap {
  import opened Wrappers
  import opened FlowSpec
  import opened FlowTable
  import opened FlowControl

  ghost predicate MapInv(f: Flow) {
    Inv(f) && Controlled(f)
  }

  // No mode is switched, no ring is created without looking, and nobody is a TDLS peer.
  predicate KeepsMap(e: Event) {
    match e
    case Get(_, _, _, isTdls) => !isTdls
    case Make(_, _, _, _) => false
    case SwitchMode(_, _) => false
    case _ => true
  }

  predicate AllKeepMap(events: seq<Event>) {
    forall i :: 0 <= i < |events| ==> KeepsMap(events[i])
  }

  lemma AllKeepMapTail(events: seq<Event>)
    requires events != [] && AllKeepMap(events)
    ensures KeepsMap(events[0]) && AllKeepMap(events[1..])
  {
  }

  // What an event does to the plain map: a lookup that misses may add its key with a ring
  // that is not in the map, and does unless all rings are in the map or no slot is free; a
  // deletion drops the keys of its ring; nothing else changes it.
  ghost predicate MapStep(f: Flow, e: Event, m: map<Key, nat>, m': map<Key, nat>)
    requires Shaped(f) && Enabled(f, e) && KeepsMap(e)
  {
    match e
    case Get(da, prio, ifidx, _) =>
      var k := QueryKey(TheQuery(f, da, prio, ifidx, false));
      if k in m then m' == m
      else if k in m' then m'[k] !in m.Values && m' == m[k := m'[k]]
      else
        && m' == m
        && ((forall i :: 0 <= i < |f.rings| ==> i in m.Values) || forall s :: 0 <= s < HASHSIZE ==> Occupied(f.hash, s))
    case DeleteRing(i) => m' == map k | k in m && m[k] != i :: m[k]
    case _ => m' == m
  }

  lemma TableLive(f: Flow, k: Key)
    requires Inv(f) && k in TableOf(f)
    ensures TableOf(f)[k] < |f.rings| && f.rings[TableOf(f)[k]].Some?
    ensures f.rings[TableOf(f)[k]].value.hashId == SlotOf(f.hash, f.indirect, k)
  {
    var s := SlotOf(f.hash, f.indirect, k);
    assert f.hash[s].ifidx != INVALID_IFIDX;
  }

  lemma LiveInTable(f: Flow, i: nat)
    requires Inv(f) && i < |f.rings| && f.rings[i].Some?
    ensures i in TableOf(f).Values
  {
    LiveIfidx(f, i);
    var s := f.rings[i].value.hashId;
    TableAt(f.hash, f.indirect, s);
    assert SlotKey(f.hash[s], f.indirect) in TableOf(f);
  }

  lemma GetMap(f: Flow, da: Mac, prio: nat, ifidx: nat)
    requires MapInv(f) && prio < 8 && ifidx < MAX_IFS
    ensures var f' := Apply(f, Get(da, prio, ifidx, false));
            Inv(f') && f'.indirect == f.indirect && MapStep(f, Get(da, prio, ifidx, false), TableOf(f), TableOf(f'))
  {
    var q := TheQuery(f, da, prio, ifidx, false);
    ClassifyIsPlain(f, da, prio, ifidx);
    LookupIsMap(f, q);
    if Lookup(f, q).None? {
      CreateIsInsert(f, q);
      var r := Create(f, q).1;
      if r.Ok? && r.value in TableOf(f).Values {
        var k :| k in TableOf(f) && TableOf(f)[k] == r.value;
        TableLive(f, k);
      } else if r == Err(NoRing) {
        forall i | 0 <= i < |f.rings|
          ensures i in TableOf(f).Values
        {
          LiveInTable(f, i);
        }
      }
    }
  }

  lemma DeleteMap(f: Flow, i: nat)
    requires MapInv(f) && i < |f.rings|
    ensures var f' := Apply(f, DeleteRing(i));
            Inv(f') && f'.indirect == f.indirect && MapStep(f, DeleteRing(i), TableOf(f), TableOf(f'))
  {
    var m := TableOf(f);
    if f.rings[i].Some? {
      LiveIfidx(f, i);
      DeleteIsRemove(f, i);
      DropOnly(m, SlotKey(f.hash[f.rings[i].value.hashId], f.indirect), i) by {
        forall k | k in m && m[k] == i
          ensures k == SlotKey(f.hash[f.rings[i].value.hashId], f.indirect)
        {
          TableLive(f, k);
        }
      }
    } else {
      forall k | k in m
        ensures m[k] != i
      {
        TableLive(f, k);
      }
      assert m == map k | k in m && m[k] != i :: m[k];
    }
  }

  lemma DropOnly(m: map<Key, nat>, k': Key, i: nat)
    requires k' in m && m[k'] == i && forall k <- m :: m[k] == i ==> k == k'
    ensures m - {k'} == map k | k in m && m[k] != i :: m[k]
  {
  }

  lemma StepMap(f: Flow, e: Event)
    requires MapInv(f) && Enabled(f, e) && KeepsMap(e)
    ensures var f' := Apply(f, e);
            Inv(f') && f'.indirect == f.indirect && MapStep(f, e, TableOf(f), TableOf(f'))
  {
    StepControlled(f, e);
    match e
    case Get(da, prio, ifidx, _) => GetMap(f, da, prio, ifidx);
    case DeleteRing(i) => DeleteMap(f, i);
    case Enq(i, frame) => EnqueueHash(f, i, frame);
    case Deq(i) => DequeueHash(f, i);
    case Depart(x, peer, isTdls) => CloseGoneMap(f, OfPeer(f.indirect[x] && !isTdls, peer, x));
    case _ =>
  }

  lemma EnqueueHash(f: Flow, i: nat, frame: Frame)
    requires Linked(f) && Live(f, i)
    ensures IfidxOf(f, i) < MAX_IFS
    ensures Enqueue(f, i, frame).hash == f.hash && Enqueue(f, i, frame).indirect == f.indirect
  {
    LiveIfidx(f, i);
  }

  lemma DequeueHash(f: Flow, i: nat)
    requires Linked(f) && Live(f, i)
    ensures IfidxOf(f, i) < MAX_IFS
    ensures Dequeue(f, i).0.hash == f.hash && Dequeue(f, i).0.indirect == f.indirect
  {
    LiveIfidx(f, i);
  }

  lemma StepInv(f: Flow, e: Event)
    requires MapInv(f) && Enabled(f, e) && KeepsMap(e)
    ensures MapInv(Apply(f, e))
  {
    StepControlled(f, e);
    StepMap(f, e);
  }

  // Asking for the deletion of many rings at once leaves the map alone.
  lemma CloseGoneMap(f: Flow, gone: Slot -> bool)
    requires MapInv(f)
    ensures MapInv(CloseGone(f, gone)) && TableOf(CloseGone(f, gone)) == TableOf(f)
  {
    CloseGoneControlled(f, gone);
  }

  lemma AttachedMap(rings: nat, ifs: seq<Option<Iface>>, indirect: seq<bool>)
    requires Unstopped(ifs) && |indirect| == MAX_IFS
    ensures MapInv(Attached(rings, ifs, indirect)) && TableOf(Attached(rings, ifs, indirect)) == map[]
  {
    var f := Attached(rings, ifs, indirect);
    AttachedControlled(rings, ifs, indirect);
    assert Keys(f.hash, f.indirect) == {};
  }

  // In every run lookups answer like the map that the run's events maintain.
  ghost predicate IsMapRun(f: Flow, events: seq<Event>, maps: seq<map<Key, nat>>)
    requires MapInv(f) && Legal(f, events) && AllKeepMap(events)
    decreases |events|
  {
    && |maps| == |events| + 1
    && (events != [] ==>
          && MapStep(f, events[0], maps[0], maps[1])
          && (AllKeepMapTail(events); StepInv(f, events[0]); IsMapRun(Apply(f, events[0]), events[1..], maps[1..])))
  }

  ghost function Tables(f: Flow, events: seq<Event>): (maps: seq<map<Key, nat>>)
    requires MapInv(f) && Legal(f, events) && AllKeepMap(events)
    ensures |maps| == |events| + 1 && maps[0] == TableOf(f)
    decreases |events|
  {
    if events == [] then [TableOf(f)]
    else AllKeepMapTail(events); StepInv(f, events[0]); [TableOf(f)] + Tables(Apply(f, events[0]), events[1..])
  }

  lemma {:induction false} TablesAreMapRun(f: Flow, events: seq<Event>)
    requires MapInv(f) && Legal(f, events) && AllKeepMap(events)
    ensures IsMapRun(f, events, Tables(f, events))
    decreases |events|
  {
    if events != [] {
      AllKeepMapTail(events);
      StepInv(f, events[0]);
      StepMap(f, events[0]);
      TablesAreMapRun(Apply(f, events[0]), events[1..]);
      assert Tables(f, events)[1..] == Tables(Apply(f, events[0]), events[1..]);
    }
  }

  lemma {:induction false} LastTable(f: Flow, events: seq<Event>)
    requires MapInv(f) && Legal(f, events) && AllKeepMap(events)
    ensures MapInv(After(f, events)) && Tables(f, events)[|events|] == TableOf(After(f, events))
    decreases |events|
  {
    hide Inv, Controlled, TableOf;
    if events != [] {
      AllKeepMapTail(events);
      StepInv(f, events[0]);
      LastTable(Apply(f, events[0]), events[1..]);
    }
  }

  lemma LookupAlwaysMap(f: Flow, events: seq<Event>, da: Mac, prio: nat, ifidx: nat)
    requires MapInv(f) && Legal(f, events) && AllKeepMap(events) && prio < 8 && ifidx < MAX_IFS
    ensures var g := After(f, events);
            var m := Tables(f, events)[|events|];
            var k := QueryKey(TheQuery(g, da, prio, ifidx, false));
            && IsMapRun(f, events, Tables(f, events))
            && Lookup(g, TheQuery(g, da, prio, ifidx, false)) == if k in m then Some(m[k]) else None
  {
    hide IsMapRun, Tables;
    var g := After(f, events);
    TablesAreMapRun(f, events);
    LastTable(f, events);
    ClassifyIsPlain(g, da, prio, ifidx);
    LookupIsMap(g, TheQuery(g, da, prio, ifidx, false));
  }
}
