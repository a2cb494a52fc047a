// The hash of flowring.c as a plain map from keys to rings, over every sequence of creates
// and deletes.

module FlowTable {
  import opened Wrappers
  import opened RingIndex
  import opened FlowSpec

  // What a slot is looked up by: in station mode the address does not count.
  datatype Key = Key(mac: Option<Mac>, fifo: nat, ifidx: nat)

  type Modes = m: seq<bool> | |m| == MAX_IFS witness seq(MAX_IFS, _ => true)

  type Hash = h: seq<Slot> | |h| == HASHSIZE witness seq(HASHSIZE, _ => Slot(ZERO_MAC, 0, 0, 0))

  predicate Occupied(hash: Hash, s: int) {
    0 <= s < HASHSIZE && hash[s].ifidx < MAX_IFS
  }

  function SlotKey(slot: Slot, modes: Modes): Key
    requires slot.ifidx < MAX_IFS
  {
    Key(if modes[slot.ifidx] then None else Some(slot.mac), slot.fifo, slot.ifidx)
  }

  function QueryKey(q: Query): Key {
    Key(if q.sta then None else Some(q.mac), q.fifo, q.ifidx)
  }

  // Slot `s` holds key `k`.
  predicate Holds(hash: Hash, modes: Modes, k: Key, s: int) {
    Occupied(hash, s) && SlotKey(hash[s], modes) == k
  }

  ghost predicate Unique(hash: Hash, modes: Modes) {
    forall s, t {:trigger Occupied(hash, s), Occupied(hash, t)} ::
      Occupied(hash, s) && Occupied(hash, t) && SlotKey(hash[s], modes) == SlotKey(hash[t], modes) ==> s == t
  }

  // Occupied slots and live rings are in one-to-one correspondence.
  ghost predicate Linked(f: Flow) {
    && Shaped(f)
    && (forall s {:trigger f.hash[s]} :: 0 <= s < HASHSIZE ==>
          if f.hash[s].ifidx == INVALID_IFIDX then IsFree(f.hash[s])
          else
            && f.hash[s].ifidx < MAX_IFS
            && f.hash[s].flowid < |f.rings| && f.rings[f.hash[s].flowid].Some?
            && f.rings[f.hash[s].flowid].value.hashId == s)
    && (forall i {:trigger f.rings[i]} :: 0 <= i < |f.rings| && f.rings[i].Some? ==>
          && f.rings[i].value.hashId < HASHSIZE
          && f.hash[f.rings[i].value.hashId].ifidx != INVALID_IFIDX
          && f.hash[f.rings[i].value.hashId].flowid == i)
  }

  ghost predicate Inv(f: Flow) {
    Linked(f) && Unique(f.hash, f.indirect)
  }

  ghost function Keys(hash: Hash, modes: Modes): set<Key> {
    set s | 0 <= s < HASHSIZE && Occupied(hash, s) :: SlotKey(hash[s], modes)
  }

  ghost function SlotOf(hash: Hash, modes: Modes, k: Key): (s: int)
    requires k in Keys(hash, modes)
    ensures Holds(hash, modes, k, s)
  {
    var s :| 0 <= s < HASHSIZE && Occupied(hash, s) && SlotKey(hash[s], modes) == k;
    s
  }

  // The plain map the hash stands for.
  ghost function Table(hash: Hash, modes: Modes): (m: map<Key, nat>)
    ensures m.Keys == Keys(hash, modes)
  {
    map k | k in Keys(hash, modes) :: hash[SlotOf(hash, modes, k)].flowid
  }

  ghost function TableOf(f: Flow): map<Key, nat>
    requires Shaped(f)
  {
    Table(f.hash, f.indirect)
  }

  lemma TableAt(hash: Hash, modes: Modes, s: int)
    requires Unique(hash, modes) && Occupied(hash, s)
    ensures SlotKey(hash[s], modes) in Table(hash, modes)
    ensures Table(hash, modes)[SlotKey(hash[s], modes)] == hash[s].flowid
  {
    var k := SlotKey(hash[s], modes);
    assert k in Keys(hash, modes);
    assert Occupied(hash, SlotOf(hash, modes, k));
  }

  // A map that agrees with every slot, and has no other keys, is the table.
  lemma TableIs(hash: Hash, modes: Modes, m: map<Key, nat>)
    requires Unique(hash, modes)
    requires forall s {:trigger Occupied(hash, s)} :: Occupied(hash, s) ==>
               SlotKey(hash[s], modes) in m && m[SlotKey(hash[s], modes)] == hash[s].flowid
    requires forall k <- m :: k in Keys(hash, modes)
    ensures Table(hash, modes) == m
  {
    var t := Table(hash, modes);
    forall k | k in t
      ensures k in m && m[k] == t[k]
    {
      assert Occupied(hash, SlotOf(hash, modes, k));
    }
    assert t.Keys == m.Keys;
  }

  // Probing visits every slot, so it misses only what is not there.
  lemma {:induction false} ProbeMisses(hash: Hash, h: nat, i: nat, p: Slot -> bool, s: nat)
    requires h < HASHSIZE && i <= HASHSIZE && s < HASHSIZE
    requires Probe(hash, h, i, p).None? && Distance(h, s, HASHSIZE) >= i
    ensures !p(hash[s])
    decreases HASHSIZE - i
  {
    if Distance(h, s, HASHSIZE) > i {
      ProbeMisses(hash, h, i + 1, p, s);
    }
  }

  // With no TDLS peers a query is in station mode exactly when its interface is.
  predicate Plain(f: Flow, q: Query)
    requires Shaped(f)
  {
    q.ifidx < MAX_IFS && q.sta == f.indirect[q.ifidx]
  }

  lemma ClassifyIsPlain(f: Flow, da: Mac, prio: nat, ifidx: nat)
    requires Shaped(f) && prio < 8 && ifidx < MAX_IFS
    ensures Plain(f, Classify(f.indirect[ifidx], false, da, prio, ifidx))
  {
  }

  lemma MatchesIsKey(f: Flow, q: Query, s: nat)
    requires Linked(f) && Plain(f, q) && s < HASHSIZE
    ensures Matches(f.hash[s], q) <==> Holds(f.hash, f.indirect, QueryKey(q), s)
  {
  }

  // Despite holes and wrapped probes the hash answers like the map.
  lemma LookupIsMap(f: Flow, q: Query)
    requires Inv(f) && Plain(f, q)
    ensures Lookup(f, q) == if QueryKey(q) in TableOf(f) then Some(TableOf(f)[QueryKey(q)]) else None
  {
    var p := slot => Matches(slot, q);
    var r := Probe(f.hash, HomeSlot(q), 0, p);
    var k := QueryKey(q);
    if r.Some? {
      MatchesIsKey(f, q, r.value);
      TableAt(f.hash, f.indirect, r.value);
    } else if k in TableOf(f) {
      var s := SlotOf(f.hash, f.indirect, k);
      MatchesIsKey(f, q, s);
      ProbeMisses(f.hash, HomeSlot(q), 0, p, s);
    }
  }

  // ---- filling and freeing one slot ----

  lemma FillUnique(hash: Hash, modes: Modes, s': nat, slot: Slot)
    requires Unique(hash, modes) && s' < HASHSIZE && slot.ifidx < MAX_IFS
    requires !Occupied(hash, s') && SlotKey(slot, modes) !in Table(hash, modes)
    ensures Unique(hash[s' := slot], modes)
    ensures Table(hash[s' := slot], modes) == Table(hash, modes)[SlotKey(slot, modes) := slot.flowid]
  {
    var hash': Hash, k' := hash[s' := slot], SlotKey(slot, modes);
    forall s | Occupied(hash, s)
      ensures s != s' && SlotKey(hash[s], modes) != k' && Occupied(hash', s)
    {
      TableAt(hash, modes, s);
    }
    forall s, t | Occupied(hash', s) && Occupied(hash', t) && SlotKey(hash'[s], modes) == SlotKey(hash'[t], modes)
      ensures s == t
    {
      assert s == s' || Occupied(hash, s);
      assert t == s' || Occupied(hash, t);
    }
    var m := Table(hash, modes)[k' := slot.flowid];
    forall s | Occupied(hash', s)
      ensures SlotKey(hash'[s], modes) in m && m[SlotKey(hash'[s], modes)] == hash'[s].flowid
    {
      if s != s' {
        assert Occupied(hash, s);
        TableAt(hash, modes, s);
      }
    }
    forall k | k in m
      ensures k in Keys(hash', modes)
    {
      var s := if k == k' then s' else SlotOf(hash, modes, k);
      assert Occupied(hash', s) && SlotKey(hash'[s], modes) == k;
    }
    TableIs(hash', modes, m);
  }

  lemma FreeUnique(hash: Hash, modes: Modes, s': nat, slot: Slot)
    requires Unique(hash, modes) && Occupied(hash, s') && slot.ifidx == INVALID_IFIDX
    ensures Unique(hash[s' := slot], modes)
    ensures Table(hash[s' := slot], modes) == Table(hash, modes) - {SlotKey(hash[s'], modes)}
  {
    var hash': Hash, k' := hash[s' := slot], SlotKey(hash[s'], modes);
    forall s | Occupied(hash', s)
      ensures s != s' && Occupied(hash, s) && hash'[s] == hash[s]
    {
    }
    var m := Table(hash, modes) - {k'};
    forall s | Occupied(hash', s)
      ensures SlotKey(hash'[s], modes) in m && m[SlotKey(hash'[s], modes)] == hash'[s].flowid
    {
      assert Occupied(hash, s);
      TableAt(hash, modes, s);
    }
    forall k | k in m
      ensures k in Keys(hash', modes)
    {
      var s := SlotOf(hash, modes, k);
      assert Occupied(hash', s) && SlotKey(hash'[s], modes) == k;
    }
    TableIs(hash', modes, m);
  }

  // ---- the operations ----

  lemma CreateLinked(f: Flow, q: Query)
    requires Linked(f) && q.ifidx < MAX_IFS
    ensures Linked(Create(f, q).0)
  {
  }

  // Creating adds the key, with the lowest ring not in use; it fails, changing nothing,
  // exactly when no slot or no ring is free.
  lemma CreateIsInsert(f: Flow, q: Query)
    requires Inv(f) && Plain(f, q) && Lookup(f, q).None?
    ensures var (f', r) := Create(f, q);
            && Inv(f') && f'.indirect == f.indirect
            && match r
               case Ok(i) =>
                 && QueryKey(q) !in TableOf(f) && TableOf(f') == TableOf(f)[QueryKey(q) := i]
                 && i < |f.rings| && f.rings[i].None? && forall j :: 0 <= j < i ==> f.rings[j].Some?
               case Err(NoRing) =>
                 f' == f && (forall i :: 0 <= i < |f.rings| ==> f.rings[i].Some?)
               case Err(HashFull) =>
                 f' == f && (forall s :: 0 <= s < HASHSIZE ==> Occupied(f.hash, s))
  {
    CreateLinked(f, q);
    LookupIsMap(f, q);
    var (f', r) := Create(f, q);
    match r
    case Ok(i) =>
      var s' := Probe(f.hash, HomeSlot(q), 0, IsFree).value;
      FillUnique(f.hash, f.indirect, s', f'.hash[s']);
    case Err(NoRing) =>
    case Err(HashFull) =>
      AllOccupied(f, q);
  }

  lemma AllOccupied(f: Flow, q: Query)
    requires Linked(f) && Probe(f.hash, HomeSlot(q), 0, IsFree).None?
    ensures forall s :: 0 <= s < HASHSIZE ==> Occupied(f.hash, s)
  {
    forall s | 0 <= s < HASHSIZE
      ensures Occupied(f.hash, s)
    {
      ProbeMisses(f.hash, HomeSlot(q), 0, IsFree, s);
    }
  }

  // Changing a live ring but not its place in the hash keeps the correspondence.
  lemma RingChangeLinked(f: Flow, flowid: nat, ring: Ring)
    requires Linked(f) && Live(f, flowid) && ring.hashId == f.rings[flowid].value.hashId
    ensures Linked(WithRing(f, flowid, ring)) && IfidxOf(f, flowid) < MAX_IFS
  {
  }

  lemma BlockKeepsTable(f: Flow, flowid: nat, blocked: bool)
    requires Linked(f) && Live(f, flowid)
    ensures IfidxOf(f, flowid) < MAX_IFS && Linked(Block(f, flowid, blocked))
    ensures Block(f, flowid, blocked).rings == f.rings[flowid := Some(f.rings[flowid].value.(blocked := blocked))]
  {
    RingChangeLinked(f, flowid, f.rings[flowid].value.(blocked := blocked));
  }

  // Deleting a ring removes exactly its key.
  lemma DeleteIsRemove(f: Flow, flowid: nat)
    requires Inv(f) && Live(f, flowid)
    ensures IfidxOf(f, flowid) < MAX_IFS
    ensures var k := SlotKey(f.hash[f.rings[flowid].value.hashId], f.indirect);
            var f' := Delete(f, flowid);
            && Inv(f') && f'.indirect == f.indirect
            && k in TableOf(f) && TableOf(f)[k] == flowid
            && TableOf(f') == TableOf(f) - {k}
  {
    BlockKeepsTable(f, flowid, false);
    var s' := f.rings[flowid].value.hashId;
    TableAt(f.hash, f.indirect, s');
    DeleteLinked(f, flowid);
    FreeUnique(f.hash, f.indirect, s', f.hash[s'].(ifidx := INVALID_IFIDX, mac := ZERO_MAC));
  }

  lemma DeleteLinked(f: Flow, flowid: nat)
    requires Linked(f) && Live(f, flowid)
    ensures IfidxOf(f, flowid) < MAX_IFS && Linked(Delete(f, flowid))
  {
    BlockKeepsTable(f, flowid, false);
    var f1, s' := Block(f, flowid, false), f.rings[flowid].value.hashId;
    var f' := Delete(f, flowid);
    forall i {:trigger f'.rings[i]} | 0 <= i < |f'.rings| && f'.rings[i].Some?
      ensures f'.rings[i].value.hashId < HASHSIZE && f'.rings[i].value.hashId != s'
    {
      assert f1.rings[i].Some?;
    }
    forall s {:trigger f'.hash[s]} | 0 <= s < HASHSIZE && s != s' && f'.hash[s].ifidx != INVALID_IFIDX
      ensures f'.hash[s].flowid != flowid
    {
      assert f1.hash[s] == f'.hash[s];
    }
  }
}
