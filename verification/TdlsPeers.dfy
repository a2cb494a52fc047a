// The linked list of TDLS peers (flowring.c).

module TdlsSpec {
  import opened FlowSpec

  datatype Op = Add(peer: Mac) | Del(peer: Mac)

  predicate NoDuplicates(macs: seq<Mac>) {
    forall i, j :: 0 <= i < j < |macs| ==> macs[i] != macs[j]
  }

  function Added(macs: seq<Mac>, peer: Mac): seq<Mac> {
    if peer in macs then macs else macs + [peer]
  }

  function Removed(macs: seq<Mac>, peer: Mac): (r: seq<Mac>) {
    if macs == [] then []
    else if macs[0] == peer then macs[1..]
    else [macs[0]] + Removed(macs[1..], peer)
  }

  function After(ops: seq<Op>): seq<Mac> {
    if ops == [] then []
    else
      var macs := After(ops[..|ops| - 1]);
      match ops[|ops| - 1]
      case Add(peer) => Added(macs, peer)
      case Del(peer) => Removed(macs, peer)
  }

  lemma {:induction false} RemovedMeans(macs: seq<Mac>, peer: Mac)
    requires NoDuplicates(macs)
    ensures NoDuplicates(Removed(macs, peer))
    ensures forall m :: m in Removed(macs, peer) <==> m in macs && m != peer
  {
    if macs != [] && macs[0] != peer {
      RemovedMeans(macs[1..], peer);
      assert macs == [macs[0]] + macs[1..];
      var r := Removed(macs[1..], peer);
      forall j | 0 <= j < |r|
        ensures r[j] != macs[0]
      {
        assert r[j] in macs[1..];
      }
    } else if macs != [] {
      assert macs == [macs[0]] + macs[1..];
      assert forall j :: 0 <= j < |macs[1..]| ==> macs[1..][j] == macs[j + 1] != peer;
    }
  }

  lemma AddedUnique(macs: seq<Mac>, peer: Mac)
    requires NoDuplicates(macs)
    ensures NoDuplicates(Added(macs, peer))
  {
  }

  // `peer` was added and not deleted since.
  ghost predicate Present(ops: seq<Op>, peer: Mac) {
    exists i :: 0 <= i < |ops| && ops[i] == Add(peer) && forall j :: i < j < |ops| ==> ops[j] != Del(peer)
  }

  lemma PresentStep(ops: seq<Op>, peer: Mac)
    requires ops != []
    ensures Present(ops, peer) <==>
              ops[|ops| - 1] == Add(peer) || (ops[|ops| - 1] != Del(peer) && Present(ops[..|ops| - 1], peer))
  {
    var n := |ops| - 1;
    if Present(ops, peer) && ops[n] != Add(peer) {
      var i :| 0 <= i < |ops| && ops[i] == Add(peer) && forall j :: i < j < |ops| ==> ops[j] != Del(peer);
      assert ops[n] != Del(peer) && ops[..n][i] == Add(peer);
    }
    if ops[n] == Add(peer) {
      assert Present(ops, peer);
    } else if ops[n] != Del(peer) && Present(ops[..n], peer) {
      var i :| 0 <= i < n && ops[..n][i] == Add(peer) && forall j :: i < j < n ==> ops[..n][j] != Del(peer);
      assert forall j :: i < j < n ==> ops[j] == ops[..n][j];
      assert ops[i] == Add(peer);
    }
  }

  // After every sequence of adds and deletes the list has no duplicates and holds exactly
  // the peers added and not since deleted.
  lemma {:induction false} ListIsSet(ops: seq<Op>, peer: Mac)
    ensures NoDuplicates(After(ops))
    ensures peer in After(ops) <==> Present(ops, peer)
  {
    if ops != [] {
      var init := ops[..|ops| - 1];
      ListIsSet(init, peer);
      PresentStep(ops, peer);
      match ops[|ops| - 1]
      case Add(p) => AddedUnique(After(init), p);
      case Del(p) => RemovedMeans(After(init), p);
    }
  }
}

module TdlsPeers {
  import opened FlowSpec
  import opened TdlsSpec

  class Entry {
    var mac: Mac
    var next: Entry?

    constructor (mac: Mac)
      ensures this.mac == mac && next == null
    {
      this.mac, next := mac, null;
    }
  }

  class Peers {
    var head: Entry?
    var active: bool
    ghost var nodes: seq<Entry>  // the entries in list order

    // The links run through `nodes` once and end: the list is acyclic.
    ghost predicate Linked()
      reads this`head, this`nodes, nodes
    {
      && (forall i, j :: 0 <= i < j < |nodes| ==> nodes[i] != nodes[j])
      && head == (if nodes == [] then null else nodes[0])
      && (forall i {:trigger nodes[i].next} :: 0 <= i < |nodes| ==>
            nodes[i].next == if i + 1 < |nodes| then nodes[i + 1] else null)
    }

    ghost function Macs(): (macs: seq<Mac>)
      reads this`nodes, nodes
      ensures |macs| == |nodes| && forall i :: 0 <= i < |nodes| ==> macs[i] == nodes[i].mac
    {
      var ns := nodes;
      seq(|ns|, i requires 0 <= i < |ns| reads ns => ns[i].mac)
    }

    ghost function Repr(): set<Entry>
      reads this`nodes
    {
      set n | n in nodes
    }

    ghost predicate Valid()
      reads this, nodes
    {
      Linked() && NoDuplicates(Macs()) && (active <==> head != null)
    }

    constructor ()
      ensures Valid() && Macs() == []
    {
      head, active, nodes := null, false, [];
    }

    method IsTdlsMac(mac: Mac) returns (found: bool)
      requires Valid()
      ensures found <==> mac in Macs()
    {
      var search := head;
      ghost var k := 0;
      while search != null
        invariant k <= |nodes| && search == (if k < |nodes| then nodes[k] else null)
        invariant mac !in Macs()[..k]
        decreases |nodes| - k
      {
        if search.mac == mac {
          assert Macs()[k] == mac;
          return true;
        }
        search := search.next;
        k := k + 1;
      }
      assert Macs()[..k] == Macs();
      return false;
    }

    // Where a new entry would go, unless the peer is on the list.
    method Tail(peer: Mac) returns (found: bool, search: Entry)
      requires Valid() && head != null
      ensures found <==> peer in Macs()
      ensures !found ==> nodes != [] && search == nodes[|nodes| - 1]
    {
      hide NoDuplicates;
      search := head;
      if search.mac == peer {
        assert Macs()[0] == peer;
        return true, search;
      }
      ghost var k := 0;
      while search.next != null
        invariant k < |nodes| && search == nodes[k] && peer !in Macs()[..k + 1]
        decreases |nodes| - k
      {
        search := search.next;
        k := k + 1;
        if search.mac == peer {
          assert Macs()[k] == peer;
          return true, search;
        }
      }
      assert Macs()[..k + 1] == Macs();
      found := false;
    }

    method Link(entry: Entry, search: Entry?)
      requires Linked() && entry !in nodes && entry.next == null
      requires search == (if nodes == [] then null else nodes[|nodes| - 1])
      modifies this`head, this`nodes, nodes
      ensures Linked() && head != null && nodes == old(nodes) + [entry]
      ensures Macs() == old(Macs()) + [entry.mac]
    {
      if search == null {
        head := entry;
      } else {
        search.next := entry;
      }
      nodes := nodes + [entry];
    }

    lemma HeadOf()
      requires Linked()
      ensures head == null <==> nodes == []
    {
    }

    method AddPeer(peer: Mac)
      requires Valid()
      modifies this, nodes
      ensures Valid() && fresh(Repr() - old(Repr()))
      ensures Macs() == Added(old(Macs()), peer)
    {
      hide NoDuplicates, Linked, Macs;
      AddedUnique(Macs(), peer);
      HeadOf();
      var entry := new Entry(peer);
      var search: Entry? := null;
      if head != null {
        var found;
        found, search := Tail(peer);
        if found {
          return;
        }
      }
      Link(entry, search);
      active := true;
    }

    // The entry of a peer, if any, and the one in front of it.
    method Find(peer: Mac) returns (search: Entry?, prev: Entry?, ghost k: nat)
      requires Valid()
      ensures k <= |nodes| && search == (if k < |nodes| then nodes[k] else null)
      ensures prev == (if k == 0 then null else nodes[k - 1])
      ensures peer !in Macs()[..k] && (search != null ==> Macs()[k] == peer)
    {
      search, prev, k := head, null, 0;
      while search != null
        invariant k <= |nodes| && search == (if k < |nodes| then nodes[k] else null)
        invariant prev == (if k == 0 then null else nodes[k - 1])
        invariant peer !in Macs()[..k]
        decreases |nodes| - k
      {
        if search.mac == peer {
          break;
        }
        prev := search;
        search := search.next;
        k := k + 1;
      }
    }

    method Unlink(search: Entry, prev: Entry?, ghost k: nat)
      requires Valid() && k < |nodes| && search == nodes[k]
      requires prev == (if k == 0 then null else nodes[k - 1])
      modifies this, nodes
      ensures Linked() && (active <==> head != null)
      ensures nodes == old(nodes)[..k] + old(nodes)[k + 1..]
      ensures forall n <- old(nodes) :: n.mac == old(n.mac)
    {
      if prev != null {
        prev.next := search.next;
      } else {
        head := search.next;
      }
      nodes := nodes[..k] + nodes[k + 1..];
      if head == null {
        active := false;
      }
    }

    // The list part of delete_peer: whether the peer was there.
    method RemovePeer(peer: Mac) returns (found: bool)
      requires Valid()
      modifies this, nodes
      ensures Valid() && Repr() <= old(Repr())
      ensures found == (peer in old(Macs())) && Macs() == Removed(old(Macs()), peer)
    {
      hide NoDuplicates, Removed, Linked, Macs;
      var search, prev;
      ghost var k;
      search, prev, k := Find(peer);
      ghost var macs := Macs();
      RemovedMeans(macs, peer);
      if search != null {
        RemovedAt(macs, peer, k);
        Unlink(search, prev, k);
        assert Macs() == macs[..k] + macs[k + 1..];
        return true;
      }
      assert macs[..k] == macs;
      RemovedAbsent(macs, peer);
      return false;
    }
  }

  lemma {:induction false} RemovedAt(macs: seq<Mac>, peer: Mac, k: nat)
    requires k < |macs| && macs[k] == peer && peer !in macs[..k]
    ensures Removed(macs, peer) == macs[..k] + macs[k + 1..]
  {
    if k > 0 {
      assert macs[0] == macs[..k][0];
      assert macs[1..][..k - 1] == macs[..k][1..];
      RemovedAt(macs[1..], peer, k - 1);
    }
  }

  lemma {:induction false} RemovedAbsent(macs: seq<Mac>, peer: Mac)
    requires peer !in macs
    ensures Removed(macs, peer) == macs
  {
    if macs != [] {
      RemovedAbsent(macs[1..], peer);
    }
  }
}
