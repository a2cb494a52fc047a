// The peer watcher (awdl-peer-watch.py): an ordered table of the peers registered with the
// firmware, whose own table has few entries.

module PeerSpec {
  import opened Bytes

  type Mac = seq<byte>

  // The limit of the watcher, the room in the firmware's table, the watcher's own address,
  // and the addresses it is confined to, if any.
  datatype Config = Config(max: nat, capacity: nat, own: Mac, only: set<Mac>)

  // The watcher's table in eviction order, the firmware's, and the permanent neighbours.
  datatype State = State(registered: seq<Mac>, fw: set<Mac>, neighbours: set<Mac>)

  function Elements<T>(s: seq<T>): set<T> {
    set x | x in s
  }

  function Without(s: seq<Mac>, m: Mac): (r: seq<Mac>)
    ensures forall x :: x in r <==> x in s && x != m
    ensures |r| <= |s| && (m in s ==> |r| < |s|)
  {
    if s == [] then [] else if s[0] == m then Without(s[1..], m) else [s[0]] + Without(s[1..], m)
  }

  // Which operations succeed: setting the neighbour, and the firmware's ADD and DEL.  An ADD
  // is refused as well when the firmware's table is full.
  datatype Ops = Ops(neigh: bool, add: bool, del: bool)

  predicate HasRoom(cfg: Config, s: State, m: Mac) {
    m in s.fw || |s.fw| < cfg.capacity
  }

  function Forgotten(s: State, m: Mac, del: bool): State {
    State(Without(s.registered, m), if del then s.fw - {m} else s.fw, s.neighbours - {m})
  }

  // Peers are forgotten from the front until there is room for one more.
  function Evicted(cfg: Config, s: State, del: bool): (r: State)
    requires cfg.max >= 1
    ensures |r.registered| < cfg.max
    decreases |s.registered|
  {
    if |s.registered| < cfg.max then s else Evicted(cfg, Forgotten(s, s.registered[0], del), del)
  }

  function Registered(cfg: Config, s: State, m: Mac, ops: Ops): State
    requires cfg.max >= 1
  {
    var s1 := Evicted(cfg, s, ops.del);
    if !ops.neigh then s1
    else
      var s2 := s1.(neighbours := s1.neighbours + {m});
      if ops.add && HasRoom(cfg, s2, m) then s2.(registered := s2.registered + [m], fw := s2.fw + {m}) else s2
  }

  // The source of a frame the watcher attends to.
  predicate FromPeer(cfg: Config, frame: seq<byte>, outgoing: bool) {
    !outgoing && |frame| >= 12 && frame[6..12] != cfg.own && frame[6] % 2 == 0
  }

  predicate Wanted(cfg: Config, m: Mac) {
    cfg.only == {} || m in cfg.only
  }

  function Received(cfg: Config, s: State, frame: seq<byte>, outgoing: bool, ops: Ops): State
    requires cfg.max >= 1
  {
    if !FromPeer(cfg, frame, outgoing) then s
    else
      var src := frame[6..12];
      if src in s.registered then s.(registered := Without(s.registered, src) + [src])
      else if !Wanted(cfg, src) then s
      else Registered(cfg, s, src, ops)
  }

  // A new watcher starts empty and gives back what the last one's neighbours stand for, but
  // for the peers whose DEL has failed.
  function Resynced(s: State, failed: set<Mac>): State {
    State([], s.fw - (s.neighbours - failed), {})
  }

  function Released(s: State, failed: set<Mac>): State {
    State([], s.fw - (Elements(s.registered) - failed), s.neighbours - Elements(s.registered))
  }

  datatype Event =
    | Heard(frame: seq<byte>, outgoing: bool, ops: Ops)
    | Restart(failed: set<Mac>)
    | Release(failed: set<Mac>)

  function Step(cfg: Config, s: State, e: Event): State
    requires cfg.max >= 1
  {
    match e
    case Heard(frame, outgoing, ops) => Received(cfg, s, frame, outgoing, ops)
    case Restart(failed) => Resynced(s, failed)
    case Release(failed) => Released(s, failed)
  }

  function Run(cfg: Config, s: State, es: seq<Event>): State
    requires cfg.max >= 1
    decreases |es|
  {
    if es == [] then s else Step(cfg, Run(cfg, s, es[..|es| - 1]), es[|es| - 1])
  }

  // The wanted sources heard since the watcher started, one for each frame.
  function History(cfg: Config, es: seq<Event>): seq<Mac>
    decreases |es|
  {
    if es == [] then []
    else Extended(cfg, History(cfg, es[..|es| - 1]), es[|es| - 1])
  }

  function Extended(cfg: Config, h: seq<Mac>, e: Event): seq<Mac> {
    if !e.Heard? then []
    else if FromPeer(cfg, e.frame, e.outgoing) && Wanted(cfg, e.frame[6..12]) then h + [e.frame[6..12]]
    else h
  }

  // When a peer was last heard; -1 for never.
  function LastIndex(h: seq<Mac>, m: Mac): (i: int)
    ensures -1 <= i < |h|
    ensures i >= 0 ==> h[i] == m
    ensures forall j :: i < j < |h| ==> h[j] != m
  {
    if h == [] then -1
    else if h[|h| - 1] == m then |h| - 1
    else LastIndex(h[..|h| - 1], m)
  }

  lemma LastIndexAppend(h: seq<Mac>, x: Mac, m: Mac)
    ensures LastIndex(h + [x], m) == if m == x then |h| else LastIndex(h, m)
  {
    assert (h + [x])[..|h|] == h;
  }

  // The table is in the order its peers were last heard in, the longest ago first.
  predicate InOrder(reg: seq<Mac>, h: seq<Mac>) {
    && (forall i :: 0 <= i < |reg| ==> LastIndex(h, reg[i]) >= 0)
    && (forall i, j :: 0 <= i < j < |reg| ==> LastIndex(h, reg[i]) < LastIndex(h, reg[j]))
  }

  // Peers heard but not in the table were heard before all that are, and only when it is full.
  predicate Complete(reg: seq<Mac>, h: seq<Mac>, max: nat) {
    && |reg| <= max
    && forall m :: m in h && m !in reg ==>
         |reg| == max && forall i :: 0 <= i < |reg| ==> LastIndex(h, m) < LastIndex(h, reg[i])
  }

  // What holds in every run, whatever fails.
  predicate Inv(cfg: Config, s: State, h: seq<Mac>) {
    && |s.registered| <= cfg.max
    && InOrder(s.registered, h)
    && (forall m :: m in s.registered ==> m in s.fw && m in s.neighbours && Wanted(cfg, m))
  }

  // The two tables agree.
  predicate Agree(s: State) {
    s.fw == Elements(s.registered)
  }

  lemma {:induction false} WithoutOrdered(reg: seq<Mac>, h: seq<Mac>, m: Mac)
    requires InOrder(reg, h)
    ensures InOrder(Without(reg, m), h)
  {
    hide LastIndex, InOrder;
    if reg != [] {
      Behind(reg, h);
      WithoutOrdered(reg[1..], h, m);
      if reg[0] != m {
        InFront(reg[0], Without(reg[1..], m), h);
      }
    }
  }

  lemma OrderedAt(r: seq<Mac>, h: seq<Mac>, i: nat, j: nat)
    requires InOrder(r, h) && i < j < |r|
    ensures LastIndex(h, r[i]) < LastIndex(h, r[j])
  {
    hide LastIndex;
  }

  // One heard before all the others goes in front of them.
  lemma InFront(x: Mac, r: seq<Mac>, h: seq<Mac>)
    requires InOrder(r, h) && LastIndex(h, x) >= 0
    requires forall y :: y in r ==> LastIndex(h, x) < LastIndex(h, y)
    ensures InOrder([x] + r, h)
  {
    hide LastIndex;
    InFrontAt(x, r, h);
  }

  lemma InFrontAt(x: Mac, r: seq<Mac>, h: seq<Mac>)
    requires InOrder(r, h) && LastIndex(h, x) >= 0
    requires forall y :: y in r ==> LastIndex(h, x) < LastIndex(h, y)
    ensures forall i :: 0 <= i < |[x] + r| ==> LastIndex(h, ([x] + r)[i]) >= 0
    ensures forall i, j :: 0 <= i < j < |[x] + r| ==> LastIndex(h, ([x] + r)[i]) < LastIndex(h, ([x] + r)[j])
  {
    hide LastIndex, InOrder;
    var s := [x] + r;
    forall i, j | 0 <= i < j < |s|
      ensures LastIndex(h, s[i]) < LastIndex(h, s[j])
    {
      if i > 0 {
        OrderedAt(r, h, i - 1, j - 1);
      } else {
        assert s[j] in r;
      }
    }
    forall i | 0 <= i < |s|
      ensures LastIndex(h, s[i]) >= 0
    {
      assert i > 0 ==> s[i] in r;
    }
  }

  // Hearing a peer that is not in the table keeps the order of those that are.
  lemma OthersHeard(reg: seq<Mac>, h: seq<Mac>, x: Mac)
    requires InOrder(reg, h) && x !in reg
    ensures InOrder(reg, h + [x]) && InOrder(reg + [x], h + [x])
  {
    forall i | 0 <= i < |reg|
      ensures LastIndex(h + [x], reg[i]) == LastIndex(h, reg[i])
    {
      LastIndexAppend(h, x, reg[i]);
    }
    LastIndexAppend(h, x, x);
  }

  // In an ordered table no peer stands twice.
  lemma HeadOnce(reg: seq<Mac>, h: seq<Mac>)
    requires reg != [] && InOrder(reg, h)
    ensures Without(reg, reg[0]) == reg[1..]
  {
    assert forall i :: 0 < i < |reg| ==> reg[i] != reg[0];
    NotThere(reg[1..], reg[0]);
  }

  lemma {:induction false} NotThere(s: seq<Mac>, m: Mac)
    requires m !in s
    ensures Without(s, m) == s
  {
    if s != [] {
      NotThere(s[1..], m);
    }
  }

  // Who goes is the peer heard least recently; nobody else does.
  lemma EvictsOldest(cfg: Config, s: State, h: seq<Mac>, del: bool)
    requires cfg.max >= 1 && Inv(cfg, s, h)
    ensures var r := Evicted(cfg, s, del);
            && (|s.registered| < cfg.max ==> r == s)
            && (|s.registered| == cfg.max ==>
                  && r == Forgotten(s, s.registered[0], del) && r.registered == s.registered[1..]
                  && forall i :: 0 < i < |s.registered| ==>
                       LastIndex(h, s.registered[0]) < LastIndex(h, s.registered[i]))
  {
    if |s.registered| == cfg.max {
      HeadOnce(s.registered, h);
    }
  }

  lemma EvictedInv(cfg: Config, s: State, h: seq<Mac>, del: bool)
    requires cfg.max >= 1 && Inv(cfg, s, h)
    ensures Inv(cfg, Evicted(cfg, s, del), h)
    ensures del && Agree(s) ==> Agree(Evicted(cfg, s, del))
    ensures forall m :: m in Evicted(cfg, s, del).registered ==> m in s.registered
  {
    EvictsOldest(cfg, s, h, del);
    if |s.registered| == cfg.max {
      WithoutOrdered(s.registered, h, s.registered[0]);
    }
  }

  lemma RegisteredInv(cfg: Config, s: State, h: seq<Mac>, m: Mac, ops: Ops)
    requires cfg.max >= 1 && Inv(cfg, s, h) && m !in s.registered && Wanted(cfg, m)
    ensures Inv(cfg, Registered(cfg, s, m, ops), h + [m])
    ensures ops.del && Agree(s) ==> Agree(Registered(cfg, s, m, ops))
  {
    hide InOrder, Evicted;
    EvictedInv(cfg, s, h, ops.del);
    OthersHeard(Evicted(cfg, s, ops.del).registered, h, m);
  }

  lemma StepInv(cfg: Config, s: State, h: seq<Mac>, e: Event)
    requires cfg.max >= 1 && Inv(cfg, s, h)
    ensures Inv(cfg, Step(cfg, s, e), Extended(cfg, h, e))
  {
    hide InOrder, Registered;
    match e
    case Heard(frame, outgoing, ops) =>
      if FromPeer(cfg, frame, outgoing) {
        var src := frame[6..12];
        if src in s.registered {
          WithoutOrdered(s.registered, h, src);
          OthersHeard(Without(s.registered, src), h, src);
        } else if Wanted(cfg, src) {
          RegisteredInv(cfg, s, h, src, ops);
        }
      }
    case Restart(failed) => NoneOrdered([]);
    case Release(failed) => NoneOrdered([]);
  }

  lemma NoneOrdered(h: seq<Mac>)
    ensures InOrder([], h)
  {
  }

  const START: State := State([], {}, {})

  // In every run, whatever operations fail: the table keeps its limit and its order, and
  // every registered peer has its firmware entry and its neighbour.
  lemma {:induction false} RunInv(cfg: Config, es: seq<Event>)
    requires cfg.max >= 1
    ensures Inv(cfg, Run(cfg, START, es), History(cfg, es))
    decreases |es|
  {
    if es != [] {
      RunInv(cfg, es[..|es| - 1]);
      StepInv(cfg, Run(cfg, START, es[..|es| - 1]), History(cfg, es[..|es| - 1]), es[|es| - 1]);
    }
  }

  // ---- runs in which the firmware's DEL succeeds ----

  predicate Deletes(e: Event) {
    if e.Heard? then e.ops.del else e.failed == {}
  }

  predicate AllDelete(es: seq<Event>) {
    forall i :: 0 <= i < |es| ==> Deletes(es[i])
  }

  lemma StepAgree(cfg: Config, s: State, h: seq<Mac>, e: Event)
    requires cfg.max >= 1 && Inv(cfg, s, h) && Agree(s) && Deletes(e)
    ensures Agree(Step(cfg, s, e))
  {
    hide InOrder, Registered;
    match e
    case Heard(frame, outgoing, ops) =>
      if FromPeer(cfg, frame, outgoing) {
        var src := frame[6..12];
        if src !in s.registered && Wanted(cfg, src) {
          RegisteredInv(cfg, s, h, src, ops);
        }
      }
    case Restart(failed) =>
    case Release(failed) =>
  }

  // The firmware's table is then exactly the watcher's, even where an ADD or a neighbour
  // failed and across restarts ...
  lemma {:induction false} TablesAgree(cfg: Config, es: seq<Event>)
    requires cfg.max >= 1 && AllDelete(es)
    ensures Agree(Run(cfg, START, es))
    decreases |es|
  {
    if es != [] {
      var before := es[..|es| - 1];
      assert Deletes(es[|es| - 1]);
      TablesAgree(cfg, before);
      RunInv(cfg, before);
      StepAgree(cfg, Run(cfg, START, before), History(cfg, before), es[|es| - 1]);
    }
  }

  lemma {:induction false} NoMoreThan(s: seq<Mac>)
    ensures |Elements(s)| <= |s|
  {
    if s != [] {
      NoMoreThan(s[1..]);
      assert Elements(s) == {s[0]} + Elements(s[1..]);
    }
  }

  // ... so that no ADD ever meets a full table.
  lemma NeverFull(cfg: Config, es: seq<Event>, m: Mac)
    requires 1 <= cfg.max <= cfg.capacity && AllDelete(es)
    ensures HasRoom(cfg, Evicted(cfg, Run(cfg, START, es), true), m)
  {
    hide InOrder, Evicted, Run;
    var s := Run(cfg, START, es);
    RunInv(cfg, es);
    TablesAgree(cfg, es);
    EvictedInv(cfg, s, History(cfg, es), true);
    NoMoreThan(Evicted(cfg, s, true).registered);
  }

  // ---- what a DEL that fails leaves behind ----

  // What a run does to the kernel's neighbours and the firmware's table: a neighbour set, an
  // ADD that works, and DELs of some peers with their neighbours, of which some fail.
  datatype Op = Neighbour(m: Mac) | Added(m: Mac) | Deleted(gone: set<Mac>, failed: set<Mac>)

  function EvictOps(cfg: Config, s: State, del: bool): seq<Op>
    requires cfg.max >= 1
    decreases |s.registered|
  {
    if |s.registered| < cfg.max then []
    else
      var m := s.registered[0];
      [Deleted({m}, if del then {} else {m})] + EvictOps(cfg, Forgotten(s, m, del), del)
  }

  function RegisterOps(cfg: Config, s: State, m: Mac, ops: Ops): seq<Op>
    requires cfg.max >= 1
  {
    var s1 := Evicted(cfg, s, ops.del);
    EvictOps(cfg, s, ops.del)
    + (if !ops.neigh then []
       else if ops.add && HasRoom(cfg, s1, m) then [Neighbour(m), Added(m)]
       else [Neighbour(m)])
  }

  function OpsOf(cfg: Config, s: State, e: Event): seq<Op>
    requires cfg.max >= 1
  {
    match e
    case Heard(frame, outgoing, ops) =>
      if FromPeer(cfg, frame, outgoing) && frame[6..12] !in s.registered && Wanted(cfg, frame[6..12])
      then RegisterOps(cfg, s, frame[6..12], ops)
      else []
    case Restart(failed) => [Deleted(s.neighbours, failed)]
    case Release(failed) => [Deleted(Elements(s.registered), failed)]
  }

  function Trace(cfg: Config, es: seq<Event>): seq<Op>
    requires cfg.max >= 1
    decreases |es|
  {
    if es == [] then []
    else
      var init := es[..|es| - 1];
      Trace(cfg, init) + OpsOf(cfg, Run(cfg, START, init), es[|es| - 1])
  }

  // The last of the ADDs and the working DELs of a peer is an ADD.
  predicate Entered(t: seq<Op>, m: Mac)
    decreases |t|
  {
    t != []
    && var init := t[..|t| - 1];
       match t[|t| - 1]
       case Neighbour(_) => Entered(init, m)
       case Added(x) => x == m || Entered(init, m)
       case Deleted(gone, failed) => m !in gone - failed && Entered(init, m)
  }

  // The last of the DELs and the neighbour settings of a peer is a neighbour setting ...
  predicate Kept(t: seq<Op>, m: Mac)
    decreases |t|
  {
    t != []
    && var init := t[..|t| - 1];
       match t[|t| - 1]
       case Neighbour(x) => x == m || Kept(init, m)
       case Added(_) => Kept(init, m)
       case Deleted(gone, _) => m !in gone && Kept(init, m)
  }

  // ... or a DEL that failed.
  predicate LostByFailure(t: seq<Op>, m: Mac)
    decreases |t|
  {
    t != []
    && var init := t[..|t| - 1];
       match t[|t| - 1]
       case Neighbour(x) => x != m && LostByFailure(init, m)
       case Added(_) => LostByFailure(init, m)
       case Deleted(gone, failed) => if m in gone then m in failed else LostByFailure(init, m)
  }

  ghost predicate Tracks(t: seq<Op>, fw: set<Mac>, neighbours: set<Mac>) {
    forall m ::
      && (m in fw <==> Entered(t, m))
      && (m in neighbours <==> Kept(t, m))
      && (Entered(t, m) ==> Kept(t, m) || LostByFailure(t, m))
  }

  lemma OneOp(t: seq<Op>, fw: set<Mac>, neighbours: set<Mac>, op: Op)
    requires Tracks(t, fw, neighbours) && (op.Added? ==> op.m in neighbours)
    ensures Tracks(t + [op],
                   if op.Added? then fw + {op.m} else if op.Deleted? then fw - (op.gone - op.failed) else fw,
                   if op.Neighbour? then neighbours + {op.m}
                   else if op.Deleted? then neighbours - op.gone else neighbours)
  {
    var t' := t + [op];
    var fw' := if op.Added? then fw + {op.m} else if op.Deleted? then fw - (op.gone - op.failed) else fw;
    var nb' := if op.Neighbour? then neighbours + {op.m}
               else if op.Deleted? then neighbours - op.gone else neighbours;
    forall m
      ensures m in fw' <==> Entered(t', m)
      ensures m in nb' <==> Kept(t', m)
      ensures Entered(t', m) ==> Kept(t', m) || LostByFailure(t', m)
    {
      LastOp(t, op, m);
      assert m in fw <==> Entered(t, m);
    }
  }

  lemma LastOp(t: seq<Op>, op: Op, m: Mac)
    ensures Entered(t + [op], m)
        <==> if op.Added? && op.m == m then true
             else Entered(t, m) && !(op.Deleted? && m in op.gone - op.failed)
    ensures Kept(t + [op], m)
        <==> if op.Neighbour? && op.m == m then true else Kept(t, m) && !(op.Deleted? && m in op.gone)
    ensures LostByFailure(t + [op], m)
        <==> if op.Neighbour? && op.m == m then false
             else if op.Deleted? && m in op.gone then m in op.failed else LostByFailure(t, m)
  {
    assert (t + [op])[..|t|] == t;
  }

  lemma {:induction false} EvictTracks(t: seq<Op>, cfg: Config, s: State, del: bool)
    requires cfg.max >= 1 && Tracks(t, s.fw, s.neighbours)
    ensures var r := Evicted(cfg, s, del); Tracks(t + EvictOps(cfg, s, del), r.fw, r.neighbours)
    decreases |s.registered|
  {
    hide Tracks;
    if |s.registered| < cfg.max {
      assert t + [] == t;
    } else {
      var m := s.registered[0];
      var op := Deleted({m}, if del then {} else {m});
      OneOp(t, s.fw, s.neighbours, op);
      assert s.fw - (op.gone - op.failed) == Forgotten(s, m, del).fw;
      EvictTracks(t + [op], cfg, Forgotten(s, m, del), del);
      ConcatAssoc(t, [op], EvictOps(cfg, Forgotten(s, m, del), del));
    }
  }

  lemma RegisterTracks(t: seq<Op>, cfg: Config, s: State, m: Mac, ops: Ops)
    requires cfg.max >= 1 && Tracks(t, s.fw, s.neighbours)
    ensures var r := Registered(cfg, s, m, ops); Tracks(t + RegisterOps(cfg, s, m, ops), r.fw, r.neighbours)
  {
    hide Tracks, Evicted, EvictOps;
    var s1, t1 := Evicted(cfg, s, ops.del), t + EvictOps(cfg, s, ops.del);
    EvictTracks(t, cfg, s, ops.del);
    if !ops.neigh {
      assert EvictOps(cfg, s, ops.del) + [] == EvictOps(cfg, s, ops.del);
    } else {
      OneOp(t1, s1.fw, s1.neighbours, Neighbour(m));
      ConcatAssoc(t, EvictOps(cfg, s, ops.del), [Neighbour(m)]);
      if ops.add && HasRoom(cfg, s1, m) {
        OneOp(t1 + [Neighbour(m)], s1.fw, s1.neighbours + {m}, Added(m));
        ConcatAssoc(t, EvictOps(cfg, s, ops.del), [Neighbour(m), Added(m)]);
        assert t1 + [Neighbour(m)] + [Added(m)] == t1 + [Neighbour(m), Added(m)];
      }
    }
  }

  lemma StepTracks(t: seq<Op>, cfg: Config, s: State, e: Event)
    requires cfg.max >= 1 && Tracks(t, s.fw, s.neighbours)
    ensures Tracks(t + OpsOf(cfg, s, e), Step(cfg, s, e).fw, Step(cfg, s, e).neighbours)
  {
    hide Tracks, Registered, RegisterOps;
    match e
    case Heard(frame, outgoing, ops) =>
      if FromPeer(cfg, frame, outgoing) && frame[6..12] !in s.registered && Wanted(cfg, frame[6..12]) {
        RegisterTracks(t, cfg, s, frame[6..12], ops);
      } else {
        assert t + [] == t;
      }
    case Restart(failed) =>
      OneOp(t, s.fw, s.neighbours, Deleted(s.neighbours, failed));
      assert s.neighbours - s.neighbours == {};
    case Release(failed) => OneOp(t, s.fw, s.neighbours, Deleted(Elements(s.registered), failed));
  }

  lemma {:induction false} RunTracks(cfg: Config, es: seq<Event>)
    requires cfg.max >= 1
    ensures Tracks(Trace(cfg, es), Run(cfg, START, es).fw, Run(cfg, START, es).neighbours)
    decreases |es|
  {
    hide Tracks, Step, OpsOf;
    if es == [] {
      NothingTracked();
    } else {
      var init := es[..|es| - 1];
      RunTracks(cfg, init);
      StepTracks(Trace(cfg, init), cfg, Run(cfg, START, init), es[|es| - 1]);
    }
  }

  lemma NothingTracked()
    ensures Tracks([], {}, {})
  {
  }

  // After any run, a restart leaves in the firmware's table exactly the entered peers whose
  // DEL fails now or whose last DEL failed before, with no neighbour set since: the neighbour
  // that would have been their record is gone.
  lemma RestartLeaves(cfg: Config, es: seq<Event>, failed: set<Mac>, m: Mac)
    requires cfg.max >= 1
    ensures m in Step(cfg, Run(cfg, START, es), Restart(failed)).fw
        <==> Entered(Trace(cfg, es), m) && (LostByFailure(Trace(cfg, es), m) || m in failed)
  {
    hide Trace, Run;
    RunTracks(cfg, es);
    NotBoth(Trace(cfg, es), m);
  }

  lemma {:induction false} NotBoth(t: seq<Op>, m: Mac)
    ensures !(Kept(t, m) && LostByFailure(t, m))
    decreases |t|
  {
    if t != [] {
      NotBoth(t[..|t| - 1], m);
    }
  }

  // A frame from a peer.
  function From(m: Mac): (frame: seq<byte>)
    requires |m| == 6
    ensures |frame| == 12 && frame[6..12] == m
  {
    Zeros(6) + m
  }

  // Such a run: the table holds one peer, a second one is heard, and the DEL of the first
  // fails.  From then on its entry stays.
  lemma LeakingRun(a: Mac, b: Mac)
    requires |a| == 6 && |b| == 6 && a != b && a[0] % 2 == 0 && b[0] % 2 == 0
    ensures var cfg := Config(1, 2, [], {});
            var es := [Heard(From(a), false, Ops(true, true, true)), Heard(From(b), false, Ops(true, true, false))];
            && Run(cfg, START, es).registered == [b]
            && Step(cfg, Run(cfg, START, es), Restart({})).fw == {a}
  {
    var cfg := Config(1, 2, [], {});
    var e1, e2 := Heard(From(a), false, Ops(true, true, true)), Heard(From(b), false, Ops(true, true, false));
    var s1, s2 := State([a], {a}, {a}), State([b], {a, b}, {b});
    HeardFrom(cfg, START, a, Ops(true, true, true), START);
    assert Evicted(cfg, s1, false) == State([], {a}, {}) by {
      assert Without([a], a) == [];
    }
    HeardFrom(cfg, s1, b, Ops(true, true, false), State([], {a}, {}));
    hide Step, From;
    TwoSteps(cfg, e1, e2, s1, s2);
    RestartedFrom(cfg, a, b);
  }

  // A new peer is heard, with everything but perhaps the eviction succeeding.
  lemma HeardFrom(cfg: Config, s: State, m: Mac, ops: Ops, s1: State)
    requires cfg == Config(1, 2, [], {}) && |m| == 6 && m[0] % 2 == 0 && m !in s.registered
    requires ops.neigh && ops.add && Evicted(cfg, s, ops.del) == s1 && |s1.fw| < 2
    ensures Step(cfg, s, Heard(From(m), false, ops)) == State(s1.registered + [m], s1.fw + {m}, s1.neighbours + {m})
  {
    hide Evicted;
    assert From(m)[6] == m[0];
  }

  lemma TwoSteps(cfg: Config, e1: Event, e2: Event, s1: State, s2: State)
    requires cfg.max >= 1 && Step(cfg, START, e1) == s1 && Step(cfg, s1, e2) == s2
    ensures Run(cfg, START, [e1, e2]) == s2
  {
    hide Step;
    assert [e1, e2][..1] == [e1] && [e1][..0] == [];
    assert Run(cfg, START, [e1]) == s1;
  }

  lemma RestartedFrom(cfg: Config, a: Mac, b: Mac)
    requires cfg.max >= 1 && a != b
    ensures Step(cfg, State([b], {a, b}, {b}), Restart({})).fw == {a}
  {
  }

  // ---- runs in which everything succeeds ----

  predicate Succeeds(e: Event) {
    Deletes(e) && (e.Heard? ==> e.ops.neigh && e.ops.add)
  }

  predicate AllSucceed(es: seq<Event>) {
    forall i :: 0 <= i < |es| ==> Succeeds(es[i])
  }

  // A table with the peer heard last at its end is complete when whoever is not in it was
  // heard before those in front.
  lemma CompleteWith(front: seq<Mac>, h: seq<Mac>, max: nat, x: Mac)
    requires |front| < max
    requires forall m :: m in h && m !in front && m != x ==> |front| + 1 == max && BeforeAll(h, m, front)
    ensures Complete(front + [x], h + [x], max)
  {
    hide LastIndex, BeforeAll;
    var r := front + [x];
    forall m | m in h + [x] && m !in r
      ensures |r| == max && forall i :: 0 <= i < |r| ==> LastIndex(h + [x], m) < LastIndex(h + [x], r[i])
    {
      NotInEither(front, h, x, m);
      BeforeAlso(front, h, x, m);
    }
  }

  predicate BeforeAll(h: seq<Mac>, m: Mac, r: seq<Mac>) {
    forall i :: 0 <= i < |r| ==> LastIndex(h, m) < LastIndex(h, r[i])
  }

  lemma NotInEither(front: seq<Mac>, h: seq<Mac>, x: Mac, m: Mac)
    requires m in h + [x] && m !in front + [x]
    ensures m in h && m !in front && m != x
  {
    assert (front + [x])[|front|] == x;
    assert forall i :: 0 <= i < |front| ==> front[i] == (front + [x])[i];
  }

  lemma BeforeAlso(front: seq<Mac>, h: seq<Mac>, x: Mac, m: Mac)
    requires m != x && BeforeAll(h, m, front)
    ensures forall i :: 0 <= i < |front + [x]| ==> LastIndex(h + [x], m) < LastIndex(h + [x], (front + [x])[i])
  {
    hide LastIndex;
    LastIndexAppend(h, x, m);
    forall i | 0 <= i < |front + [x]|
      ensures LastIndex(h + [x], m) < LastIndex(h + [x], (front + [x])[i])
    {
      LastIndexAppend(h, x, (front + [x])[i]);
    }
  }

  lemma HeardAgain(reg: seq<Mac>, h: seq<Mac>, max: nat, x: Mac)
    requires Complete(reg, h, max) && InOrder(reg, h) && x in reg
    ensures Complete(Without(reg, x) + [x], h + [x], max)
  {
    hide LastIndex, InOrder;
    var front := Without(reg, x);
    SameLength(reg, h, x);
    forall m | m in h && m !in front && m != x
      ensures |front| + 1 == max && BeforeAll(h, m, front)
    {
      assert m !in reg;
      forall i | 0 <= i < |front|
        ensures LastIndex(h, m) < LastIndex(h, front[i])
      {
        assert front[i] in reg;
      }
    }
    hide Complete;
    CompleteWith(front, h, max, x);
  }

  lemma {:induction false} SameLength(reg: seq<Mac>, h: seq<Mac>, x: Mac)
    requires InOrder(reg, h) && x in reg
    ensures |Without(reg, x)| == |reg| - 1
  {
    if reg[0] == x {
      HeadOnce(reg, h);
    } else {
      assert forall i :: 0 <= i < |reg[1..]| ==> reg[1..][i] == reg[i + 1];
      SameLength(reg[1..], h, x);
    }
  }

  lemma HeardFirst(reg: seq<Mac>, h: seq<Mac>, max: nat, x: Mac)
    requires max >= 1 && Complete(reg, h, max) && InOrder(reg, h) && x !in reg
    ensures Complete((if |reg| == max then reg[1..] else reg) + [x], h + [x], max)
  {
    hide LastIndex, InOrder, BeforeAll;
    var front := if |reg| == max then reg[1..] else reg;
    assert |front| < max;
    hide Complete;
    forall m | m in h && m !in front && m != x
      ensures |front| + 1 == max && BeforeAll(h, m, front)
    {
      Older(reg, h, max, m, front);
    }
    CompleteWith(front, h, max, x);
  }

  // Who is not in the new table was heard before those who were kept.
  lemma Older(reg: seq<Mac>, h: seq<Mac>, max: nat, m: Mac, front: seq<Mac>)
    requires max >= 1 && Complete(reg, h, max) && InOrder(reg, h) && m in h && m !in front
    requires front == if |reg| == max then reg[1..] else reg
    ensures |front| + 1 == max && BeforeAll(h, m, front)
  {
    hide LastIndex, Complete, InOrder, BeforeAll;
    if m in reg {
      OlderIn(reg, h, max, m, front);
    } else {
      OlderOut(reg, h, max, m, front);
    }
  }

  // It was in the table: then it is the one that was evicted.
  lemma OlderIn(reg: seq<Mac>, h: seq<Mac>, max: nat, m: Mac, front: seq<Mac>)
    requires InOrder(reg, h) && m in reg && m !in front
    requires front == if |reg| == max then reg[1..] else reg
    ensures |front| + 1 == max && BeforeAll(h, m, front)
  {
    hide LastIndex, InOrder;
    Behind(reg, h);
    MemberSplit(reg);
    forall i | 0 <= i < |front|
      ensures LastIndex(h, m) < LastIndex(h, front[i])
    {
      assert front[i] in reg[1..];
    }
  }

  // It was not.
  lemma OlderOut(reg: seq<Mac>, h: seq<Mac>, max: nat, m: Mac, front: seq<Mac>)
    requires max >= 1 && Complete(reg, h, max) && m in h && m !in reg
    requires front == if |reg| == max then reg[1..] else reg
    ensures |front| + 1 == max && BeforeAll(h, m, front)
  {
    hide LastIndex;
    assert |reg| == max;
    forall i | 0 <= i < |front|
      ensures LastIndex(h, m) < LastIndex(h, front[i])
    {
      assert front[i] == reg[i + 1];
    }
  }

  lemma StepComplete(cfg: Config, s: State, h: seq<Mac>, e: Event)
    requires 1 <= cfg.max <= cfg.capacity && Inv(cfg, s, h) && Agree(s) && Succeeds(e)
    requires Complete(s.registered, h, cfg.max)
    ensures Complete(Step(cfg, s, e).registered, Extended(cfg, h, e), cfg.max)
  {
    hide InOrder, Evicted;
    match e
    case Heard(frame, outgoing, ops) =>
      if FromPeer(cfg, frame, outgoing) {
        var src := frame[6..12];
        if src in s.registered {
          HeardAgain(s.registered, h, cfg.max, src);
        } else if Wanted(cfg, src) {
          HeardFirst(s.registered, h, cfg.max, src);
          EvictsOldest(cfg, s, h, true);
          EvictedInv(cfg, s, h, true);
          NoMoreThan(Evicted(cfg, s, true).registered);
        }
      }
    case Restart(failed) =>
    case Release(failed) =>
  }

  // The watcher's table, and with it the firmware's, holds the peers heard most recently, as
  // many as it may, the longest ago first.
  lemma {:induction false} HoldsMostRecent(cfg: Config, es: seq<Event>)
    requires 1 <= cfg.max <= cfg.capacity && AllSucceed(es)
    ensures var s := Run(cfg, START, es);
            Complete(s.registered, History(cfg, es), cfg.max) && InOrder(s.registered, History(cfg, es)) && Agree(s)
    decreases |es|
  {
    hide Step, Extended, InOrder, Complete;
    RunInv(cfg, es);
    assert AllDelete(es) by {
      assert forall i :: 0 <= i < |es| ==> Succeeds(es[i]);
    }
    TablesAgree(cfg, es);
    if es != [] {
      var before := es[..|es| - 1];
      assert Succeeds(es[|es| - 1]);
      HoldsMostRecent(cfg, before);
      RunInv(cfg, before);
      StepComplete(cfg, Run(cfg, START, before), History(cfg, before), es[|es| - 1]);
    } else {
      EmptyComplete(cfg.max);
    }
  }

  // That determines the table: no other one holds them in that order.
  lemma MostRecentUnique(r1: seq<Mac>, r2: seq<Mac>, h: seq<Mac>, max: nat)
    requires InOrder(r1, h) && Complete(r1, h, max) && InOrder(r2, h) && Complete(r2, h, max)
    ensures r1 == r2
  {
    hide InOrder, Complete;
    MostRecentAmong(r1, r2, h, max);
    MostRecentAmong(r2, r1, h, max);
    SameOrder(r1, r2, h);
  }

  lemma MostRecentAmong(r1: seq<Mac>, r2: seq<Mac>, h: seq<Mac>, max: nat)
    requires InOrder(r1, h) && Complete(r1, h, max) && InOrder(r2, h) && Complete(r2, h, max)
    ensures forall m :: m in r1 ==> m in r2
  {
    forall m | m in r1
      ensures m in r2
    {
      if m !in r2 {
        assert LastIndex(h, m) >= 0;
        assert m in h;
        forall x | x in r2
          ensures x in r1 && x != m
        {
          assert LastIndex(h, m) < LastIndex(h, x);
        }
        Sizes(r1, h);
        Sizes(r2, h);
        Fewer(Elements(r2), Elements(r1), m);
        assert false;
      }
    }
  }

  lemma Fewer(a: set<Mac>, b: set<Mac>, m: Mac)
    requires a <= b && m in b && m !in a
    ensures |a| < |b|
  {
    Subset(a, b - {m});
  }

  lemma {:induction false} Subset(a: set<Mac>, b: set<Mac>)
    requires a <= b
    ensures |a| <= |b|
  {
    if a != {} {
      var x :| x in a;
      Subset(a - {x}, b - {x});
    }
  }

  lemma {:induction false} Sizes(r: seq<Mac>, h: seq<Mac>)
    requires InOrder(r, h)
    ensures |Elements(r)| == |r|
  {
    if r != [] {
      Behind(r, h);
      Sizes(r[1..], h);
      assert Elements(r) == {r[0]} + Elements(r[1..]);
    }
  }

  lemma Behind(r: seq<Mac>, h: seq<Mac>)
    requires r != [] && InOrder(r, h)
    ensures InOrder(r[1..], h) && r[0] !in r[1..] && LastIndex(h, r[0]) >= 0
    ensures forall x :: x in r[1..] ==> LastIndex(h, r[0]) < LastIndex(h, x)
  {
    hide LastIndex;
    assert forall i :: 0 <= i < |r[1..]| ==> r[1..][i] == r[i + 1];
  }

  lemma {:induction false} SameOrder(r1: seq<Mac>, r2: seq<Mac>, h: seq<Mac>)
    requires InOrder(r1, h) && InOrder(r2, h) && forall m :: m in r1 <==> m in r2
    ensures r1 == r2
    decreases |r1|
  {
    hide InOrder;
    if r1 != [] && r2 != [] {
      Behind(r1, h);
      Behind(r2, h);
      MemberSplit(r1);
      MemberSplit(r2);
      SameHead(r1[0], r1[1..], r2[0], r2[1..], h);
      SameOrder(r1[1..], r2[1..], h);
    } else {
      SomeMember(r1);
      SomeMember(r2);
    }
  }

  lemma SomeMember(s: seq<Mac>)
    ensures s == [] || exists m :: m in s
  {
    if s != [] {
      assert s[0] in s;
    }
  }

  lemma MemberSplit(r: seq<Mac>)
    requires r != []
    ensures r == [r[0]] + r[1..]
    ensures forall m :: m in r <==> m == r[0] || m in r[1..]
  {
  }

  // Both are the one heard the longest ago.
  lemma SameHead(x1: Mac, t1: seq<Mac>, x2: Mac, t2: seq<Mac>, h: seq<Mac>)
    requires forall m :: (m == x1 || m in t1) <==> (m == x2 || m in t2)
    requires x1 !in t1 && x2 !in t2
    requires forall x :: x in t1 ==> LastIndex(h, x1) < LastIndex(h, x)
    requires forall x :: x in t2 ==> LastIndex(h, x2) < LastIndex(h, x)
    ensures x1 == x2 && forall m :: m in t1 <==> m in t2
  {
    hide LastIndex;
    assert x1 == x2 || x1 in t2;
    assert x2 == x1 || x2 in t1;
  }

  lemma EmptyComplete(max: nat)
    ensures Complete([], [], max)
  {
  }
}

module PeerWatch {
  import opened Bytes
  import opened PeerSpec

  class Watcher {
    const cfg: Config
    var registered: seq<Mac>
    var fw: set<Mac>
    var neighbours: set<Mac>

    ghost function Abs(): State
      reads this
    {
      State(registered, fw, neighbours)
    }

    constructor (cfg: Config, fw: set<Mac>, neighbours: set<Mac>)
      ensures this.cfg == cfg && Abs() == State([], fw, neighbours)
    {
      this.cfg, registered, this.fw, this.neighbours := cfg, [], fw, neighbours;
    }

    // The firmware's answer to an ADD or a DEL that otherwise works or not.
    method PeerOp(add: bool, mac: Mac, works: bool) returns (ok: bool)
      modifies this`fw
      ensures add ==> ok == (works && HasRoom(cfg, old(Abs()), mac)) && fw == if ok then old(fw) + {mac} else old(fw)
      ensures !add ==> ok == works && fw == if ok then old(fw) - {mac} else old(fw)
    {
      ok := works && (!add || mac in fw || |fw| < cfg.capacity);
      if ok {
        fw := if add then fw + {mac} else fw - {mac};
      }
    }

    method Forget(mac: Mac, del: bool) returns (ok: bool)
      modifies this
      ensures ok == del && Abs() == Forgotten(old(Abs()), mac, del)
    {
      ok := PeerOp(false, mac, del);
      neighbours := neighbours - {mac};
      registered := Without(registered, mac);
    }

    method Register(mac: Mac, ops: Ops) returns (ok: bool)
      requires cfg.max >= 1 && mac !in registered
      modifies this
      ensures Abs() == Registered(cfg, old(Abs()), mac, ops)
      ensures ok <==> mac in registered
      ensures mac in registered ==> mac in fw
    {
      while |registered| >= cfg.max
        invariant Evicted(cfg, Abs(), ops.del) == Evicted(cfg, old(Abs()), ops.del)
        invariant mac !in registered
        decreases |registered|
      {
        var _ := Forget(registered[0], ops.del);
      }
      if !ops.neigh {
        return false;
      }
      neighbours := neighbours + {mac};
      ok := PeerOp(true, mac, ops.add);
      if ok {
        registered := registered + [mac];
      }
    }

    // One turn of the receive loop.
    method Receive(frame: seq<byte>, outgoing: bool, ops: Ops)
      requires cfg.max >= 1
      modifies this
      ensures Abs() == Step(cfg, old(Abs()), Heard(frame, outgoing, ops))
    {
      if outgoing || |frame| < 12 {
        return;
      }
      var src := frame[6..12];
      if src == cfg.own || src[0] % 2 == 1 {
        return;
      }
      if src in registered {
        registered := Without(registered, src);
        registered := registered + [src];
        return;
      }
      if cfg.only != {} && src !in cfg.only {
        return;
      }
      var _ := Register(src, ops);
    }

    // `stale` are the permanent neighbours in the order they are listed.
    method Resync(stale: seq<Mac>, failed: set<Mac>)
      requires registered == [] && Elements(stale) == neighbours
      modifies this`fw, this`neighbours
      ensures Abs() == Resynced(old(Abs()), failed)
    {
      for i := 0 to |stale|
        invariant fw == old(fw) - (Elements(stale[..i]) - failed)
        invariant neighbours == old(neighbours) - Elements(stale[..i])
      {
        var _ := PeerOp(false, stale[i], stale[i] !in failed);
        neighbours := neighbours - {stale[i]};
        ElementsStep(stale, i);
      }
      assert stale[..|stale|] == stale;
    }

    lemma ElementsStep(s: seq<Mac>, i: nat)
      requires i < |s|
      ensures Elements(s[..i + 1]) == Elements(s[..i]) + {s[i]}
    {
      assert s[..i + 1] == s[..i] + [s[i]];
    }

    method ReleaseAll(failed: set<Mac>)
      modifies this
      ensures Abs() == Released(old(Abs()), failed)
    {
      var all := registered;
      for i := 0 to |all|
        invariant fw == old(fw) - (Elements(all[..i]) - failed)
        invariant neighbours == old(neighbours) - Elements(all[..i])
        invariant forall m :: m in registered <==> m in all && m !in all[..i]
      {
        var _ := Forget(all[i], all[i] !in failed);
        ElementsStep(all, i);
        assert all[..i + 1] == all[..i] + [all[i]];
      }
      assert all[..|all|] == all;
      SomeMember(registered);
    }
  }
}
