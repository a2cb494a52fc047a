// Two parties on one ring: the producer and the consumer each run the code of
// commonring.c on their own descriptor and share nothing but the two published indices
// and the slots.  The link is shown to be an unbounded FIFO.

module RingLink {
  import opened RingIndex
  import opened CommonRing

  datatype Link<T> = Link(
    prod: Ring,              // the producer's descriptor; its r is a possibly stale copy
    cons: Ring,              // the consumer's descriptor; its w is a possibly stale copy
    sharedR: nat,
    sharedW: nat,
    slots: seq<T>,
    last: nat,               // slots of the latest reservation that may still be given back
    granted: nat,            // items of the consumer's current run, counted from cons.r
    processed: nat,          // how many of those it has read
    history: History<T>
  )

  // What has happened so far; no step consults it.
  datatype History<T> = History(
    reserved: nat,           // slots reserved and not cancelled, ever
    published: seq<T>,       // items published, ever
    consumed: seq<T>,        // items read by the consumer, ever
    completed: nat,          // items the consumer has declared read
    prodSaw: nat,            // `completed` when the producer last refreshed
    consSaw: nat             // |published| when the consumer last refreshed
  )

  datatype Step<T> =
    | Poll                        // producer: write_available
    | Reserve(n: nat)             // producer: reserve_for_write (n == 1) or _multiple
    | Fill(slot: nat, item: T)    // producer: write into a slot it holds
    | Cancel(n: nat)              // producer: write_cancel
    | Publish                     // producer: write_complete
    | Refresh                     // consumer: get_read_ptr
    | Read                        // consumer: look at the next item of its run
    | Complete(n: nat)            // consumer: read_complete

  // A fresh ring, which satisfies the invariant.
  ghost function Initial<T>(slots: seq<T>): (l: Link<T>)
    requires 0 < |slots| < U16
    ensures Inv(l)
  {
    var ring := Ring(0, 0, 0, |slots|, false);
    Link(ring, ring, 0, 0, slots, 0, 0, 0, History(0, [], [], 0, 0, 0))
  }

  // What the code's callers respect: a producer writes only slots between its published
  // and its write index, gives back between one and all slots of its latest reservation,
  // and a consumer reads within its run and completes what it has read.
  predicate Enabled<T>(l: Link<T>, step: Step<T>)
    requires InRange(l.prod) && InRange(l.cons)
  {
    match step
    case Poll | Publish | Refresh => true
    case Reserve(n) => n < U16
    case Fill(slot, _) =>
      slot < l.prod.depth && slot < |l.slots| &&
      Distance(l.prod.f, slot, l.prod.depth) < Distance(l.prod.f, l.prod.w, l.prod.depth)
    case Cancel(n) => 1 <= n <= l.last
    case Read => l.processed < l.granted
    case Complete(n) => 1 <= n <= l.processed
  }

  // The items in `n` slots starting at slot `i`, wrapping at the end of the buffer.
  function Batch<T>(slots: seq<T>, i: nat, n: nat): (items: seq<T>)
    requires i < |slots| && n <= |slots|
    ensures |items| == n
    ensures forall k :: 0 <= k < n ==> items[k] == slots[Advance(i, k, |slots|)]
  {
    seq(n, k requires 0 <= k < n => slots[Advance(i, k, |slots|)])
  }

  function Apply<T>(l: Link<T>, step: Step<T>): Link<T>
    requires Inv(l) && Enabled(l, step)
  {
    var h := l.history;
    match step
    case Poll =>
      l.(prod := Polled(l.prod, l.sharedR),
         history := if Roomy(l.prod) then h else h.(prodSaw := h.completed))
    case Reserve(n) =>
      var k := Granted(l.prod, l.sharedR, n);
      l.(prod := Reserved(l.prod, l.sharedR, n), last := k,
         history := h.(reserved := h.reserved + k,
                       prodSaw := if Free(l.prod) >= 1 then h.prodSaw else h.completed))
    case Fill(slot, item) => l.(slots := l.slots[slot := item])
    case Cancel(n) =>
      l.(prod := Cancelled(l.prod, n), last := l.last - n,
         history := h.(reserved := h.reserved - n))
    case Publish =>
      var n := Distance(l.prod.f, l.prod.w, l.prod.depth);
      l.(prod := l.prod.(f := l.prod.w), sharedW := l.prod.w, last := 0,
         history := h.(published := h.published + Batch(l.slots, l.prod.f, n)))
    case Refresh =>
      var cons := l.cons.(w := l.sharedW);
      l.(cons := cons, granted := Run(cons), history := h.(consSaw := |h.published|))
    case Read =>
      l.(processed := l.processed + 1,
         history := h.(consumed := h.consumed + [l.slots[l.cons.r + l.processed]]))
    case Complete(n) =>
      var r := Advance(l.cons.r, n, l.cons.depth);
      l.(cons := l.cons.(r := r), sharedR := r,
         granted := l.granted - n, processed := l.processed - n,
         history := h.(completed := h.completed + n))
  }

  // The counters are ordered and every index is its counter's slot.
  ghost predicate Counted<T>(l: Link<T>) {
    var d, h := l.prod.depth, l.history;
    && 0 < d < U16 && l.cons.depth == d == |l.slots|
    && h.prodSaw <= h.completed <= h.consSaw <= |h.published| <= h.reserved <= h.prodSaw + d - 1
    && l.prod.r == Slot(h.prodSaw, d) && l.prod.w == Slot(h.reserved, d) && l.prod.f == Slot(|h.published|, d)
    && l.cons.r == Slot(h.completed, d) && l.cons.w == Slot(h.consSaw, d) && l.cons.f == 0
    && l.sharedR == Slot(h.completed, d) && l.sharedW == Slot(|h.published|, d)
    // the consumer's run
    && l.processed <= l.granted && h.completed + l.granted <= h.consSaw && l.cons.r + l.granted <= d
    && |h.consumed| == h.completed + l.processed
    // the latest reservation is unpublished and did not wrap
    && |h.published| + l.last <= h.reserved
    && (l.last == 0 || l.last <= (if l.prod.w == 0 then d else l.prod.w))
  }

  // Published items stay in their slots until they have been declared read.
  ghost predicate Stored<T>(l: Link<T>)
    requires Counted(l)
  {
    var d, h := l.prod.depth, l.history;
    && (forall k {:trigger h.published[k]} :: h.completed <= k < |h.published| ==>
          l.slots[Slot(k, d)] == h.published[k])
    && h.consumed <= h.published
  }

  ghost predicate Inv<T>(l: Link<T>) {
    Counted(l) && Stored(l)
  }

  // The slot at stream position `k` is held by an item that was published and not yet
  // declared read.
  ghost predicate Unread<T>(l: Link<T>, slot: nat)
    requires Counted(l)
  {
    exists k {:trigger l.history.published[k]} ::
      l.history.completed <= k < |l.history.published| && slot == Slot(k, l.prod.depth)
  }

  // Two positions of the live window in the same slot are the same position.
  lemma SameSlot(a: nat, b: nat, d: nat)
    requires d > 0 && a <= b < a + d && Slot(a, d) == Slot(b, d)
    ensures a == b
  {
    DistanceStream(a, b, d);
  }

  lemma FreeCounts<T>(l: Link<T>)
    requires Counted(l)
    ensures Free(l.prod) == l.prod.depth - 1 - (l.history.reserved - l.history.prodSaw)
    ensures Free(l.prod.(r := l.sharedR)) == l.prod.depth - 1 - (l.history.reserved - l.history.completed)
    ensures Distance(l.prod.f, l.prod.w, l.prod.depth) == l.history.reserved - |l.history.published|
  {
    var d, h := l.prod.depth, l.history;
    DistanceStream(h.prodSaw, h.reserved, d);
    DistanceStream(h.completed, h.reserved, d);
    DistanceStream(|h.published|, h.reserved, d);
  }

  // Positions not yet published, within a lap of the oldest unread one, have free slots.
  lemma AheadIsFree<T>(l: Link<T>, m: nat)
    requires Inv(l) && |l.history.published| <= m < l.history.completed + l.prod.depth
    ensures !Unread(l, Slot(m, l.prod.depth))
  {
    var h := l.history;
    if Unread(l, Slot(m, l.prod.depth)) {
      var k :| h.completed <= k < |h.published| && Slot(m, l.prod.depth) == Slot(k, l.prod.depth);
      SameSlot(k, m, l.prod.depth);
    }
  }

  // The slots a reservation hands out hold no unread item.
  lemma HandedOutFree<T>(l: Link<T>, n: nat, slot: nat)
    requires Inv(l) && n < U16
    requires l.prod.w <= slot < l.prod.w + Granted(l.prod, l.sharedR, n)
    ensures slot < |l.slots| && !Unread(l, slot)
  {
    FreeCounts(l);
    AdvanceStream(l.history.reserved, slot - l.prod.w, l.prod.depth);
    AheadIsFree(l, l.history.reserved + (slot - l.prod.w));
  }

  // So do the slots between the published and the write index.
  lemma HeldFree<T>(l: Link<T>, slot: nat, item: T)
    requires Inv(l) && Enabled(l, Fill(slot, item))
    ensures !Unread(l, slot)
  {
    FreeCounts(l);
    var j := Distance(l.prod.f, slot, l.prod.depth);
    AdvanceStream(|l.history.published|, j, l.prod.depth);
    AheadIsFree(l, |l.history.published| + j);
  }

  lemma PollInv<T>(l: Link<T>)
    requires Inv(l)
    ensures Inv(Apply(l, Poll))
  {
    hide Slot, Distance, Free, Stored;
    StoredSame(l, Apply(l, Poll));
  }

  // Items stay stored while neither the slots nor the published and completed counts change.
  lemma StoredSame<T>(l: Link<T>, l': Link<T>)
    requires Inv(l) && l'.slots == l.slots && l'.prod.depth == l.prod.depth
    requires l'.history.published == l.history.published && l'.history.consumed == l.history.consumed
    requires l'.history.completed == l.history.completed
    ensures Counted(l') ==> Stored(l')
  {
  }

  // A reservation moves the write index, and never by more than what is free.
  lemma ReservedMoves(s: Ring, sharedR: nat, n: nat)
    requires InRange(s) && sharedR < s.depth
    ensures var s', k := Reserved(s, sharedR, n), Granted(s, sharedR, n);
            && s'.r == (if Free(s) >= 1 then s.r else sharedR) && s'.f == s.f && s'.depth == s.depth
            && s'.w == Advance(s.w, k, s.depth) && (k == 0 || s'.w == 0 || k <= s'.w)
            && k <= if Free(s) >= 1 then Free(s) else Free(s.(r := sharedR))
  {
    hide Free;
  }

  lemma ReserveCounted<T>(l: Link<T>, n: nat)
    requires Inv(l) && n < U16
    ensures Counted(Apply(l, Reserve(n)))
  {
    hide Slot, Distance, Free, Stored, Granted, Reserved, Advance;
    FreeCounts(l);
    ReservedMoves(l.prod, l.sharedR, n);
    AdvanceStream(l.history.reserved, Granted(l.prod, l.sharedR, n), l.prod.depth);
  }

  lemma ReserveInv<T>(l: Link<T>, n: nat)
    requires Inv(l) && n < U16
    ensures Inv(Apply(l, Reserve(n)))
  {
    ReserveCounted(l, n);
    hide Counted, Stored;
    StoredSame(l, Apply(l, Reserve(n)));
  }

  lemma FillInv<T>(l: Link<T>, slot: nat, item: T)
    requires Inv(l) && Enabled(l, Fill(slot, item))
    ensures Inv(Apply(l, Fill(slot, item)))
  {
    HeldFree(l, slot, item);
  }

  lemma CancelInv<T>(l: Link<T>, n: nat)
    requires Inv(l) && Enabled(l, Cancel(n))
    ensures Inv(Apply(l, Cancel(n)))
  {
    hide Slot, Stored;
    StoredSame(l, Apply(l, Cancel(n)));
    AdvanceStream(l.history.reserved - n, n, l.prod.depth);
  }

  lemma PublishCounted<T>(l: Link<T>)
    requires Inv(l)
    ensures Counted(Apply(l, Publish))
  {
    hide Slot, Distance, Stored;
    FreeCounts(l);
  }

  // What is being published lies in the slots of its positions.
  lemma BatchAt<T>(l: Link<T>, k: nat)
    requires Inv(l) && k < l.history.reserved - |l.history.published|
    ensures var n := Distance(l.prod.f, l.prod.w, l.prod.depth);
            && k < n && l.prod.f < |l.slots|
            && l.slots[Slot(|l.history.published| + k, l.prod.depth)] == Batch(l.slots, l.prod.f, n)[k]
  {
    FreeCounts(l);
    hide Slot, Distance, Stored;
    AdvanceStream(|l.history.published|, k, l.prod.depth);
  }

  lemma PublishInv<T>(l: Link<T>)
    requires Inv(l)
    ensures Inv(Apply(l, Publish))
  {
    hide Slot, Distance, Batch;
    PublishCounted(l);
    var d, h, l' := l.prod.depth, l.history, Apply(l, Publish);
    forall k {:trigger l'.history.published[k]} | h.completed <= k < |l'.history.published|
      ensures l.slots[Slot(k, d)] == l'.history.published[k]
    {
      if k >= |h.published| {
        FreeCounts(l);
        BatchAt(l, k - |h.published|);
      }
    }
  }

  lemma RefreshInv<T>(l: Link<T>)
    requires Inv(l)
    ensures Inv(Apply(l, Refresh))
    ensures Apply(l, Refresh).granted == 0 <==> l.history.completed == |l.history.published|
  {
    var d, h := l.prod.depth, l.history;
    DistanceStream(h.completed, |h.published|, d);
    // the new run cannot be shorter than the part already read
    if h.consSaw < |h.published| {
      DistanceStream(h.completed, h.consSaw, d);
    }
  }

  lemma ReadInv<T>(l: Link<T>)
    requires Inv(l) && Enabled(l, Read)
    ensures Inv(Apply(l, Read))
    ensures l.slots[l.cons.r + l.processed] == l.history.published[|l.history.consumed|]
  {
    hide Slot;
    var d, h := l.prod.depth, l.history;
    AdvanceStream(h.completed, l.processed, d);
    assert Slot(h.completed + l.processed, d) == l.cons.r + l.processed;
    assert l.slots[Slot(|h.consumed|, d)] == h.published[|h.consumed|];
  }

  lemma CompleteInv<T>(l: Link<T>, n: nat)
    requires Inv(l) && Enabled(l, Complete(n))
    ensures Inv(Apply(l, Complete(n)))
  {
    hide Slot;
    AdvanceStream(l.history.completed, n, l.prod.depth);
  }

  lemma StepInv<T>(l: Link<T>, step: Step<T>)
    requires Inv(l) && Enabled(l, step)
    ensures Inv(Apply(l, step))
  {
    match step
    case Poll => PollInv(l);
    case Reserve(n) => ReserveInv(l, n);
    case Fill(slot, item) => FillInv(l, slot, item);
    case Cancel(n) => CancelInv(l, n);
    case Publish => PublishInv(l);
    case Refresh => RefreshInv(l);
    case Read => ReadInv(l);
    case Complete(n) => CompleteInv(l, n);
  }

  // ---- whole runs ----

  // A sequence of steps, each taken when its party may take it.
  ghost predicate Legal<T>(l: Link<T>, steps: seq<Step<T>>)
    requires Inv(l)
    decreases |steps|
  {
    steps == [] ||
    (Enabled(l, steps[0]) && (StepInv(l, steps[0]); Legal(Apply(l, steps[0]), steps[1..])))
  }

  ghost function After<T>(l: Link<T>, steps: seq<Step<T>>): (l': Link<T>)
    requires Inv(l) && Legal(l, steps)
    ensures Inv(l')
    decreases |steps|
  {
    if steps == [] then l
    else StepInv(l, steps[0]); After(Apply(l, steps[0]), steps[1..])
  }

  // The queue the two parties believe in.
  function Queue<T>(l: Link<T>): seq<T>
    requires |l.history.consumed| <= |l.history.published|
  {
    l.history.published[|l.history.consumed|..]
  }

  // Each step is a step of an unbounded FIFO: publishing appends, reading takes the head,
  // everything else leaves the queue alone.
  lemma RefinesFifo<T>(l: Link<T>, step: Step<T>)
    requires Inv(l) && Enabled(l, step)
    ensures var l' := Apply(l, step);
            && Inv(l')
            && match step {
                 case Publish =>
                   Queue(l') == Queue(l) + Batch(l.slots, l.prod.f, Distance(l.prod.f, l.prod.w, l.prod.depth))
                 case Read =>
                   && Queue(l) != []
                   && l.slots[l.cons.r + l.processed] == Queue(l)[0]
                   && Queue(l') == Queue(l)[1..]
                   && l'.history.consumed == l.history.consumed + [Queue(l)[0]]
                 case _ => Queue(l') == Queue(l) && l'.history.consumed == l.history.consumed
               }
  {
    hide Slot, Distance, Batch, Stored, Granted, Reserved, Polled;
    StepInv(l, step);
    match step
    case Publish => PublishAppends(l);
    case Read => ReadInv(l);
    case _ =>
  }

  lemma PublishAppends<T>(l: Link<T>)
    requires Inv(l) && Inv(Apply(l, Publish))
    ensures Queue(Apply(l, Publish))
         == Queue(l) + Batch(l.slots, l.prod.f, Distance(l.prod.f, l.prod.w, l.prod.depth))
  {
    hide Slot, Distance, Batch;
    var batch := Batch(l.slots, l.prod.f, Distance(l.prod.f, l.prod.w, l.prod.depth));
    DropFront(l.history.published, batch, |l.history.consumed|);
  }

  lemma DropFront<T>(a: seq<T>, b: seq<T>, n: nat)
    requires n <= |a|
    ensures (a + b)[n..] == a[n..] + b
  {
  }

  // From an empty ring, in every run, the consumer has read a prefix of what was
  // published: each item once and in order, whatever the interleaving and however stale
  // the indices.  What is left is exactly what the slots still hold.
  lemma ConsumerReadsPublished<T>(slots: seq<T>, steps: seq<Step<T>>)
    requires 0 < |slots| < U16 && Legal(Initial(slots), steps)
    ensures var l := After(Initial(slots), steps);
            && l.history.consumed + Queue(l) == l.history.published
            && |Queue(l)| < |slots| == |l.slots|
            && forall k :: 0 <= k < |Queue(l)| ==>
                 l.slots[Slot(|l.history.consumed| + k, |slots|)] == Queue(l)[k]
  {
    var l := After(Initial(slots), steps);
    DepthConstant(Initial(slots), steps);
    forall k | 0 <= k < |Queue(l)|
      ensures l.slots[Slot(|l.history.consumed| + k, |slots|)] == Queue(l)[k]
    {
      assert Queue(l)[k] == l.history.published[|l.history.consumed| + k];
    }
  }

  lemma {:induction false} DepthConstant<T>(l: Link<T>, steps: seq<Step<T>>)
    requires Inv(l) && Legal(l, steps)
    ensures |After(l, steps).slots| == |l.slots|
    decreases |steps|
  {
    if steps != [] {
      StepInv(l, steps[0]);
      DepthConstant(Apply(l, steps[0]), steps[1..]);
    }
  }

  // In every run neither a reservation nor a write touches an unread slot.
  lemma NeverOverwritesUnread<T>(slots: seq<T>, steps: seq<Step<T>>, step: Step<T>, slot: nat)
    requires 0 < |slots| < U16 && Legal(Initial(slots), steps)
    requires var l := After(Initial(slots), steps);
             && Enabled(l, step)
             && match step {
                  case Reserve(n) => l.prod.w <= slot < l.prod.w + Granted(l.prod, l.sharedR, n)
                  case Fill(s, _) => s == slot
                  case _ => false
                }
    ensures !Unread(After(Initial(slots), steps), slot)
  {
    var l := After(Initial(slots), steps);
    match step
    case Reserve(n) => HandedOutFree(l, n, slot);
    case Fill(s, item) => HeldFree(l, s, item);
  }

  // A reservation of at least one item comes back empty exactly when the ring really is
  // full: depth - 1 items are reserved and not yet declared read.
  lemma RefusesOnlyWhenFull<T>(l: Link<T>, n: nat)
    requires Inv(l) && 1 <= n < U16
    ensures Granted(l.prod, l.sharedR, n) == 0
        <==> l.history.reserved - l.history.completed == l.prod.depth - 1
  {
    FreeCounts(l);
  }

  // A positive answer from write_available is kept: the next reservation succeeds.
  lemma PollIsKept<T>(l: Link<T>, n: nat)
    requires Inv(l) && 1 <= n < U16
    ensures var l' := Apply(l, Poll);
            && InRange(l'.prod)
            && (Roomy(l'.prod) ==> Granted(l'.prod, l'.sharedR, n) >= 1)
            && (!Roomy(l'.prod) ==> l'.prod.wasFull)
  {
    hide Slot, Distance, Stored;
    PollInv(l);
    FreeCounts(l);
  }

  // Giving back the whole of a reservation undoes it.
  lemma CancelUndoesReserve<T>(l: Link<T>, n: nat)
    requires Inv(l) && n < U16
    requires Granted(l.prod, l.sharedR, n) >= 1
    ensures var k := Granted(l.prod, l.sharedR, n);
            var l1 := Apply(l, Reserve(n));
            && Inv(l1) && Enabled(l1, Cancel(k))
            && Apply(l1, Cancel(k)).prod.w == l.prod.w
  {
    hide Slot, Distance, Stored;
    ReserveInv(l, n);
  }

  // What write_cancel promises -- the write index moves back by `n` -- holds exactly when
  // the write index is at least `n`, or is zero and `n` is between one and the depth: giving
  // back nothing at slot zero leaves the buffer.
  lemma CancelMovesBack(s: Ring, n: nat)
    requires InRange(s) && n < U16
    ensures n <= s.depth && InRange(Cancelled(s, n)) && Advance(Cancelled(s, n).w, n, s.depth) == s.w
        <==> if s.w == 0 then 1 <= n <= s.depth else n <= s.w
  {
  }

  lemma CancelNothingAtZero()
    ensures Cancelled(Ring(0, 0, 0, 4, false), 0).w == 4
  {
  }
}
