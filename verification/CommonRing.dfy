// The ring descriptor shared by the host and the device (commonring.c).
//
// A ring has `depth` slots.  The producer owns the write index, the consumer owns the
// read index, and each side keeps a private copy of the other side's index that is only
// brought up to date when it asks for it.

/** Arithmetic of slot indices: position `k` of the unbounded item stream lives in slot `k` modulo the depth. */
module RingIndex {

  // The slot that follows `i` by `n`, where `n` does not reach past one lap.
  function Advance(i: nat, n: nat, depth: nat): (j: nat)
    requires i < depth && n <= depth
    ensures j < depth
  {
    if i + n >= depth then i + n - depth else i + n
  }

  // How many slots lie from `i` up to `j`, going forward.
  function Distance(i: nat, j: nat, depth: nat): (n: nat)
    requires i < depth && j < depth
    ensures n < depth && Advance(i, n, depth) == j
  {
    if i <= j then j - i else j + depth - i
  }

  // The slot of stream position `k`: `k` modulo the depth, by going round the ring.
  function Slot(k: nat, depth: nat): (i: nat)
    requires depth > 0
    ensures i < depth
  {
    if k < depth then k else Slot(k - depth, depth)
  }

  // Moving forward in the stream moves forward in the ring.
  lemma {:induction false} AdvanceStream(k: nat, n: nat, d: nat)
    requires d > 0 && n <= d
    ensures Slot(k + n, d) == Advance(Slot(k, d), n, d)
  {
    if k >= d {
      AdvanceStream(k - d, n, d);
    }
  }

  // Two stream positions less than a lap apart are as far apart as their slots.
  lemma DistanceStream(a: nat, b: nat, d: nat)
    requires d > 0 && a <= b < a + d
    ensures Distance(Slot(a, d), Slot(b, d), d) == b - a
  {
    AdvanceStream(a, b - a, d);
  }
}

module CommonRing {
  import opened Wrappers
  import opened RingIndex

  const U16: nat := 0x1_0000

  // The fields of struct brcmf_commonring that move.
  datatype Ring = Ring(r: nat, w: nat, f: nat, depth: nat, wasFull: bool)

  predicate InRange(s: Ring) {
    0 < s.depth < U16 && s.r < s.depth && s.w < s.depth && s.f < s.depth
  }

  // Slots the producer may still take, by its own view: one slot always stays empty.
  function Free(s: Ring): nat
    requires InRange(s)
  {
    s.depth - 1 - Distance(s.r, s.w, s.depth)
  }

  // What the producer sees after it has looked for room: it fetches the consumer's index
  // only when its stale copy says the ring is full.
  function LookForRoom(s: Ring, sharedR: nat): Ring
    requires InRange(s)
  {
    if Free(s) >= 1 then s else s.(r := sharedR)
  }

  // Reserving up to `n` slots: how many are handed out, and the ring afterwards.
  // The slots are contiguous, so a reservation never runs past the end of the buffer.
  function Granted(s: Ring, sharedR: nat, n: nat): (k: nat)
    requires InRange(s) && sharedR < s.depth
    ensures k <= n && s.w + k <= s.depth
  {
    var s1 := LookForRoom(s, sharedR);
    var room := if n <= Free(s1) then n else Free(s1);
    if s.w + room <= s.depth then room else s.depth - s.w
  }

  function Reserved(s: Ring, sharedR: nat, n: nat): (s': Ring)
    requires InRange(s) && sharedR < s.depth
    ensures InRange(s')
  {
    var s1 := LookForRoom(s, sharedR);
    if Free(s1) == 0 then s1.(wasFull := true)
    else s1.(w := Advance(s.w, Granted(s, sharedR, n), s.depth))
  }

  // With room, the write index moves on by what is wanted, free and not past the end.
  lemma WithRoom(s: Ring, sharedR: nat, n: nat)
    requires InRange(s) && sharedR < s.depth && Free(LookForRoom(s, sharedR)) >= 1
    ensures var free := Free(LookForRoom(s, sharedR));
            var room := if n <= free then n else free;
            var k := if room + s.w > s.depth then s.depth - s.w else room;
            && Granted(s, sharedR, n) == k
            && Reserved(s, sharedR, n)
            == LookForRoom(s, sharedR).(w := if s.w + k == s.depth then 0 else s.w + k)
  {
    hide Free;
  }

  lemma WithoutRoom(s: Ring, sharedR: nat, n: nat)
    requires InRange(s) && sharedR < s.depth && Free(LookForRoom(s, sharedR)) == 0
    ensures Granted(s, sharedR, n) == 0 && Reserved(s, sharedR, n) == LookForRoom(s, sharedR).(wasFull := true)
  {
    hide Free;
  }

  // The write index after giving back `n` slots, in 16-bit arithmetic.
  function Cancelled(s: Ring, n: nat): Ring
    requires n < U16 && s.w < U16 && s.depth < U16
  {
    var w := if s.w == 0 then s.depth - n else s.w - n;
    s.(w := if w < 0 then w + U16 else w)
  }

  // Items the consumer may read without wrapping, by its own view.
  function Run(s: Ring): (n: nat)
    requires InRange(s)
    ensures s.r + n <= s.depth
    ensures n == 0 <==> s.r == s.w
  {
    if s.r <= s.w then s.w - s.r else s.depth - s.r
  }

  // Whether write_available answers yes, given what the producer sees.
  predicate Roomy(s: Ring)
    requires InRange(s)
  {
    Free(s) >= 1 && (!s.wasFull || Free(s) + 1 > s.depth / 8)
  }

  function Polled(s: Ring, sharedR: nat): (s': Ring)
    requires InRange(s) && sharedR < s.depth
    ensures InRange(s')
  {
    if Roomy(s) then s.(wasFull := false)
    else
      var s1 := s.(r := sharedR);
      if Roomy(s1) then s1.(wasFull := false)
      else if Free(s1) >= 1 then s1
      else s1.(wasFull := true)
  }

  /** The two indices in memory that both sides can see. */
  class SharedIndices {
    var rIdx: nat
    var wIdx: nat

    constructor ()
      ensures rIdx == 0 && wIdx == 0
    {
      rIdx, wIdx := 0, 0;
    }
  }

  class Descriptor {
    var rPtr: nat
    var wPtr: nat
    var fPtr: nat
    var depth: nat
    var wasFull: bool
    const shared: SharedIndices

    ghost function State(): Ring
      reads this
    {
      Ring(rPtr, wPtr, fPtr, depth, wasFull)
    }

    ghost predicate Valid()
      reads this, shared
    {
      InRange(State()) && shared.rIdx < depth && shared.wIdx < depth
    }

    constructor (shared: SharedIndices, depth: nat)
      requires 0 < depth < U16
      modifies shared
      ensures this.shared == shared && Valid()
      ensures State() == Ring(0, 0, 0, depth, false)
      ensures shared.rIdx == 0 && shared.wIdx == 0
    {
      this.shared, this.depth, wasFull := shared, depth, false;
      rPtr, wPtr, fPtr := 0, 0, 0;
      new;
      shared.rIdx := rPtr;
      shared.wIdx := wPtr;
    }

    method Available() returns (available: nat)
      requires Valid()
      ensures available == Free(State()) + 1
    {
      if rPtr <= wPtr {
        available := depth - wPtr + rPtr;
      } else {
        available := rPtr - wPtr;
      }
    }

    method WriteAvailable() returns (ok: bool)
      requires Valid()
      modifies this
      ensures Valid() && State() == Polled(old(State()), shared.rIdx)
      ensures ok == Roomy(State())
    {
      var retry := true;
      while true
        invariant Valid()
        invariant State() == if retry then old(State()) else old(State()).(r := shared.rIdx)
        invariant !retry ==> !Roomy(old(State()))
        decreases retry
      {
        var available := Available();
        if available > 1 {
          if !wasFull {
            return true;
          }
          if available > depth / 8 {
            wasFull := false;
            return true;
          }
          if !retry {
            return false;
          }
        } else if !retry {
          wasFull := true;
          return false;
        }
        rPtr := shared.rIdx;
        retry := false;
      }
    }

    method ReserveForWrite() returns (slot: Option<nat>)
      requires Valid()
      modifies this
      ensures Valid() && State() == Reserved(old(State()), shared.rIdx, 1)
      ensures slot == if Granted(old(State()), shared.rIdx, 1) == 0 then None else Some(old(wPtr))
    {
      hide Distance, Free, Granted, Reserved;
      var retry := true;
      while true
        invariant Valid()
        invariant State() == if retry then old(State()) else LookForRoom(old(State()), shared.rIdx)
        decreases retry
      {
        var available := Available();
        if available > 1 {
          WithRoom(old(State()), shared.rIdx, 1);
          slot := Some(wPtr);
          wPtr := wPtr + 1;
          if wPtr == depth {
            wPtr := 0;
          }
          return;
        }
        if !retry {
          WithoutRoom(old(State()), shared.rIdx, 1);
          wasFull := true;
          return None;
        }
        rPtr := shared.rIdx;
        retry := false;
      }
    }

    // `alloced` is left as the caller had it when there is no room.
    method ReserveForWriteMultiple(n: nat, allocedIn: nat) returns (slot: Option<nat>, alloced: nat)
      requires Valid() && n < U16
      modifies this
      ensures Valid() && State() == Reserved(old(State()), shared.rIdx, n)
      ensures slot == if Free(LookForRoom(old(State()), shared.rIdx)) == 0 then None else Some(old(wPtr))
      ensures alloced == if slot.None? then allocedIn else Granted(old(State()), shared.rIdx, n)
    {
      hide Distance, Free, Granted, Reserved;
      alloced := allocedIn;
      var retry := true;
      while true
        invariant Valid() && alloced == allocedIn
        invariant State() == if retry then old(State()) else LookForRoom(old(State()), shared.rIdx)
        decreases retry
      {
        var available := Available();
        if available > 1 {
          WithRoom(old(State()), shared.rIdx, n);
          slot := Some(wPtr);
          alloced := if n <= available - 1 then n else available - 1;
          if alloced + wPtr > depth {
            alloced := depth - wPtr;
          }
          wPtr := wPtr + alloced;
          if wPtr == depth {
            wPtr := 0;
          }
          return;
        }
        if !retry {
          WithoutRoom(old(State()), shared.rIdx, n);
          wasFull := true;
          return None, alloced;
        }
        rPtr := shared.rIdx;
        retry := false;
      }
    }

    // Publishing: everything reserved so far becomes visible to the consumer.
    method WriteComplete()
      requires Valid()
      modifies this, shared
      ensures Valid() && State() == old(State()).(f := old(wPtr))
      ensures shared.wIdx == wPtr && shared.rIdx == old(shared.rIdx)
    {
      if fPtr > wPtr {
        fPtr := 0;
      }
      fPtr := wPtr;
      shared.wIdx := wPtr;
    }

    method WriteCancel(n: nat)
      requires Valid() && n < U16
      modifies this
      ensures State() == Cancelled(old(State()), n)
    {
      if wPtr == 0 {
        wPtr := if depth < n then depth + U16 - n else depth - n;
      } else {
        wPtr := if wPtr < n then wPtr + U16 - n else wPtr - n;
      }
    }

    method GetReadPtr() returns (slot: Option<nat>, n: nat)
      requires Valid()
      modifies this
      ensures Valid() && State() == old(State()).(w := shared.wIdx)
      ensures n == Run(State())
      ensures slot == if rPtr == shared.wIdx then None else Some(rPtr)
    {
      wPtr := shared.wIdx;
      if wPtr >= rPtr {
        n := wPtr - rPtr;
      } else {
        n := depth - rPtr;
      }
      slot := if n == 0 then None else Some(rPtr);
    }

    // `n` items of the run last handed out have been read.
    method ReadComplete(n: nat)
      requires Valid() && n <= Run(State())
      modifies this, shared
      ensures Valid() && State() == old(State()).(r := Advance(old(rPtr), n, old(depth)))
      ensures shared.rIdx == rPtr && shared.wIdx == old(shared.wIdx)
    {
      rPtr := rPtr + n;
      if rPtr == depth {
        rPtr := 0;
      }
      shared.rIdx := rPtr;
    }
  }
}
