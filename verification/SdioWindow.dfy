// Windowed access to the device's memory (bcmsdh.c): the host sees one window at a time,
// keeps the window's address cached, and moves RAM through it in chunks.

module SdioWindowSpec {
  import opened Arithmetic
  import opened Bytes

  const ADDRESS_SPACE: nat := 0x1_0000_0000

  // The window size and the flag or'ed into an access address: the source's masks, for a
  // window of `size` bytes.
  datatype Geometry = Geometry(size: nat, flag: nat)

  // A power of two of at least 256 satisfies this, as does the flag of any higher bit.
  predicate Sensible(g: Geometry) {
    0 < g.size < ADDRESS_SPACE && g.size % 256 == 0 && ADDRESS_SPACE % g.size == 0 && g.flag % g.size == 0
  }

  function Offset(g: Geometry, addr: nat): (o: nat)
    requires Sensible(g)
    ensures o < g.size && o <= addr
  {
    Remainder(addr, g.size)
  }

  function WindowOf(g: Geometry, addr: nat): nat
    requires Sensible(g)
  {
    addr - Offset(g, addr)
  }

  // The three bytes of the window register, low byte first, for a window address.
  function WindowBytes(bar0: nat): (b: seq<byte>)
    ensures |b| == 3
  {
    [Shifted(bar0, 1) % 256, Shifted(bar0, 2) % 256, Shifted(bar0, 3) % 256]
  }

  // Shifted right by `k` bytes.
  function Shifted(x: nat, k: nat): nat {
    if k == 0 then x else Shifted(x, k - 1) / 256
  }

  function WindowAddress(b: seq<byte>): nat
    requires |b| == 3
  {
    var b0: int, b1: int, b2: int := b[0], b[1], b[2];
    256 * (b0 + 256 * (b1 + 256 * b2))
  }

  lemma DivMod(x: nat, unit: nat)
    requires unit > 0
    ensures x == x / unit * unit + x % unit && 0 <= x % unit < unit
  {
  }

  lemma WindowQuotient(g: Geometry, addr: nat)
    requires Sensible(g)
    ensures WindowOf(g, addr) == addr / g.size * g.size
  {
    DivMod(addr, g.size);
  }

  // The register can hold it.
  lemma WindowWhole(g: Geometry, addr: nat)
    requires Sensible(g)
    ensures WindowOf(g, addr) % 256 == 0
  {
    var q, u := addr / g.size, g.size / 256;
    WindowQuotient(g, addr);
    DivMod(g.size, 256);
    MulSwap(q, 256, u);
    DivModUnique(256 * (q * u), 256, q * u, 0);
  }

  lemma MulSwap(q: int, k: int, u: int)
    ensures q * (u * k) == k * (q * u)
  {
  }

  lemma LastWindow(n: int, q: int, size: nat)
    requires size > 0 && q * size < n * size
    ensures q * size + size <= n * size
  {
    MulBounds(n - q, size);
    MulBounds(q - n, size);
    assert (n - q) * size == n * size - q * size;
    assert (q - n) * size == q * size - n * size;
  }

  // A window can be held by the register, ends inside the address space, and is followed by
  // the next one.
  lemma WindowOfAligned(g: Geometry, addr: nat)
    requires Sensible(g) && addr < ADDRESS_SPACE
    ensures WindowOf(g, addr) % 256 == 0
    ensures WindowOf(g, addr) + g.size <= ADDRESS_SPACE
    ensures Offset(g, WindowOf(g, addr) + g.size) == 0
  {
    var q, n := addr / g.size, ADDRESS_SPACE / g.size;
    WindowWhole(g, addr);
    WindowQuotient(g, addr);
    DivMod(ADDRESS_SPACE, g.size);
    LastWindow(n, q, g.size);
    assert q * g.size + g.size == (q + 1) * g.size;
    DivModUnique(WindowOf(g, addr) + g.size, g.size, q + 1, 0);
  }

  // Or'ing the access flag into an offset does not change the offset.
  lemma FlagIgnored(g: Geometry, sdaddr: nat)
    requires Sensible(g) && sdaddr < g.size
    ensures Offset(g, sdaddr + g.flag) == sdaddr
  {
    DivModUnique(sdaddr + g.flag, g.size, g.flag / g.size, sdaddr);
  }

  lemma ShiftedStep(x: nat, k: nat)
    ensures Shifted(x, k) == 256 * Shifted(x, k + 1) + Shifted(x, k) % 256
    ensures Shifted(x, 0) == x && Shifted(x, k + 1) == Shifted(x, k) / 256
  {
  }

  lemma ByteIsItself(x: nat)
    requires x < 256
    ensures x % 256 == x
  {
  }

  // The register holds every window address exactly.
  lemma WindowRoundTrip(bar0: nat)
    requires bar0 < ADDRESS_SPACE && bar0 % 256 == 0
    ensures WindowAddress(WindowBytes(bar0)) == bar0
  {
    hide Shifted;
    ShiftedStep(bar0, 0);
    ShiftedStep(bar0, 1);
    ShiftedStep(bar0, 2);
    var s1, s2, s3 := Shifted(bar0, 1), Shifted(bar0, 2), Shifted(bar0, 3);
    var r1: int, r2: int := s1 % 256, s2 % 256;
    assert bar0 == 256 * s1;
    assert s1 == 256 * s2 + r1;
    assert s2 == 256 * s3 + r2;
    ByteIsItself(s3);
    var w := WindowBytes(bar0);
    assert w[0] == r1 && w[1] == r2 && w[2] == s3;
  }

  // Different register contents are different addresses.
  lemma WindowAddressInjective(a: seq<byte>, b: seq<byte>)
    requires |a| == 3 && |b| == 3 && WindowAddress(a) == WindowAddress(b)
    ensures a == b
  {
    var a0: int, a1: int, a2: int := a[0], a[1], a[2];
    var b0: int, b1: int, b2: int := b[0], b[1], b[2];
    DivModUnique(a0 + 256 * (a1 + 256 * a2), 256, b1 + 256 * b2, b0);
    DivModUnique(a0 + 256 * (a1 + 256 * a2), 256, a1 + 256 * a2, a0);
    DivModUnique(a1 + 256 * a2, 256, b2, b1);
    DivModUnique(a1 + 256 * a2, 256, a2, a1);
  }

  // The register after the first `k` of its bytes have been written.
  function PartlySet(win: seq<byte>, bar0: nat, k: nat): (w: seq<byte>)
    requires |win| == 3 && k <= 3
    ensures |w| == 3
  {
    WindowBytes(bar0)[..k] + win[k..]
  }

  lemma PartlySetStep(win: seq<byte>, bar0: nat, k: nat)
    requires |win| == 3 && k < 3
    ensures PartlySet(win, bar0, k)[k := Shifted(bar0, k + 1) % 256] == PartlySet(win, bar0, k + 1)
    ensures PartlySet(win, bar0, 0) == win
    ensures PartlySet(win, bar0, 3) == WindowBytes(bar0)
  {
    hide Shifted;
    assert WindowBytes(bar0)[k] == Shifted(bar0, k + 1) % 256;
    assert WindowBytes(bar0)[..k + 1] == WindowBytes(bar0)[..k] + [WindowBytes(bar0)[k]];
  }

  // The window register and the host's copy of the address in it.
  datatype Register = Register(win: seq<byte>, sbwad: nat)

  // Setting the window of an address, the `failAt`th write failing; and whether one did.
  function SetWindow(g: Geometry, r: Register, addr: nat, failAt: nat): (s: (Register, bool))
    requires Sensible(g) && |r.win| == 3
    ensures |s.0.win| == 3
  {
    var bar0 := WindowOf(g, addr);
    if bar0 == r.sbwad then (r, false)
    else if failAt < 3 then (r.(win := PartlySet(r.win, bar0, failAt)), true)
    else (Register(WindowBytes(bar0), bar0), false)
  }

  // From a register and a copy that agree, setting the window leaves them so, on the window
  // that was asked for, unless a write fails.
  lemma SetsWindow(g: Geometry, sbwad: nat, addr: nat)
    requires Sensible(g) && addr < ADDRESS_SPACE
    ensures SetWindow(g, Register(WindowBytes(sbwad), sbwad), addr, 3)
         == (Register(WindowBytes(WindowOf(g, addr)), WindowOf(g, addr)), false)
    ensures WindowAddress(WindowBytes(WindowOf(g, addr))) == WindowOf(g, addr)
  {
    WindowOfAligned(g, addr);
    WindowRoundTrip(WindowOf(g, addr));
  }

  // After a write failed, setting the window of any address without a failure leaves the
  // register on that window if and only if it is not the cached one, or the bytes written
  // before the failure are those of the cached one anyway: otherwise the copy makes the host
  // skip the write, and its accesses go elsewhere.
  lemma CacheAfterFailure(g: Geometry, cached: nat, failed: nat, k: nat, addr: nat)
    requires Sensible(g) && k < 3 && failed < ADDRESS_SPACE && addr < ADDRESS_SPACE
    requires cached < ADDRESS_SPACE && WindowOf(g, cached) == cached && WindowOf(g, failed) != cached
    ensures var r := SetWindow(g, Register(WindowBytes(cached), cached), failed, k).0;
            var r' := SetWindow(g, r, addr, 3).0;
            (WindowAddress(r'.win) == WindowOf(g, addr)) <==>
              (WindowOf(g, addr) != cached || WindowBytes(WindowOf(g, failed))[..k] == WindowBytes(cached)[..k])
  {
    hide Sensible, Offset, WindowOf, WindowAddress, Shifted;
    var w, bar0 := WindowBytes(cached), WindowOf(g, failed);
    if WindowOf(g, addr) != cached {
      WindowOfAligned(g, addr);
      WindowRoundTrip(WindowOf(g, addr));
    } else {
      WindowOfAligned(g, cached);
      WindowRoundTrip(cached);
      PartlySame(w, bar0, k);
      if WindowAddress(PartlySet(w, bar0, k)) == cached {
        WindowAddressInjective(PartlySet(w, bar0, k), w);
      }
    }
  }

  lemma PartlySame(w: seq<byte>, bar0: nat, k: nat)
    requires |w| == 3 && k < 3
    ensures PartlySet(w, bar0, k) == w <==> WindowBytes(bar0)[..k] == w[..k]
  {
    hide WindowBytes;
    assert w == w[..k] + w[k..];
    assert PartlySet(w, bar0, k)[..k] == WindowBytes(bar0)[..k];
  }

  // A failure in the middle of moving to the next window: the host believes it is on the old
  // one, and the register is on the new one.
  lemma StaleWindow()
    ensures var g, before := Geometry(0x8000, 0x8000), 0x1800_0000;
            var r := SetWindow(g, Register(WindowBytes(before), before), 0x1800_8000, 1).0;
            && Sensible(g) && WindowOf(g, before) == before
            && SetWindow(g, r, before, 3) == (r, false) && WindowAddress(r.win) == 0x1800_8000
  {
    var w: seq<byte>, w': seq<byte> := [0x00, 0x00, 0x18], [0x80, 0x00, 0x18];
    ThreeBytes(0x1800_0000, 0x18_0000, 0x1800, 0x18);
    ThreeBytes(0x1800_8000, 0x18_0080, 0x1800, 0x18);
    assert WindowBytes(0x1800_0000) == w && WindowBytes(0x1800_8000) == w';
    assert PartlySet(w, 0x1800_8000, 1) == w';
  }

  lemma ThreeBytes(x: nat, s1: nat, s2: nat, s3: nat)
    requires x / 256 == s1 && s1 / 256 == s2 && s2 / 256 == s3
    ensures WindowBytes(x) == [s1 % 256, s2 % 256, s3 % 256]
  {
    hide Shifted;
    ShiftedStep(x, 0);
    ShiftedStep(x, 1);
    ShiftedStep(x, 2);
  }

  // ---- chunks ----

  datatype Access = Access(addr: nat, len: nat)

  // The accesses cover [address, address + size) once, in order and without a gap, each
  // inside one window and no longer than the packet allocated for them.
  predicate Covers(g: Geometry, log: seq<Access>, address: nat, size: nat, packet: nat)
    requires Sensible(g)
    decreases |log|
  {
    if log == [] then size == 0
    else
      var a := log[|log| - 1];
      && 0 < a.len <= packet && a.len <= size && a.addr == address + size - a.len
      && Offset(g, a.addr) + a.len <= g.size
      && Covers(g, log[..|log| - 1], address, size - a.len, packet)
  }

  lemma CoversAppend(g: Geometry, log: seq<Access>, address: nat, size: nat, packet: nat, len: nat)
    requires Sensible(g) && Covers(g, log, address, size, packet)
    requires 0 < len <= packet && Offset(g, address + size) + len <= g.size
    ensures Covers(g, log + [Access(address + size, len)], address, size + len, packet)
  {
    assert (log + [Access(address + size, len)])[..|log|] == log;
  }

  // How many accesses touch the byte at `x`.
  function Hits(log: seq<Access>, x: nat): nat
    decreases |log|
  {
    if log == [] then 0
    else
      var a := log[|log| - 1];
      Hits(log[..|log| - 1], x) + if a.addr <= x < a.addr + a.len then 1 else 0
  }

  // Covering touches every byte of the range exactly once and no other.
  lemma {:induction false} CoversOnce(g: Geometry, log: seq<Access>, address: nat, size: nat, packet: nat, x: nat)
    requires Sensible(g) && Covers(g, log, address, size, packet)
    ensures Hits(log, x) == if address <= x < address + size then 1 else 0
    decreases |log|
  {
    hide Sensible, Offset;
    if log != [] {
      var a := log[|log| - 1];
      CoversOnce(g, log[..|log| - 1], address, size - a.len, packet, x);
    }
  }

  function Put(mem: seq<byte>, addr: nat, data: seq<byte>): (mem': seq<byte>)
    requires addr + |data| <= |mem|
    ensures |mem'| == |mem|
  {
    mem[..addr] + data + mem[addr + |data|..]
  }

  lemma PutPut(mem: seq<byte>, addr: nat, a: seq<byte>, b: seq<byte>)
    requires addr + |a| + |b| <= |mem|
    ensures Put(Put(mem, addr, a), addr + |a|, b) == Put(mem, addr, a + b)
  {
  }

  // The size of the first chunk, as computed before the loop: the sum is one of 32 bits.
  function FirstChunk(g: Geometry, sdaddr: nat, size: nat): nat
    requires Sensible(g) && sdaddr < g.size
  {
    if (sdaddr + size) % ADDRESS_SPACE >= g.size then g.size - sdaddr else size
  }

  // For every offset and every 32-bit size the first chunk stays in its window just when that
  // sum does not wrap.
  lemma FirstChunkFits(g: Geometry, sdaddr: nat, size: nat)
    requires Sensible(g) && sdaddr < g.size && size < ADDRESS_SPACE
    ensures sdaddr + FirstChunk(g, sdaddr, size) <= g.size <==> sdaddr + size < ADDRESS_SPACE
  {
    var sum := sdaddr + size;
    DivModUnique(sum, ADDRESS_SPACE, if sum < ADDRESS_SPACE then 0 else 1,
                 if sum < ADDRESS_SPACE then sum else sum - ADDRESS_SPACE);
  }

  // One for which it wraps, although the range ends with the address space.
  lemma FirstChunkWraps()
    ensures var g := Geometry(0x8000, 0x8000);
            && Sensible(g) && Offset(g, 0x100) == 0x100 && 0x100 + 0xFFFF_FF00 == ADDRESS_SPACE
            && FirstChunk(g, 0x100, 0xFFFF_FF00) == 0xFFFF_FF00
  {
  }

  // A whole number of bus words.
  predicate Words(n: int) {
    n % 4 == 0
  }

  lemma WordsIs(n: int)
    requires Words(n)
    ensures n == 4 * (n / 4)
  {
  }

  lemma FourTimes(n: int, k: int)
    requires n == 4 * k
    ensures Words(n)
  {
  }

  lemma WordsMinus(a: int, b: int)
    requires Words(a) && Words(b)
    ensures Words(a - b) && Words(-b)
  {
    hide Words;
    WordsIs(a);
    WordsIs(b);
    FourTimes(a - b, a / 4 - b / 4);
    FourTimes(-b, -(b / 4));
  }

  lemma WordsTimes(k: int, n: nat)
    ensures Words(k * (4 * n))
  {
    hide Words;
    assert k * (4 * n) == 4 * (k * n);
    FourTimes(k * (4 * n), k * n);
  }

  lemma WindowWords(g: Geometry, k: nat)
    requires Sensible(g)
    ensures Words(g.size) && Words(k * g.size)
  {
    assert g.size == 4 * (64 * (g.size / 256));
    WordsTimes(1, 64 * (g.size / 256));
    WordsTimes(k, 64 * (g.size / 256));
  }

  lemma AlignedOffset(g: Geometry, address: nat)
    requires Sensible(g) && Words(address)
    ensures Words(Offset(g, address))
  {
    hide Words;
    var q := address / g.size;
    WindowWords(g, q);
    WordsMinus(address, q * g.size);
    assert Offset(g, address) == address - q * g.size;
  }

  lemma AlignedChunk(g: Geometry, sdaddr: nat, left: nat, dsize: nat)
    requires dsize <= left && (dsize < left ==> sdaddr + dsize == g.size)
    requires Sensible(g) && Words(sdaddr) && Words(left)
    ensures Words(dsize) && Words(left - dsize) && RoundUp4(dsize) == dsize
  {
    hide Words, Sensible;
    WindowWords(g, 0);
    WordsMinus(g.size, sdaddr);
    assert dsize == left || dsize == g.size - sdaddr;
    WordsMinus(left, dsize);
    WholeWords(dsize);
  }

  lemma WholeWords(n: nat)
    requires Words(n)
    ensures RoundUp4(n) == n
  {
  }

  lemma FirstIsNext(g: Geometry, address: nat, size: nat)
    requires Sensible(g) && address + size <= ADDRESS_SPACE && 0 < size && Offset(g, address) + size < ADDRESS_SPACE
    ensures NextChunk(g, address, Offset(g, address), size, FirstChunk(g, Offset(g, address), size),
                      if size < g.size then size else g.size)
  {
    hide Sensible, Offset;
    FirstChunkFits(g, Offset(g, address), size);
  }

  // Since `log0` the accesses cover exactly [address, address + done).
  ghost predicate Logged(g: Geometry, log0: seq<Access>, log: seq<Access>, address: nat, done: nat, packet: nat)
    requires Sensible(g)
  {
    log0 <= log && Covers(g, log[|log0|..], address, done, packet)
  }

  // `n` bytes went from data[at..] to the memory at `address`, `spill` behind them, or the
  // other way; nothing else changed.
  ghost predicate Moved(write: bool, mem0: seq<byte>, mem: seq<byte>, data0: seq<byte>, data: seq<byte>,
                        address: nat, at: nat, n: nat, spill: seq<byte>) {
    && at + n <= |data0| && address + n + |spill| <= |mem0|
    && if write then data == data0 && mem == Put(mem0, address, data0[at..at + n] + spill)
       else mem == mem0 && data == Put(data0, at, mem0[address..address + n])
  }

  lemma NothingMoved(write: bool, mem: seq<byte>, data: seq<byte>, address: nat)
    requires address <= |mem|
    ensures Moved(write, mem, mem, data, data, address, 0, 0, [])
  {
  }

  lemma NothingLogged(g: Geometry, log: seq<Access>, address: nat, packet: nat)
    requires Sensible(g)
    ensures Logged(g, log, log, address, 0, packet)
  {
    assert log[|log|..] == [];
  }

  // What was written is what a later read of the same range returns, and the write left the
  // rest of the memory alone.
  lemma ReadsBack(mem0: seq<byte>, mem1: seq<byte>, mem2: seq<byte>, data: seq<byte>, data': seq<byte>,
                  buf0: seq<byte>, buf1: seq<byte>, address: nat, n: nat, spill: seq<byte>)
    requires Moved(true, mem0, mem1, data, data', address, 0, n, spill)
    requires Moved(false, mem1, mem2, buf0, buf1, address, 0, n, [])
    ensures buf1[..n] == data[..n] && buf1[n..] == buf0[n..] && mem2 == mem1
    ensures mem1[..address] == mem0[..address]
    ensures mem1[address + n + |spill|..] == mem0[address + n + |spill|..]
  {
    assert mem1[address..address + n] == data[0..n];
  }

  // No packet, rounded up to whole words, passes the end of its window.
  ghost predicate Inside(g: Geometry, log0: seq<Access>, log: seq<Access>)
    requires Sensible(g)
  {
    log0 <= log && forall i :: |log0| <= i < |log| ==> Offset(g, log[i].addr) + RoundUp4(log[i].len) <= g.size
  }

  lemma InsideStep(g: Geometry, log0: seq<Access>, log: seq<Access>, a: Access)
    requires Sensible(g) && Inside(g, log0, log) && Offset(g, a.addr) + RoundUp4(a.len) <= g.size
    ensures Inside(g, log0, log + [a])
  {
    hide Offset, RoundUp4, Sensible;
  }

  lemma NothingInside(g: Geometry, log: seq<Access>)
    requires Sensible(g)
    ensures Inside(g, log, log)
  {
  }

  // From a word on, rounding up stays in the window.
  lemma RoundedFits(g: Geometry, sdaddr: nat, dsize: nat)
    requires Sensible(g) && Words(sdaddr) && sdaddr + dsize <= g.size
    ensures sdaddr + RoundUp4(dsize) <= g.size
  {
    WindowWords(g, 0);
    NextWord(g.size - sdaddr, dsize) by {
      WordsMinus(g.size, sdaddr);
    }
  }

  lemma NextWord(room: nat, n: nat)
    requires Words(room) && n <= room
    ensures RoundUp4(n) <= room
  {
  }

  // The state the loop starts from.
  lemma Start(write: bool, mem: seq<byte>, data: seq<byte>, log: seq<Access>, g: Geometry, address: nat, size: nat)
    requires Sensible(g) && address + size <= ADDRESS_SPACE == |mem| && Offset(g, address) + size < ADDRESS_SPACE
    ensures Moved(write, mem, mem, data, data, address, 0, 0, [])
    ensures Logged(g, log, log, address, 0, if size < g.size then size else g.size)
    ensures size > 0 ==> NextChunk(g, address, Offset(g, address), size, FirstChunk(g, Offset(g, address), size),
                                   if size < g.size then size else g.size)
    ensures Words(0) && (Words(address) ==> Words(Offset(g, address)))
  {
    hide Sensible, NextChunk, FirstChunk, Offset, Moved, Logged;
    NothingLogged(g, log, address, if size < g.size then size else g.size);
    NothingMoved(write, mem, data, address);
    if size > 0 {
      FirstIsNext(g, address, size);
    }
    if Words(address) {
      AlignedOffset(g, address);
    }
  }

  // One more chunk.
  lemma LogStep(g: Geometry, log0: seq<Access>, log1: seq<Access>, address: nat, done: nat, packet: nat, dsize: nat)
    requires Sensible(g) && Logged(g, log0, log1, address, done, packet)
    requires 0 < dsize <= packet && Offset(g, address + done) + dsize <= g.size
    ensures Logged(g, log0, log1 + [Access(address + done, dsize)], address, done + dsize, packet)
  {
    CoversAppend(g, log1[|log0|..], address, done, packet, dsize);
    assert (log1 + [Access(address + done, dsize)])[|log0|..] == log1[|log0|..] + [Access(address + done, dsize)];
  }

  lemma MovedStep(write: bool, mem0: seq<byte>, mem1: seq<byte>, mem2: seq<byte>,
                  data0: seq<byte>, data1: seq<byte>, data2: seq<byte>,
                  address: nat, done: nat, dsize: nat, spill: seq<byte>)
    requires Moved(write, mem0, mem1, data0, data1, address, 0, done, [])
    requires Moved(write, mem1, mem2, data1, data2, address + done, done, dsize, spill)
    ensures Moved(write, mem0, mem2, data0, data2, address, 0, done + dsize, spill)
  {
    hide Put;
    if write {
      PutPut(mem0, address, data0[..done], data0[done..done + dsize] + spill);
      assert data0[0..done] + [] == data0[..done];
      assert data0[..done] + (data0[done..done + dsize] + spill) == data0[0..done + dsize] + spill;
    } else {
      PutPut(data0, 0, mem0[address..address + done], mem0[address + done..address + done + dsize]);
      assert mem0[address..address + done] + mem0[address + done..address + done + dsize]
          == mem0[address..address + done + dsize];
    }
  }

  // What the loop relies on when `left` bytes from `here` on are still to be moved: the next
  // chunk fits the window and the packet, and reaches the window's end unless it is the last.
  predicate NextChunk(g: Geometry, here: nat, sdaddr: nat, left: nat, dsize: nat, packet: nat)
    requires Sensible(g)
  {
    && sdaddr == Offset(g, here) && 0 < dsize <= left && dsize <= packet
    && sdaddr + dsize <= g.size
    && (dsize < left ==> sdaddr + dsize == g.size)
  }

  lemma ChunkFits(g: Geometry, here: nat, sdaddr: nat, left: nat, dsize: nat, packet: nat)
    requires Sensible(g) && NextChunk(g, here, sdaddr, left, dsize, packet)
    ensures sdaddr == Offset(g, here) && 0 < dsize <= left && dsize <= packet && sdaddr + dsize <= g.size
    ensures dsize < left ==> sdaddr + dsize == g.size
  {
  }

  lemma AfterChunk(g: Geometry, here: nat, sdaddr: nat, left: nat, dsize: nat, packet: nat)
    requires Sensible(g) && here < ADDRESS_SPACE && NextChunk(g, here, sdaddr, left, dsize, packet)
    requires dsize < left && packet <= g.size && (packet < g.size ==> left <= packet)
    ensures NextChunk(g, here + dsize, 0, left - dsize, if g.size < left - dsize then g.size else left - dsize, packet)
  {
    WindowOfAligned(g, here);
    assert here + dsize == WindowOf(g, here) + g.size;
  }
}

module SdioWindow {
  import opened Arithmetic
  import opened Bytes
  import opened SdioWindowSpec

  // The device: its window register, its memory, and the accesses made so far.
  class Device {
    const g: Geometry
    var win: seq<byte>
    var mem: seq<byte>
    ghost var log: seq<Access>

    ghost predicate Valid()
      reads this
    {
      Sensible(g) && |win| == 3 && |mem| == ADDRESS_SPACE
    }

    // Where an access at `sdaddr` lands.
    ghost predicate Lands(sdaddr: nat, addr: nat)
      reads this
      requires Valid()
    {
      addr < ADDRESS_SPACE && WindowAddress(win) == WindowOf(g, addr) && Offset(g, sdaddr) == Offset(g, addr)
    }

    lemma LandsAt(sdaddr: nat, addr: nat)
      requires Valid() && Lands(sdaddr, addr)
      ensures WindowAddress(win) + Offset(g, sdaddr) == addr && addr + (g.size - Offset(g, addr)) <= ADDRESS_SPACE
      ensures |mem| == ADDRESS_SPACE
    {
      WindowOfAligned(g, addr);
    }

    // A register byte is written, unless the bus fails.
    method WriteB(i: nat, b: byte, ok: bool)
      requires |win| == 3 && i < 3
      modifies this`win
      ensures win == if ok then old(win)[i := b] else old(win)
    {
      if ok {
        win := win[i := b];
      }
    }

    // Block access at an offset in the current window.  Of a packet rounded up to whole words
    // the bytes past the window's end go nowhere.
    method Write(sdaddr: nat, packet: seq<byte>, ghost addr: nat, ghost len: nat)
      requires Valid() && Lands(sdaddr, addr)
      modifies this`mem, this`log
      ensures Valid() && addr + |InWindow(g, addr, packet)| <= ADDRESS_SPACE
      ensures mem == Put(old(mem), addr, InWindow(g, addr, packet)) && log == old(log) + [Access(addr, len)]
    {
      hide Sensible, WindowOf, Offset, WindowAddress;
      LandsAt(sdaddr, addr);
      var off := Offset(g, sdaddr);
      var at := WindowAddress(win) + off;
      var kept := if |packet| <= g.size - off then |packet| else g.size - off;
      mem := mem[..at] + packet[..kept] + mem[at + kept..];
      log := log + [Access(addr, len)];
    }

    method Read(sdaddr: nat, n: nat, ghost addr: nat, ghost len: nat) returns (data: seq<byte>)
      requires Valid() && Lands(sdaddr, addr) && len <= n && Offset(g, addr) + len <= g.size
      modifies this`log
      ensures |data| == n && addr + len <= ADDRESS_SPACE && data[..len] == mem[addr..addr + len]
      ensures log == old(log) + [Access(addr, len)]
    {
      hide Sensible, WindowOf, Offset, WindowAddress;
      LandsAt(sdaddr, addr);
      var off := Offset(g, sdaddr);
      var at := WindowAddress(win) + off;
      var kept := if n <= g.size - off then n else g.size - off;
      data := mem[at..at + kept] + Zeros(n - kept);
      assert data[..len] == mem[at..at + kept][..len] == mem[at..at + len];
      log := log + [Access(addr, len)];
    }
  }

  // The part of a packet for `addr` that falls into its window.
  ghost function InWindow(g: Geometry, addr: nat, packet: seq<byte>): (p: seq<byte>)
    requires Sensible(g)
    ensures |p| <= |packet| && Offset(g, addr) + |p| <= g.size
  {
    if |packet| <= g.size - Offset(g, addr) then packet else packet[..g.size - Offset(g, addr)]
  }

  class Host {
    const dev: Device
    const g: Geometry
    var sbwad: nat

    // The cached address is the window that is set.
    ghost predicate Coherent()
      reads this, dev
    {
      && dev.Valid() && dev.g == g
      && sbwad < ADDRESS_SPACE && sbwad % 256 == 0 && dev.win == WindowBytes(sbwad)
    }

    constructor (dev: Device, sbwad: nat)
      requires dev.Valid() && sbwad < ADDRESS_SPACE && sbwad % 256 == 0 && dev.win == WindowBytes(sbwad)
      ensures this.dev == dev && this.g == dev.g && this.sbwad == sbwad && Coherent()
    {
      this.dev, g, this.sbwad := dev, dev.g, sbwad;
    }

    // The `failAt`th register write fails, none if there are fewer.
    method SetBackplaneWindow(addr: nat, failAt: nat) returns (err: bool)
      requires dev.Valid() && dev.g == g && addr < ADDRESS_SPACE
      modifies this`sbwad, dev`win
      ensures dev.Valid()
      ensures (Register(dev.win, sbwad), err) == SetWindow(g, old(Register(dev.win, sbwad)), addr, failAt)
      ensures old(Coherent()) && !err ==>
                Coherent() && sbwad == WindowOf(g, addr) && WindowAddress(dev.win) == WindowOf(g, addr)
    {
      var bar0 := WindowOf(g, addr);
      WindowOfAligned(g, addr);
      WindowRoundTrip(bar0);
      if bar0 == sbwad {
        return false;
      }
      var v := bar0 / 256;
      assert Shifted(bar0, 0) == bar0 && Shifted(bar0, 1) == v;
      hide WindowBytes, PartlySet, WindowAddress, WindowOf;
      PartlySetStep(dev.win, bar0, 0);
      err := false;
      var i := 0;
      while i < 3 && !err
        invariant i <= 3 && dev.Valid() && v == Shifted(bar0, i + 1)
        invariant err == (failAt < i) && sbwad == old(sbwad)
        invariant dev.win == PartlySet(old(dev.win), bar0, if err then failAt else i)
        invariant err ==> failAt == i - 1
        decreases 3 - i
      {
        PartlySetStep(old(dev.win), bar0, i);
        dev.WriteB(i, v % 256, failAt != i);
        err := failAt == i;
        i := i + 1;
        v := v / 256;
      }
      if !err {
        sbwad := bar0;
      }
    }

    // One chunk of a transfer in either direction, all bus operations succeeding.  Whole
    // words go over the bus: `junk` is what the packet holds behind the data, and `spill` the
    // part of it that reaches the device's memory.
    method Chunk(write: bool, address: nat, sdaddr: nat, data: array<byte>, at: nat, dsize: nat, junk: seq<byte>)
      returns (ghost spill: seq<byte>)
      requires Coherent() && address < ADDRESS_SPACE && sdaddr == Offset(g, address) && sdaddr + dsize <= g.size
      requires at + dsize <= data.Length && |junk| == 3
      modifies this`sbwad, dev, data
      ensures Coherent() && dev.log == old(dev.log) + [Access(address, dsize)]
      ensures spill <= junk[..RoundUp4(dsize) - dsize] && sdaddr + dsize + |spill| <= g.size
      ensures sdaddr + RoundUp4(dsize) <= g.size ==> |spill| == RoundUp4(dsize) - dsize
      ensures Moved(write, old(dev.mem), dev.mem, old(data[..]), data[..], address, at, dsize, spill)
    {
      var err := SetBackplaneWindow(address, 3);
      WindowOfAligned(g, address);
      FlagIgnored(g, sdaddr);
      var word := sdaddr + g.flag;
      var pad := junk[..RoundUp4(dsize) - dsize];
      var packet := data[at..at + dsize] + pad;
      ghost var kept := InWindow(g, address, packet);
      spill := kept[dsize..];
      assert kept == data[at..at + dsize] + spill;
      if write {
        dev.Write(word, packet, address, dsize);
      } else {
        var got := dev.Read(word, RoundUp4(dsize), address, dsize);
        ghost var before := data[..];
        CopyIn(data, at, got[..dsize]);
        assert data[..] == Put(before, at, got[..dsize]);
      }
    }

    // brcmf_sdiod_ramrw when every transfer succeeds.  Written or read is exactly
    // [address, address + size), but for up to three bytes behind the end of a write that
    // does not end on a whole word.
    method Ramrw(write: bool, address: nat, data: array<byte>, size: nat, junk: seq<byte>)
      returns (ghost spill: seq<byte>)
      requires Coherent() && address < ADDRESS_SPACE && address + size <= ADDRESS_SPACE
      requires Offset(g, address) + size < ADDRESS_SPACE
      requires size <= data.Length && |junk| == 3
      modifies this`sbwad, dev, data
      ensures Coherent()
      ensures Logged(g, old(dev.log), dev.log, address, size, if size < g.size then size else g.size)
      ensures Moved(write, old(dev.mem), dev.mem, old(data[..]), data[..], address, 0, size, spill)
      ensures spill <= junk
      ensures Words(address) ==> Inside(g, old(dev.log), dev.log)
      ensures Words(address) && Words(size) ==> spill == []
    {
      hide Logged, Inside, Moved, RoundUp4, NextChunk, FirstChunk, Sensible;
      hide WindowBytes, WindowAddress, Offset, WindowOf, Words;
      var left: nat, done: nat, here: nat := size, 0, address;
      var sdaddr := Offset(g, address);
      var dsize: nat := FirstChunk(g, sdaddr, size);
      ghost var packet := if size < g.size then size else g.size;
      ghost var log0, mem0, data0 := dev.log, dev.mem, data[..];
      spill := [];
      Start(write, mem0, data0, log0, g, address, size);
      NothingInside(g, log0);
      while left > 0
        invariant Coherent() && done + left == size && data.Length == |data0|
        invariant left > 0 ==> here == address + done && NextChunk(g, here, sdaddr, left, dsize, packet)
        invariant packet < g.size ==> left <= packet
        invariant Logged(g, log0, dev.log, address, done, packet)
        invariant Moved(write, mem0, dev.mem, data0, data[..], address, 0, done, spill)
        invariant spill <= junk && (left > 0 ==> spill == [])
        invariant Words(address) ==> Words(sdaddr) && Inside(g, log0, dev.log)
        invariant Words(address) && Words(size) ==> spill == [] && Words(left)
        decreases left
      {
        ghost var log1, mem1, data1 := dev.log, dev.mem, data[..];
        ChunkFits(g, here, sdaddr, left, dsize, packet);
        if Words(address) && Words(size) {
          AlignedChunk(g, sdaddr, left, dsize);
        }
        spill := Chunk(write, here, sdaddr, data, done, dsize, junk);
        LogStep(g, log0, log1, address, done, packet, dsize);
        if Words(address) {
          RoundedFits(g, sdaddr, dsize);
          InsideStep(g, log0, log1, Access(address + done, dsize));
        }
        MovedStep(write, mem0, mem1, dev.mem, data0, data1, data[..], address, done, dsize, spill);
        left := left - dsize;
        done := done + dsize;
        if left > 0 {
          AfterChunk(g, here, sdaddr, left + dsize, dsize, packet);
          here := here + dsize;
          sdaddr := 0;
          dsize := if g.size < left then g.size else left;
        }
      }
    }
  }
}
