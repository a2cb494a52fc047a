// From the text to the entries of one device: the compiler's output is what the strips of
// firmware.c take apart.

module NvramDevice {
  import opened Bytes
  import opened NvramText
  import opened NvramRoundTrip
  import opened NvramEntries

  // The entries a text keeps, without their NULs.
  function EntryList(lines: seq<Line>, stripMac: bool): seq<seq<byte>> {
    if lines == [] then []
    else if lines[0].Entry? && Keeps(lines[0].key, stripMac) then
      [lines[0].key + [EQUALS] + lines[0].value] + EntryList(lines[1..], stripMac)
    else EntryList(lines[1..], stripMac)
  }

  predicate Assigns(e: seq<byte>) {
    NulFree(e) && EQUALS in e
  }

  predicate AllAssign(es: seq<seq<byte>>) {
    forall i :: 0 <= i < |es| ==> Assigns(es[i])
  }

  lemma AssignsKeyValue(key: seq<byte>, value: seq<byte>)
    requires WellFormedKeyValue(key, value)
    ensures Assigns(key + [EQUALS] + value)
  {
    assert (key + [EQUALS] + value)[|key|] == EQUALS;
  }

  lemma {:induction false} KeptAreEntries(lines: seq<Line>, stripMac: bool)
    requires forall i :: 0 <= i < |lines| ==> WellFormed(lines[i])
    ensures KeptAll(lines, stripMac) == Flat(EntryList(lines, stripMac)) && AllAssign(EntryList(lines, stripMac))
  {
    hide Assigns;
    if lines != [] {
      var line, rest := lines[0], EntryList(lines[1..], stripMac);
      KeptAreEntries(lines[1..], stripMac);
      if line.Entry? && Keeps(line.key, stripMac) {
        var e := line.key + [EQUALS] + line.value;
        assert WellFormed(line);
        AssignsKeyValue(line.key, line.value);
        FlatCons(e, rest);
        assert Kept(line, stripMac) == e + [NUL];
      }
    }
  }

  lemma {:induction false} FirstNulAt(buf: seq<byte>, e: seq<byte>, rest: seq<byte>)
    requires buf == e + [NUL] + rest && NulFree(e)
    ensures NUL in buf && FirstNul(buf) == |e|
    decreases |e|
  {
    assert buf[|e|] == NUL;
    if e != [] {
      assert buf[0] == e[0] && buf[1..] == e[1..] + [NUL] + rest;
      FirstNulAt(buf[1..], e[1..], rest);
    }
  }

  lemma EntryInFront(e: seq<byte>, rest: seq<byte>)
    requires NulFree(e) && (rest != [] ==> rest[|rest| - 1] == NUL)
    ensures var buf := e + [NUL] + rest;
            buf[|buf| - 1] == NUL && Entries(buf) == [e] + Entries(rest)
  {
    hide FirstNul, NulFree;
    var buf := e + [NUL] + rest;
    FirstNulAt(buf, e, rest);
    assert buf[..|e|] == e && buf[|e| + 1..] == rest;
  }

  lemma FirstEntry(es: seq<seq<byte>>)
    requires AllAssign(es) && es != []
    ensures NulFree(es[0]) && AllAssign(es[1..]) && Flat(es) == es[0] + [NUL] + Flat(es[1..])
  {
    hide NulFree;
    assert Assigns(es[0]);
  }

  lemma NoEntries()
    ensures AllAssign([]) && Flat([]) == [] && Entries([]) == []
  {
  }

  // Splitting undoes joining, as joining undoes splitting.
  lemma {:induction false} EntriesOfFlat(es: seq<seq<byte>>)
    requires AllAssign(es)
    ensures Flat(es) != [] ==> Flat(es)[|Flat(es)| - 1] == NUL
    ensures Entries(Flat(es)) == es
  {
    hide NulFree, Entries, Flat, AllAssign;
    if es == [] {
      NoEntries();
    } else {
      FirstEntry(es);
      EntriesOfFlat(es[1..]);
      EntryInFront(es[0], Flat(es[1..]));
      assert es == [es[0]] + es[1..];
    }
  }

  // ---- for any text at all ----

  // The output is a run of assignments.
  ghost predicate Tidy(out: seq<byte>) {
    exists es :: AllAssign(es) && Flat(es) == out
  }

  // What has been read of an entry has no NUL, and what has been read up to its value an `=`.
  ghost predicate Writing(data: seq<byte>, p: Parser) {
    && p.entry <= p.pos <= |data| && Tidy(p.out)
    && (p.state.Key? || p.state.Value? ==> NulFree(data[p.entry..p.pos]))
    && (p.state.Value? ==> EQUALS in data[p.entry..p.pos])
  }

  lemma OneMoreChar(data: seq<byte>, entry: nat, pos: nat)
    requires entry <= pos < |data| && NulFree(data[entry..pos]) && data[pos] != NUL
    ensures NulFree(data[entry..pos + 1])
    ensures EQUALS in data[entry..pos] || data[pos] == EQUALS ==> EQUALS in data[entry..pos + 1]
  {
    assert data[entry..pos + 1] == data[entry..pos] + [data[pos]];
  }

  lemma TidyAppend(out: seq<byte>, e: seq<byte>)
    requires Tidy(out) && Assigns(e)
    ensures Tidy(out + e + [NUL])
  {
    hide Assigns;
    var es :| AllAssign(es) && Flat(es) == out;
    FlatAppend(es, e);
    assert AllAssign(es + [e]);
  }

  lemma WritingKey(data: seq<byte>, n: nat, p: Parser)
    requires Sound(data, n, p) && Running(n, p) && Writing(data, p) && p.state.Key?
    ensures Writing(data, Handle(data, p))
  {
    hide StartsAt, Tidy, Handle, IsNvramChar;
    NulEnds();
    KeyStep(data, p);
    if data[p.pos] != NUL {
      OneMoreChar(data, p.entry, p.pos);
    }
  }

  lemma WritingValue(data: seq<byte>, n: nat, p: Parser)
    requires Sound(data, n, p) && Running(n, p) && Writing(data, p) && p.state.Value?
    ensures Writing(data, Handle(data, p))
  {
    hide StartsAt, Tidy, Handle, IsNvramChar;
    NulEnds();
    ValueStep(data, p);
    if IsNvramChar(data[p.pos]) {
      OneMoreChar(data, p.entry, p.pos);
    } else {
      TidyAppend(p.out, data[p.entry..p.pos]);
    }
  }

  lemma WritingStep(data: seq<byte>, n: nat, p: Parser)
    requires Sound(data, n, p) && Running(n, p) && Writing(data, p)
    ensures Writing(data, Handle(data, p))
  {
    hide StartsAt, Tidy, IsNvramChar;
    match p.state
    case Idle =>
    case Key => WritingKey(data, n, p);
    case Value => WritingValue(data, n, p);
    case Comment =>
  }

  lemma {:induction false} WritingRun(data: seq<byte>, n: nat, p: Parser)
    requires Sound(data, n, p) && Writing(data, p)
    ensures Tidy(Run(data, n, p).out)
    decreases |data| - p.pos, Rank(p.state)
  {
    hide Handle, Tidy;
    if Running(n, p) {
      Progress(data, n, p);
      WritingStep(data, n, p);
      WritingRun(data, n, Handle(data, p));
    }
  }

  // Whatever the text, the output is empty or ends in a NUL, and its entries are assignments,
  // as the strips need.
  lemma OutputIsEntries(data: seq<byte>, n: nat, stripMac: bool)
    requires Terminated(data, n)
    ensures var out := Parsed(data, n, stripMac).out;
            && (out != [] ==> out[|out| - 1] == NUL)
            && AllAssign(Entries(out)) && Flat(Entries(out)) == out
  {
    hide Run, Entries, Flat, AllAssign;
    NoEntries();
    WritingRun(data, n, Start(stripMac));
    var es :| AllAssign(es) && Flat(es) == Parsed(data, n, stripMac).out;
    EntriesOfFlat(es);
  }

  // ---- for a text as it should be ----

  // What the strips find in a compiled text is its kept entries, in order, all of them
  // assignments, as the search for a device path needs.
  lemma CompiledEntries(lines: seq<Line>, countNul: bool, stripMac: bool)
    requires forall i :: 0 <= i < |lines| ==> WellFormed(lines[i])
    requires |Print(lines)| < MAX_NVRAM_SIZE
    ensures var data := Print(lines) + [NUL];
            var n := if countNul then |data| else |data| - 1;
            && Terminated(data, n)
            && var out := Parsed(data, n, stripMac).out;
               && (out != [] ==> out[|out| - 1] == NUL)
               && Entries(out) == EntryList(lines, stripMac)
               && forall e <- Entries(out) :: EQUALS in e
  {
    hide Run, Flat, Entries, KeptAll, EntryList, Print;
    RoundTrip(lines, countNul, stripMac);
    KeptAreEntries(lines, stripMac);
    EntriesOfFlat(EntryList(lines, stripMac));
    forall e | e in EntryList(lines, stripMac)
      ensures EQUALS in e
    {
      var i :| 0 <= i < |EntryList(lines, stripMac)| && EntryList(lines, stripMac)[i] == e;
      assert Assigns(e);
    }
  }
}

// Which device a device path names: the paths are looked for without the slash behind the bus.
module NvramPaths {
  import opened Bytes
  import opened NvramText
  import opened NvramEntries

  const SLASH: byte := 47
  const PCI_KIND: seq<byte> := Ascii("=pci/")
  const PCIE_KIND: seq<byte> := Ascii("=pcie/")

  function Decimal(n: nat): (d: seq<byte>)
    ensures d != [] && SLASH !in d
  {
    if n < 10 then [48 + n] else Decimal(n / 10) + [48 + n % 10]
  }

  lemma LastDigit(n: nat)
    ensures var d := Decimal(n);
            && d[|d| - 1] as int == 48 + n % 10
            && d[..|d| - 1] == if n < 10 then [] else Decimal(n / 10)
  {
  }

  lemma {:induction false} DecimalInjective(m: nat, n: nat)
    requires Decimal(m) == Decimal(n)
    ensures m == n
    decreases m + n
  {
    LastDigit(m);
    LastDigit(n);
    if m >= 10 && n >= 10 {
      DecimalInjective(m / 10, n / 10);
    }
  }

  // What the search looks for: =pci/<domain>/<bus>, or with pcie.
  function Wanted(kind: seq<byte>, domain: nat, bus: nat): seq<byte> {
    kind + (Decimal(domain) + [SLASH] + Decimal(bus))
  }

  // A device path as it is stored: devpath<id>=pcie/<domain>/<bus>/
  function Stored(id: byte, kind: seq<byte>, domain: nat, bus: nat): seq<byte> {
    DEVPATH + [id] + (kind + (Decimal(domain) + [SLASH] + (Decimal(bus) + [SLASH])))
  }

  lemma SplitAtSlash(a: seq<byte>, x: seq<byte>, b: seq<byte>, y: seq<byte>)
    requires SLASH !in a && SLASH !in b
    ensures a + [SLASH] + x <= b + [SLASH] + y <==> a == b && x <= y
  {
    var s, t := a + [SLASH] + x, b + [SLASH] + y;
    FirstSlash(a, x);
    FirstSlash(b, y);
    if s <= t {
      assert s[|a|] == t[|a|] && (|b| < |s| ==> s[|b|] == t[|b|]);
      assert |a| == |b|;
      assert s[..|a|] == a && t[..|a|] == b && s[|a| + 1..] == x && t[|a| + 1..] == y;
    }
  }

  lemma FirstSlash(a: seq<byte>, x: seq<byte>)
    requires SLASH !in a
    ensures (a + [SLASH] + x)[|a|] == SLASH && forall i :: 0 <= i < |a| ==> (a + [SLASH] + x)[i] != SLASH
  {
  }

  lemma BeforeSlash(x: seq<byte>, y: seq<byte>)
    requires SLASH !in x
    ensures x <= y + [SLASH] <==> x <= y
  {
    assert (y + [SLASH])[|y|] == SLASH;
  }

  lemma SameKind(kind: seq<byte>, x: seq<byte>, y: seq<byte>)
    ensures kind + x <= kind + y <==> x <= y
  {
    assert (kind + x)[|kind|..] == x && (kind + y)[|kind|..] == y;
    if kind + x <= kind + y {
      assert (kind + y)[..|kind + x|] == kind + x;
      assert y[..|x|] == (kind + y)[..|kind + x|][|kind|..];
    }
  }

  lemma OtherKind(x: seq<byte>, y: seq<byte>)
    ensures !(PCI_KIND + x <= PCIE_KIND + y) && !(PCIE_KIND + x <= PCI_KIND + y)
  {
    assert (PCI_KIND + x)[4] == SLASH && (PCIE_KIND + y)[4] == 101;
    assert (PCIE_KIND + x)[4] == 101 && (PCI_KIND + y)[4] == SLASH;
  }

  // A stored path is taken for the device asked for if and only if the domain is the same and
  // the bus asked for starts the stored one, written out in decimal.
  lemma TakenExactly(id: byte, pcie: bool, storedDomain: nat, storedBus: nat, domain: nat, bus: nat)
    ensures IsDevpath(Stored(id, if pcie then PCIE_KIND else PCI_KIND, storedDomain, storedBus),
                      Wanted(PCI_KIND, domain, bus), Wanted(PCIE_KIND, domain, bus))
        <==> storedDomain == domain && Decimal(bus) <= Decimal(storedBus)
  {
    var kind := if pcie then PCIE_KIND else PCI_KIND;
    var x := Decimal(domain) + [SLASH] + Decimal(bus);
    var y := Decimal(storedDomain) + [SLASH] + (Decimal(storedBus) + [SLASH]);
    var e := Stored(id, kind, storedDomain, storedBus);
    hide Decimal;
    assert DEVPATH <= e && e[8..] == kind + y;
    SplitAtSlash(Decimal(domain), Decimal(bus), Decimal(storedDomain), Decimal(storedBus) + [SLASH]);
    BeforeSlash(Decimal(bus), Decimal(storedBus));
    SameKind(kind, x, y);
    OtherKind(x, y);
    if Decimal(domain) == Decimal(storedDomain) {
      DecimalInjective(domain, storedDomain);
    }
  }

  // So what is taken belongs to the device if and only if its bus is not a longer number.
  lemma BelongsExactly(id: byte, pcie: bool, storedDomain: nat, storedBus: nat, domain: nat, bus: nat)
    requires IsDevpath(Stored(id, if pcie then PCIE_KIND else PCI_KIND, storedDomain, storedBus),
                       Wanted(PCI_KIND, domain, bus), Wanted(PCIE_KIND, domain, bus))
    ensures storedDomain == domain && (storedBus == bus <==> |Decimal(storedBus)| == |Decimal(bus)|)
  {
    TakenExactly(id, pcie, storedDomain, storedBus, domain, bus);
    if |Decimal(storedBus)| == |Decimal(bus)| {
      assert Decimal(bus) == Decimal(storedBus);
      DecimalInjective(storedBus, bus);
    }
  }

  // Bus 10 is taken for bus 1, and with it the id of another device.
  lemma LongerBusTaken()
    ensures var e := Stored(48, PCIE_KIND, 1, 10);
            && e == Ascii("devpath0=pcie/1/10/")
            && IsDevpath(e, Wanted(PCI_KIND, 1, 1), Wanted(PCIE_KIND, 1, 1))
  {
    assert Decimal(10) == [49, 48] && Decimal(1) == [49];
    assert Stored(48, PCIE_KIND, 1, 10) == Ascii("devpath0=pcie/1/10/");
    TakenExactly(48, true, 1, 10, 1, 1);
  }
}
