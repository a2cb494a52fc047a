// The whole of brcmf_fw_nvram_strip: a text compiled, reduced to one device if it describes
// several, and finished in the buffer that leaves.

module NvramImage {
  import opened Arithmetic
  import opened Wrappers
  import opened Bytes
  import opened NvramText
  import opened NvramRoundTrip
  import opened NvramEntries
  import opened NvramDevice
  import opened NvramParser
  import NvramStrip

  // The device's paths and its prefix, as they are printed.
  datatype Device = Device(pci: seq<byte>, pcie: seq<byte>, prefix: seq<byte>)

  predicate Printed(d: Device) {
    NulFree(d.pci) && NulFree(d.pcie) && NulFree(d.prefix)
  }

  predicate Several(p: Parser) {
    p.found.multiDevV1 || p.found.multiDevV2
  }

  function With(p: Parser, es: seq<seq<byte>>): Parser {
    p.(out := Flat(es), found := p.found.(boardrev := HasBoardrev(es)))
  }

  // What is kept of the output for one device.
  function ForDevice(p: Parser, d: Device): Parser
    requires p.out != [] ==> p.out[|p.out| - 1] == NUL
  {
    if p.found.multiDevV1 then
      var id := FoundId(Entries(p.out), d.pci, d.pcie);
      if |p.out| < DEVPATH_LEN + 6 || id.None? then With(p, [])
      else With(p, Selected(Id(id.value), Entries(p.out)))
    else if p.found.multiDevV2 then With(p, Selected(Prefix(d.prefix), Entries(p.out)))
    else p
  }

  // The size of the buffer it lies in.
  function Room(p: Parser, dataLen: nat): nat {
    if Several(p) then |p.out| + 8 else Allocation(dataLen)
  }

  // The loop over a buffer shorter than the prefix has no end within it: its unsigned bound
  // wraps.
  predicate Endless(p: Parser, d: Device) {
    !p.found.multiDevV1 && p.found.multiDevV2 && |p.out| < |d.prefix|
  }

  // Nothing is read or written beyond a buffer.
  predicate StaysInside(p: Parser, d: Device, dataLen: nat, mac: Mac)
    requires p.out != [] ==> p.out[|p.out| - 1] == NUL
  {
    && !Endless(p, d)
    && (ForDevice(p, d).out == [] || |Image(Body(ForDevice(p, d), mac))| <= Room(p, dataLen))
  }

  datatype Outcome = Nothing | Beyond | Compiled(length: nat)

  // Beyond is where the code would leave a buffer; the model stops there.
  method FwNvramStrip(data: seq<byte>, dataLen: nat, stripMac: bool, mac: Mac, d: Device)
    returns (outcome: Outcome, nvp: Compiler)
    requires Terminated(data, dataLen) && Printed(d)
    ensures var p := Parsed(data, dataLen, stripMac);
            && (p.out != [] ==> p.out[|p.out| - 1] == NUL)
            && (outcome.Beyond? <==> !StaysInside(p, d, dataLen, mac))
            && match outcome
               case Beyond => true
               case Nothing => ForDevice(p, d).out == []
               case Compiled(length) =>
                 && ForDevice(p, d).out != [] && length <= nvp.nvram.Length
                 && nvp.nvram[..length] == Image(Body(ForDevice(p, d), mac))
  {
    hide Image, Body, Run, Entries, FoundId, Selected, Flat, HasBoardrev, Sound, NulFree, AllAssign, Allocation;
    nvp := new Compiler(data, dataLen, stripMac);
    nvp.Parse();
    OutputIsEntries(data, dataLen, stripMac);
    if nvp.multiDevV1 || nvp.multiDevV2 {
      var inside := Reduce(nvp, d);
      if !inside {
        return Beyond, nvp;
      }
    }
    if nvp.nvramLen == 0 {
      return Nothing, nvp;
    }
    BodySize(nvp.View(), mac);
    ImageSize(Body(nvp.View(), mac));
    var total := nvp.nvramLen + (if nvp.boardrevFound then 0 else 14) + (if nvp.stripMac then 26 else 0);
    if RoundUp4(total + 1) + 4 > nvp.nvram.Length {
      return Beyond, nvp;
    }
    var length := nvp.Finish(mac);
    outcome := Compiled(length);
  }

  // The strip for one device, of either kind; false where its loop would have no end.
  method Reduce(nvp: Compiler, d: Device) returns (inside: bool)
    requires nvp.nvramLen <= nvp.nvram.Length && Several(nvp.View()) && Printed(d)
    requires var out := nvp.nvram[..nvp.nvramLen];
             (out != [] ==> out[|out| - 1] == NUL) && AllAssign(Entries(out))
    modifies nvp`nvram, nvp`nvramLen, nvp`boardrevFound
    ensures nvp.nvramLen <= nvp.nvram.Length
    ensures inside == !Endless(old(nvp.View()), d)
    ensures inside ==> nvp.View() == ForDevice(old(nvp.View()), d)
    ensures inside && nvp.nvramLen > 0 ==> fresh(nvp.nvram) && nvp.nvram.Length == old(nvp.nvramLen) + 8
  {
    hide Entries, FoundId, Selected, Flat, HasBoardrev, NulFree, AllAssign;
    var all := nvp.nvram[..nvp.nvramLen];
    Nobody();
    nvp.boardrevFound := false;
    if nvp.multiDevV1 {
      EachAssigns(Entries(all));
      var out, j, boardrev := NvramStrip.StripV1(all, d.pci, d.pcie);
      if out.None? {
        nvp.nvramLen := 0;
      } else {
        nvp.nvram, nvp.nvramLen, nvp.boardrevFound := out.value, j, boardrev;
      }
    } else {
      if nvp.nvramLen < |d.prefix| {
        return false;
      }
      var out, j, boardrev := NvramStrip.StripV2(all, d.prefix);
      nvp.nvram, nvp.nvramLen, nvp.boardrevFound := out, j, boardrev;
    }
    inside := true;
  }

  lemma Nobody()
    ensures Flat([]) == [] && !HasBoardrev([])
  {
  }

  lemma EachAssigns(es: seq<seq<byte>>)
    requires AllAssign(es)
    ensures NvramStrip.Assignments(es)
  {
    forall e | e in es
      ensures EQUALS in e
    {
      var i :| 0 <= i < |es| && es[i] == e;
      assert Assigns(es[i]);
    }
  }

  // ---- from the lines of a text to one device ----

  // Which entries of a text are kept for a device, in which form.
  function EntriesFor(lines: seq<Line>, stripMac: bool, d: Device): seq<seq<byte>> {
    var es := EntryList(lines, stripMac);
    if AnyKey(lines, DEVPATH) then
      var id := FoundId(es, d.pci, d.pcie);
      if |Flat(es)| < DEVPATH_LEN + 6 || id.None? then [] else Selected(Id(id.value), es)
    else if AnyKey(lines, PCIE) then Selected(Prefix(d.prefix), es)
    else es
  }

  // For a well-formed text the output for the device is exactly those entries, in order.
  lemma DeviceEntries(lines: seq<Line>, countNul: bool, stripMac: bool, d: Device)
    requires forall i :: 0 <= i < |lines| ==> WellFormed(lines[i])
    requires |Print(lines)| < MAX_NVRAM_SIZE
    ensures var data := Print(lines) + [NUL];
            var n := if countNul then |data| else |data| - 1;
            && Terminated(data, n)
            && var p := Parsed(data, n, stripMac);
               && (p.out != [] ==> p.out[|p.out| - 1] == NUL)
               && ForDevice(p, d).out == Flat(EntriesFor(lines, stripMac, d))
  {
    hide Run, Flat, Entries, KeptAll, EntryList, Print, FoundId, Selected, AnyKey, WellFormed, HasBoardrev;
    Nobody();
    RoundTrip(lines, countNul, stripMac);
    CompiledEntries(lines, countNul, stripMac);
    KeptAreEntries(lines, stripMac);
  }

  // ---- whether it all stays inside the buffers ----

  // How many bytes are added to the entries.
  function Extras(p: Parser): nat {
    (if p.found.boardrev then 0 else |DEFAULT_BOARDREV| + 1) + (if p.stripMac then 26 else 0)
  }

  lemma ImageLengthOf(p: Parser, mac: Mac)
    ensures |Image(Body(p, mac))| == RoundUp4(|p.out| + Extras(p) + 1) + 4
  {
    hide Image, Body;
    BodySize(p, mac);
    ImageSize(Body(p, mac));
  }

  // A text for one device: always.
  lemma OneDeviceStays(data: seq<byte>, dataLen: nat, stripMac: bool, mac: Mac, d: Device)
    requires Terminated(data, dataLen) && !Several(Parsed(data, dataLen, stripMac))
    ensures var p := Parsed(data, dataLen, stripMac);
            (p.out != [] ==> p.out[|p.out| - 1] == NUL) && StaysInside(p, d, dataLen, mac)
  {
    hide Parsed, Image, Body;
    OutputIsEntries(data, dataLen, stripMac);
    ImageFits(data, dataLen, stripMac, mac);
  }

  // A text for several: if and only if what the strip drops makes up for what is added, up
  // to the rounding; it does where no fewer bytes are dropped than added.
  lemma SeveralStayExactly(p: Parser, d: Device, dataLen: nat, mac: Mac)
    requires (p.out != [] ==> p.out[|p.out| - 1] == NUL) && Several(p)
    requires !Endless(p, d) && ForDevice(p, d).out != []
    ensures var c := ForDevice(p, d);
            && (StaysInside(p, d, dataLen, mac) <==> RoundUp4(|c.out| + Extras(c) + 1) + 4 <= |p.out| + 8)
            && (|c.out| + Extras(c) <= |p.out| ==> StaysInside(p, d, dataLen, mac))
  {
    hide Image, Body, ForDevice, Extras;
    ImageLengthOf(ForDevice(p, d), mac);
  }

  const PCIE_LINE: Line := Line.Entry(Ascii("pcie/1/4/x"), Ascii("y"), None, false)

  lemma PcieLine()
    ensures WellFormed(PCIE_LINE) && Text(PCIE_LINE) == Ascii("pcie/1/4/x=y")
    ensures PCIE <= PCIE_LINE.key && !(DEVPATH <= PCIE_LINE.key) && Keeps(PCIE_LINE.key, false)
    ensures PCIE_LINE.key + [EQUALS] + PCIE_LINE.value == Ascii("pcie/1/4/x=y")
  {
    assert PCIE_LINE.key[..5] == PCIE;
    assert PCIE_LINE.key[0] == 112 && DEVPATH[0] == 100 && RAW1[0] == 82;
  }

  lemma PcieText()
    ensures Print([PCIE_LINE]) == Ascii("pcie/1/4/x=y") + [LF] && |Print([PCIE_LINE])| == 13
    ensures AnyKey([PCIE_LINE], PCIE) && !AnyKey([PCIE_LINE], DEVPATH) && !AnyKey([PCIE_LINE], BOARDREV)
    ensures KeptAll([PCIE_LINE], false) == Ascii("pcie/1/4/x=y") + [NUL]
    ensures EntryList([PCIE_LINE], false) == [Ascii("pcie/1/4/x=y")]
  {
    hide Text, Keeps, WellFormed;
    PcieLine();
    assert PCIE_LINE in [PCIE_LINE] && PCIE_LINE.key[1] == 99 && BOARDREV[1] == 111;
    assert [PCIE_LINE][1..] == [];
  }

  lemma PcieSelected()
    ensures Selected(Prefix(Ascii("pcie/1/4/")), [Ascii("pcie/1/4/x=y")]) == [Ascii("x=y")]
    ensures Flat([Ascii("x=y")]) == Ascii("x=y") + [NUL] && !HasBoardrev([Ascii("x=y")])
  {
    var e, prefix := Ascii("pcie/1/4/x=y"), Ascii("pcie/1/4/");
    assert e[..9] == prefix && e[9..] == Ascii("x=y");
    var none: seq<seq<byte>> := [];
    assert [e][1..] == none && [Ascii("x=y")][1..] == none;
  }

  // The failing case: a text of one entry, for the device that is asked for, even where no
  // MAC is added.
  lemma OneEntryOverflows(mac: Mac)
    ensures var data := Ascii("pcie/1/4/x=y") + [LF, NUL];
            var d := Device(Ascii("=pci/1/4"), Ascii("=pcie/1/4"), Ascii("pcie/1/4/"));
            && Terminated(data, |data|)
            && var p := Parsed(data, |data|, false);
               (p.out != [] ==> p.out[|p.out| - 1] == NUL) && !StaysInside(p, d, |data|, mac)
  {
    hide Parsed, Print, Image, Body, Text, KeptAll, AnyKey, WellFormed, Selected, Flat, Entries, EntryList, HasBoardrev;
    PcieLine();
    PcieText();
    PcieSelected();
    RoundTrip([PCIE_LINE], true, false);
    CompiledEntries([PCIE_LINE], true, false);
    var data := Print([PCIE_LINE]) + [NUL];
    assert data == Ascii("pcie/1/4/x=y") + [LF, NUL];
    ImageLengthOf(ForDevice(Parsed(data, |data|, false),
                            Device(Ascii("=pci/1/4"), Ascii("=pcie/1/4"), Ascii("pcie/1/4/"))), mac);
  }
}
