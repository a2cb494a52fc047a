// Reducing an NVRAM buffer that describes several devices to the entries of one
// (firmware.c, brcmf_fw_strip_multi_v1 and _v2).

module NvramEntries {
  import opened Wrappers
  import opened Bytes
  import opened NvramText

  const COLON: byte := 58
  const DEVPATH_LEN: nat := 19

  predicate NulFree(s: seq<byte>) {
    NUL !in s
  }

  // A list of entries as the compiler stores it: each followed by a NUL.
  function Flat(entries: seq<seq<byte>>): seq<byte> {
    if entries == [] then [] else entries[0] + [NUL] + Flat(entries[1..])
  }

  // The entries of a buffer that is empty or ends in a NUL.
  function FirstNul(buf: seq<byte>): (k: nat)
    requires NUL in buf
    ensures k < |buf| && buf[k] == NUL && NulFree(buf[..k])
  {
    if buf[0] == NUL then 0 else
      assert buf == [buf[0]] + buf[1..];
      var k := FirstNul(buf[1..]);
      assert buf[..k + 1] == [buf[0]] + buf[1..][..k];
      k + 1
  }

  function Entries(buf: seq<byte>): (entries: seq<seq<byte>>)
    requires buf != [] ==> buf[|buf| - 1] == NUL
    ensures forall e <- entries :: NulFree(e)
  {
    if buf == [] then []
    else
      var k := FirstNul(buf);
      [buf[..k]] + Entries(buf[k + 1..])
  }

  lemma {:induction false} FlatEntries(buf: seq<byte>)
    requires buf != [] ==> buf[|buf| - 1] == NUL
    ensures Flat(Entries(buf)) == buf
  {
    hide FirstNul;
    if buf != [] {
      var k := FirstNul(buf);
      var e, rest := buf[..k], buf[k + 1..];
      FlatEntries(rest);
      FlatCons(e, Entries(rest));
      assert buf == e + [NUL] + rest;
    }
  }

  lemma FlatCons(e: seq<byte>, entries: seq<seq<byte>>)
    ensures Flat([e] + entries) == e + [NUL] + Flat(entries)
  {
    assert ([e] + entries)[1..] == entries;
  }

  lemma {:induction false} FlatSplit(a: seq<seq<byte>>, b: seq<seq<byte>>)
    ensures Flat(a + b) == Flat(a) + Flat(b)
  {
    if a == [] {
      assert a + b == b;
    } else {
      FlatSplit(a[1..], b);
      assert (a + b)[1..] == a[1..] + b && (a + b)[0] == a[0];
      ConcatAssoc(a[0] + [NUL], Flat(a[1..]), Flat(b));
    }
  }

  lemma FlatAppend(a: seq<seq<byte>>, e: seq<byte>)
    ensures Flat(a + [e]) == Flat(a) + e + [NUL]
  {
    FlatSplit(a, [e]);
    assert Flat([e]) == e + [NUL] + [];
  }

  // What an entry becomes for one device, if it belongs to it.
  datatype Selector = Prefix(prefix: seq<byte>) | Id(id: byte)

  predicate Selects(s: Selector, e: seq<byte>) {
    match s
    case Prefix(prefix) => prefix <= e
    case Id(id) => |e| >= 2 && e[0] as int - 48 == id && e[1] == COLON
  }

  function Reduced(s: Selector, e: seq<byte>): seq<byte>
    requires Selects(s, e)
  {
    match s
    case Prefix(prefix) => e[|prefix|..]
    case Id(_) => e[2..]
  }

  function Selected(s: Selector, entries: seq<seq<byte>>): seq<seq<byte>> {
    if entries == [] then []
    else (if Selects(s, entries[0]) then [Reduced(s, entries[0])] else []) + Selected(s, entries[1..])
  }

  predicate HasBoardrev(entries: seq<seq<byte>>) {
    exists e <- entries :: BOARDREV <= e
  }

  // ---- the entry at a place in a buffer ----

  ghost predicate EntryIs(buf: seq<byte>, i: nat, e: seq<byte>, rest: seq<byte>) {
    NulFree(e) && i <= |buf| && buf[i..] == e + [NUL] + rest
  }

  lemma EntryByte(buf: seq<byte>, i: nat, e: seq<byte>, rest: seq<byte>, k: nat)
    requires EntryIs(buf, i, e, rest) && k <= |e|
    ensures i + |e| < |buf| && buf[i + k] == (if k < |e| then e[k] else NUL)
  {
    assert buf[i + k] == buf[i..][k];
  }

  lemma EntryTail(buf: seq<byte>, i: nat, e: seq<byte>, rest: seq<byte>, k: nat)
    requires EntryIs(buf, i, e, rest) && k <= |e|
    ensures EntryIs(buf, i + k, e[k..], rest)
    ensures i + |e| + 1 <= |buf| && buf[i + |e| + 1..] == rest
  {
    var t := e + [NUL] + rest;
    assert buf[i + k..] == buf[i..][k..] == e[k..] + [NUL] + rest;
    assert buf[i + |e| + 1..] == buf[i..][|e| + 1..] == rest;
  }

  // Something without a NUL is found at the start of an entry exactly when the entry
  // starts with it.
  lemma AtEntry(buf: seq<byte>, i: nat, e: seq<byte>, rest: seq<byte>, prefix: seq<byte>)
    requires EntryIs(buf, i, e, rest) && NulFree(prefix)
    ensures StartsAt(buf, i, prefix) <==> prefix <= e
  {
    var t := e + [NUL] + rest;
    assert i + |t| == |buf| && buf[i..i + |t|] == t;
    if |prefix| <= |t| {
      SliceOf(buf, i, t, 0, |prefix|);
      PrefixOfEntry(e, rest, prefix);
    }
  }

  lemma PrefixOfEntry(e: seq<byte>, rest: seq<byte>, prefix: seq<byte>)
    requires NulFree(prefix) && |prefix| <= |e + [NUL] + rest|
    ensures (e + [NUL] + rest)[0..|prefix|] == prefix <==> prefix <= e
  {
    var t := e + [NUL] + rest;
    if |prefix| > |e| {
      assert t[0..|prefix|][|e|] == NUL;
    } else {
      assert t[0..|prefix|] == e[..|prefix|];
    }
  }

  // Entries too short to hold the prefix contribute nothing.
  lemma {:induction false} ShortTail(prefix: seq<byte>, entries: seq<seq<byte>>)
    requires |Flat(entries)| <= |prefix|
    ensures Selected(Prefix(prefix), entries) == []
  {
    if entries != [] {
      ShortTail(prefix, entries[1..]);
    }
  }

  // ---- the device path ----

  predicate IsDevpath(e: seq<byte>, pci: seq<byte>, pcie: seq<byte>) {
    DEVPATH <= e && |e| >= 8 && (pci <= e[8..] || pcie <= e[8..])
  }

  // A digit as the id it stands for, in an unsigned byte.
  function IdOf(c: byte): byte {
    (c as int - 48) % 256
  }

  // The search looks at entries from the first on, as long as more than DEVPATH_LEN bytes
  // remain; the id is the digit of the first device path it meets, as an unsigned byte.
  function FoundId(entries: seq<seq<byte>>, pci: seq<byte>, pcie: seq<byte>): Option<byte> {
    if |Flat(entries)| <= DEVPATH_LEN || entries == [] then None
    else if IsDevpath(entries[0], pci, pcie) then Some(IdOf(entries[0][7]))
    else FoundId(entries[1..], pci, pcie)
  }

  ghost predicate FirstDevpath(entries: seq<seq<byte>>, pci: seq<byte>, pcie: seq<byte>, k: nat) {
    && k < |entries| && IsDevpath(entries[k], pci, pcie)
    && forall m :: 0 <= m < k ==> !IsDevpath(entries[m], pci, pcie)
  }

  // The first device path is found exactly when more than DEVPATH_LEN bytes remain from
  // its start; otherwise none is.
  lemma {:induction false} FoundExactly(entries: seq<seq<byte>>, pci: seq<byte>, pcie: seq<byte>, k: nat)
    requires FirstDevpath(entries, pci, pcie, k)
    ensures FoundId(entries, pci, pcie)
         == if |Flat(entries[k..])| > DEVPATH_LEN then Some(IdOf(entries[k][7])) else None
  {
    if k > 0 {
      assert entries[1..][k - 1..] == entries[k..];
      FoundExactly(entries[1..], pci, pcie, k - 1);
      assert Flat(entries) == entries[0] + [NUL] + Flat(entries[1..]);
      FlatSplit(entries[..k], entries[k..]);
      assert entries[..k] + entries[k..] == entries;
    } else {
      assert entries[0..] == entries;
    }
  }

  lemma {:induction false} NoDevpathNoId(entries: seq<seq<byte>>, pci: seq<byte>, pcie: seq<byte>)
    requires forall e <- entries :: !IsDevpath(e, pci, pcie)
    ensures FoundId(entries, pci, pcie) == None
  {
    if entries != [] {
      NoDevpathNoId(entries[1..], pci, pcie);
    }
  }

  // So a buffer that ends in a device path of that very length hides it.
  lemma LastDevpathHidden()
    ensures var e := Ascii("devpath0=pcie/1/4/");
            && IsDevpath(e, Ascii("=pci/1/4"), Ascii("=pcie/1/4"))
            && FoundId([Ascii("0:x=y"), e], Ascii("=pci/1/4"), Ascii("=pcie/1/4")) == None
  {
    var e, f := Ascii("devpath0=pcie/1/4/"), Ascii("0:x=y");
    var pci, pcie := Ascii("=pci/1/4"), Ascii("=pcie/1/4");
    assert e[8..][..9] == pcie;
    assert [f, e][1..] == [e];
    assert !IsDevpath(f, pci, pcie);
    assert FirstDevpath([f, e], pci, pcie, 1);
    FoundExactly([f, e], pci, pcie, 1);
  }
}

module NvramStrip {
  import opened Wrappers
  import opened Bytes
  import opened NvramText
  import opened NvramEntries
  import NvramParser

  // Copy the string at `i` to `out` at `j`, with its NUL.
  method CopyString(buf: seq<byte>, i: nat, out: array<byte>, j: nat, ghost e: seq<byte>, ghost rest: seq<byte>)
    returns (i': nat, j': nat)
    requires EntryIs(buf, i, e, rest) && j + |e| < out.Length
    modifies out
    ensures i' == i + |e| && j' == j + |e| + 1 && buf[i'] == NUL
    ensures out[..j'] == old(out[..j]) + e + [NUL]
  {
    EntryByte(buf, i, e, rest, |e|);
    i', j' := i, j;
    while buf[i'] != 0
      invariant i <= i' <= i + |e| && j' - j == i' - i
      invariant out[..j'] == old(out[..j]) + e[..i' - i]
      decreases |buf| - i'
    {
      EntryByte(buf, i, e, rest, i' - i);
      out[j'] := buf[i'];
      assert e[..i' - i + 1] == e[..i' - i] + [e[i' - i]];
      i', j' := i' + 1, j' + 1;
      assert out[..j'] == out[..j' - 1] + [buf[i' - 1]];
    }
    EntryByte(buf, i, e, rest, i' - i);
    assert e[..|e|] == e;
    out[j'] := 0;
    j' := j' + 1;
    assert out[..j'] == out[..j' - 1] + [NUL];
  }

  method SkipString(buf: seq<byte>, i: nat, ghost e: seq<byte>, ghost rest: seq<byte>) returns (i': nat)
    requires EntryIs(buf, i, e, rest)
    ensures i' == i + |e|
  {
    EntryByte(buf, i, e, rest, |e|);
    i' := i;
    while buf[i'] != 0
      invariant i <= i' <= i + |e|
      decreases |buf| - i'
    {
      i' := i' + 1;
      EntryByte(buf, i, e, rest, i' - i);
    }
    EntryByte(buf, i, e, rest, i' - i);
  }

  // How far a strip has come: `todo` is still in the buffer, `kept` is in the output.
  ghost predicate Progress(s: Selector, entries: seq<seq<byte>>, buf: seq<byte>, i: nat, todo: seq<seq<byte>>,
                           out: seq<byte>, boardrev: bool, kept: seq<seq<byte>>)
  {
    && i <= |buf| && buf[i..] == Flat(todo) && (forall e <- todo :: NulFree(e))
    && out == Flat(kept) && boardrev == HasBoardrev(kept)
    && Selected(s, entries) == kept + Selected(s, todo)
  }

  lemma Start(s: Selector, buf: seq<byte>)
    requires buf != [] ==> buf[|buf| - 1] == NUL
    ensures Progress(s, Entries(buf), buf, 0, Entries(buf), [], false, [])
  {
    FlatEntries(buf);
    assert [] + Selected(s, Entries(buf)) == Selected(s, Entries(buf));
  }

  lemma Head(s: Selector, entries: seq<seq<byte>>, buf: seq<byte>, i: nat, todo: seq<seq<byte>>,
             out: seq<byte>, boardrev: bool, kept: seq<seq<byte>>)
    requires Progress(s, entries, buf, i, todo, out, boardrev, kept) && i < |buf|
    ensures todo != [] && EntryIs(buf, i, todo[0], Flat(todo[1..])) && i + |todo[0]| + 1 <= |buf|
  {
    EntryTail(buf, i, todo[0], Flat(todo[1..]), 0);
  }

  lemma BoardrevAppend(kept: seq<seq<byte>>, r: seq<byte>)
    ensures HasBoardrev(kept + [r]) == (HasBoardrev(kept) || BOARDREV <= r)
  {
    if HasBoardrev(kept) {
      var e :| e in kept && BOARDREV <= e;
      assert e in kept + [r];
    } else if BOARDREV <= r {
      assert r in kept + [r];
    }
  }

  // What is left when fewer bytes remain than an entry needs to be selected.
  lemma Finished(s: Selector, entries: seq<seq<byte>>, buf: seq<byte>, i: nat, todo: seq<seq<byte>>,
                 out: seq<byte>, boardrev: bool, kept: seq<seq<byte>>)
    requires Progress(s, entries, buf, i, todo, out, boardrev, kept)
    requires i == |buf| || (s.Prefix? && |buf| - i <= |s.prefix|)
    ensures out == Flat(Selected(s, entries)) && boardrev == HasBoardrev(Selected(s, entries))
  {
    assert |Flat(todo)| == |buf| - i;
    if s.Prefix? {
      ShortTail(s.prefix, todo);
    }
    assert kept + [] == kept;
  }

  lemma Skipped(s: Selector, entries: seq<seq<byte>>, buf: seq<byte>, i: nat, todo: seq<seq<byte>>,
                out: seq<byte>, boardrev: bool, kept: seq<seq<byte>>)
    requires Progress(s, entries, buf, i, todo, out, boardrev, kept) && i < |buf|
    requires todo != [] && !Selects(s, todo[0])
    ensures Progress(s, entries, buf, i + |todo[0]| + 1, todo[1..], out, boardrev, kept)
  {
    EntryTail(buf, i, todo[0], Flat(todo[1..]), 0);
    assert [] + Selected(s, todo[1..]) == Selected(s, todo[1..]);
  }

  lemma Kept(s: Selector, entries: seq<seq<byte>>, buf: seq<byte>, i: nat, todo: seq<seq<byte>>,
             out: seq<byte>, boardrev: bool, kept: seq<seq<byte>>, r: seq<byte>)
    requires Progress(s, entries, buf, i, todo, out, boardrev, kept) && i < |buf|
    requires todo != [] && Selects(s, todo[0]) && r == Reduced(s, todo[0])
    ensures Progress(s, entries, buf, i + |todo[0]| + 1, todo[1..],
                     out + r + [NUL], boardrev || BOARDREV <= r, kept + [r])
  {
    EntryTail(buf, i, todo[0], Flat(todo[1..]), 0);
    FlatAppend(kept, r);
    BoardrevAppend(kept, r);
    ConcatAssoc(kept, [r], Selected(s, todo[1..]));
  }

  // Copy the selected entry at `i`, whose reduced form starts at `skip`.
  method Take(buf: seq<byte>, i: nat, skip: nat, out: array<byte>, j: nat, found: bool,
              ghost e: seq<byte>, ghost rest: seq<byte>)
    returns (i': nat, j': nat, boardrev: bool)
    requires EntryIs(buf, i, e, rest) && skip <= |e| && j <= i && |buf| <= out.Length
    modifies out
    ensures i' == i + |e| && j' <= i' + 1 && j' <= out.Length
    ensures out[..j'] == old(out[..j]) + e[skip..] + [NUL]
    ensures boardrev == (found || BOARDREV <= e[skip..])
  {
    EntryByte(buf, i, e, rest, |e|);
    EntryTail(buf, i, e, rest, skip);
    i' := i + skip;
    AtEntry(buf, i', e[skip..], rest, BOARDREV);
    var b := NvramParser.StrNCmp(buf, i', BOARDREV);
    boardrev := found || b;
    i', j' := CopyString(buf, i', out, j, e[skip..], rest);
  }

  // The v2 strip: keep the entries that start with `prefix`, without it.
  method StripV2(nvram: seq<byte>, prefix: seq<byte>) returns (out: array<byte>, j: nat, boardrev: bool)
    requires nvram != [] ==> nvram[|nvram| - 1] == NUL
    requires NulFree(prefix) && |prefix| <= |nvram|
    ensures fresh(out) && j <= out.Length == |nvram| + 8
    ensures out[..j] == Flat(Selected(Prefix(prefix), Entries(nvram)))
    ensures boardrev == HasBoardrev(Selected(Prefix(prefix), Entries(nvram)))
  {
    hide Progress, EntryIs, Flat, Selected, Entries, HasBoardrev;
    ghost var s, entries, kept := Prefix(prefix), Entries(nvram), [];
    ghost var todo := entries;
    Start(s, nvram);
    out := new byte[|nvram| + 1 + 3 + 4];
    var i := 0;
    j, boardrev := 0, false;
    while i < |nvram| - |prefix|
      invariant j <= i <= |nvram| && out.Length == |nvram| + 8
      invariant Progress(s, entries, nvram, i, todo, out[..j], boardrev, kept)
      decreases |nvram| - i
    {
      Head(s, entries, nvram, i, todo, out[..j], boardrev, kept);
      ghost var e, rest := todo[0], Flat(todo[1..]);
      AtEntry(nvram, i, e, rest, prefix);
      var here := NvramParser.StrNCmp(nvram, i, prefix);
      if here {
        Kept(s, entries, nvram, i, todo, out[..j], boardrev, kept, e[|prefix|..]);
        kept := kept + [e[|prefix|..]];
        i, j, boardrev := Take(nvram, i, |prefix|, out, j, boardrev, e, rest);
      } else {
        Skipped(s, entries, nvram, i, todo, out[..j], boardrev, kept);
        i := SkipString(nvram, i, e, rest);
      }
      i := i + 1;
      todo := todo[1..];
    }
    Finished(s, entries, nvram, i, todo, out[..j], boardrev, kept);
  }

  // The copy loop of the v1 strip: keep the entries marked `id:`, without the mark.
  method CopyV1(nvram: seq<byte>, id: byte) returns (out: array<byte>, j: nat, boardrev: bool)
    requires nvram != [] ==> nvram[|nvram| - 1] == NUL
    ensures fresh(out) && j <= out.Length == |nvram| + 8
    ensures out[..j] == Flat(Selected(Id(id), Entries(nvram)))
    ensures boardrev == HasBoardrev(Selected(Id(id), Entries(nvram)))
  {
    hide Progress, EntryIs, Flat, Selected, Entries, HasBoardrev;
    ghost var s, entries, kept := Id(id), Entries(nvram), [];
    ghost var todo := entries;
    Start(s, nvram);
    out := new byte[|nvram| + 1 + 3 + 4];
    var i := 0;
    j, boardrev := 0, false;
    while i < |nvram|
      invariant j <= i <= |nvram| && out.Length == |nvram| + 8
      invariant Progress(s, entries, nvram, i, todo, out[..j], boardrev, kept)
      decreases |nvram| - i
    {
      Head(s, entries, nvram, i, todo, out[..j], boardrev, kept);
      ghost var e, rest := todo[0], Flat(todo[1..]);
      var here := IsMarked(nvram, i, id, e, rest);
      if here {
        Kept(s, entries, nvram, i, todo, out[..j], boardrev, kept, e[2..]);
        kept := kept + [e[2..]];
        i, j, boardrev := Take(nvram, i, 2, out, j, boardrev, e, rest);
      } else {
        Skipped(s, entries, nvram, i, todo, out[..j], boardrev, kept);
        i := SkipString(nvram, i, e, rest);
      }
      i := i + 1;
      todo := todo[1..];
    }
    Finished(s, entries, nvram, i, todo, out[..j], boardrev, kept);
  }

  method IsMarked(buf: seq<byte>, i: nat, id: byte, ghost e: seq<byte>, ghost rest: seq<byte>) returns (here: bool)
    requires EntryIs(buf, i, e, rest)
    ensures here == Selects(Id(id), e)
  {
    EntryByte(buf, i, e, rest, 0);
    if |e| > 0 {
      EntryByte(buf, i, e, rest, 1);
    }
    here := buf[i] as int - 48 == id && buf[i + 1] == COLON;
  }

  // Every entry is an assignment, as the compiler only stores those.
  predicate Assignments(entries: seq<seq<byte>>) {
    forall e <- entries :: EQUALS in e
  }

  // How far the search for a device path has come.
  ghost predicate Searching(buf: seq<byte>, i: nat, todo: seq<seq<byte>>, pci: seq<byte>, pcie: seq<byte>)
    requires buf != [] ==> buf[|buf| - 1] == NUL
  {
    && i <= |buf| && buf[i..] == Flat(todo) && (forall e <- todo :: NulFree(e) && EQUALS in e)
    && FoundId(Entries(buf), pci, pcie) == FoundId(todo, pci, pcie)
  }

  lemma SearchStart(buf: seq<byte>, pci: seq<byte>, pcie: seq<byte>)
    requires buf != [] ==> buf[|buf| - 1] == NUL
    requires Assignments(Entries(buf))
    ensures Searching(buf, 0, Entries(buf), pci, pcie)
  {
    FlatEntries(buf);
  }

  lemma SearchStep(buf: seq<byte>, i: nat, todo: seq<seq<byte>>, pci: seq<byte>, pcie: seq<byte>)
    requires buf != [] ==> buf[|buf| - 1] == NUL
    requires Searching(buf, i, todo, pci, pcie)
    ensures |buf| - i <= DEVPATH_LEN ==> FoundId(Entries(buf), pci, pcie) == None
    ensures |buf| - i > DEVPATH_LEN ==>
              && todo != [] && EQUALS in todo[0]
              && EntryIs(buf, i, todo[0], Flat(todo[1..])) && i + |todo[0]| + 1 <= |buf|
              && if IsDevpath(todo[0], pci, pcie) then
                   FoundId(Entries(buf), pci, pcie) == Some(IdOf(todo[0][7]))
                 else Searching(buf, i + |todo[0]| + 1, todo[1..], pci, pcie)
  {
    assert |Flat(todo)| == |buf| - i;
    if |buf| - i > DEVPATH_LEN {
      assert EntryIs(buf, i, todo[0], Flat(todo[1..]));
      EntryTail(buf, i, todo[0], Flat(todo[1..]), 0);
    }
  }

  method DevpathDigit(buf: seq<byte>, i: nat, ghost pci: seq<byte>, ghost pcie: seq<byte>,
                      ghost e: seq<byte>, ghost rest: seq<byte>) returns (c: byte)
    requires EntryIs(buf, i, e, rest) && IsDevpath(e, pci, pcie)
    ensures |e| >= 8 && c == e[7]
  {
    EntryByte(buf, i, e, rest, 7);
    c := buf[i + 7];
  }

  // The id of the first device path the search looks at.
  method FindId(nvram: seq<byte>, pci: seq<byte>, pcie: seq<byte>) returns (id: Option<byte>)
    requires nvram != [] ==> nvram[|nvram| - 1] == NUL
    requires |nvram| >= DEVPATH_LEN + 6 && NulFree(pci) && NulFree(pcie)
    requires Assignments(Entries(nvram))
    ensures id == FoundId(Entries(nvram), pci, pcie)
  {
    ghost var todo := Entries(nvram);
    SearchStart(nvram, pci, pcie);
    hide *;
    var i := 0;
    while i < |nvram| - DEVPATH_LEN
      invariant i <= |nvram| && Searching(nvram, i, todo, pci, pcie)
      decreases |nvram| - i
    {
      SearchStep(nvram, i, todo, pci, pcie);
      ghost var e, rest := todo[0], Flat(todo[1..]);
      var here := IsDevpathAt(nvram, i, pci, pcie, e, rest);
      if here {
        var c := DevpathDigit(nvram, i, pci, pcie, e, rest);
        return Some(IdOf(c));
      }
      i := SkipString(nvram, i, e, rest);
      i := i + 1;
      todo := todo[1..];
    }
    SearchStep(nvram, i, todo, pci, pcie);
    id := None;
  }

  method IsDevpathAt(nvram: seq<byte>, i: nat, pci: seq<byte>, pcie: seq<byte>,
                     ghost e: seq<byte>, ghost rest: seq<byte>) returns (here: bool)
    requires EntryIs(nvram, i, e, rest) && EQUALS in e && NulFree(pci) && NulFree(pcie)
    ensures here == IsDevpath(e, pci, pcie)
  {
    AtEntry(nvram, i, e, rest, DEVPATH);
    here := NvramParser.StrNCmp(nvram, i, DEVPATH);
    if here {
      DevpathLong(e);
      EntryTail(nvram, i, e, rest, 8);
      AtEntry(nvram, i + 8, e[8..], rest, pci);
      AtEntry(nvram, i + 8, e[8..], rest, pcie);
      here := NvramParser.StrNCmp(nvram, i + 8, pci);
      if !here {
        here := NvramParser.StrNCmp(nvram, i + 8, pcie);
      }
    }
  }

  lemma DevpathLong(e: seq<byte>)
    requires DEVPATH <= e && EQUALS in e
    ensures |e| >= 8
  {
    assert EQUALS !in DEVPATH;
  }

  // The v1 strip.  None is the failure exit, which leaves an empty NVRAM.
  method StripV1(nvram: seq<byte>, pci: seq<byte>, pcie: seq<byte>)
    returns (out: Option<array<byte>>, j: nat, boardrev: bool)
    requires nvram != [] ==> nvram[|nvram| - 1] == NUL
    requires NulFree(pci) && NulFree(pcie) && Assignments(Entries(nvram))
    ensures var id := FoundId(Entries(nvram), pci, pcie);
            if |nvram| < DEVPATH_LEN + 6 || id.None? then out.None? && j == 0
            else
              && out.Some? && fresh(out.value) && j <= out.value.Length == |nvram| + 8
              && out.value[..j] == Flat(Selected(Id(id.value), Entries(nvram)))
              && boardrev == HasBoardrev(Selected(Id(id.value), Entries(nvram)))
  {
    if |nvram| < DEVPATH_LEN + 6 {
      return None, 0, false;
    }
    var id := FindId(nvram, pci, pcie);
    if id.None? {
      return None, 0, false;
    }
    var buf;
    buf, j, boardrev := CopyV1(nvram, id.value);
    out := Some(buf);
  }
}
