// Vendor elements of management frames (cfg80211.c): the driver remembers what it last
// installed for a kind of frame and sends the firmware one buffer that deletes the old
// elements and adds the new ones.

module VendorIeSpec {
  import opened Bytes

  const IE_MAX_LEN: nat := 512
  const EXTRA_BUF_MAX: nat := 2048
  const HDR_SIZE: nat := 12
  const PARSE_LIMIT: nat := 5
  const VENDOR_SPECIFIC: byte := 221
  const WPA_OUI: seq<byte> := [0x00, 0x50, 0xF2]
  const WPA_OUI_TYPE: byte := 1
  const WME_OUI_TYPE: byte := 2

  function BodyLen(buf: seq<byte>): nat
    requires |buf| >= 2
  {
    buf[1]
  }

  // An element: id, length, that many bytes.
  predicate IsElement(e: seq<byte>) {
    |e| >= 2 && |e| == 2 + BodyLen(e)
  }

  predicate AreElements(es: seq<seq<byte>>) {
    forall i :: 0 <= i < |es| ==> IsElement(es[i])
  }

  // A buffer that is a run of whole elements.
  predicate WellFormed(buf: seq<byte>)
    decreases |buf|
  {
    buf == [] || (|buf| >= 2 && |buf| >= 2 + BodyLen(buf) && WellFormed(buf[2 + BodyLen(buf)..]))
  }

  function Elements(buf: seq<byte>): (es: seq<seq<byte>>)
    requires WellFormed(buf)
    ensures AreElements(es)
    decreases |buf|
  {
    if buf == [] then [] else [buf[..2 + BodyLen(buf)]] + Elements(buf[2 + BodyLen(buf)..])
  }

  // Splitting a run of elements undoes joining ...
  lemma {:induction false} ElementsOfCat(es: seq<seq<byte>>)
    requires AreElements(es)
    ensures WellFormed(Cat(es)) && Elements(Cat(es)) == es
  {
    if es != [] {
      var e, rest := es[0], es[1..];
      ElementsOfCat(rest);
      assert es == [e] + rest;
      CatHead(e, rest);
      ElementInFront(e, Cat(rest));
    }
  }

  lemma ElementInFront(e: seq<byte>, rest: seq<byte>)
    requires IsElement(e) && WellFormed(rest)
    ensures WellFormed(e + rest) && Elements(e + rest) == [e] + Elements(rest)
  {
    var buf := e + rest;
    assert buf[1] == e[1];
    assert buf[..|e|] == e && buf[|e|..] == rest;
  }

  // ... and joining undoes splitting.
  lemma {:induction false} CatOfElements(buf: seq<byte>)
    requires WellFormed(buf)
    ensures Cat(Elements(buf)) == buf
    decreases |buf|
  {
    if buf != [] {
      var n := 2 + BodyLen(buf);
      CatOfElements(buf[n..]);
      CatHead(buf[..n], Elements(buf[n..]));
    }
  }

  // Vendor elements long enough to name their kind, other than WPA and WME.
  predicate IsVendor(e: seq<byte>) {
    && IsElement(e) && e[0] == VENDOR_SPECIFIC && e[1] >= 5
    && !(e[2..5] == WPA_OUI && (e[5] == WPA_OUI_TYPE || e[5] == WME_OUI_TYPE))
  }

  predicate AllVendor(es: seq<seq<byte>>) {
    forall i :: 0 <= i < |es| ==> IsVendor(es[i])
  }

  // The first `limit` vendor elements.
  function Accepted(es: seq<seq<byte>>, limit: nat): (r: seq<seq<byte>>)
    ensures |r| <= limit && AllVendor(r)
  {
    if es == [] || limit == 0 then []
    else if IsVendor(es[0]) then [es[0]] + Accepted(es[1..], limit - 1)
    else Accepted(es[1..], limit)
  }

  // Those of them for which there is room in the saved buffer: each is charged its length
  // plus a command header, and is refused when less than its body and a header is left.
  function Fitting(es: seq<seq<byte>>, room: int): (r: seq<seq<byte>>)
    requires AreElements(es)
    ensures r <= es
  {
    if es == [] || room < BodyLen(es[0]) + HDR_SIZE then []
    else [es[0]] + Fitting(es[1..], room - (|es[0]| + HDR_SIZE))
  }

  // What a request installs.
  function Installed(request: seq<byte>): seq<seq<byte>>
    requires WellFormed(request)
  {
    Fitting(Accepted(Elements(request), PARSE_LIMIT), IE_MAX_LEN)
  }

  // ---- the command buffer ----

  datatype Cmd = Del(e: seq<byte>) | Add(e: seq<byte>)

  const DEL_CMD: seq<byte> := [100, 101, 108, 0]  // "del"
  const ADD_CMD: seq<byte> := [97, 100, 100, 0]   // "add"

  function Command(cmd: Cmd, pktflag: nat): (b: seq<byte>)
    requires pktflag < 0x1_0000_0000
    ensures |b| == HDR_SIZE + |cmd.e|
  {
    (if cmd.Del? then DEL_CMD else ADD_CMD) + LE32(1) + LE32(pktflag) + cmd.e
  }

  function Commands(cmds: seq<Cmd>, pktflag: nat): seq<byte>
    requires pktflag < 0x1_0000_0000
  {
    if cmds == [] then [] else Command(cmds[0], pktflag) + Commands(cmds[1..], pktflag)
  }

  lemma {:induction false} CommandsAppend(cmds: seq<Cmd>, cmd: Cmd, pktflag: nat)
    requires pktflag < 0x1_0000_0000
    ensures Commands(cmds + [cmd], pktflag) == Commands(cmds, pktflag) + Command(cmd, pktflag)
  {
    if cmds == [] {
      assert Commands([cmd], pktflag) == Command(cmd, pktflag) + [];
    } else {
      assert (cmds + [cmd])[1..] == cmds[1..] + [cmd];
      CommandsAppend(cmds[1..], cmd, pktflag);
      ConcatAssoc(Command(cmds[0], pktflag), Commands(cmds[1..], pktflag), Command(cmd, pktflag));
    }
  }

  // The same command for each element.
  function Each(del: bool, es: seq<seq<byte>>): (cmds: seq<Cmd>)
    ensures |cmds| == |es|
  {
    seq(|es|, i requires 0 <= i < |es| => if del then Del(es[i]) else Add(es[i]))
  }

  function Dels(es: seq<seq<byte>>): seq<Cmd> {
    Each(true, es)
  }

  function Adds(es: seq<seq<byte>>): seq<Cmd> {
    Each(false, es)
  }

  lemma EachPrefix(del: bool, es: seq<seq<byte>>, i: nat)
    requires i < |es|
    ensures Each(del, es[..i + 1]) == Each(del, es[..i]) + [if del then Del(es[i]) else Add(es[i])]
  {
  }

  lemma CommandsEach(cmds: seq<Cmd>, del: bool, es: seq<seq<byte>>, i: nat, pktflag: nat)
    requires i < |es| && pktflag < 0x1_0000_0000
    ensures Commands(cmds + Each(del, es[..i + 1]), pktflag)
         == Commands(cmds + Each(del, es[..i]), pktflag) + Command(if del then Del(es[i]) else Add(es[i]), pktflag)
  {
    hide Commands, Command, Each;
    var cmd := if del then Del(es[i]) else Add(es[i]);
    EachPrefix(del, es, i);
    ConcatAssoc(cmds, Each(del, es[..i]), [cmd]);
    CommandsAppend(cmds + Each(del, es[..i]), cmd, pktflag);
  }

  // ---- the firmware ----

  // The firmware reads a command: header, then an element whose length byte says where the
  // next command starts.
  function Decoded(buf: seq<byte>): seq<Cmd>
    decreases |buf|
  {
    if |buf| < HDR_SIZE + 2 || |buf| < HDR_SIZE + 2 + BodyLen(buf[HDR_SIZE..]) then []
    else
      var n := HDR_SIZE + 2 + BodyLen(buf[HDR_SIZE..]);
      var e := buf[HDR_SIZE..n];
      [if buf[..4] == DEL_CMD then Del(e) else Add(e)] + Decoded(buf[n..])
  }

  function RemoveFirst(list: seq<seq<byte>>, e: seq<byte>): seq<seq<byte>> {
    if list == [] then [] else if list[0] == e then list[1..] else [list[0]] + RemoveFirst(list[1..], e)
  }

  function Executed(list: seq<seq<byte>>, cmds: seq<Cmd>): seq<seq<byte>>
    decreases |cmds|
  {
    if cmds == [] then list
    else Executed(if cmds[0].Del? then RemoveFirst(list, cmds[0].e) else list + [cmds[0].e], cmds[1..])
  }

  lemma {:induction false} DecodesCommands(cmds: seq<Cmd>, pktflag: nat)
    requires pktflag < 0x1_0000_0000 && forall i :: 0 <= i < |cmds| ==> IsElement(cmds[i].e)
    ensures Decoded(Commands(cmds, pktflag)) == cmds
  {
    hide Command, IsElement;
    if cmds != [] {
      hide Decoded;
      DecodesCommands(cmds[1..], pktflag);
      DecodesOne(cmds[0], Commands(cmds[1..], pktflag), pktflag);
    }
  }

  lemma DecodesOne(cmd: Cmd, rest: seq<byte>, pktflag: nat)
    requires pktflag < 0x1_0000_0000 && IsElement(cmd.e)
    ensures Decoded(Command(cmd, pktflag) + rest) == [cmd] + Decoded(rest)
  {
    var head := (if cmd.Del? then DEL_CMD else ADD_CMD);
    var buf := Command(cmd, pktflag) + rest;
    var n := HDR_SIZE + |cmd.e|;
    assert buf[..4] == head;
    assert buf[HDR_SIZE..n] == cmd.e && buf[n..] == rest;
    assert buf[HDR_SIZE..][1] == cmd.e[1];
    assert DEL_CMD[0] != ADD_CMD[0];
  }

  lemma {:induction false} ExecutedAppend(list: seq<seq<byte>>, cmds: seq<Cmd>, more: seq<Cmd>)
    ensures Executed(list, cmds + more) == Executed(Executed(list, cmds), more)
    decreases |cmds|
  {
    if cmds == [] {
      assert cmds + more == more;
    } else {
      assert (cmds + more)[1..] == cmds[1..] + more;
      ExecutedAppend(if cmds[0].Del? then RemoveFirst(list, cmds[0].e) else list + [cmds[0].e], cmds[1..], more);
    }
  }

  lemma {:induction false} DelsEmpty(list: seq<seq<byte>>)
    ensures Executed(list, Dels(list)) == []
  {
    if list != [] {
      assert Dels(list)[1..] == Dels(list[1..]);
      DelsEmpty(list[1..]);
    }
  }

  lemma {:induction false} AddsAppend(list: seq<seq<byte>>, es: seq<seq<byte>>)
    ensures Executed(list, Adds(es)) == list + es
    decreases |es|
  {
    if es != [] {
      assert Adds(es)[1..] == Adds(es[1..]);
      AddsAppend(list + [es[0]], es[1..]);
      assert (list + [es[0]]) + es[1..] == list + es;
    }
  }

  // Deleting what is installed and adding something else leaves exactly the latter.
  lemma ReplacesAll(gone: seq<seq<byte>>, wanted: seq<seq<byte>>, pktflag: nat)
    requires pktflag < 0x1_0000_0000 && AreElements(gone) && AreElements(wanted)
    ensures Executed(gone, Decoded(Commands(Dels(gone) + Adds(wanted), pktflag))) == wanted
  {
    DecodesCommands(Dels(gone) + Adds(wanted), pktflag);
    ExecutedAppend(gone, Dels(gone), Adds(wanted));
    DelsEmpty(gone);
    AddsAppend([], wanted);
    assert [] + wanted == wanted;
  }

  // ---- sizes and fixed points ----

  // What commands for the elements take up in a buffer.
  function Charge(es: seq<seq<byte>>): nat {
    |Cat(es)| + HDR_SIZE * |es|
  }

  lemma ChargeHead(e: seq<byte>, rest: seq<seq<byte>>)
    ensures Charge([e] + rest) == |e| + HDR_SIZE + Charge(rest) && Charge([]) == 0
  {
    CatHead(e, rest);
    assert HDR_SIZE * |[e] + rest| == HDR_SIZE + HDR_SIZE * |rest|;
  }

  lemma ChargeLast(es: seq<seq<byte>>, i: nat)
    requires i < |es|
    ensures Charge(es[..i + 1]) == Charge(es[..i]) + |es[i]| + HDR_SIZE <= Charge(es)
  {
    PieceAt(es, i);
    CatSplit(es[..i + 1], es[i + 1..]);
    assert es == es[..i + 1] + es[i + 1..];
    assert HDR_SIZE * (i + 1) == HDR_SIZE + HDR_SIZE * i;
    assert HDR_SIZE * (i + 1) <= HDR_SIZE * |es|;
  }

  lemma FittingFirst(es: seq<seq<byte>>, room: int)
    requires AreElements(es) && es != []
    ensures |es[0]| == 2 + BodyLen(es[0]) && AreElements(es[1..])
    ensures Fitting(es, room)
         == if room < |es[0]| - 2 + HDR_SIZE then [] else [es[0]] + Fitting(es[1..], room - (|es[0]| + HDR_SIZE))
  {
    assert IsElement(es[0]);
  }

  lemma {:induction false} FittingSize(es: seq<seq<byte>>, room: int)
    requires AreElements(es)
    ensures var r := Fitting(es, room); r == [] || Charge(r) <= room + 2
  {
    if es != [] {
      hide Charge, AreElements, Fitting;
      FittingFirst(es, room);
      if room >= |es[0]| - 2 + HDR_SIZE {
        var left := room - (|es[0]| + HDR_SIZE);
        var rest := Fitting(es[1..], left);
        FittingSize(es[1..], left);
        ChargeHead(es[0], rest);
      }
    }
  }

  // All fit if and only if together, a header each, they exceed the room by no more than that.
  lemma {:induction false} FittingAll(es: seq<seq<byte>>, room: int)
    requires AreElements(es)
    ensures Fitting(es, room) == es <==> es == [] || Charge(es) <= room + 2
  {
    if es != [] {
      hide Charge, AreElements, Fitting;
      var left := room - (|es[0]| + HDR_SIZE);
      FittingFirst(es, room);
      FittingAll(es[1..], left);
      ChargeHead(es[0], es[1..]);
      assert es == [es[0]] + es[1..];
      assert ([es[0]] + Fitting(es[1..], left))[1..] == Fitting(es[1..], left);
    }
  }

  // So the firmware gets everything that was accepted exactly when it is not too much: the
  // request's own size is not what decides.
  lemma InstalledExactly(request: seq<byte>)
    requires WellFormed(request)
    ensures var a := Accepted(Elements(request), PARSE_LIMIT);
            Installed(request) == a <==> a == [] || Charge(a) <= IE_MAX_LEN + 2
  {
    FittingAll(Accepted(Elements(request), PARSE_LIMIT), IE_MAX_LEN);
  }

  lemma {:induction false} FittingIdempotent(es: seq<seq<byte>>, room: int)
    requires AreElements(es)
    ensures Fitting(Fitting(es, room), room) == Fitting(es, room)
  {
    if es != [] && room >= BodyLen(es[0]) + HDR_SIZE {
      var rest := Fitting(es[1..], room - (|es[0]| + HDR_SIZE));
      FittingIdempotent(es[1..], room - (|es[0]| + HDR_SIZE));
      assert ([es[0]] + rest)[1..] == rest;
    }
  }

  lemma {:induction false} AcceptedFixed(es: seq<seq<byte>>, limit: nat)
    requires |es| <= limit && AllVendor(es)
    ensures Accepted(es, limit) == es
  {
    if es != [] {
      AcceptedFixed(es[1..], limit - 1);
    }
  }

  // A list that some request installed.
  predicate Settled(list: seq<seq<byte>>) {
    && |list| <= PARSE_LIMIT && AllVendor(list) && AreElements(list)
    && Fitting(list, IE_MAX_LEN) == list
  }

  lemma InstalledIsSettled(request: seq<byte>)
    requires WellFormed(request)
    ensures Settled(Installed(request))
  {
    FittingIdempotent(Accepted(Elements(request), PARSE_LIMIT), IE_MAX_LEN);
  }

  // Parsing the saved bytes of a settled list gives the list back.
  lemma SavedReparses(list: seq<seq<byte>>)
    requires Settled(list)
    ensures WellFormed(Cat(list)) && Accepted(Elements(Cat(list)), PARSE_LIMIT) == list
    ensures Charge(list) <= IE_MAX_LEN + 2 && |Cat(list)| <= IE_MAX_LEN
  {
    ElementsOfCat(list);
    AcceptedFixed(list, PARSE_LIMIT);
    FittingSize(list, IE_MAX_LEN);
  }

  // The bytes that are saved are the request itself if and only if all its elements are
  // installed.
  lemma SavedIsRequest(request: seq<byte>)
    requires WellFormed(request)
    ensures Cat(Installed(request)) == request <==> Installed(request) == Elements(request)
  {
    InstalledIsSettled(request);
    SavedReparses(Installed(request));
    ElementsOfCat(Installed(request));
    CatOfElements(request);
  }

  function Copies(e: seq<byte>, n: nat): seq<seq<byte>> {
    if n == 0 then [] else [e] + Copies(e, n - 1)
  }

  lemma {:induction false} CopiesAre(e: seq<byte>, n: nat)
    requires IsVendor(e)
    ensures |Copies(e, n)| == n && AllVendor(Copies(e, n)) && AreElements(Copies(e, n))
    ensures |Cat(Copies(e, n))| == n * |e|
  {
    if n > 0 {
      hide IsVendor, Cat;
      CopiesAre(e, n - 1);
      CatHead(e, Copies(e, n - 1));
      assert n * |e| == |e| + (n - 1) * |e|;
    }
  }

  lemma FittingOne(e: seq<byte>, n: nat, room: int)
    requires IsVendor(e) && n > 0
    ensures AreElements(Copies(e, n)) && AreElements(Copies(e, n - 1))
    ensures Fitting(Copies(e, n), room)
         == if room < BodyLen(e) + HDR_SIZE then [] else [e] + Fitting(Copies(e, n - 1), room - (|e| + HDR_SIZE))
  {
    CopiesAre(e, n);
    CopiesAre(e, n - 1);
    hide IsVendor, AreElements, Fitting;
    FittingFirst(Copies(e, n), room);
    assert Copies(e, n)[1..] == Copies(e, n - 1);
  }

  lemma FourFit(e: seq<byte>)
    requires IsVendor(e) && |e| == 102 && BodyLen(e) == 100
    ensures AreElements(Copies(e, 5)) && |Fitting(Copies(e, 5), IE_MAX_LEN)| == 4
  {
    hide IsVendor, AreElements, BodyLen, Fitting, Copies;
    FittingOne(e, 1, 512 - 4 * 114);
    FittingOne(e, 2, 512 - 3 * 114);
    FittingOne(e, 3, 512 - 2 * 114);
    FittingOne(e, 4, 512 - 114);
    FittingOne(e, 5, 512);
  }

  // A vendor element of 102 bytes.
  function SomeElement(): (e: seq<byte>)
    ensures IsVendor(e) && |e| == 102 && BodyLen(e) == 100
  {
    var e: seq<byte> := [VENDOR_SPECIFIC, 100] + Zeros(100);
    assert e[2..5][1] == 0;
    e
  }

  // The element limit is not the only one: five elements that fill a request of at most
  // IE_MAX_LEN bytes are not all installed.
  lemma SomeAreRefused()
    ensures exists request: seq<byte> :: |request| <= IE_MAX_LEN && WellFormed(request) &&
              |Accepted(Elements(request), PARSE_LIMIT)| == 5 && |Installed(request)| == 4
  {
    hide IsVendor, AreElements, Fitting, Accepted, WellFormed, Elements, Cat, Copies, BodyLen, Installed;
    var e := SomeElement();
    var es := Copies(e, 5);
    CopiesAre(e, 5);
    FourFit(e);
    ElementsOfCat(es);
    AcceptedFixed(es, PARSE_LIMIT);
    InstalledOf(Cat(es));
    assert |Cat(es)| <= IE_MAX_LEN;
  }

  lemma InstalledOf(request: seq<byte>)
    requires WellFormed(request)
    ensures AreElements(Accepted(Elements(request), PARSE_LIMIT))
    ensures Installed(request) == Fitting(Accepted(Elements(request), PARSE_LIMIT), IE_MAX_LEN)
  {
  }
}

module VendorIes {
  import opened Wrappers
  import opened Bytes
  import opened VendorIeSpec

  datatype SetError = TooBig

  // The elements installed in the firmware for one kind of frame.
  class Firmware {
    var list: seq<seq<byte>>

    constructor ()
      ensures list == []
    {
      list := [];
    }

    method SetVndrIe(buf: seq<byte>)
      modifies this
      ensures list == Executed(old(list), Decoded(buf))
    {
      list := Executed(list, Decoded(buf));
    }
  }

  // The parser stands at `ie` and has collected `ies`.
  ghost predicate Walking(buf: seq<byte>, ie: nat, ies: seq<seq<byte>>)
    requires WellFormed(buf)
  {
    && ie <= |buf| && |ies| <= PARSE_LIMIT && WellFormed(buf[ie..])
    && Accepted(Elements(buf), PARSE_LIMIT) == ies + Accepted(Elements(buf[ie..]), PARSE_LIMIT - |ies|)
  }

  lemma WalkStep(buf: seq<byte>, ie: nat, ies: seq<seq<byte>>, next: nat, e: seq<byte>, ies': seq<seq<byte>>)
    requires WellFormed(buf) && Walking(buf, ie, ies) && ie < |buf| && |ies| < PARSE_LIMIT
    requires ie <= next <= |buf| && WellFormed(buf[next..])
    requires Elements(buf[ie..]) == [e] + Elements(buf[next..])
    requires ies' == if IsVendor(e) then ies + [e] else ies
    ensures Walking(buf, next, ies')
  {
    hide WellFormed, Elements, IsElement, IsVendor, Accepted, BodyLen;
    TakeOne(ies, e, Elements(buf[next..]));
  }

  lemma TakeOne(ies: seq<seq<byte>>, e: seq<byte>, todo: seq<seq<byte>>)
    requires |ies| < PARSE_LIMIT
    ensures var ies' := if IsVendor(e) then ies + [e] else ies;
            ies + Accepted([e] + todo, PARSE_LIMIT - |ies|) == ies' + Accepted(todo, PARSE_LIMIT - |ies'|)
  {
    hide IsVendor;
    assert ([e] + todo)[1..] == todo;
    if IsVendor(e) {
      ConcatAssoc(ies, [e], Accepted(todo, PARSE_LIMIT - |ies| - 1));
    }
  }

  lemma FirstElement(rest: seq<byte>)
    requires rest != [] && WellFormed(rest)
    ensures |rest| >= 2 && 2 + BodyLen(rest) <= |rest|
    ensures var n := 2 + BodyLen(rest);
            && IsElement(rest[..n]) && WellFormed(rest[n..])
            && Elements(rest) == [rest[..n]] + Elements(rest[n..])
  {
  }

  // The element at `ie` and those after it.
  lemma Peel(buf: seq<byte>, ie: nat)
    requires ie < |buf| && WellFormed(buf[ie..])
    ensures ie + 2 <= |buf| && ie + 2 + BodyLen(buf[ie..]) <= |buf|
    ensures var next := ie + 2 + BodyLen(buf[ie..]);
            && IsElement(buf[ie..next]) && WellFormed(buf[next..])
            && Elements(buf[ie..]) == [buf[ie..next]] + Elements(buf[next..])
  {
    hide WellFormed, Elements, IsElement, BodyLen;
    var rest := buf[ie..];
    FirstElement(rest);
    var next := ie + 2 + BodyLen(rest);
    assert buf[ie..next] == rest[..2 + BodyLen(rest)] && rest[2 + BodyLen(rest)..] == buf[next..];
  }

  lemma WalkEnd(buf: seq<byte>, ie: nat, ies: seq<seq<byte>>)
    requires WellFormed(buf) && Walking(buf, ie, ies) && (|ies| == PARSE_LIMIT || |buf| - ie <= 2)
    ensures ies == Accepted(Elements(buf), PARSE_LIMIT)
  {
    hide WellFormed, Elements, IsVendor;
    if |ies| < PARSE_LIMIT {
      NothingShort(buf[ie..], PARSE_LIMIT - |ies|);
    }
    assert ies + [] == ies;
  }

  // parse_vndr_ies: views of the accepted elements of a buffer.
  method ParseVndrIes(buf: seq<byte>) returns (ies: seq<seq<byte>>)
    requires WellFormed(buf) && buf != []
    ensures ies == Accepted(Elements(buf), PARSE_LIMIT)
  {
    hide WellFormed, Elements, Accepted, IsVendor, IsElement;
    ies := [];
    var ie := 0;
    var remaining := |buf|;
    assert Walking(buf, 0, ies) by {
      assert buf[0..] == buf && [] + Accepted(Elements(buf), PARSE_LIMIT) == Accepted(Elements(buf), PARSE_LIMIT);
    }
    while true
      invariant ie < |buf| && remaining == |buf| - ie && |ies| < PARSE_LIMIT
      invariant Walking(buf, ie, ies)
      decreases remaining
    {
      Peel(buf, ie);
      var len := BodyLen(buf[ie..]);
      var e := buf[ie..ie + 2 + len];
      WalkStep(buf, ie, ies, ie + 2 + len, e, if IsVendor(e) then ies + [e] else ies);
      if IsVendor(e) {
        ies := ies + [e];
        if |ies| >= PARSE_LIMIT {
          WalkEnd(buf, ie + 2 + len, ies);
          return;
        }
      }
      remaining := remaining - (len + 2);
      if remaining <= 2 {
        WalkEnd(buf, ie + 2 + len, ies);
        return;
      }
      ie := ie + 2 + len;
    }
  }

  // Two bytes or fewer hold no vendor element.
  lemma NothingShort(buf: seq<byte>, limit: nat)
    requires WellFormed(buf) && |buf| <= 2
    ensures Accepted(Elements(buf), limit) == []
  {
    if buf != [] {
      assert BodyLen(buf) == 0 && buf[2..] == [] && buf[..2] == buf;
      assert Elements(buf) == [buf] + Elements([]);
    }
  }

  // What the driver keeps for one kind of frame.
  class SavedIe {
    const pktflag: nat
    const fw: Firmware
    const mgmtIe: array<byte>
    var mgmtIeLen: nat

    // The firmware's list, what is saved of it, and a re-parse of that agree.
    ghost predicate Valid()
      reads this, fw, mgmtIe
    {
      && pktflag < 0x1_0000_0000 && mgmtIe.Length == IE_MAX_LEN && mgmtIeLen <= IE_MAX_LEN
      && Settled(fw.list) && mgmtIe[..mgmtIeLen] == Cat(fw.list)
    }

    constructor (pktflag: nat, fw: Firmware)
      requires pktflag < 0x1_0000_0000 && fw.list == []
      ensures Valid() && fresh(mgmtIe) && this.fw == fw
    {
      this.pktflag, this.fw := pktflag, fw;
      mgmtIe := new byte[IE_MAX_LEN];
      mgmtIeLen := 0;
    }

    // Append a command for each element of `ies` to the command buffer.
    method Append(iovar: array<byte>, total: nat, del: bool, ies: seq<seq<byte>>, ghost cmds: seq<Cmd>)
      returns (total': nat)
      requires pktflag < 0x1_0000_0000 && total <= iovar.Length && iovar[..total] == Commands(cmds, pktflag)
      requires total + Charge(ies) <= iovar.Length
      modifies iovar
      ensures total' == total + Charge(ies)
      ensures iovar[..total'] == Commands(cmds + Each(del, ies), pktflag)
    {
      total' := total;
      assert Charge(ies[..0]) == 0 && cmds + Each(del, ies[..0]) == cmds;
      hide Commands, Command, Each, Charge;
      for i := 0 to |ies|
        invariant total' == total + Charge(ies[..i])
        invariant total' <= iovar.Length && iovar[..total'] == Commands(cmds + Each(del, ies[..i]), pktflag)
      {
        ChargeLast(ies, i);
        var cmd := if del then Del(ies[i]) else Add(ies[i]);
        CopyIn(iovar, total', Command(cmd, pktflag));
        CommandsEach(cmds, del, ies, i, pktflag);
        total' := total' + HDR_SIZE + |ies[i]|;
      }
      assert ies[..|ies|] == ies;
    }

    // The add loop's accounting: the elements for which there is room.
    method ChooseFitting(ies: seq<seq<byte>>) returns (chosen: seq<seq<byte>>)
      requires AreElements(ies)
      ensures chosen == Fitting(ies, IE_MAX_LEN)
    {
      chosen := [];
      var room: int := IE_MAX_LEN;
      var i := 0;
      while i < |ies|
        invariant i <= |ies| && chosen + Fitting(ies[i..], room) == Fitting(ies, IE_MAX_LEN)
      {
        if room < BodyLen(ies[i]) + HDR_SIZE {
          break;
        }
        room := room - (|ies[i]| + HDR_SIZE);
        assert ies[i..][1..] == ies[i + 1..];
        ConcatAssoc(chosen, [ies[i]], Fitting(ies[i + 1..], room));
        chosen := chosen + [ies[i]];
        i := i + 1;
      }
      assert chosen + [] == chosen;
    }

    method Save(ies: seq<seq<byte>>)
      requires mgmtIe.Length == IE_MAX_LEN && |Cat(ies)| <= IE_MAX_LEN
      modifies this`mgmtIeLen, mgmtIe
      ensures mgmtIeLen <= IE_MAX_LEN && mgmtIe[..mgmtIeLen] == Cat(ies)
    {
      mgmtIeLen := 0;
      for i := 0 to |ies|
        invariant mgmtIeLen <= IE_MAX_LEN && mgmtIe[..mgmtIeLen] == Cat(ies[..i])
      {
        PieceAt(ies, i);
        CopyIn(mgmtIe, mgmtIeLen, ies[i]);
        mgmtIeLen := mgmtIeLen + |ies[i]|;
      }
      assert ies[..|ies|] == ies;
    }

    // brcmf_vif_set_mgmt_ie for one kind of frame.  Whatever was installed before, an
    // update that is not too big leaves the firmware with exactly what it asks for, up to
    // the limits; the command buffer is big enough for every delete and add together.
    method SetMgmtIe(request: seq<byte>) returns (err: Option<SetError>)
      requires Valid() && WellFormed(request)
      modifies this`mgmtIeLen, mgmtIe, fw
      ensures Valid()
      ensures err == if |request| > IE_MAX_LEN then Some(TooBig) else None
      ensures fw.list == if err.Some? then old(fw.list) else Installed(request)
    {
      if |request| > mgmtIe.Length {
        return Some(TooBig);
      }
      InstalledIsSettled(request);
      var newIes := [];
      if request != [] {
        newIes := ParseVndrIes(request);
      }
      SavedReparses(fw.list);
      var parsed := Concat(newIes);
      if mgmtIeLen != 0 && |parsed| != 0 && parsed == mgmtIe[..mgmtIeLen] {
        // what is saved is what was asked for
        ElementsOfCat(newIes);
        ElementsOfCat(fw.list);
        return None;
      }
      var oldIes := [];
      if mgmtIeLen != 0 {
        oldIes := ParseVndrIes(mgmtIe[..mgmtIeLen]);
      } else {
        EmptyCat(fw.list);
      }
      Replace(oldIes, newIes);
      err := None;
    }

    lemma EmptyCat(es: seq<seq<byte>>)
      requires AreElements(es) && Cat(es) == []
      ensures es == []
    {
      if es != [] {
        PieceAt(es, 0);
      }
    }

    // The parsed elements, one after the other.
    method Concat(ies: seq<seq<byte>>) returns (parsed: seq<byte>)
      ensures parsed == Cat(ies)
    {
      parsed := [];
      for i := 0 to |ies|
        invariant parsed == Cat(ies[..i])
      {
        PieceAt(ies, i);
        parsed := parsed + ies[i];
      }
      assert ies[..|ies|] == ies;
    }

    // Delete the old elements and add those of the new ones that fit, in one command.
    method Replace(oldIes: seq<seq<byte>>, newIes: seq<seq<byte>>)
      requires Valid() && oldIes == fw.list && AreElements(newIes)
      requires Settled(Fitting(newIes, IE_MAX_LEN))
      modifies this`mgmtIeLen, mgmtIe, fw
      ensures Valid() && fw.list == Fitting(newIes, IE_MAX_LEN)
    {
      hide Settled, Fitting, Executed, Decoded, Commands, Cat;
      var chosen := ChooseFitting(newIes);
      SettledParts(oldIes);
      SettledParts(chosen);
      var iovar, total := BuildCommand(oldIes, chosen);
      Save(chosen);
      if total != 0 {
        ReplacesAll(oldIes, chosen, pktflag);
        fw.SetVndrIe(iovar[..total]);
      }
    }

    lemma SettledParts(list: seq<seq<byte>>)
      requires Settled(list)
      ensures AreElements(list) && Charge(list) <= IE_MAX_LEN + 2 && |Cat(list)| <= IE_MAX_LEN
    {
      SavedReparses(list);
    }

    // One buffer with a delete for each old element and an add for each chosen one.
    method BuildCommand(oldIes: seq<seq<byte>>, chosen: seq<seq<byte>>) returns (iovar: array<byte>, total: nat)
      requires pktflag < 0x1_0000_0000
      requires Charge(oldIes) <= IE_MAX_LEN + 2
      requires Charge(chosen) <= IE_MAX_LEN + 2
      ensures fresh(iovar) && total <= iovar.Length == EXTRA_BUF_MAX
      ensures iovar[..total] == Commands(Dels(oldIes) + Adds(chosen), pktflag)
      ensures total == 0 <==> oldIes == [] && chosen == []
    {
      hide Cat;
      iovar := new byte[EXTRA_BUF_MAX];
      assert iovar[..0] == Commands([], pktflag);
      total := Append(iovar, 0, true, oldIes, []);
      assert [] + Dels(oldIes) == Dels(oldIes);
      total := Append(iovar, total, false, chosen, Dels(oldIes));
    }
  }
}
