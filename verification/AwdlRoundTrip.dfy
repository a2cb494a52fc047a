// From the announced identity through the frame and back: mkpsf.py against awdl-af-parse.py.

module AwdlBuild {
  import opened Bytes
  import opened Wrappers
  import opened AwdlNames
  import opened AwdlTlvs

  datatype Identity = Identity(host: Text, sid: Text, port: nat, flags: Text)

  // What the builders do not raise an error for.
  predicate Buildable(id: Identity) {
    |id.host| < 256 && |id.sid| < 256 && |id.flags| < 256 && id.port < 0x1_0000
  }

  function Sr(name: seq<byte>, rtype: byte, rdata: seq<byte>): (v: seq<byte>)
    requires |name| + 1 < 0x1_0000 && |rdata| < 0x1_0000
    ensures |v| == 7 + |name| + |rdata|
  {
    LE16(|name| + 1) + name + [rtype] + LE16(|rdata|) + [0, 0] + rdata
  }

  function Arpa(id: Identity): (v: seq<byte>)
    requires Buildable(id)
    ensures |v| == |id.host| + 4
  {
    [0x03] + Lbl(id.host) + [0xc0, 0x0c]
  }

  function SrPtr(id: Identity): (v: seq<byte>)
    requires Buildable(id)
    ensures |v| == 12 + |id.sid|
  {
    Sr([0xc0, 0x07], 12, Lbl(id.sid) + [0xc0, 0x00])
  }

  function SrvData(id: Identity): (rd: seq<byte>)
    requires Buildable(id)
    ensures |rd| == 9 + |id.host|
  {
    BE16(0) + BE16(0) + BE16(id.port) + Lbl(id.host) + [0xc0, 0x0c]
  }

  function SrSrv(id: Identity): (v: seq<byte>)
    requires Buildable(id)
    ensures |v| == 19 + |id.sid| + |id.host|
  {
    Sr(Lbl(id.sid) + [0xc0, 0x07], 33, SrvData(id))
  }

  function SrTxt(id: Identity): (v: seq<byte>)
    requires Buildable(id)
    ensures |v| == 11 + |id.sid| + |id.flags|
  {
    Sr(Lbl(id.sid) + [0xc0, 0x07], 16, Lbl(id.flags))
  }

  // The service records, in the order they are sent.
  function Records(id: Identity): (rs: seq<Tlv>)
    requires Buildable(id)
    ensures |rs| == 4 && AllFit(rs)
  {
    [Tlv(16, Arpa(id)), Tlv(2, SrPtr(id)), Tlv(2, SrSrv(id)), Tlv(2, SrTxt(id))]
  }

  const HEADER: seq<byte> := [8, 0x10, 0, 0, 0, 0, 0, 0, 0, 0, 0, 0]

  function Kept(order: seq<Tlv>, skip: set<byte>): seq<Tlv> {
    if order == [] then []
    else if order[0].t in skip then Kept(order[1..], skip)
    else [order[0]] + Kept(order[1..], skip)
  }

  // The order of variant ES: the records before the last two of the standard TLVs.
  function OrderOf(standard: seq<Tlv>, records: seq<Tlv>): seq<Tlv>
    requires |standard| >= 2
  {
    standard[..|standard| - 2] + records + standard[|standard| - 2..]
  }

  // psf: None where a body does not fit its length field.
  method Psf(order: seq<Tlv>, skip: set<byte>) returns (r: Option<seq<byte>>)
    ensures r.Some? <==> AllFit(Kept(order, skip))
    ensures r.Some? ==> r.value == HEADER + Chain(Kept(order, skip))
  {
    hide TlvBytes;
    var af := HEADER;
    KeptPrefix(order, skip, 0);
    assert HEADER + [] == HEADER;
    for i := 0 to |order|
      invariant AllFit(Kept(order[..i], skip)) && af == HEADER + Chain(Kept(order[..i], skip))
    {
      KeptPrefix(order, skip, i);
      var t := order[i];
      if t.t in skip {
        continue;
      }
      if |t.body| >= 0x1_0000 {
        KeptMisfit(order, skip, i);
        return None;
      }
      ChainAppend(Kept(order[..i], skip), t);
      ConcatAssoc(HEADER, Chain(Kept(order[..i], skip)), TlvBytes(t));
      af := af + TlvBytes(t);
    }
    assert order[..|order|] == order;
    return Some(af);
  }

  function OneMore(kept: seq<Tlv>, r: Tlv, skip: set<byte>): seq<Tlv> {
    if r.t in skip then kept else kept + [r]
  }

  lemma {:induction false} KeptPrefix(order: seq<Tlv>, skip: set<byte>, i: nat)
    requires i <= |order|
    ensures i == 0 ==> Kept(order[..i], skip) == []
    ensures i < |order| ==> Kept(order[..i + 1], skip) == OneMore(Kept(order[..i], skip), order[i], skip)
    decreases i
  {
    if 0 < i < |order| {
      assert order[..i + 1][1..] == order[1..][..i] && order[..i][1..] == order[1..][..i - 1];
      KeptPrefix(order[1..], skip, i - 1);
    }
  }

  lemma {:induction false} KeptMember(order: seq<Tlv>, skip: set<byte>, i: nat) returns (k: nat)
    requires i < |order| && order[i].t !in skip
    ensures k < |Kept(order, skip)| && Kept(order, skip)[k] == order[i]
  {
    if i == 0 {
      k := 0;
    } else {
      k := KeptMember(order[1..], skip, i - 1);
      if order[0].t !in skip {
        k := k + 1;
      }
    }
  }

  lemma KeptMisfit(order: seq<Tlv>, skip: set<byte>, i: nat)
    requires i < |order| && order[i].t !in skip && |order[i].body| >= 0x1_0000
    ensures !AllFit(Kept(order, skip))
  {
    var k := KeptMember(order, skip, i);
  }

  lemma {:induction false} ChainAppend(rs: seq<Tlv>, r: Tlv)
    requires AllFit(rs) && |r.body| < 0x1_0000
    ensures AllFit(rs + [r]) && Chain(rs + [r]) == Chain(rs) + TlvBytes(r)
  {
    hide TlvBytes;
    if rs == [] {
      assert (rs + [r])[1..] == [];
    } else {
      ChainAppend(rs[1..], r);
      assert (rs + [r])[1..] == rs[1..] + [r];
      ConcatAssoc(TlvBytes(rs[0]), Chain(rs[1..]), TlvBytes(r));
    }
  }
}

module AwdlRoundTrip {
  import opened Bytes
  import opened Wrappers
  import opened AwdlNames
  import opened AwdlTlvs
  import opened AwdlRecords
  import opened AwdlBuild

  // ---- one record ----

  lemma SrParts(name: seq<byte>, rtype: byte, rdata: seq<byte>)
    requires |name| + 1 < 0x1_0000 && |rdata| < 0x1_0000
    ensures var v, n := Sr(name, rtype, rdata), |name|;
            && v[..2] == LE16(n + 1) && StartsAt(v, 2, name) && v[2 + n] == rtype
            && v[3 + n..5 + n] == LE16(|rdata|) && v[7 + n..] == rdata
  {
    var v, n := Sr(name, rtype, rdata), |name|;
    assert v[2..2 + n] == name;
  }

  // A service response comes apart into its name and its data again.
  lemma ResponseOf(name: seq<byte>, rtype: byte, rdata: seq<byte>)
    requires |name| + 1 < 0x1_0000 && |rdata| < 0x1_0000
    requires NameAt(Sr(name, rtype, rdata), 2).Named? && ValueOf(rtype, rdata).Some?
    ensures ServiceResponse(Sr(name, rtype, rdata))
         == Response(NameAt(Sr(name, rtype, rdata), 2).text, ValueOf(rtype, rdata).value)
  {
    hide ValueOf, NameAt, Sr, ServiceResponse;
    SrParts(name, rtype, rdata);
    ResponseFrom(Sr(name, rtype, rdata), |name|, rtype, rdata);
  }

  lemma ResponseFrom(v: seq<byte>, n: nat, rtype: byte, rdata: seq<byte>)
    requires n + 1 < 0x1_0000 && |rdata| < 0x1_0000 && |v| == 7 + n + |rdata|
    requires v[..2] == LE16(n + 1) && v[2 + n] == rtype && v[3 + n..5 + n] == LE16(|rdata|) && v[7 + n..] == rdata
    requires NameAt(v, 2).Named? && ValueOf(rtype, rdata).Some?
    ensures ServiceResponse(v) == Response(NameAt(v, 2).text, ValueOf(rtype, rdata).value)
  {
    hide ValueOf, NameAt, LE16, FromLE16;
    LE16RoundTrip(n + 1);
    LE16RoundTrip(|rdata|);
    assert Slice(v, 7 + n, 7 + n + |rdata|) == v[7 + n..];
  }

  lemma StartsHere(b: seq<byte>, head: seq<byte>, t: seq<byte>)
    requires b == head + t
    ensures StartsAt(b, |head|, t)
  {
  }

  lemma PtrParses(id: Identity)
    requires Buildable(id)
    ensures ServiceResponse(SrPtr(id)) == Response(AIRDROP, Ptr(Shown(id.sid, 0x00)))
  {
    hide Shown, StartsAt, Sr, Labels, Tail, ServiceResponse;
    var name, rd := [0xc0, 0x07], Lbl(id.sid) + [0xc0, 0x00];
    SrParts(name, 12, rd);
    StartsHere(rd, [], Lbl(id.sid) + [0xc0, 0x00]);
    OneLabelReads(rd, 0, id.sid, 0x00);
    CodeAlone(Sr(name, 12, rd), 2);
    ResponseOf(name, 12, rd);
  }

  lemma CodeAlone(b: seq<byte>, off: nat)
    requires StartsAt(b, off, [0xc0, 0x07])
    ensures NameAt(b, off) == Named(AIRDROP, off + 2)
  {
    CodeAt(b, off, 0x07);
  }

  lemma InstanceName(id: Identity, rtype: byte, rd: seq<byte>)
    requires Buildable(id) && |rd| < 0x1_0000
    ensures var v := Sr(Lbl(id.sid) + [0xc0, 0x07], rtype, rd);
            NameAt(v, 2).Named? && NameAt(v, 2).text == Shown(id.sid, 0x07)
  {
    hide Shown, StartsAt, Sr, NameAt, Tail;
    SrParts(Lbl(id.sid) + [0xc0, 0x07], rtype, rd);
    OneLabelReads(Sr(Lbl(id.sid) + [0xc0, 0x07], rtype, rd), 2, id.sid, 0x07);
  }

  lemma SrvDataParts(id: Identity)
    requires Buildable(id)
    ensures var rd := SrvData(id);
            rd[4..6] == BE16(id.port) && StartsAt(rd, 6, Lbl(id.host) + [0xc0, 0x0c])
  {
    var head := BE16(0) + BE16(0) + BE16(id.port);
    ConcatAssoc(head, Lbl(id.host), [0xc0, 0x0c]);
    StartsHere(SrvData(id), head, Lbl(id.host) + [0xc0, 0x0c]);
  }

  lemma SrvParses(id: Identity)
    requires Buildable(id)
    ensures ServiceResponse(SrSrv(id)) == Response(Shown(id.sid, 0x07), Srv(id.port, Shown(id.host, 0x0c)))
  {
    hide Shown, StartsAt, Sr, NameAt, Tail, ServiceResponse, SrvData;
    var rd := SrvData(id);
    SrvDataParts(id);
    OneLabelReads(rd, 6, id.host, 0x0c);
    InstanceName(id, 33, rd);
    ResponseOf(Lbl(id.sid) + [0xc0, 0x07], 33, rd);
  }

  lemma OneString(s: Text)
    requires |s| < 256
    ensures Strings(Lbl(s), 0) == [s]
  {
    var rd := Lbl(s);
    assert Slice(rd, 1, 1 + |s|) == s;
    assert Strings(rd, 1 + |s|) == [];
  }

  lemma TxtParses(id: Identity)
    requires Buildable(id)
    ensures ServiceResponse(SrTxt(id)) == Response(Shown(id.sid, 0x07), Txt([id.flags]))
  {
    hide Shown, StartsAt, Sr, NameAt, Tail, ServiceResponse, Strings;
    OneString(id.flags);
    InstanceName(id, 16, Lbl(id.flags));
    ResponseOf(Lbl(id.sid) + [0xc0, 0x07], 16, Lbl(id.flags));
  }

  lemma ArpaParses(id: Identity)
    requires Buildable(id)
    ensures NameAt(Arpa(id), 1).Named? && NameAt(Arpa(id), 1).text == Shown(id.host, 0x0c)
  {
    hide Shown, StartsAt, NameAt, Tail;
    ConcatAssoc([0x03], Lbl(id.host), [0xc0, 0x0c]);
    StartsHere(Arpa(id), [0x03], Lbl(id.host) + [0xc0, 0x0c]);
    OneLabelReads(Arpa(id), 1, id.host, 0x0c);
  }

  // ---- a frame ----

  // The TLVs the parser looks at.
  predicate IsService(r: Tlv) {
    r.t == 2 || r.t == 16
  }

  function Services(rs: seq<Tlv>): seq<Tlv> {
    if rs == [] then []
    else if IsService(rs[0]) then [rs[0]] + Services(rs[1..])
    else Services(rs[1..])
  }

  // TLVs of other types make no difference.
  lemma {:induction false} OthersIgnored(rec: Record, rs: seq<Tlv>)
    ensures AbsorbAll(rec, rs) == AbsorbAll(rec, Services(rs))
    decreases |rs|
  {
    if rs != [] {
      if IsService(rs[0]) {
        assert ([rs[0]] + Services(rs[1..]))[1..] == Services(rs[1..]);
        if Absorb(rec, rs[0]).Some? {
          OthersIgnored(Absorb(rec, rs[0]).value, rs[1..]);
        }
      } else {
        OthersIgnored(rec, rs[1..]);
      }
    }
  }

  // The services a frame with the four records shows.
  function Shows(id: Identity): map<Text, Entry> {
    var ptr := map[AIRDROP := With(NOTHING, Ptr(Shown(id.sid, 0x00)))];
    var n := Shown(id.sid, 0x07);
    var srv := With(EntryOf(ptr, n), Srv(id.port, Shown(id.host, 0x0c)));
    ptr[n := With(srv, Txt([id.flags]))]
  }

  lemma FourRecords(rec: Record, id: Identity)
    requires Buildable(id) && rec.services == map[]
    ensures AbsorbAll(rec, Records(id)) == Some(Record(rec.kind, Some(Shown(id.host, 0x0c)), Shows(id)))
  {
    hide Shown, ServiceResponse, NameAt, Arpa, SrPtr, SrSrv, SrTxt;
    ArpaParses(id);
    PtrParses(id);
    SrvParses(id);
    TxtParses(id);
    var rs := Records(id);
    var n := Shown(id.sid, 0x07);
    var r1 := rec.(host := Some(Shown(id.host, 0x0c)));
    var r2 := r1.(services := map[AIRDROP := With(NOTHING, Ptr(Shown(id.sid, 0x00)))]);
    var srv := With(EntryOf(r2.services, n), Srv(id.port, Shown(id.host, 0x0c)));
    var r3 := r2.(services := r2.services[n := srv]);
    assert Absorb(rec, rs[0]) == Some(r1);
    assert Absorb(r1, rs[1]) == Some(r2);
    assert Absorb(r2, rs[2]) == Some(r3);
    assert r3.services[n := With(srv, Txt([id.flags]))] == Shows(id);
    Unrolled(rec, rs, r1, r2, r3);
  }

  lemma Unrolled(rec: Record, rs: seq<Tlv>, r1: Record, r2: Record, r3: Record)
    requires |rs| == 4 && Absorb(rec, rs[0]) == Some(r1)
    requires Absorb(r1, rs[1]) == Some(r2) && Absorb(r2, rs[2]) == Some(r3)
    ensures AbsorbAll(rec, rs) == Absorb(r3, rs[3])
  {
    hide Absorb;
    assert rs[1..][1..] == rs[2..] && rs[2..][1..] == rs[3..] && rs[3..][1..] == [];
    assert AbsorbAll(r3, rs[3..]) == Absorb(r3, rs[3]);
    assert AbsorbAll(r2, rs[2..]) == AbsorbAll(r3, rs[3..]);
    assert AbsorbAll(r1, rs[1..]) == AbsorbAll(r2, rs[2..]);
  }

  // ---- the identity read back ----

  // A host and a service id the frame can carry: lengths that pass for nothing else, and no
  // dot in the id.
  predicate Readable(id: Identity) {
    Plain(id.host) && Plain(id.sid) && DOT !in id.sid
  }

  function HostName(id: Identity): Text {
    id.host + [DOT] + Ascii("local")
  }

  function Expected(id: Identity): Endpoint {
    Endpoint(id.sid, Some(id.port), Some(HostName(id)), Some([id.flags]), Some(HostName(id)))
  }

  lemma ShownHost(id: Identity)
    requires Buildable(id)
    ensures Shown(id.host, 0x0c) == HostName(id) <==> Plain(id.host)
  {
    if Plain(id.host) {
      TwoLabels(id.host, Ascii("local"));
    }
  }

  lemma TwoLabels(a: Text, b: Text)
    ensures JoinDots([a] + [b]) == a + [DOT] + b && JoinDots([a] + []) == a
  {
    assert ([a] + [b])[1..] == [b];
    assert [a] + [] == [a];
  }

  lemma ShownId(id: Identity)
    requires Buildable(id)
    ensures Plain(id.sid) ==> Shown(id.sid, 0x00) == id.sid && Shown(id.sid, 0x07) == id.sid + [DOT] + AIRDROP
    ensures id.sid == [] ==> Shown(id.sid, 0x00) == []
    ensures |id.sid| == 0xc0 ==> |Shown(id.sid, 0x00)| < 0xc0
  {
    TwoLabels(id.sid, AIRDROP);
  }

  lemma {:induction false} BeforeWhole(t: Text)
    requires DOT !in t
    ensures Before(t) == t
  {
    if t != [] {
      BeforeWhole(t[1..]);
    }
  }

  lemma AirdropHasDot()
    ensures DOT in AIRDROP
  {
    assert AIRDROP[8] == DOT;
  }

  lemma PtrShown(id: Identity)
    ensures EntryOf(Shows(id), AIRDROP).ptr == Some(Shown(id.sid, 0x00))
  {
    hide Shown;
  }

  lemma ReadableComesBack(kind: byte, id: Identity)
    requires Buildable(id) && Readable(id)
    ensures EndpointOf(Record(kind, Some(Shown(id.host, 0x0c)), Shows(id))) == Some(Expected(id))
  {
    hide Shown, Before, Plain;
    PtrShown(id);
    ShownId(id);
    ShownHost(id);
    BeforeWhole(id.sid);
    AirdropHasDot();
    var n := id.sid + [DOT] + AIRDROP;
    assert Plain(id.sid) && Plain(id.host);
    assert |n| > |AIRDROP| && |n| > |id.sid|;
    NotEmpty(id);
  }

  lemma NotEmpty(id: Identity)
    requires Plain(id.sid)
    ensures id.sid != []
  {
  }

  // The identity comes back whole exactly when it is readable.
  lemma EndpointExactly(kind: byte, id: Identity)
    requires Buildable(id)
    ensures EndpointOf(Record(kind, Some(Shown(id.host, 0x0c)), Shows(id))) == Some(Expected(id)) <==> Readable(id)
  {
    hide Shown, Shows;
    if Readable(id) {
      ReadableComesBack(kind, id);
    } else {
      PtrShown(id);
      ShownId(id);
      ShownHost(id);
    }
  }

  // A frame that carries the four records, among any TLVs of other types and with up to two
  // stray bytes behind them, parses to what they show, and the receiver finds the identity
  // that was announced exactly when it is readable.
  lemma AnnouncementUnderstood(body: seq<byte>, header: seq<byte>, rs: seq<Tlv>, rest: seq<byte>, id: Identity)
    requires Buildable(id) && AllFit(rs) && Services(rs) == Records(id)
    requires |header| == 12 && header[0] == 0x08 && |rest| < 3
    requires body == CATEGORY + header + (Chain(rs) + rest)
    ensures ParsedBody(body).Parsed? && ParsedBody(body).rec.kind == header[2]
    ensures EndpointOf(ParsedBody(body).rec) == Some(Expected(id)) <==> Readable(id)
  {
    hide Records, Shown, Shows, EndpointOf, Expected, Tlvs, Chain, Services;
    assert body[16..] == Chain(rs) + rest && body[..4] == CATEGORY;
    assert body[4] == header[0] && body[6] == header[2];
    assert body[16..][0..] == body[16..];
    TlvsUndoChain(body[16..], 0, rs, rest);
    var rec := Record(body[6], None, map[]);
    OthersIgnored(rec, rs);
    FourRecords(rec, id);
    EndpointExactly(header[2], id);
  }

  lemma {:induction false} KeptServices(order: seq<Tlv>, skip: set<byte>)
    requires 2 !in skip && 16 !in skip
    ensures Services(Kept(order, skip)) == Services(order)
  {
    if order != [] {
      KeptServices(order[1..], skip);
      if order[0].t !in skip {
        assert ([order[0]] + Kept(order[1..], skip))[1..] == Kept(order[1..], skip);
      }
    }
  }

  lemma {:induction false} ServicesConcat(a: seq<Tlv>, b: seq<Tlv>)
    ensures Services(a + b) == Services(a) + Services(b)
  {
    if a == [] {
      assert a + b == b;
    } else {
      ServicesConcat(a[1..], b);
      assert (a + b)[1..] == a[1..] + b && (a + b)[0] == a[0];
      ConcatAssoc([a[0]], Services(a[1..]), Services(b));
    }
  }

  lemma {:induction false} AllServices(rs: seq<Tlv>)
    requires forall i :: 0 <= i < |rs| ==> IsService(rs[i])
    ensures Services(rs) == rs
  {
    if rs != [] {
      AllServices(rs[1..]);
    }
  }

  // Variant ES of the periodic synchronization frame, with whatever TLVs the firmware owns
  // left out, is such an announcement.
  lemma PsfUnderstood(standard: seq<Tlv>, skip: set<byte>, id: Identity)
    requires Buildable(id) && |standard| >= 2 && Services(standard) == []
    requires 2 !in skip && 16 !in skip
    requires AllFit(Kept(OrderOf(standard, Records(id)), skip))
    ensures var r := ParsedBody(CATEGORY + (HEADER + Chain(Kept(OrderOf(standard, Records(id)), skip))));
            r.Parsed? && r.rec.kind == 0 && (EndpointOf(r.rec) == Some(Expected(id)) <==> Readable(id))
  {
    hide EndpointOf, Expected, ParsedBody, Chain, Records, Readable, Services, Kept, AllFit, Buildable, OrderOf;
    var rs := Kept(OrderOf(standard, Records(id)), skip);
    RecordsAreServices(id);
    OrderServices(standard, Records(id), skip);
    ConcatAssoc(CATEGORY, HEADER, Chain(rs));
    assert Chain(rs) + [] == Chain(rs);
    AnnouncementUnderstood(CATEGORY + (HEADER + Chain(rs)), HEADER, rs, [], id);
  }

  lemma OrderServices(standard: seq<Tlv>, records: seq<Tlv>, skip: set<byte>)
    requires |standard| >= 2 && Services(standard) == [] && 2 !in skip && 16 !in skip
    requires forall i :: 0 <= i < |records| ==> IsService(records[i])
    ensures Services(Kept(OrderOf(standard, records), skip)) == records
  {
    hide Services, IsService, Kept;
    var head, last := standard[..|standard| - 2], standard[|standard| - 2..];
    KeptServices(OrderOf(standard, records), skip);
    assert head + last == standard;
    ServicesConcat(head, last);
    ServicesConcat(head, records);
    ServicesConcat(head + records, last);
    AllServices(records);
    assert [] + records + [] == records;
  }

  lemma RecordsAreServices(id: Identity)
    requires Buildable(id)
    ensures forall i :: 0 <= i < |Records(id)| ==> IsService(Records(id)[i])
  {
    hide Arpa, SrPtr, SrSrv, SrTxt;
  }
}
