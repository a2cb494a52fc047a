// AWDL action frames: the TLV chain and the service records in it, as mkpsf.py writes and
// awdl-af-parse.py reads them.

module AwdlTlvs {
  import opened Bytes

  datatype Tlv = Tlv(t: byte, body: seq<byte>)

  // tlv, for a body that fits its length field.
  function TlvBytes(r: Tlv): (b: seq<byte>)
    requires |r.body| < 0x1_0000
    ensures |b| == 3 + |r.body|
  {
    [r.t] + LE16(|r.body|) + r.body
  }

  predicate AllFit(rs: seq<Tlv>) {
    forall i :: 0 <= i < |rs| ==> |rs[i].body| < 0x1_0000
  }

  function Chain(rs: seq<Tlv>): seq<byte>
    requires AllFit(rs)
  {
    if rs == [] then [] else TlvBytes(rs[0]) + Chain(rs[1..])
  }

  function LengthAt(body: seq<byte>, i: nat): (l: nat)
    requires i + 3 <= |body|
    ensures l < 0x1_0000
  {
    FromLE16(body[i + 1..i + 3])
  }

  // tlvs: the last body is cut off where the data ends.
  function Tlvs(body: seq<byte>, i: nat): seq<Tlv>
    decreases |body| - i
  {
    if i + 3 > |body| then []
    else
      var l := LengthAt(body, i);
      [Tlv(body[i], Slice(body, i + 3, i + 3 + l))] + Tlvs(body, i + 3 + l)
  }

  method ReadTlvs(body: seq<byte>) returns (rs: seq<Tlv>)
    ensures rs == Tlvs(body, 0)
  {
    hide Tlvs, Slice;
    rs := [];
    var i := 0;
    while i + 3 <= |body|
      invariant i >= 0 && rs + Tlvs(body, i) == Tlvs(body, 0)
      decreases |body| - i
    {
      var l := FromLE16(body[i + 1..i + 3]);
      var r := Tlv(body[i], Slice(body, i + 3, i + 3 + l));
      SomeTlv(body, i);
      ConcatAssoc(rs, [r], Tlvs(body, i + 3 + l));
      rs := rs + [r];
      i := i + 3 + l;
    }
    NoTlv(body, i);
  }

  lemma SomeTlv(body: seq<byte>, i: nat)
    requires i + 3 <= |body|
    ensures var l := LengthAt(body, i);
            Tlvs(body, i) == [Tlv(body[i], Slice(body, i + 3, i + 3 + l))] + Tlvs(body, i + 3 + l)
  {
    hide Slice;
  }

  lemma TlvPieces(r: Tlv, rest: seq<byte>)
    requires |r.body| < 0x1_0000
    ensures var t, n := TlvBytes(r) + rest, |r.body|;
            && |t| == 3 + n + |rest| && t[0] == r.t
            && t[1..3] == LE16(n) && t[3..3 + n] == r.body && t[3 + n..] == rest
  {
  }

  lemma TlvAt(body: seq<byte>, i: nat, r: Tlv, rest: seq<byte>)
    requires |r.body| < 0x1_0000 && i <= |body| && body[i..] == TlvBytes(r) + rest
    ensures i + 3 + |r.body| <= |body| && body[i] == r.t && LengthAt(body, i) == |r.body|
    ensures Slice(body, i + 3, i + 3 + |r.body|) == r.body && body[i + 3 + |r.body|..] == rest
  {
    hide TlvBytes, LE16, FromLE16;
    var t := TlvBytes(r) + rest;
    var n := |r.body|;
    TlvPieces(r, rest);
    LE16RoundTrip(n);
    assert i + |t| == |body| && body[i..i + |t|] == t;
    SliceOf(body, i, t, 0, 1);
    SliceOf(body, i, t, 1, 3);
    SliceOf(body, i, t, 3, 3 + n);
    SliceOf(body, i, t, 3 + n, |t|);
  }

  // Reading undoes writing, with up to two bytes of something else behind.
  lemma {:induction false} TlvsUndoChain(body: seq<byte>, i: nat, rs: seq<Tlv>, rest: seq<byte>)
    requires AllFit(rs) && |rest| < 3 && i <= |body| && body[i..] == Chain(rs) + rest
    ensures Tlvs(body, i) == rs
    decreases |rs|
  {
    hide TlvBytes, Tlvs;
    if rs != [] {
      ConcatAssoc(TlvBytes(rs[0]), Chain(rs[1..]), rest);
      TlvStep(body, i, rs[0], Chain(rs[1..]) + rest);
      TlvsUndoChain(body, i + 3 + |rs[0].body|, rs[1..], rest);
      assert rs == [rs[0]] + rs[1..];
    } else {
      NoTlv(body, i);
    }
  }

  lemma TlvStep(body: seq<byte>, i: nat, r: Tlv, rest: seq<byte>)
    requires |r.body| < 0x1_0000 && i <= |body| && body[i..] == TlvBytes(r) + rest
    ensures i + 3 + |r.body| <= |body| && body[i + 3 + |r.body|..] == rest
    ensures Tlvs(body, i) == [r] + Tlvs(body, i + 3 + |r.body|)
  {
    hide TlvBytes, LengthAt;
    TlvAt(body, i, r, rest);
  }

  lemma NoTlv(body: seq<byte>, i: nat)
    requires i + 3 > |body|
    ensures Tlvs(body, i) == []
  {
  }

  // Where reading stops.
  function End(body: seq<byte>, i: nat): nat
    decreases |body| - i
  {
    if i + 3 > |body| then i else End(body, i + 3 + LengthAt(body, i))
  }

  lemma OneTlv(body: seq<byte>, i: nat)
    requires i + 3 <= |body| && i + 3 + LengthAt(body, i) <= |body|
    ensures TlvBytes(Tlv(body[i], Slice(body, i + 3, i + 3 + LengthAt(body, i))))
         == body[i..i + 3 + LengthAt(body, i)]
  {
    var l := LengthAt(body, i);
    assert LE16(l) == body[i + 1..i + 3];
    assert body[i..i + 3 + l] == [body[i]] + body[i + 1..i + 3] + body[i + 3..i + 3 + l];
  }

  // Writing undoes reading, where no body was cut off.
  lemma {:induction false} ChainUndoesTlvs(body: seq<byte>, i: nat)
    requires i <= |body| && End(body, i) <= |body|
    ensures AllFit(Tlvs(body, i)) && i <= End(body, i) && |body| - End(body, i) < 3
    ensures Chain(Tlvs(body, i)) == body[i..End(body, i)]
    decreases |body| - i
  {
    hide TlvBytes, LengthAt;
    if i + 3 <= |body| {
      var l := LengthAt(body, i);
      EndIsPast(body, i + 3 + l);
      ChainUndoesTlvs(body, i + 3 + l);
      OneTlv(body, i);
      var r := Tlv(body[i], Slice(body, i + 3, i + 3 + l));
      AllFitCons(r, Tlvs(body, i + 3 + l));
      assert ([r] + Tlvs(body, i + 3 + l))[1..] == Tlvs(body, i + 3 + l);
      assert body[i..i + 3 + l] + body[i + 3 + l..End(body, i)] == body[i..End(body, i)];
    }
  }

  lemma AllFitCons(r: Tlv, rs: seq<Tlv>)
    requires |r.body| < 0x1_0000 && AllFit(rs)
    ensures AllFit([r] + rs)
  {
  }

  lemma {:induction false} EndIsPast(body: seq<byte>, i: nat)
    ensures End(body, i) >= i
    decreases |body| - i
  {
    if i + 3 <= |body| {
      EndIsPast(body, i + 3 + LengthAt(body, i));
    }
  }
}

module AwdlRecords {
  import opened Bytes
  import opened Wrappers
  import opened AwdlNames
  import opened AwdlTlvs

  // ---- the parser ----

  datatype Value =
    | Ptr(ptr: Text)
    | Srv(port: nat, target: Text)
    | Txt(txt: seq<Text>)
    | Other(rtype: byte, data: seq<byte>)

  // Failed: an index or struct error.
  datatype Response = Response(name: Text, value: Value) | Failed

  function Strings(rd: seq<byte>, j: nat): seq<Text>
    decreases |rd| - j
  {
    if j >= |rd| then [] else [Slice(rd, j + 1, j + 1 + rd[j])] + Strings(rd, j + 1 + rd[j])
  }

  function ValueOf(rtype: byte, rd: seq<byte>): Option<Value> {
    if rtype == 12 then
      match NameAt(rd, 0)
      case Named(text, _) => Some(Ptr(text))
      case IndexError => None
    else if rtype == 33 then
      if |rd| < 6 then None
      else
        match NameAt(rd, 6)
        case Named(text, _) => Some(Srv(FromBE16(rd[4..6]), text))
        case IndexError => None
    else if rtype == 16 then Some(Txt(Strings(rd, 0)))
    else Some(Other(rtype, rd))
  }

  function ServiceResponse(v: seq<byte>): Response {
    if |v| < 2 then Failed
    else
      match NameAt(v, 2)
      case IndexError => Failed
      case Named(n, _) =>
        var off := 1 + FromLE16(v[..2]);
        if off + 3 > |v| then Failed
        else
          var dlen := FromLE16(v[off + 1..off + 3]);
          match ValueOf(v[off], Slice(v, off + 5, off + 5 + dlen))
          case Some(value) => Response(n, value)
          case None => Failed
  }

  // One dictionary of values a name.
  datatype Entry = Entry(ptr: Option<Text>, srv: Option<(nat, Text)>, txt: Option<seq<Text>>,
                         other: map<byte, seq<byte>>)

  const NOTHING: Entry := Entry(None, None, None, map[])

  function With(e: Entry, value: Value): Entry {
    match value
    case Ptr(ptr) => e.(ptr := Some(ptr))
    case Srv(port, target) => e.(srv := Some((port, target)))
    case Txt(txt) => e.(txt := Some(txt))
    case Other(rtype, data) => e.(other := e.other[rtype := data])
  }

  datatype Record = Record(kind: byte, host: Option<Text>, services: map<Text, Entry>)

  function EntryOf(services: map<Text, Entry>, n: Text): Entry {
    if n in services then services[n] else NOTHING
  }

  // One TLV; None is the index error a cut-off name in a type 16 TLV raises.
  function Absorb(rec: Record, r: Tlv): Option<Record> {
    if r.t == 16 && |r.body| > 1 then
      match NameAt(r.body, 1)
      case Named(text, _) => Some(rec.(host := Some(text)))
      case IndexError => None
    else if r.t == 2 && |r.body| > 5 then
      match ServiceResponse(r.body)
      case Response(n, value) => Some(rec.(services := rec.services[n := With(EntryOf(rec.services, n), value)]))
      case Failed => Some(rec)
    else Some(rec)
  }

  function AbsorbAll(rec: Record, rs: seq<Tlv>): Option<Record>
    decreases |rs|
  {
    if rs == [] then Some(rec)
    else
      match Absorb(rec, rs[0])
      case Some(rec') => AbsorbAll(rec', rs[1..])
      case None => None
  }

  datatype Parsed = Parsed(rec: Record) | NotAwdl | Uncaught

  const CATEGORY: seq<byte> := [0x7f, 0x00, 0x17, 0xf2]

  function ParsedBody(body: seq<byte>): Parsed {
    if |body| < 16 || body[..4] != CATEGORY || body[4] != 0x08 then NotAwdl
    else
      match AbsorbAll(Record(body[6], None, map[]), Tlvs(body[16..], 0))
      case Some(rec) => Parsed(rec)
      case None => Uncaught
  }

  // A host record whose name ends in half a dictionary code.
  predicate Raises(r: Tlv) {
    r.t == 16 && |r.body| > 1 && CutOff(r.body, 1)
  }

  predicate AnyRaises(rs: seq<Tlv>) {
    exists i :: 0 <= i < |rs| && Raises(rs[i])
  }

  lemma {:induction false} AbsorbAllRaises(rec: Record, rs: seq<Tlv>)
    ensures AbsorbAll(rec, rs).None? <==> AnyRaises(rs)
    decreases |rs|
  {
    hide NameAt, CutOff, ServiceResponse;
    if rs != [] {
      IndexErrorExactly(rs[0].body, 1);
      assert Absorb(rec, rs[0]).None? <==> Raises(rs[0]);
      if Absorb(rec, rs[0]).Some? {
        AbsorbAllRaises(Absorb(rec, rs[0]).value, rs[1..]);
      }
      assert rs == [rs[0]] + rs[1..];
      assert forall i :: 0 <= i < |rs[1..]| ==> rs[1..][i] == rs[i + 1];
    }
  }

  // The error escapes if and only if the frame is an AWDL frame with such a record; a service
  // response never raises it.
  lemma UncaughtExactly(body: seq<byte>)
    ensures ParsedBody(body).Uncaught? <==>
              && |body| >= 16 && body[..4] == CATEGORY && body[4] == 0x08
              && AnyRaises(Tlvs(body[16..], 0))
  {
    hide Tlvs, AbsorbAll, AnyRaises;
    if |body| >= 16 && body[..4] == CATEGORY && body[4] == 0x08 {
      AbsorbAllRaises(Record(body[6], None, map[]), Tlvs(body[16..], 0));
    }
  }

  // A frame that raises it.
  lemma HalfCodeFrame()
    ensures ParsedBody(CATEGORY + [0x08] + Zeros(11) + [16, 2, 0, 0x03, 0xc0]).Uncaught?
  {
    var body := CATEGORY + [0x08] + Zeros(11) + [16, 2, 0, 0x03, 0xc0];
    var tlv: seq<byte> := [16, 2, 0, 0x03, 0xc0];
    assert body[16..] == tlv;
    assert tlv[1..3] == [2, 0];
    var r := Tlv(16, [0x03, 0xc0]);
    assert Slice(tlv, 3, 5) == [0x03, 0xc0];
    assert Tlvs(tlv, 0)[0] == r;
    assert Raises(r);
    UncaughtExactly(body);
  }

  method ReadStrings(rd: seq<byte>) returns (txt: seq<Text>)
    ensures txt == Strings(rd, 0)
  {
    txt := [];
    var j := 0;
    while j < |rd|
      invariant j >= 0 && txt + Strings(rd, j) == Strings(rd, 0)
      decreases |rd| - j
    {
      var l := rd[j];
      var s := Slice(rd, j + 1, j + 1 + l);
      ConcatAssoc(txt, [s], Strings(rd, j + 1 + l));
      txt := txt + [s];
      j := j + 1 + l;
    }
  }

  method ReadResponse(v: seq<byte>) returns (r: Response)
    ensures r == ServiceResponse(v)
  {
    hide NameAt, Strings;
    if |v| < 2 {
      return Failed;
    }
    var nlen := FromLE16(v[..2]);
    var n := Name(v, 2);
    if n.IndexError? {
      return Failed;
    }
    var off := 2 + nlen - 1;
    if off + 3 > |v| {
      return Failed;
    }
    var rtype := v[off];
    var dlen := FromLE16(v[off + 1..off + 3]);
    var rd := Slice(v, off + 5, off + 5 + dlen);
    if rtype == 12 {
      var ptr := Name(rd, 0);
      if ptr.IndexError? {
        return Failed;
      }
      return Response(n.text, Ptr(ptr.text));
    } else if rtype == 33 {
      if |rd| < 6 {
        return Failed;
      }
      var target := Name(rd, 6);
      if target.IndexError? {
        return Failed;
      }
      return Response(n.text, Srv(FromBE16(rd[4..6]), target.text));
    } else if rtype == 16 {
      var txt := ReadStrings(rd);
      return Response(n.text, Txt(txt));
    } else {
      return Response(n.text, Other(rtype, rd));
    }
  }

  method ParseBody(body: seq<byte>) returns (r: Parsed)
    ensures r == ParsedBody(body)
  {
    if Slice(body, 0, 4) != CATEGORY {
      return NotAwdl;
    }
    var hdr := Slice(body, 4, 4 + 12);
    if |hdr| < 12 || hdr[0] != 0x08 {
      return NotAwdl;
    }
    var rec := Record(hdr[2], None, map[]);
    var rs := ReadTlvs(body[16..]);
    for i := 0 to |rs|
      invariant AbsorbAll(Record(body[6], None, map[]), rs) == AbsorbAll(rec, rs[i..])
    {
      var t, v := rs[i].t, rs[i].body;
      assert rs[i..][1..] == rs[i + 1..];
      if t == 16 && |v| > 1 {
        var host := Name(v, 1);
        if host.IndexError? {
          return Uncaught;
        }
        rec := rec.(host := Some(host.text));
      } else if t == 2 && |v| > 5 {
        var response := ReadResponse(v);
        if response.Response? {
          var entry := EntryOf(rec.services, response.name);
          rec := rec.(services := rec.services[response.name := With(entry, response.value)]);
        }
      }
    }
    return Parsed(rec);
  }

  // ---- the receiver's view ----

  datatype Endpoint = Endpoint(id: Text, port: Option<nat>, target: Option<Text>,
                               txt: Option<seq<Text>>, host: Option<Text>)

  function EndpointOf(rec: Record): Option<Endpoint> {
    var ptr := EntryOf(rec.services, AIRDROP).ptr;
    if ptr.None? || ptr.value == [] then None
    else
      var named := EntryOf(rec.services, ptr.value);
      var inst := if named != NOTHING then named else EntryOf(rec.services, ptr.value + [DOT] + AIRDROP);
      Some(Endpoint(Before(ptr.value),
                    if inst.srv.Some? then Some(inst.srv.value.0) else None,
                    if inst.srv.Some? then Some(inst.srv.value.1) else None,
                    inst.txt, rec.host))
  }
}
