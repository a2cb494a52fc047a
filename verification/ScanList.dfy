// The list of scan results (cfg80211.c): variable-length records packed into one buffer,
// de-duplicated in place as partial results arrive.

module ScanSpec {
  import opened Wrappers
  import opened Bytes

  const BUF_SIZE: nat := 65000
  const FIXED_SIZE: nat := 12          // the list header, and the header of a result
  const BSS_INFO_SIZE: nat := 172

  // Offsets in struct brcmf_bss_info_le.
  const LENGTH: nat := 4
  const BSSID: nat := 8
  const CAPABILITY: nat := 16
  const SSID_LEN: nat := 18
  const SSID: nat := 19
  const CHANSPEC: nat := 72
  const RSSI: nat := 78
  const MIN_VERSION: nat := 109
  const MAX_VERSION: nat := 112
  const FLAGS: nat := 96

  type Record = seq<byte>

  function LengthAt(buf: seq<byte>, off: nat): (n: int)
    requires off + LENGTH + 4 <= |buf|
    ensures n >= 0
  {
    FromLE32(buf[off + LENGTH..off + LENGTH + 4])
  }

  // A whole record: its length field says how long it is, and its SSID is in bounds.
  predicate Proper(r: Record) {
    |r| >= BSS_INFO_SIZE && LengthAt(r, 0) == |r| && SSID + SsidLen(r) <= |r|
  }

  datatype Key = Key(bssid: seq<byte>, band: int, ssid: seq<byte>)

  function SsidLen(r: Record): nat
    requires |r| >= BSS_INFO_SIZE
  {
    r[SSID_LEN]
  }

  function KeyOf(r: Record, band: int -> int): Key
    requires Proper(r)
  {
    Key(r[BSSID..BSSID + 6], band(FromLE16(r[CHANSPEC..CHANSPEC + 2])), r[SSID..SSID + SsidLen(r)])
  }

  function RssiOf(r: Record): int
    requires |r| >= BSS_INFO_SIZE
  {
    var v := FromLE16(r[RSSI..RSSI + 2]);
    if v >= 0x8000 then v - 0x1_0000 else v
  }

  predicate OnChannel(r: Record)
    requires |r| >= BSS_INFO_SIZE
  {
    r[FLAGS] as int / 4 % 2 == 1
  }

  // A stored record after the same BSS has been reported again.
  function Updated(bss: Record, info: Record): (r: Record)
    requires Proper(bss) && Proper(info)
    ensures |r| == |bss|
  {
    if (OnChannel(bss) == OnChannel(info) && RssiOf(info) > RssiOf(bss)) || (OnChannel(bss) && !OnChannel(info))
    then bss[RSSI := info[RSSI]][RSSI + 1 := info[RSSI + 1]]
    else bss
  }

  // The list after the BSS of its record `i` has been reported again.
  function Merged(recs: seq<Record>, i: nat, info: Record): (r: seq<Record>)
    requires i < |recs| && Proper(recs[i]) && Proper(info)
  {
    recs[i := Updated(recs[i], info)]
  }

  predicate AllProper(recs: seq<Record>) {
    forall i :: 0 <= i < |recs| ==> Proper(recs[i])
  }

  function FirstSame(recs: seq<Record>, info: Record, band: int -> int): (i: nat)
    requires AllProper(recs) && Proper(info)
    ensures i <= |recs| && (i < |recs| ==> KeyOf(recs[i], band) == KeyOf(info, band))
    ensures forall k :: 0 <= k < i ==> KeyOf(recs[k], band) != KeyOf(info, band)
  {
    if recs == [] || KeyOf(recs[0], band) == KeyOf(info, band) then 0
    else 1 + FirstSame(recs[1..], info, band)
  }

  // No room for the record: it is ignored, whether or not its BSS is stored.
  predicate Refused(recs: seq<Record>, info: Record) {
    |info| > BUF_SIZE - (FIXED_SIZE + |Cat(recs)|)
  }

  function Reported(recs: seq<Record>, info: Record, band: int -> int): seq<Record>
    requires AllProper(recs) && Proper(info)
  {
    var i := FirstSame(recs, info, band);
    if Refused(recs, info) then recs
    else if i < |recs| then Merged(recs, i, info)
    else recs + [info]
  }

  // ---- one report ----

  // An SSID may be so long that it reaches over the RSSI; of the same BSS, both have the same
  // bytes there.
  lemma UpdatedKeeps(bss: Record, info: Record, band: int -> int)
    requires Proper(bss) && Proper(info) && KeyOf(bss, band) == KeyOf(info, band)
    ensures Proper(Updated(bss, info)) && KeyOf(Updated(bss, info), band) == KeyOf(bss, band)
    ensures OnChannel(Updated(bss, info)) == OnChannel(bss)
  {
    var r := Updated(bss, info);
    assert r[LENGTH..LENGTH + 4] == bss[LENGTH..LENGTH + 4];
    assert r[BSSID..BSSID + 6] == bss[BSSID..BSSID + 6];
    assert r[CHANSPEC..CHANSPEC + 2] == bss[CHANSPEC..CHANSPEC + 2];
    SameSsid(bss, info);
  }

  lemma SameSsid(bss: Record, info: Record)
    requires Proper(bss) && Proper(info)
    requires bss[SSID..SSID + SsidLen(bss)] == info[SSID..SSID + SsidLen(info)]
    ensures var r := Updated(bss, info);
            SsidLen(r) == SsidLen(bss) && r[SSID..SSID + SsidLen(bss)] == bss[SSID..SSID + SsidLen(bss)]
  {
    hide LengthAt, OnChannel, RssiOf;
    var r, n := Updated(bss, info), SsidLen(bss);
    var ssid, ssid' := bss[SSID..SSID + n], r[SSID..SSID + n];
    forall k | 0 <= k < n
      ensures ssid'[k] == ssid[k]
    {
      SliceOf(bss, SSID, ssid, k, k + 1);
      SliceOf(info, SSID, ssid, k, k + 1);
    }
  }

  // Measurements of one kind: the stronger is kept.
  lemma UpdatedMax(bss: Record, info: Record)
    requires Proper(bss) && Proper(info) && OnChannel(bss) == OnChannel(info)
    ensures RssiOf(Updated(bss, info)) == if RssiOf(info) > RssiOf(bss) then RssiOf(info) else RssiOf(bss)
  {
    if RssiOf(info) > RssiOf(bss) {
      assert Updated(bss, info)[RSSI..RSSI + 2] == info[RSSI..RSSI + 2];
    }
  }

  // Measurements of different kinds: a stored on-channel value is overwritten by an
  // off-channel one, stronger or not, and stays marked on-channel; a stored off-channel
  // value is not replaced by an on-channel one.
  lemma UpdatedMixed(bss: Record, info: Record)
    requires Proper(bss) && Proper(info) && OnChannel(bss) != OnChannel(info)
    ensures RssiOf(Updated(bss, info)) == if OnChannel(bss) then RssiOf(info) else RssiOf(bss)
  {
    if OnChannel(bss) {
      assert Updated(bss, info)[RSSI..RSSI + 2] == info[RSSI..RSSI + 2];
    }
  }

  ghost predicate NoTwins(recs: seq<Record>, band: int -> int)
    requires AllProper(recs)
  {
    forall i, j :: 0 <= i < j < |recs| ==> KeyOf(recs[i], band) != KeyOf(recs[j], band)
  }

  lemma CatUpdate(recs: seq<Record>, i: nat, r: Record)
    requires i < |recs| && |r| == |recs[i]|
    ensures |Cat(recs[i := r])| == |Cat(recs)|
    ensures |Cat(recs[..i])| + |r| <= |Cat(recs)|
    ensures var at := |Cat(recs[..i])|;
            Cat(recs[i := r]) == Cat(recs)[..at] + r + Cat(recs)[at + |r|..]
  {
    hide Cat;
    CatAround(recs, i, r);
    CatAround(recs, i, recs[i]);
    assert recs[i := recs[i]] == recs;
  }

  lemma ReplaceKeeps(recs: seq<Record>, i: nat, info: Record, band: int -> int)
    requires AllProper(recs) && Proper(info) && NoTwins(recs, band)
    requires i < |recs| && KeyOf(recs[i], band) == KeyOf(info, band)
    ensures var recs' := Merged(recs, i, info);
            AllProper(recs') && NoTwins(recs', band) && |Cat(recs')| == |Cat(recs)|
  {
    hide KeyOf, Proper, Updated, OnChannel, Cat;
    UpdatedKeeps(recs[i], info, band);
    CatUpdate(recs, i, Updated(recs[i], info));
  }

  lemma AppendKeeps(recs: seq<Record>, info: Record, band: int -> int)
    requires AllProper(recs) && Proper(info) && NoTwins(recs, band) && FirstSame(recs, info, band) == |recs|
    ensures AllProper(recs + [info]) && NoTwins(recs + [info], band)
    ensures Cat(recs + [info]) == Cat(recs) + info
  {
    hide KeyOf, Proper;
    CatLast(recs, info);
  }

  lemma ReportedKeeps(recs: seq<Record>, info: Record, band: int -> int)
    requires AllProper(recs) && Proper(info) && NoTwins(recs, band) && FIXED_SIZE + |Cat(recs)| <= BUF_SIZE
    ensures var recs' := Reported(recs, info, band);
            AllProper(recs') && NoTwins(recs', band) && FIXED_SIZE + |Cat(recs')| <= BUF_SIZE
  {
    hide AllProper, NoTwins, Proper, Updated, Cat, KeyOf;
    var i := FirstSame(recs, info, band);
    if !Refused(recs, info) {
      if i < |recs| {
        ReplaceKeeps(recs, i, info, band);
      } else {
        AppendKeeps(recs, info, band);
      }
    }
  }

  // ---- walking by length fields ----

  function WalkEnd(buf: seq<byte>, off: nat, count: nat): Option<nat>
    decreases count
  {
    if count == 0 then Some(off)
    else if off + LENGTH + 4 > |buf| then None
    else WalkEnd(buf, off + LengthAt(buf, off), count - 1)
  }

  // A buffer with the packed records behind the list header.
  predicate Holds(buf: seq<byte>, p: seq<byte>) {
    FIXED_SIZE + |p| <= |buf| && buf[FIXED_SIZE..FIXED_SIZE + |p|] == p
  }

  lemma RecordAt(buf: seq<byte>, p: seq<byte>, at: nat, r: Record)
    requires Holds(buf, p) && Proper(r) && at + |r| <= |p| && p[at..at + |r|] == r
    ensures var off := FIXED_SIZE + at;
            off + |r| <= |buf| && buf[off..off + |r|] == r && LengthAt(buf, off) == |r|
  {
    hide FromLE32;
    var off := FIXED_SIZE + at;
    SliceOf(buf, FIXED_SIZE, p, at, at + |r|);
    SliceOf(buf, off, r, LENGTH, LENGTH + 4);
    assert buf[off + LENGTH..off + LENGTH + 4] == r[0 + LENGTH..0 + LENGTH + 4];
  }

  lemma LengthInPlace(buf: seq<byte>, recs: seq<Record>, i: nat)
    requires AllProper(recs) && i < |recs| && Holds(buf, Cat(recs))
    ensures var off := FIXED_SIZE + |Cat(recs[..i])|;
            && off + |recs[i]| <= |buf| && buf[off..off + |recs[i]|] == recs[i]
            && LengthAt(buf, off) == |recs[i]|
  {
    hide Cat, Proper, LengthAt, Holds;
    PieceAt(recs, i);
    RecordAt(buf, Cat(recs), |Cat(recs[..i])|, recs[i]);
  }

  lemma WalkOne(buf: seq<byte>, off: nat, count: nat)
    requires off + LENGTH + 4 <= |buf| && count > 0
    ensures WalkEnd(buf, off, count) == WalkEnd(buf, off + LengthAt(buf, off), count - 1)
  {
    hide LengthAt;
  }

  lemma {:induction false} WalkFrom(buf: seq<byte>, recs: seq<Record>, i: nat)
    requires AllProper(recs) && i <= |recs| && Holds(buf, Cat(recs))
    ensures WalkEnd(buf, FIXED_SIZE + |Cat(recs[..i])|, |recs| - i) == Some(FIXED_SIZE + |Cat(recs)|)
    decreases |recs| - i
  {
    hide Cat, LengthAt, Holds;
    if i < |recs| {
      assert Proper(recs[i]);
      LengthInPlace(buf, recs, i);
      hide Proper, AllProper, WalkEnd;
      WalkOne(buf, FIXED_SIZE + |Cat(recs[..i])|, |recs| - i);
      PieceAt(recs, i);
      WalkFrom(buf, recs, i + 1);
    } else {
      assert recs[..i] == recs;
    }
  }

  // ---- runs of reports since the last reset ----

  function After(reports: seq<Record>, band: int -> int): (recs: seq<Record>)
    requires AllProper(reports)
    ensures AllProper(recs) && NoTwins(recs, band) && FIXED_SIZE + |Cat(recs)| <= BUF_SIZE
  {
    if reports == [] then []
    else
      var recs := After(reports[..|reports| - 1], band);
      ReportedKeeps(recs, reports[|reports| - 1], band);
      Reported(recs, reports[|reports| - 1], band)
  }

  // The strongest report of a BSS among those that were not refused.
  function Best(reports: seq<Record>, k: Key, band: int -> int): (best: Option<int>)
    requires AllProper(reports)
  {
    if reports == [] then None
    else
      var init, last := reports[..|reports| - 1], reports[|reports| - 1];
      var best := Best(init, k, band);
      if KeyOf(last, band) != k || Refused(After(init, band), last) then best
      else if best.None? || RssiOf(last) > best.value then Some(RssiOf(last))
      else best
  }

  ghost predicate Stored(recs: seq<Record>, k: Key, rssi: int, onChannel: bool, band: int -> int)
    requires AllProper(recs)
  {
    exists i :: 0 <= i < |recs| && KeyOf(recs[i], band) == k && RssiOf(recs[i]) == rssi
                && OnChannel(recs[i]) == onChannel
  }

  ghost predicate Absent(recs: seq<Record>, k: Key, band: int -> int)
    requires AllProper(recs)
  {
    forall i :: 0 <= i < |recs| ==> KeyOf(recs[i], band) != k
  }

  // A BSS always reported with the same on-channel flag is stored exactly when one of its
  // reports had room, and with the strongest of those that had.
  lemma {:induction false} KeepsBest(reports: seq<Record>, k: Key, onChannel: bool, band: int -> int)
    requires AllProper(reports)
    requires forall i :: 0 <= i < |reports| && KeyOf(reports[i], band) == k ==> OnChannel(reports[i]) == onChannel
    ensures match Best(reports, k, band)
            case None => Absent(After(reports, band), k, band)
            case Some(rssi) => Stored(After(reports, band), k, rssi, onChannel, band)
  {
    if reports != [] {
      hide KeyOf, RssiOf, Stored, Absent, Reported, Refused, Cat, NoTwins;
      var init, last := reports[..|reports| - 1], reports[|reports| - 1];
      KeepsBest(init, k, onChannel, band);
      ReportedKeeps(After(init, band), last, band);
      BestStep(After(init, band), last, k, Best(init, k, band), onChannel, band);
    }
  }

  lemma BestStep(recs: seq<Record>, info: Record, k: Key, best: Option<int>, onChannel: bool, band: int -> int)
    requires AllProper(recs) && Proper(info) && NoTwins(recs, band) && AllProper(Reported(recs, info, band))
    requires KeyOf(info, band) == k ==> OnChannel(info) == onChannel
    requires match best
             case None => Absent(recs, k, band)
             case Some(rssi) => Stored(recs, k, rssi, onChannel, band)
    ensures var recs' := Reported(recs, info, band);
            var best' := if KeyOf(info, band) != k || Refused(recs, info) then best
                         else if best.None? || RssiOf(info) > best.value then Some(RssiOf(info)) else best;
            match best'
            case None => Absent(recs', k, band)
            case Some(rssi) => Stored(recs', k, rssi, onChannel, band)
  {
    hide KeyOf, RssiOf, OnChannel, LengthAt, Updated, Refused;
    var recs' := Reported(recs, info, band);
    var i := FirstSame(recs, info, band);
    if !Refused(recs, info) {
      if i < |recs| {
        UpdatedKeeps(recs[i], info, band);
        if KeyOf(info, band) == k {
          UpdatedMax(recs[i], info);
          assert KeyOf(recs'[i], band) == k;
        } else if best.Some? {
          var j :| 0 <= j < |recs| && KeyOf(recs[j], band) == k && RssiOf(recs[j]) == best.value
                   && OnChannel(recs[j]) == onChannel;
          assert recs'[j] == recs[j];
        }
      } else {
        assert recs'[|recs|] == info;
        if best.Some? && KeyOf(info, band) != k {
          var j :| 0 <= j < |recs| && KeyOf(recs[j], band) == k && RssiOf(recs[j]) == best.value
                   && OnChannel(recs[j]) == onChannel;
          assert recs'[j] == recs[j];
        }
      }
    }
  }
}

module ScanList {
  import opened Wrappers
  import opened Bytes
  import opened ScanSpec

  // A partial scan result as it arrives: the event's data length, the fields of the result
  // header, and the bytes behind it.
  datatype Event = Event(datalen: nat, buflen: nat, bssCount: nat, info: seq<byte>)

  datatype Verdict = Taken | Ignored

  datatype InformError = Unsupported | Refused

  // The records handed on: up to and including the first one that is refused.
  function Handed(recs: seq<Record>, refused: Record -> bool): (r: seq<Record>)
    ensures r <= recs
  {
    if recs == [] then []
    else if refused(recs[0]) then [recs[0]]
    else [recs[0]] + Handed(recs[1..], refused)
  }

  predicate AnyRefused(recs: seq<Record>, refused: Record -> bool) {
    exists r <- recs :: refused(r)
  }

  // What the handler checks before it looks at the list.
  predicate Acceptable(ev: Event, wanted: bool, adhoc: bool) {
    && ev.datalen >= FIXED_SIZE + BSS_INFO_SIZE
    && FIXED_SIZE + BSS_INFO_SIZE <= ev.buflen <= BUF_SIZE && ev.buflen <= ev.datalen
    && ev.bssCount == 1 && wanted
    && |ev.info| >= BSS_INFO_SIZE && LengthAt(ev.info, 0) == ev.buflen - FIXED_SIZE
    && (adhoc || ev.info[CAPABILITY] as int / 2 % 2 == 0)
  }

  // A piece of a buffer is overwritten and nothing else.
  predicate Overwritten(before: seq<byte>, after: seq<byte>, off: nat, r: seq<byte>) {
    && |before| == |after| && off + |r| <= |before|
    && after[..off] == before[..off] && after[off..off + |r|] == r && after[off + |r|..] == before[off + |r|..]
  }

  lemma Splice(before: seq<byte>, after: seq<byte>, p: seq<byte>, at: nat, r: seq<byte>)
    requires Holds(before, p) && at + |r| <= |p| && Overwritten(before, after, FIXED_SIZE + at, r)
    ensures Holds(after, p[..at] + r + p[at + |r|..])
  {
    var off, end := FIXED_SIZE + at, FIXED_SIZE + |p|;
    assert p[..at] == before[..off][FIXED_SIZE..] == after[FIXED_SIZE..off];
    assert p[at + |r|..] == before[off + |r|..][..end - off - |r|] == after[off + |r|..end];
    assert after[FIXED_SIZE..end] == after[FIXED_SIZE..off] + after[off..off + |r|] + after[off + |r|..end];
  }

  lemma Extend(before: seq<byte>, after: seq<byte>, p: seq<byte>, r: seq<byte>)
    requires Holds(before, p) && FIXED_SIZE + |p| + |r| <= |before|
    requires var end := FIXED_SIZE + |p|; after == before[..end] + r + before[end + |r|..]
    ensures Holds(after, p + r)
  {
    assert after[FIXED_SIZE..FIXED_SIZE + |p| + |r|] == before[FIXED_SIZE..FIXED_SIZE + |p|] + r;
  }

  lemma StillHolds(before: seq<byte>, after: seq<byte>, recs: seq<Record>, i: nat, r: Record)
    requires i < |recs| && |r| == |recs[i]| && Holds(before, Cat(recs))
    requires Overwritten(before, after, FIXED_SIZE + |Cat(recs[..i])|, r)
    ensures |Cat(recs[i := r])| == |Cat(recs)| && Holds(after, Cat(recs[i := r]))
  {
    hide Cat, Holds, Overwritten;
    CatUpdate(recs, i, r);
    Splice(before, after, Cat(recs), |Cat(recs[..i])|, r);
  }

  // The buffer holds these records, whole and no two of one BSS.
  ghost predicate Listed(buf: seq<byte>, recs: seq<Record>, band: int -> int) {
    Holds(buf, Cat(recs)) && AllProper(recs) && NoTwins(recs, band)
  }

  lemma RecordIsProper(buf: seq<byte>, recs: seq<Record>, band: int -> int, i: nat)
    requires Listed(buf, recs, band) && i < |recs|
    ensures Proper(recs[i])
  {
    hide Holds, NoTwins, Proper;
  }

  lemma ListedLength(buf: seq<byte>, recs: seq<Record>, band: int -> int, i: nat)
    requires Listed(buf, recs, band) && i < |recs|
    ensures var off := FIXED_SIZE + |Cat(recs[..i])|;
            && off + |recs[i]| <= |buf| && buf[off..off + |recs[i]|] == recs[i]
            && off + LENGTH + 4 <= |buf| && LengthAt(buf, off) == |recs[i]|
  {
    hide Holds, NoTwins, Cat;
    LengthInPlace(buf, recs, i);
  }

  // A record overwritten by its update leaves the list packed and without twins.
  lemma UpdatedInPlace(before: seq<byte>, after: seq<byte>, recs: seq<Record>, i: nat, info: Record,
                       band: int -> int)
    requires Listed(before, recs, band) && i < |recs|
    requires Proper(recs[i]) && Proper(info) && KeyOf(recs[i], band) == KeyOf(info, band)
    requires Overwritten(before, after, FIXED_SIZE + |Cat(recs[..i])|, Updated(recs[i], info))
    ensures var recs' := Merged(recs, i, info);
            Listed(after, recs', band) && |recs'| == |recs| && |Cat(recs')| == |Cat(recs)|
  {
    hide AllProper, NoTwins, Proper, Updated, KeyOf, Holds, Overwritten;
    ReplaceKeeps(recs, i, info, band);
    StillHolds(before, after, recs, i, Updated(recs[i], info));
  }

  // A record of a BSS that is not listed, copied behind the list.
  lemma StoredInPlace(before: seq<byte>, after: seq<byte>, recs: seq<Record>, info: Record, band: int -> int)
    requires Listed(before, recs, band) && Proper(info) && FirstSame(recs, info, band) == |recs|
    requires FIXED_SIZE + |Cat(recs)| + |info| <= |before|
    requires var end := FIXED_SIZE + |Cat(recs)|; after == before[..end] + info + before[end + |info|..]
    ensures Listed(after, recs + [info], band) && |Cat(recs + [info])| == |Cat(recs)| + |info|
  {
    hide AllProper, NoTwins, Proper, Cat, FirstSame, KeyOf, Holds;
    AppendKeeps(recs, info, band);
    Extend(before, after, Cat(recs), info);
  }

  lemma ProperLength(r: Record)
    requires Proper(r)
    ensures |r| >= BSS_INFO_SIZE
  {
  }

  class Results {
    const buf: array<byte>
    const band: int -> int
    var buflen: nat
    var count: nat
    var version: int
    ghost var recs: seq<Record>

    ghost predicate Valid()
      reads this, buf
    {
      && buf.Length == BUF_SIZE && buflen == FIXED_SIZE + |Cat(recs)| <= BUF_SIZE && count == |recs|
      && Listed(buf[..], recs, band)
    }

    constructor (band: int -> int)
      ensures Valid() && recs == [] && fresh(buf) && this.band == band
    {
      buf := new byte[BUF_SIZE];
      this.band, buflen, count, version, recs := band, FIXED_SIZE, 0, 0, [];
    }

    // do_escan starts a new list.
    method Reset()
      requires Valid()
      modifies this`buflen, this`count, this`version, this`recs
      ensures Valid() && recs == [] && version == 0
    {
      buflen, count, version, recs := FIXED_SIZE, 0, 0, [];
    }

    // What readers of the list rely on.
    lemma WalksToEnd()
      requires Valid()
      ensures WalkEnd(buf[..], FIXED_SIZE, count) == Some(buflen) && buflen <= BUF_SIZE
    {
      assert recs[..0] == [];
      WalkFrom(buf[..], recs, 0);
    }

    // The record at `off`.
    method At(off: nat, ghost i: nat) returns (bss: Record)
      requires Valid() && i < |recs| && off == FIXED_SIZE + |Cat(recs[..i])|
      ensures bss == recs[i] && off + |bss| <= buflen && buf[off..off + |bss|] == bss
      ensures off + |bss| == FIXED_SIZE + |Cat(recs[..i + 1])|
    {
      hide Listed, Proper, Cat, LengthAt;
      RecordIsProper(buf[..], recs, band, i);
      ProperLength(recs[i]);
      ListedLength(buf[..], recs, band, i);
      PieceAt(recs, i);
      bss := buf[off..off + LengthAt(buf[..], off)];
    }

    // compare_update_same_bss on the record at `off`.
    method CompareUpdateSameBss(off: nat, info: Record, ghost i: nat) returns (same: bool)
      requires Valid() && Proper(info) && i < |recs| && off == FIXED_SIZE + |Cat(recs[..i])|
      modifies buf, this`recs
      ensures Valid() && buflen == old(buflen) && count == old(count)
      ensures same == (KeyOf(old(recs)[i], band) == KeyOf(info, band))
      ensures recs == if same then Merged(old(recs), i, info) else old(recs)
    {
      var bss := At(off, i);
      if KeyOf(info, band) != KeyOf(bss, band) {
        return false;
      }
      Update(off, bss, info, i);
      return true;
    }

    method Update(off: nat, bss: Record, info: Record, ghost i: nat)
      requires Valid() && Proper(info) && i < |recs| && bss == recs[i] && KeyOf(bss, band) == KeyOf(info, band)
      requires off == FIXED_SIZE + |Cat(recs[..i])| && off + |bss| <= buflen && buf[off..off + |bss|] == bss
      modifies buf, this`recs
      ensures Valid() && buflen == old(buflen) && recs == Merged(old(recs), i, info)
    {
      hide Listed, Proper, Updated, Merged, Cat, KeyOf, Overwritten;
      RecordIsProper(buf[..], recs, band, i);
      ghost var before, merged := buf[..], Merged(recs, i, info);
      Overwrite(off, |bss|, bss, info);
      UpdatedInPlace(before, buf[..], recs, i, info, band);
      recs := merged;
    }

    // The RSSI rules, applied to the record in the buffer.
    method Overwrite(off: nat, n: nat, ghost bss: Record, info: Record)
      requires off + n <= buf.Length && n == |bss| && buf[off..off + n] == bss && Proper(bss) && Proper(info)
      modifies buf
      ensures Overwritten(old(buf[..]), buf[..], off, Updated(bss, info))
    {
      hide OnChannel, RssiOf, Proper;
      ProperLength(bss);
      ProperLength(info);
      var stored := buf[off..off + n];
      if OnChannel(stored) == OnChannel(info) {
        if RssiOf(info) > RssiOf(stored) {
          buf[off + RSSI], buf[off + RSSI + 1] := info[RSSI], info[RSSI + 1];
        }
      } else if OnChannel(stored) && !OnChannel(info) {
        // the flag that is set here was set already
        buf[off + RSSI], buf[off + RSSI + 1] := info[RSSI], info[RSSI + 1];
      }
    }

    // The escan handler on a partial result; `wanted` is that a scan is under way for
    // which results are kept, `adhoc` that the device supports IBSS.
    method Partial(ev: Event, wanted: bool, adhoc: bool) returns (verdict: Verdict)
      requires Valid()
      requires Acceptable(ev, wanted, adhoc) ==>
                 ev.buflen - FIXED_SIZE <= |ev.info| && Proper(ev.info[..ev.buflen - FIXED_SIZE])
      modifies this`buflen, this`count, this`version, this`recs, buf
      ensures Valid()
      ensures verdict.Taken? <==> Acceptable(ev, wanted, adhoc)
      ensures recs == if verdict.Taken? then Reported(old(recs), ev.info[..ev.buflen - FIXED_SIZE], band)
                      else old(recs)
      ensures version == if |recs| > |old(recs)| then FromLE32(ev.info[..4]) else old(version)
    {
      if !Acceptable(ev, wanted, adhoc) {
        return Ignored;
      }
      var info := ev.info[..ev.buflen - FIXED_SIZE];
      assert info[..4] == ev.info[..4];
      verdict := Taken;
      Report(info);
    }

    method Report(info: Record)
      requires Valid() && Proper(info)
      modifies this`buflen, this`count, this`version, this`recs, buf
      ensures Valid() && recs == Reported(old(recs), info, band)
      ensures version == if |recs| > |old(recs)| then FromLE32(info[..4]) else old(version)
    {
      hide NoTwins, KeyOf, Updated, Proper, FirstSame, Holds;
      if |info| > BUF_SIZE - buflen {
        return;
      }
      var found := FindAndUpdate(info);
      if !found {
        Store(info);
      }
    }

    // The loop over the stored records.
    method FindAndUpdate(info: Record) returns (found: bool)
      requires Valid() && Proper(info)
      modifies this`recs, buf
      ensures Valid()
      ensures var i := FirstSame(old(recs), info, band);
              && found == (i < |old(recs)|)
              && recs == if found then Merged(old(recs), i, info) else old(recs)
    {
      hide Proper, NoTwins, Cat, Updated, KeyOf, Holds;
      EmptyCat();
      var i := 0;
      var off := FIXED_SIZE;
      while i < count
        invariant i <= count && Valid() && recs == old(recs) && off == FIXED_SIZE + |Cat(recs[..i])|
        invariant forall k :: 0 <= k < i ==> KeyOf(recs[k], band) != KeyOf(info, band)
      {
        ghost var first := FirstSame(recs, info, band);
        var same := CompareUpdateSameBss(off, info, i);
        if same {
          assert first == i;
          return true;
        }
        off := Next(off, i);
        i := i + 1;
      }
      return false;
    }

    lemma EmptyCat()
      ensures |Cat(recs[..0])| == 0
    {
    }

    // next_bss_le: the record behind the one at `off`.
    method Next(off: nat, ghost i: nat) returns (off': nat)
      requires Valid() && i < |recs| && off == FIXED_SIZE + |Cat(recs[..i])|
      ensures off' == FIXED_SIZE + |Cat(recs[..i + 1])|
    {
      var bss := At(off, i);
      off' := off + |bss|;
    }

    method Store(info: Record)
      requires Valid() && Proper(info) && |info| <= BUF_SIZE - buflen
      requires FirstSame(recs, info, band) == |recs|
      modifies this`buflen, this`count, this`version, this`recs, buf
      ensures Valid() && recs == old(recs) + [info] && version == FromLE32(info[..4])
    {
      hide Proper, Cat, FirstSame, Listed, FromLE32;
      ProperLength(info);
      var infoVersion := FromLE32(info[..4]);
      ghost var before, longer := buf[..], recs + [info];
      CopyIn(buf, buflen, info);
      StoredInPlace(before, buf[..], recs, info, band);
      version := infoVersion;
      buflen := buflen + |info|;
      count := count + 1;
      recs := longer;
    }

    // inform_bss hands the records on, in order, unless it does not know their version.
    method Inform(refused: Record -> bool) returns (informed: seq<Record>, err: Option<InformError>)
      requires Valid()
      ensures var known := recs == [] || MIN_VERSION <= version <= MAX_VERSION;
              && informed == (if known then Handed(recs, refused) else [])
              && err == (if !known then Some(Unsupported)
                         else if AnyRefused(recs, refused) then Some(InformError.Refused) else None)
    {
      hide NoTwins, Cat, Proper, Holds;
      informed := [];
      if count != 0 && (version < MIN_VERSION || version > MAX_VERSION) {
        return [], Some(Unsupported);
      }
      EmptyCat();
      var i := 0;
      var off := FIXED_SIZE;
      while i < count
        invariant i <= count && informed == recs[..i] && off == FIXED_SIZE + |Cat(recs[..i])|
        invariant forall k :: 0 <= k < i ==> !refused(recs[k])
      {
        var bss := At(off, i);
        informed := informed + [bss];
        if refused(bss) {
          HandedUpTo(recs, refused, i);
          assert recs[i] in recs;
          return informed, Some(InformError.Refused);
        }
        off := off + |bss|;
        i := i + 1;
      }
      HandedAll(recs, refused);
      err := None;
    }

    lemma {:induction false} HandedUpTo(rs: seq<Record>, refused: Record -> bool, i: nat)
      requires i < |rs| && refused(rs[i]) && forall k :: 0 <= k < i ==> !refused(rs[k])
      ensures Handed(rs, refused) == rs[..i + 1]
    {
      if i > 0 {
        HandedUpTo(rs[1..], refused, i - 1);
        assert rs[..i + 1] == [rs[0]] + rs[1..][..i];
      }
    }

    lemma {:induction false} HandedAll(rs: seq<Record>, refused: Record -> bool)
      requires forall k :: 0 <= k < |rs| ==> !refused(rs[k])
      ensures Handed(rs, refused) == rs && !AnyRefused(rs, refused)
    {
      if rs != [] {
        HandedAll(rs[1..], refused);
      }
    }
  }
}
