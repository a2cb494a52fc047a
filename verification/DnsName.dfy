// DNS names: written by awdl-airdrop-adv.py (dname), read back by awdl-mdns-respond.py
// (dns_name, questions), compressed or not.

module DnsText {
  import opened Bytes

  function LowerChar(c: char): char {
    if 'A' <= c <= 'Z' then (c as int + 32) as char else c
  }

  function Lower(s: string): (l: string)
    ensures |l| == |s| && forall i :: 0 <= i < |s| ==> l[i] == LowerChar(s[i])
  {
    seq(|s|, i requires 0 <= i < |s| => LowerChar(s[i]))
  }

  // decode('ascii', 'replace').lower()
  function DecodeByte(b: byte): char {
    if b < 128 then LowerChar(b as char) else '\U{FFFD}'
  }

  function Decode(raw: seq<byte>): (s: string)
    ensures |s| == |raw| && forall i :: 0 <= i < |s| ==> s[i] == DecodeByte(raw[i])
  {
    seq(|raw|, i requires 0 <= i < |raw| => DecodeByte(raw[i]))
  }

  predicate IsAscii(s: string) {
    forall i :: 0 <= i < |s| ==> s[i] as int < 128
  }

  // label.encode()
  function Utf8Char(c: char): (b: seq<byte>)
    ensures |b| >= 1 && (c as int < 128 ==> b == [c as int]) && (c == '\U{FFFD}' ==> |b| == 3)
  {
    var x := c as int;
    if x < 0x80 then [x]
    else if x < 0x800 then [0xc0 + x / 0x40, 0x80 + x % 0x40]
    else if x < 0x1_0000 then [0xe0 + x / 0x1000, 0x80 + x / 0x40 % 0x40, 0x80 + x % 0x40]
    else [0xf0 + x / 0x4_0000, 0x80 + x / 0x1000 % 0x40, 0x80 + x / 0x40 % 0x40, 0x80 + x % 0x40]
  }

  function Utf8(s: string): seq<byte> {
    if s == "" then [] else Utf8Char(s[0]) + Utf8(s[1..])
  }

  lemma {:induction false} Utf8Ascii(s: string)
    requires IsAscii(s)
    ensures Utf8(s) == Ascii(s)
  {
    if s != "" {
      Utf8Ascii(s[1..]);
      assert Ascii(s) == [s[0] as int] + Ascii(s[1..]);
    }
  }

  // What a decoded label consists of.
  predicate Decoded(s: string) {
    forall i :: 0 <= i < |s| ==> s[i] as int < 128 || s[i] == '\U{FFFD}'
  }

  // A text takes no fewer bytes than characters, and two more where the replacement character
  // is the only one in it outside ASCII.
  lemma {:induction false} Utf8Longer(s: string)
    ensures |Utf8(s)| >= |s|
    ensures Decoded(s) && !IsAscii(s) ==> |Utf8(s)| >= |s| + 2
  {
    if s != "" {
      hide Utf8Char;
      Utf8Longer(s[1..]);
      assert Decoded(s) ==> Decoded(s[1..]);
      if s[0] as int < 128 {
        assert IsAscii(s[1..]) ==> IsAscii(s);
      } else {
        assert Decoded(s) ==> |Utf8Char(s[0])| == 3;
      }
    }
  }

  lemma DecodeAscii(s: string)
    requires IsAscii(s)
    ensures Decode(Ascii(s)) == Lower(s)
  {
  }

  function DecodeAll(labels: seq<seq<byte>>): (r: seq<string>)
    ensures |r| == |labels| && forall i :: 0 <= i < |r| ==> r[i] == Decode(labels[i])
  {
    seq(|labels|, i requires 0 <= i < |labels| => Decode(labels[i]))
  }

  // '.'.join(labels)
  function Join(labels: seq<string>): string {
    if |labels| == 0 then ""
    else if |labels| == 1 then labels[0]
    else labels[0] + "." + Join(labels[1..])
  }

  // The part before the first dot, and name.split('.').
  function FirstLabel(name: string): (l: string)
    ensures |l| <= |name| && l == name[..|l|] && '.' !in l
    ensures |l| < |name| ==> name[|l|] == '.'
  {
    if name == "" || name[0] == '.' then "" else [name[0]] + FirstLabel(name[1..])
  }

  function Split(name: string): (r: seq<string>)
    ensures |r| > 0
    ensures forall i :: 0 <= i < |r| ==> '.' !in r[i]
    decreases |name|
  {
    var l := FirstLabel(name);
    if |l| == |name| then [l] else [l] + Split(name[|l| + 1..])
  }

  lemma {:induction false} JoinSplit(name: string)
    ensures Join(Split(name)) == name
    decreases |name|
  {
    hide FirstLabel, Join;
    var l := FirstLabel(name);
    if |l| < |name| {
      var rest := name[|l| + 1..];
      JoinSplit(rest);
      JoinCons(l, Split(rest));
      assert name == l + "." + rest;
    } else {
      JoinOne(l);
    }
  }

  lemma JoinCons(l: string, labels: seq<string>)
    requires labels != []
    ensures Join([l] + labels) == l + "." + Join(labels)
  {
    assert ([l] + labels)[1..] == labels;
  }

  lemma JoinOne(l: string)
    ensures Join([l]) == l
  {
  }

  function NonEmpty(labels: seq<string>): (r: seq<string>)
    ensures forall i :: 0 <= i < |r| ==> r[i] != "" && r[i] in labels
  {
    if labels == [] then []
    else if labels[0] == "" then NonEmpty(labels[1..])
    else [labels[0]] + NonEmpty(labels[1..])
  }

  // The labels a name is encoded as.
  function LabelsOf(name: string): (r: seq<string>)
    ensures forall i :: 0 <= i < |r| ==> r[i] != "" && '.' !in r[i]
  {
    NonEmpty(Split(name))
  }

  function LowerAll(labels: seq<string>): (r: seq<string>)
    ensures |r| == |labels| && forall i :: 0 <= i < |r| ==> r[i] == Lower(labels[i])
  {
    seq(|labels|, i requires 0 <= i < |labels| => Lower(labels[i]))
  }

  // The name as it comes back: lower case, empty labels gone.
  function Canonical(name: string): string {
    Join(LowerAll(LabelsOf(name)))
  }

  lemma {:induction false} NonEmptyKeeps(labels: seq<string>, i: nat) returns (k: nat)
    requires i < |labels| && labels[i] != ""
    ensures k < |NonEmpty(labels)| && NonEmpty(labels)[k] == labels[i]
  {
    if i == 0 {
      k := 0;
    } else {
      k := NonEmptyKeeps(labels[1..], i - 1);
      if labels[0] != "" {
        k := k + 1;
      }
    }
  }

  lemma {:induction false} NonEmptyAll(labels: seq<string>)
    requires forall i :: 0 <= i < |labels| ==> labels[i] != ""
    ensures NonEmpty(labels) == labels
  {
    if labels != [] {
      NonEmptyAll(labels[1..]);
    }
  }

  lemma LowerConcat(a: string, b: string)
    ensures Lower(a + b) == Lower(a) + Lower(b)
  {
  }

  lemma {:induction false} LowerJoin(labels: seq<string>)
    ensures Join(LowerAll(labels)) == Lower(Join(labels))
  {
    if |labels| > 1 {
      LowerJoin(labels[1..]);
      assert LowerAll(labels)[1..] == LowerAll(labels[1..]);
      LowerConcat(labels[0] + ".", Join(labels[1..]));
      LowerConcat(labels[0], ".");
    }
  }

  // A name without empty labels comes back as itself in lower case.
  lemma CanonicalIsLower(name: string)
    requires forall i :: 0 <= i < |Split(name)| ==> Split(name)[i] != ""
    ensures Canonical(name) == Lower(name)
  {
    NonEmptyAll(Split(name));
    LowerJoin(Split(name));
    JoinSplit(name);
  }
}

module DnsNameSpec {
  import opened Bytes
  import opened DnsText

  datatype Walked = Labels(labels: seq<seq<byte>>) | Invalid | OutOfRange

  function Pointer(hi: byte, lo: byte): nat
    requires hi >= 0xc0
  {
    (hi as int - 0xc0) * 256 + lo as int
  }

  // A length byte with both top bits set starts a pointer.
  function Walk(pkt: seq<byte>, off: nat, hops: nat): Walked
    requires hops <= 16
    decreases 16 - hops, |pkt| - off
  {
    if off >= |pkt| then Invalid
    else if pkt[off] == 0 then Labels([])
    else if pkt[off] >= 0xc0 then
      if off + 1 >= |pkt| then OutOfRange
      else if hops == 16 then Invalid
      else Walk(pkt, Pointer(pkt[off], pkt[off + 1]), hops + 1)
    else
      Prepend([Slice(pkt, off + 1, off + 1 + pkt[off])], Walk(pkt, off + 1 + pkt[off], hops))
  }

  function Prepend(labels: seq<seq<byte>>, w: Walked): Walked {
    if w.Labels? then Labels(labels + w.labels) else w
  }

  // Section 4.1.4 of RFC 1035: `labels` are what stands at `off`, through `jumps` pointers.
  predicate Encodes(pkt: seq<byte>, off: nat, labels: seq<seq<byte>>, jumps: nat)
    decreases jumps, |labels|
  {
    && off < |pkt|
    && if pkt[off] >= 0xc0 then
         off + 1 < |pkt| && jumps > 0 && Encodes(pkt, Pointer(pkt[off], pkt[off + 1]), labels, jumps - 1)
       else if pkt[off] == 0 then labels == [] && jumps == 0
       else
         var e := off + 1 + pkt[off] as int;
         e <= |pkt| && labels != [] && labels[0] == pkt[off + 1..e] && Encodes(pkt, e, labels[1..], jumps)
  }

  // The walk finds what the packet encodes ...
  lemma {:induction false} WalkComplete(pkt: seq<byte>, off: nat, labels: seq<seq<byte>>, jumps: nat, hops: nat)
    requires Encodes(pkt, off, labels, jumps) && hops + jumps <= 16
    ensures Walk(pkt, off, hops) == Labels(labels)
    decreases jumps, |labels|
  {
    if pkt[off] >= 0xc0 {
      WalkComplete(pkt, Pointer(pkt[off], pkt[off + 1]), labels, jumps - 1, hops + 1);
    } else if pkt[off] != 0 {
      WalkComplete(pkt, off + 1 + pkt[off], labels[1..], jumps, hops);
      assert labels == [labels[0]] + labels[1..];
    }
  }

  // ... and nothing else, through no more than the jumps it has left.
  lemma {:induction false} WalkSound(pkt: seq<byte>, off: nat, hops: nat) returns (jumps: nat)
    requires hops <= 16 && Walk(pkt, off, hops).Labels?
    ensures hops + jumps <= 16 && Encodes(pkt, off, Walk(pkt, off, hops).labels, jumps)
    decreases 16 - hops, |pkt| - off
  {
    jumps := 0;
    if pkt[off] >= 0xc0 {
      var j := WalkSound(pkt, Pointer(pkt[off], pkt[off + 1]), hops + 1);
      jumps := j + 1;
    } else if pkt[off] != 0 {
      jumps := WalkSound(pkt, off + 1 + pkt[off], hops);
      var ls := Walk(pkt, off, hops).labels;
      assert ls[1..] == Walk(pkt, off + 1 + pkt[off], hops).labels;
    }
  }

  // ---- half a pointer at the end ----

  // The walk from `off`, through `jumps` pointers, comes to stand at `at`.
  predicate Arrives(pkt: seq<byte>, off: nat, at: nat, jumps: nat)
    decreases jumps, |pkt| - off
  {
    if off == at then jumps == 0
    else
      && off < |pkt| && pkt[off] != 0
      && if pkt[off] >= 0xc0 then
           off + 1 < |pkt| && jumps > 0 && Arrives(pkt, Pointer(pkt[off], pkt[off + 1]), at, jumps - 1)
         else Arrives(pkt, off + 1 + pkt[off], at, jumps)
  }

  // The last byte would start a pointer.
  predicate EndsInPointer(pkt: seq<byte>) {
    pkt != [] && pkt[|pkt| - 1] >= 0xc0
  }

  // The walk from `off`, through `jumps` pointers, comes to stand on that byte.
  predicate LeadsToEnd(pkt: seq<byte>, off: nat, jumps: nat) {
    EndsInPointer(pkt) && Arrives(pkt, off, |pkt| - 1, jumps)
  }

  lemma {:induction false} HalfPointerSound(pkt: seq<byte>, off: nat, hops: nat) returns (jumps: nat)
    requires hops <= 16 && Walk(pkt, off, hops).OutOfRange?
    ensures hops + jumps <= 16 && LeadsToEnd(pkt, off, jumps)
    decreases 16 - hops, |pkt| - off
  {
    jumps := 0;
    if pkt[off] >= 0xc0 {
      if off + 1 < |pkt| {
        var j := HalfPointerSound(pkt, Pointer(pkt[off], pkt[off + 1]), hops + 1);
        jumps := j + 1;
      }
    } else {
      jumps := HalfPointerSound(pkt, off + 1 + pkt[off], hops);
    }
  }

  lemma {:induction false} HalfPointerComplete(pkt: seq<byte>, off: nat, jumps: nat, hops: nat)
    requires hops + jumps <= 16 && LeadsToEnd(pkt, off, jumps)
    ensures Walk(pkt, off, hops).OutOfRange?
    decreases jumps, |pkt| - off
  {
    if off < |pkt| - 1 {
      if pkt[off] >= 0xc0 {
        HalfPointerComplete(pkt, Pointer(pkt[off], pkt[off + 1]), jumps - 1, hops + 1);
      } else {
        HalfPointerComplete(pkt, off + 1 + pkt[off], jumps, hops);
      }
    }
  }

  // Reading a name raises an index error if and only if the packet ends in half a pointer and
  // the walk comes to stand on it within sixteen jumps.
  lemma IndexErrorExactly(pkt: seq<byte>, off: nat)
    ensures ReadName(pkt, off).IndexError?
        <==> exists jumps: nat :: jumps <= 16 && LeadsToEnd(pkt, off, jumps)
  {
    if ReadName(pkt, off).IndexError? {
      var jumps := HalfPointerSound(pkt, off, 0);
      assert jumps <= 16 && LeadsToEnd(pkt, off, jumps);
    } else {
      forall jumps: nat | jumps <= 16 && LeadsToEnd(pkt, off, jumps)
        ensures Walk(pkt, off, 0).OutOfRange?
      {
        HalfPointerComplete(pkt, off, jumps, 0);
      }
    }
  }

  // ---- where the name ends in place ----

  // A name as it stands: labels up to a zero byte or a pointer.
  predicate InPlace(b: seq<byte>) {
    && b != []
    && if b[0] >= 0xc0 then |b| == 2
       else if b[0] == 0 then |b| == 1
       else |b| > 1 + b[0] as int && InPlace(b[1 + b[0]..])
  }

  // A name in place that starts with a label, without it.
  lemma RestInPlace(s: seq<byte>, m: nat)
    requires m <= |s| && InPlace(s[..m]) && 0 < s[0] < 0xc0
    ensures var k := 1 + s[0] as int; k < m && InPlace(s[k..][..m - k])
  {
    var k := 1 + s[0] as int;
    assert s[..m][0] == s[0];
    assert s[..m][k..] == s[k..][..m - k];
  }

  // Of two such encodings neither is a proper prefix of the other.
  lemma {:induction false} InPlacePrefix(s: seq<byte>, m: nat, n: nat)
    requires m <= |s| && n <= |s| && InPlace(s[..m]) && InPlace(s[..n])
    ensures m == n
  {
    if 0 < s[0] < 0xc0 {
      var k := 1 + s[0] as int;
      RestInPlace(s, m);
      RestInPlace(s, n);
      InPlacePrefix(s[k..], m - k, n - k);
    }
  }

  function InPlaceEnd(pkt: seq<byte>, off: nat): nat
    decreases |pkt| - off
  {
    if off >= |pkt| then off
    else if pkt[off] == 0 then off + 1
    else if pkt[off] >= 0xc0 then off + 2
    else InPlaceEnd(pkt, off + 1 + pkt[off])
  }

  lemma {:induction false} EndIsInPlace(pkt: seq<byte>, off: nat, hops: nat)
    requires hops <= 16 && Walk(pkt, off, hops).Labels?
    ensures off < InPlaceEnd(pkt, off) <= |pkt| && InPlace(pkt[off..InPlaceEnd(pkt, off)])
    decreases |pkt| - off
  {
    if 0 < pkt[off] < 0xc0 {
      var e := off + 1 + pkt[off] as int;
      EndIsInPlace(pkt, e, hops);
      assert pkt[off..InPlaceEnd(pkt, off)][1 + pkt[off]..] == pkt[e..InPlaceEnd(pkt, e)];
    }
  }

  // ---- dns_name ----

  datatype Reading = Name(text: string, next: nat) | ValueError | IndexError

  function ReadName(pkt: seq<byte>, off: nat): Reading {
    match Walk(pkt, off, 0)
    case Labels(labels) => Name(Join(DecodeAll(labels)), InPlaceEnd(pkt, off))
    case Invalid => ValueError
    case OutOfRange => IndexError
  }

  // What reading a name means: it succeeds exactly when the packet encodes labels there
  // through at most sixteen pointers, gives those labels, and goes on behind the encoding.
  lemma ReadNameMeans(pkt: seq<byte>, off: nat)
    ensures ReadName(pkt, off).Name? <==> exists labels, jumps: nat :: jumps <= 16 && Encodes(pkt, off, labels, jumps)
    ensures forall labels, jumps: nat :: jumps <= 16 && Encodes(pkt, off, labels, jumps)
              ==> ReadName(pkt, off).Name? && ReadName(pkt, off).text == Join(DecodeAll(labels))
    ensures ReadName(pkt, off).Name? ==>
              var next := ReadName(pkt, off).next;
              off < next <= |pkt| && InPlace(pkt[off..next])
  {
    forall labels, jumps: nat | jumps <= 16 && Encodes(pkt, off, labels, jumps)
      ensures Walk(pkt, off, 0) == Labels(labels)
    {
      WalkComplete(pkt, off, labels, jumps, 0);
    }
    if ReadName(pkt, off).Name? {
      var jumps := WalkSound(pkt, off, 0);
      assert exists labels, j: nat :: j <= 16 && Encodes(pkt, off, labels, j) by {
        assert jumps <= 16 && Encodes(pkt, off, Walk(pkt, off, 0).labels, jumps);
      }
      EndIsInPlace(pkt, off, 0);
    }
  }

  // ---- the writer ----

  function LabelBytes(labels: seq<string>): seq<byte>
    requires forall i :: 0 <= i < |labels| ==> |labels[i]| < 256
  {
    if labels == [] then [] else [|labels[0]|] + Utf8(labels[0]) + LabelBytes(labels[1..])
  }

  predicate Fits(labels: seq<string>, limit: nat) {
    forall i :: 0 <= i < |labels| ==> |labels[i]| < limit
  }

  predicate Ordinary(labels: seq<string>) {
    forall i :: 0 <= i < |labels| ==> labels[i] != "" && IsAscii(labels[i])
  }

  function AsciiAll(labels: seq<string>): (r: seq<seq<byte>>)
    ensures |r| == |labels| && forall i :: 0 <= i < |r| ==> r[i] == Ascii(labels[i])
  {
    seq(|labels|, i requires 0 <= i < |labels| => Ascii(labels[i]))
  }

  lemma OneLabel(pkt: seq<byte>, off: nat, raw: seq<byte>, rest: seq<seq<byte>>, jumps: nat)
    requires 0 < |raw| < 0xc0 && off + 1 + |raw| <= |pkt|
    requires pkt[off] == |raw| && pkt[off + 1..off + 1 + |raw|] == raw
    requires Encodes(pkt, off + 1 + |raw|, rest, jumps)
    ensures Encodes(pkt, off, [raw] + rest, jumps)
    ensures InPlaceEnd(pkt, off) == InPlaceEnd(pkt, off + 1 + |raw|)
  {
    assert ([raw] + rest)[1..] == rest;
  }

  // Labels shorter than a pointer's first byte stand for themselves in front of whatever
  // stands behind them.
  lemma {:induction false} LabelsEncode(pkt: seq<byte>, off: nat, labels: seq<string>,
                                        rest: seq<seq<byte>>, jumps: nat)
    requires Ordinary(labels) && Fits(labels, 0xc0)
    requires StartsAt(pkt, off, LabelBytes(labels))
    requires Encodes(pkt, off + |LabelBytes(labels)|, rest, jumps)
    ensures Encodes(pkt, off, AsciiAll(labels) + rest, jumps)
    ensures InPlaceEnd(pkt, off) == InPlaceEnd(pkt, off + |LabelBytes(labels)|)
    decreases |labels|
  {
    hide Encodes, InPlaceEnd, StartsAt, Ascii, Utf8;
    if labels == [] {
      assert AsciiAll(labels) + rest == rest;
    } else {
      var l := labels[0];
      var b := [|l|] + Ascii(l);
      var tail := LabelBytes(labels[1..]);
      Utf8Ascii(l);
      LabelParts(pkt, off, l, tail);
      var tails := AsciiAll(labels[1..]) + rest;
      LabelsEncode(pkt, off + |b|, labels[1..], rest, jumps);
      OneLabel(pkt, off, Ascii(l), tails, jumps);
      assert AsciiAll(labels) + rest == [Ascii(l)] + tails;
    }
  }

  lemma LabelParts(pkt: seq<byte>, off: nat, l: string, tail: seq<byte>)
    requires |l| < 256 && StartsAt(pkt, off, [|l|] + Ascii(l) + tail)
    ensures pkt[off] == |l| && pkt[off + 1..off + 1 + |l|] == Ascii(l) && StartsAt(pkt, off + 1 + |l|, tail)
  {
    var t := [|l|] + Ascii(l) + tail;
    assert t[1..1 + |l|] == Ascii(l) && t[1 + |l|..] == tail;
    SliceOf(pkt, off, t, 0, 1);
    SliceOf(pkt, off, t, 1, 1 + |l|);
    SliceOf(pkt, off, t, 1 + |l|, |t|);
  }

  lemma DecodeLabels(labels: seq<string>)
    requires Ordinary(labels)
    ensures DecodeAll(AsciiAll(labels)) == LowerAll(labels)
  {
    forall i | 0 <= i < |labels|
      ensures Decode(Ascii(labels[i])) == Lower(labels[i])
    {
      DecodeAscii(labels[i]);
    }
  }

  // What dname returns when it returns.
  function Encoded(labels: seq<string>): seq<byte>
    requires Fits(labels, 256)
  {
    LabelBytes(labels) + [0]
  }

  lemma EncodedAt(pkt: seq<byte>, off: nat, labels: seq<string>)
    requires Fits(labels, 256) && StartsAt(pkt, off, Encoded(labels))
    ensures StartsAt(pkt, off, LabelBytes(labels))
    ensures off + |LabelBytes(labels)| < |pkt| && pkt[off + |LabelBytes(labels)|] == 0
  {
    var t, n := Encoded(labels), |LabelBytes(labels)|;
    assert t[..n] == LabelBytes(labels);
    SliceOf(pkt, off, t, 0, n);
    SliceOf(pkt, off, t, n, n + 1);
  }

  // An uncompressed name reads back in lower case, wherever it stands.
  lemma ReadsBack(pkt: seq<byte>, off: nat, labels: seq<string>)
    requires Ordinary(labels) && Fits(labels, 0xc0) && StartsAt(pkt, off, Encoded(labels))
    ensures Encodes(pkt, off, AsciiAll(labels), 0)
    ensures ReadName(pkt, off) == Name(Join(LowerAll(labels)), off + |Encoded(labels)|)
  {
    EncodedAt(pkt, off, labels);
    assert Encodes(pkt, off + |LabelBytes(labels)|, [], 0);
    LabelsEncode(pkt, off, labels, [], 0);
    assert AsciiAll(labels) + [] == AsciiAll(labels);
    WalkComplete(pkt, off, AsciiAll(labels), 0, 0);
    DecodeLabels(labels);
  }

  function PointerBytes(to: nat): (b: seq<byte>)
    requires to < 0x4000
    ensures |b| == 2 && b[0] >= 0xc0 && Pointer(b[0], b[1]) == to
  {
    [0xc0 + to / 256, to % 256]
  }

  lemma PointerAt(pkt: seq<byte>, off: nat, head: seq<byte>, to: nat, suffix: seq<seq<byte>>, jumps: nat)
    requires to < 0x4000 && StartsAt(pkt, off, head + PointerBytes(to)) && Encodes(pkt, to, suffix, jumps)
    ensures StartsAt(pkt, off, head) && Encodes(pkt, off + |head|, suffix, jumps + 1)
    ensures InPlaceEnd(pkt, off + |head|) == off + |head| + 2
  {
    var n, t := |head|, head + PointerBytes(to);
    assert t[..n] == head && t[n..n + 2] == PointerBytes(to);
    SliceOf(pkt, off, t, 0, n);
    SliceOf(pkt, off, t, n, n + 2);
    SliceOf(pkt, off, t, n + 1, n + 2);
  }

  // A name that continues with a pointer to what stands elsewhere, itself compressed or not,
  // reads back as the two together, and the next offset is behind the pointer.
  lemma CompressedReadsBack(pkt: seq<byte>, off: nat, labels: seq<string>, to: nat,
                            suffix: seq<seq<byte>>, jumps: nat)
    requires Ordinary(labels) && Fits(labels, 0xc0) && to < 0x4000 && jumps < 16
    requires StartsAt(pkt, off, LabelBytes(labels) + PointerBytes(to)) && Encodes(pkt, to, suffix, jumps)
    ensures ReadName(pkt, off) == Name(Join(LowerAll(labels) + DecodeAll(suffix)), off + |LabelBytes(labels)| + 2)
  {
    hide Pointer, PointerBytes, Walk, Encodes, InPlaceEnd, LabelBytes, Join, StartsAt, Decode, Lower, Ascii, Ordinary;
    PointerAt(pkt, off, LabelBytes(labels), to, suffix, jumps);
    LabelsEncode(pkt, off, labels, suffix, jumps + 1);
    WalkComplete(pkt, off, AsciiAll(labels) + suffix, jumps + 1, 0);
    DecodeLabels(labels);
    assert DecodeAll(AsciiAll(labels) + suffix) == DecodeAll(AsciiAll(labels)) + DecodeAll(suffix);
  }

  // The same for a suffix written by dname.
  lemma SuffixReadsBack(pkt: seq<byte>, off: nat, labels: seq<string>, to: nat, suffix: seq<string>)
    requires Ordinary(labels) && Fits(labels, 0xc0) && to < 0x4000 && Ordinary(suffix) && Fits(suffix, 0xc0)
    requires StartsAt(pkt, off, LabelBytes(labels) + PointerBytes(to)) && StartsAt(pkt, to, Encoded(suffix))
    ensures ReadName(pkt, off) == Name(Join(LowerAll(labels + suffix)), off + |LabelBytes(labels)| + 2)
  {
    hide ReadName, Walk, Encodes, InPlaceEnd, LabelBytes, Join, Ordinary, StartsAt, PointerBytes, Encoded;
    hide AsciiAll, DecodeAll, LowerAll;
    ReadsBack(pkt, to, suffix);
    CompressedReadsBack(pkt, off, labels, to, AsciiAll(suffix), 0);
    DecodeLabels(suffix);
    LowerAllConcat(labels, suffix);
  }

  lemma LowerAllConcat(a: seq<string>, b: seq<string>)
    ensures LowerAll(a + b) == LowerAll(a) + LowerAll(b)
  {
    hide Lower;
  }

  // ---- labels too long for their length byte ----

  lemma {:induction false} DotWithin(labels: seq<string>, i: nat) returns (k: nat)
    requires Fits(labels, 0xc0) && i + 0xc0 <= |Join(labels)|
    ensures i <= k < i + 0xc0 && Join(labels)[k] == '.'
    decreases |labels|
  {
    var n := |labels[0]|;
    if n >= i {
      k := n;
    } else {
      k := DotWithin(labels[1..], i - n - 1);
      k := k + n + 1;
    }
  }

  // Among 192 characters in a row of joined shorter labels there is a dot.
  lemma WindowHasDot(labels: seq<string>, i: nat)
    requires Fits(labels, 0xc0) && i + 0xc0 <= |Join(labels)|
    ensures '.' in Join(labels)[i..i + 0xc0]
  {
    var k := DotWithin(labels, i);
    assert Join(labels)[i..i + 0xc0][k - i] == '.';
  }

  // Joined labels of which one is at least that long have such a window without a dot.
  lemma {:induction false} LongLabelNoDot(labels: seq<string>, j: nat) returns (i: nat)
    requires j < |labels| && |labels[j]| >= 0xc0 && '.' !in labels[j]
    ensures i + 0xc0 <= |Join(labels)| && '.' !in Join(labels)[i..i + 0xc0]
    decreases |labels|
  {
    if j == 0 {
      i := 0;
      assert Join(labels)[..0xc0] == labels[0][..0xc0];
    } else {
      var i' := LongLabelNoDot(labels[1..], j - 1);
      i := |labels[0]| + 1 + i';
      SliceOf(Join(labels), |labels[0]| + 1, Join(labels[1..]), i', i' + 0xc0);
    }
  }

  lemma {:induction false} WalkIsShort(pkt: seq<byte>, off: nat, hops: nat)
    requires hops <= 16 && Walk(pkt, off, hops).Labels?
    ensures Fits(DecodeAll(Walk(pkt, off, hops).labels), 0xc0)
    decreases 16 - hops, |pkt| - off
  {
    if pkt[off] >= 0xc0 {
      WalkIsShort(pkt, Pointer(pkt[off], pkt[off + 1]), hops + 1);
    } else if pkt[off] != 0 {
      WalkIsShort(pkt, off + 1 + pkt[off], hops);
      var tail := Walk(pkt, off + 1 + pkt[off], hops).labels;
      var first := Slice(pkt, off + 1, off + 1 + pkt[off]);
      assert DecodeAll([first] + tail) == [Decode(first)] + DecodeAll(tail);
    }
  }

  lemma LowerDots(s: string)
    requires '.' !in s
    ensures '.' !in Lower(s)
  {
  }

  // Nothing in any packet reads as a name with a label of 192 characters or more.
  lemma LongNeverReads(pkt: seq<byte>, off: nat, labels: seq<string>)
    requires forall i :: 0 <= i < |labels| ==> '.' !in labels[i]
    requires !Fits(labels, 0xc0) && ReadName(pkt, off).Name?
    ensures ReadName(pkt, off).text != Join(LowerAll(labels))
  {
    hide Walk, Join;
    var j :| 0 <= j < |labels| && |labels[j]| >= 0xc0;
    LowerDots(labels[j]);
    WalkIsShort(pkt, off, 0);
    var i := LongLabelNoDot(LowerAll(labels), j);
    if ReadName(pkt, off).text == Join(LowerAll(labels)) {
      WindowHasDot(DecodeAll(Walk(pkt, off, 0).labels), i);
    }
  }

  // ---- labels outside ASCII: fewer characters than bytes ----

  predicate AllDecoded(labels: seq<string>) {
    forall i :: 0 <= i < |labels| ==> Decoded(labels[i])
  }

  lemma {:induction false} JoinDecoded(labels: seq<string>)
    ensures Decoded(Join(labels)) <==> AllDecoded(labels)
  {
    if |labels| > 1 {
      hide Decoded;
      JoinDecoded(labels[1..]);
      var t := labels[0] + "." + Join(labels[1..]);
      DecodedConcat(labels[0] + ".", Join(labels[1..]));
      DecodedConcat(labels[0], ".");
      DecodedDot();
      assert labels == [labels[0]] + labels[1..];
    }
  }

  lemma DecodedConcat(a: string, b: string)
    ensures Decoded(a + b) <==> Decoded(a) && Decoded(b)
  {
    assert forall i :: 0 <= i < |a| ==> (a + b)[i] == a[i];
    assert forall i :: 0 <= i < |b| ==> (a + b)[|a| + i] == b[i];
  }

  lemma DecodedDot()
    ensures Decoded(".")
  {
  }

  // What is read consists of such characters ...
  lemma ReadIsDecoded(pkt: seq<byte>, off: nat)
    requires ReadName(pkt, off).Name?
    ensures Decoded(ReadName(pkt, off).text)
  {
    hide Walk, Join;
    JoinDecoded(DecodeAll(Walk(pkt, off, 0).labels));
  }

  // ... and takes in place at most three bytes more than the text has characters.
  lemma {:induction false} NextBound(pkt: seq<byte>, off: nat, hops: nat)
    requires hops <= 16 && Walk(pkt, off, hops).Labels?
    ensures var labels := Walk(pkt, off, hops).labels;
            InPlaceEnd(pkt, off) <= if labels == [] then off + 2 else off + |Join(DecodeAll(labels))| + 3
    decreases |pkt| - off
  {
    hide Decode, Join;
    if 0 < pkt[off] < 0xc0 {
      var e := off + 1 + pkt[off] as int;
      NextBound(pkt, e, hops);
      var tail := Walk(pkt, e, hops).labels;
      var first := Slice(pkt, off + 1, e);
      assert DecodeAll([first] + tail) == [Decode(first)] + DecodeAll(tail);
      if tail == [] {
        assert [Decode(first)] + DecodeAll(tail) == [Decode(first)];
        JoinOne(Decode(first));
      } else {
        JoinCons(Decode(first), DecodeAll(tail));
      }
    }
  }

  lemma {:induction false} BytesLonger(labels: seq<string>)
    requires Fits(labels, 256) && labels != []
    ensures |LabelBytes(labels)| >= |Join(labels)| + 1
    ensures forall j :: 0 <= j < |labels| && !IsAscii(labels[j]) && AllDecoded(labels)
              ==> |LabelBytes(labels)| >= |Join(labels)| + 3
  {
    hide Utf8, IsAscii;
    Utf8Longer(labels[0]);
    if |labels| > 1 {
      BytesLonger(labels[1..]);
      assert labels == [labels[0]] + labels[1..];
    }
  }

  // Nothing in any packet reads, up to the end of the name, as a name with a label outside ASCII.
  lemma NonAsciiNeverReads(pkt: seq<byte>, off: nat, labels: seq<string>, j: nat)
    requires Fits(labels, 256) && j < |labels| && !IsAscii(labels[j])
    ensures ReadName(pkt, off) != Name(Join(LowerAll(labels)), off + |Encoded(labels)|)
  {
    hide Walk, Join, LabelBytes, InPlaceEnd, Decoded, IsAscii;
    if ReadName(pkt, off).Name? && ReadName(pkt, off).text == Join(LowerAll(labels)) {
      ReadIsDecoded(pkt, off);
      NextBound(pkt, off, 0);
      JoinNothing();
      LowerJoin(labels);
      LowerDecoded(Join(labels));
      JoinDecoded(labels);
      BytesLonger(labels);
    }
  }

  lemma JoinNothing()
    ensures Join([]) == "" && DecodeAll([]) == []
  {
  }

  lemma LowerDecoded(s: string)
    ensures Decoded(Lower(s)) <==> Decoded(s)
  {
    assert forall i :: 0 <= i < |s| ==> Lower(s)[i] == LowerChar(s[i]);
  }

  // dns_name inverts dname up to case exactly for ASCII names without a label of 192
  // characters or more: from there on its length byte is taken for a pointer, and outside
  // ASCII it counts fewer than the bytes that follow.
  lemma InvertsExactly(pkt: seq<byte>, off: nat, name: string)
    requires Fits(LabelsOf(name), 256) && StartsAt(pkt, off, Encoded(LabelsOf(name)))
    ensures ReadName(pkt, off) == Name(Canonical(name), off + |Encoded(LabelsOf(name))|)
        <==> Fits(LabelsOf(name), 0xc0) && IsAscii(name)
  {
    hide Walk, Join, Encoded, IsAscii, NonEmpty;
    if IsAscii(name) {
      LabelsAreOrdinary(name);
      if Fits(LabelsOf(name), 0xc0) {
        ReadsBack(pkt, off, LabelsOf(name));
      } else if ReadName(pkt, off).Name? {
        LongNeverReads(pkt, off, LabelsOf(name));
      }
    } else {
      var j := NonAsciiLabel(name);
      NonAsciiNeverReads(pkt, off, LabelsOf(name), j);
    }
  }

  lemma {:induction false} JoinIsAscii(labels: seq<string>)
    requires forall i :: 0 <= i < |labels| ==> IsAscii(labels[i])
    ensures IsAscii(Join(labels))
  {
    if |labels| > 1 {
      JoinIsAscii(labels[1..]);
    }
  }

  lemma NonAsciiLabel(name: string) returns (j: nat)
    requires !IsAscii(name)
    ensures j < |LabelsOf(name)| && !IsAscii(LabelsOf(name)[j])
  {
    hide Split, Join;
    var labels := Split(name);
    if forall i :: 0 <= i < |labels| ==> IsAscii(labels[i]) {
      JoinSplit(name);
      JoinIsAscii(labels);
      assert false;
    }
    var i :| 0 <= i < |labels| && !IsAscii(labels[i]);
    j := NonEmptyKeeps(labels, i);
  }

  lemma {:induction false} SplitIsAscii(name: string)
    requires IsAscii(name)
    ensures forall i :: 0 <= i < |Split(name)| ==> IsAscii(Split(name)[i])
    decreases |name|
  {
    var l := FirstLabel(name);
    if |l| < |name| {
      SplitIsAscii(name[|l| + 1..]);
    }
  }

  lemma LabelsAreOrdinary(name: string)
    requires IsAscii(name)
    ensures Ordinary(LabelsOf(name))
  {
    SplitIsAscii(name);
    forall i | 0 <= i < |LabelsOf(name)|
      ensures IsAscii(LabelsOf(name)[i])
    {
      assert LabelsOf(name)[i] in Split(name);
    }
  }
}

module DnsNames {
  import opened Bytes
  import opened Wrappers
  import opened DnsText
  import opened DnsNameSpec

  // dname; None where a label's length does not fit its byte.
  method Dname(name: string) returns (r: Option<seq<byte>>)
    ensures r.Some? <==> Fits(LabelsOf(name), 256)
    ensures r.Some? ==> r.value == Encoded(LabelsOf(name))
  {
    hide Split, NonEmpty, LabelBytes, Utf8;
    var out: seq<byte> := [];
    var labels := Split(name);
    NoLabels();
    for i := 0 to |labels|
      invariant Fits(NonEmpty(labels[..i]), 256)
      invariant out == LabelBytes(NonEmpty(labels[..i]))
    {
      var l := labels[i];
      NonEmptyStep(labels, i);
      if l != "" {
        if |l| >= 256 {
          Misfit(labels, i);
          return None;
        }
        LabelBytesAppend(NonEmpty(labels[..i]), l);
        out := out + ([|l|] + Utf8(l));
      }
    }
    assert labels[..|labels|] == labels;
    return Some(out + [0]);
  }

  lemma NoLabels()
    ensures NonEmpty([]) == [] && LabelBytes([]) == []
  {
  }

  lemma {:induction false} NonEmptyConcat(a: seq<string>, b: seq<string>)
    ensures NonEmpty(a + b) == NonEmpty(a) + NonEmpty(b)
  {
    if a == [] {
      assert a + b == b;
    } else {
      assert (a + b)[1..] == a[1..] + b && (a + b)[0] == a[0];
      NonEmptyConcat(a[1..], b);
      ConcatAssoc([a[0]], NonEmpty(a[1..]), NonEmpty(b));
    }
  }

  lemma NonEmptyOne(l: string)
    ensures NonEmpty([l]) == if l == "" then [] else [l]
  {
    assert [l][1..] == [];
  }

  lemma NonEmptyStep(labels: seq<string>, i: nat)
    requires i < |labels|
    ensures NonEmpty(labels[..i + 1])
         == if labels[i] == "" then NonEmpty(labels[..i]) else NonEmpty(labels[..i]) + [labels[i]]
  {
    hide NonEmpty;
    assert labels[..i + 1] == labels[..i] + [labels[i]];
    NonEmptyConcat(labels[..i], [labels[i]]);
    NonEmptyOne(labels[i]);
  }

  lemma Misfit(labels: seq<string>, i: nat)
    requires i < |labels| && |labels[i]| >= 256
    ensures !Fits(NonEmpty(labels), 256)
  {
    var k := NonEmptyKeeps(labels, i);
  }

  lemma {:induction false} LabelBytesAppend(labels: seq<string>, l: string)
    requires Fits(labels, 256) && |l| < 256
    ensures Fits(labels + [l], 256) && LabelBytes(labels + [l]) == LabelBytes(labels) + ([|l|] + Utf8(l))
  {
    if labels != [] {
      LabelBytesAppend(labels[1..], l);
      assert (labels + [l])[1..] == labels[1..] + [l];
    } else {
      assert (labels + [l])[1..] == [];
    }
  }

  method DnsName(pkt: seq<byte>, start: nat) returns (r: Reading)
    ensures r == ReadName(pkt, start)
  {
    hide Walk, InPlaceEnd, Join, DecodeAll, Pointer;
    var labels: seq<seq<byte>> := [];
    var nxt: Option<nat> := None;
    var hops: nat, off: nat := 0, start;
    assert Prepend([], Walk(pkt, off, 0)) == Walk(pkt, off, 0);
    while true
      invariant hops <= 16
      invariant Walk(pkt, start, 0) == Prepend(labels, Walk(pkt, off, hops))
      invariant nxt.None? ==> InPlaceEnd(pkt, start) == InPlaceEnd(pkt, off)
      invariant nxt.Some? ==> InPlaceEnd(pkt, start) == nxt.value
      decreases 16 - hops, |pkt| - off
    {
      WalkStep(pkt, off, hops);
      if off >= |pkt| {
        return ValueError;
      }
      var n := pkt[off];
      if n == 0 {
        off := off + 1;
        break;
      }
      if n >= 0xc0 {
        if nxt.None? {
          nxt := Some(off + 2);
        }
        if off + 1 >= |pkt| {
          return IndexError;
        }
        off := Pointer(n, pkt[off + 1]);
        hops := hops + 1;
        if hops > 16 {
          return ValueError;
        }
        continue;
      }
      var raw := Slice(pkt, off + 1, off + 1 + n);
      PrependTwice(labels, raw, Walk(pkt, off + 1 + n, hops));
      labels := labels + [raw];
      off := off + 1 + n;
    }
    assert labels + [] == labels;
    return Name(Join(DecodeAll(labels)), if nxt.Some? then nxt.value else off);
  }

  // One turn of the loop.
  lemma WalkStep(pkt: seq<byte>, off: nat, hops: nat)
    requires hops <= 16
    ensures off >= |pkt| ==> Walk(pkt, off, hops) == Invalid
    ensures off < |pkt| && pkt[off] == 0 ==> Walk(pkt, off, hops) == Labels([]) && InPlaceEnd(pkt, off) == off + 1
    ensures off < |pkt| && pkt[off] >= 0xc0 ==>
              && InPlaceEnd(pkt, off) == off + 2
              && Walk(pkt, off, hops) == if off + 1 >= |pkt| then OutOfRange else if hops == 16 then Invalid
                                         else Walk(pkt, Pointer(pkt[off], pkt[off + 1]), hops + 1)
    ensures off < |pkt| && 0 < pkt[off] < 0xc0 ==>
              && InPlaceEnd(pkt, off) == InPlaceEnd(pkt, off + 1 + pkt[off])
              && Walk(pkt, off, hops)
              == Prepend([Slice(pkt, off + 1, off + 1 + pkt[off])], Walk(pkt, off + 1 + pkt[off], hops))
  {
  }

  lemma PrependTwice(labels: seq<seq<byte>>, raw: seq<byte>, w: Walked)
    ensures Prepend(labels, Prepend([raw], w)) == Prepend(labels + [raw], w)
  {
    if w.Labels? {
      ConcatAssoc(labels, [raw], w.labels);
    }
  }

  // ---- questions ----

  // The names of a query, or none: not a query, or a name that does not parse.  A name that
  // ends in half a pointer is not caught.
  datatype Asked = Asked(names: seq<string>) | Uncaught

  function Flags(dns: seq<byte>): nat
    requires |dns| >= 12
  {
    FromBE16(dns[2..4])
  }

  function Count(dns: seq<byte>): nat
    requires |dns| >= 12
  {
    FromBE16(dns[4..6])
  }

  // `count` questions from `off` on.
  function AskedFrom(dns: seq<byte>, off: nat, count: nat, names: seq<string>): Asked
    decreases count
  {
    if count == 0 then Asked(names)
    else
      match ReadName(dns, off)
      case Name(text, next) => AskedFrom(dns, next + 4, count - 1, names + [text])
      case ValueError => Asked([])
      case IndexError => Uncaught
  }

  function QuestionNames(dns: seq<byte>): Asked {
    if |dns| < 12 || Flags(dns) >= 0x8000 || Count(dns) == 0 then Asked([])
    else AskedFrom(dns, 12, Count(dns), [])
  }

  lemma TopBit(flags: nat)
    requires flags < 0x1_0000
    ensures flags / 0x8000 % 2 != 0 <==> flags >= 0x8000
  {
  }

  method Questions(dns: seq<byte>) returns (r: Asked)
    ensures r == QuestionNames(dns)
  {
    hide ReadName, FromBE16;
    if |dns| < 12 {
      return Asked([]);
    }
    var flags, qd := FromBE16(dns[2..4]), FromBE16(dns[4..6]);
    TopBit(flags);
    if flags / 0x8000 % 2 != 0 || qd == 0 {
      return Asked([]);
    }
    var out, off: nat := [], 12;
    for i := 0 to qd
      invariant AskedFrom(dns, 12, qd, []) == AskedFrom(dns, off, qd - i, out)
    {
      var reading := DnsName(dns, off);
      match reading {
        case Name(text, next) =>
          off := next + 4;
          out := out + [text];
        case ValueError =>
          return Asked([]);
        case IndexError =>
          return Uncaught;
      }
    }
    return Asked(out);
  }

  // Either nothing or one name for every question counted in the header.
  lemma {:induction false} AllOrNothing(dns: seq<byte>, off: nat, count: nat, names: seq<string>)
    requires AskedFrom(dns, off, count, names).Asked?
    ensures var asked := AskedFrom(dns, off, count, names).names; asked == [] || |asked| == |names| + count
    decreases count
  {
    if count > 0 && ReadName(dns, off).Name? {
      AllOrNothing(dns, ReadName(dns, off).next + 4, count - 1, names + [ReadName(dns, off).text]);
    }
  }

  // ---- the error that is not caught ----

  // Where the `k`th question starts, if those before it can be read.
  function QuestionStart(dns: seq<byte>, off: nat, k: nat): Option<nat>
    decreases k
  {
    if k == 0 then Some(off)
    else if !ReadName(dns, off).Name? then None
    else QuestionStart(dns, ReadName(dns, off).next + 4, k - 1)
  }

  // The `k`th question can be reached, and reading it raises the error.
  predicate RaisesAt(dns: seq<byte>, off: nat, k: nat) {
    QuestionStart(dns, off, k).Some? && ReadName(dns, QuestionStart(dns, off, k).value).IndexError?
  }

  lemma RaisesFirst(dns: seq<byte>, off: nat)
    ensures RaisesAt(dns, off, 0) <==> ReadName(dns, off).IndexError?
  {
  }

  lemma RaisesLater(dns: seq<byte>, off: nat, k: nat)
    requires k > 0
    ensures RaisesAt(dns, off, k)
        <==> ReadName(dns, off).Name? && RaisesAt(dns, ReadName(dns, off).next + 4, k - 1)
  {
    hide ReadName;
  }

  lemma {:induction false} AskedFromRaises(dns: seq<byte>, off: nat, count: nat, names: seq<string>)
    ensures AskedFrom(dns, off, count, names).Uncaught? <==> exists k: nat :: k < count && RaisesAt(dns, off, k)
    decreases count
  {
    hide ReadName, RaisesAt;
    if count > 0 {
      RaisesFirst(dns, off);
      var reading := ReadName(dns, off);
      if reading.Name? {
        var next: nat := reading.next + 4;
        AskedFromRaises(dns, next, count - 1, names + [reading.text]);
        if AskedFrom(dns, off, count, names).Uncaught? {
          var k: nat :| k < count - 1 && RaisesAt(dns, next, k);
          RaisesLater(dns, off, k + 1);
        }
      }
      forall k: nat | 0 < k < count && RaisesAt(dns, off, k)
        ensures reading.Name? && RaisesAt(dns, reading.next + 4, k - 1)
      {
        RaisesLater(dns, off, k);
      }
    }
  }

  // The `k`th question can be reached, and its walk comes to stand on half a pointer at the
  // end of the packet within sixteen jumps.
  predicate LeadsThere(dns: seq<byte>, k: nat) {
    && QuestionStart(dns, 12, k).Some?
    && exists jumps: nat :: jumps <= 16 && LeadsToEnd(dns, QuestionStart(dns, 12, k).value, jumps)
  }

  // The error escapes if and only if the packet is a query that ends in half a pointer, and a
  // question of it, reached through readable ones, leads there within sixteen jumps.
  lemma UncaughtExactly(dns: seq<byte>)
    ensures QuestionNames(dns).Uncaught? <==>
              && |dns| >= 12 && Flags(dns) < 0x8000
              && exists k: nat :: k < Count(dns) && LeadsThere(dns, k)
  {
    if |dns| >= 12 && Flags(dns) < 0x8000 {
      AskedFromRaises(dns, 12, Count(dns), []);
      forall k: nat
        ensures RaisesAt(dns, 12, k) <==> LeadsThere(dns, k)
      {
        hide ReadName, LeadsToEnd;
        if QuestionStart(dns, 12, k).Some? {
          IndexErrorExactly(dns, QuestionStart(dns, 12, k).value);
        }
      }
    }
  }

  // So one look at the last byte rules it out.
  lemma LastByteDecides(dns: seq<byte>)
    requires dns != [] && dns[|dns| - 1] < 0xc0
    ensures QuestionNames(dns).Asked?
  {
    UncaughtExactly(dns);
  }

  // A query that raises it: one question, of which only half a pointer is there.
  lemma HalfPointerQuery()
    ensures QuestionNames([0, 0, 0, 0, 0, 1, 0, 0, 0, 0, 0, 0, 0xc0]).Uncaught?
  {
    var dns: seq<byte> := [0, 0, 0, 0, 0, 1, 0, 0, 0, 0, 0, 0, 0xc0];
    assert dns[2..4] == [0, 0] && dns[4..6] == [0, 1];
    assert LeadsToEnd(dns, 12, 0);
    assert LeadsThere(dns, 0);
    UncaughtExactly(dns);
  }

  // ---- queries written with dname ----

  datatype Question = Question(name: string, typeAndClass: seq<byte>)

  predicate Askable(q: Question) {
    IsAscii(q.name) && Fits(LabelsOf(q.name), 0xc0) && |q.typeAndClass| == 4
  }

  predicate AllAskable(qs: seq<Question>) {
    forall i :: 0 <= i < |qs| ==> Askable(qs[i])
  }

  function QuestionBytes(qs: seq<Question>): seq<byte>
    requires AllAskable(qs)
  {
    if qs == [] then []
    else (Encoded(LabelsOf(qs[0].name)) + qs[0].typeAndClass) + QuestionBytes(qs[1..])
  }

  function CanonicalNames(qs: seq<Question>): seq<string> {
    if qs == [] then [] else [Canonical(qs[0].name)] + CanonicalNames(qs[1..])
  }

  lemma {:induction false} AskedBack(dns: seq<byte>, off: nat, qs: seq<Question>, names: seq<string>)
    requires AllAskable(qs) && StartsAt(dns, off, QuestionBytes(qs))
    ensures AskedFrom(dns, off, |qs|, names) == Asked(names + CanonicalNames(qs))
    decreases |qs|
  {
    hide Askable, Encoded, ReadName, Canonical;
    if qs != [] {
      var q := qs[0];
      assert Askable(q);
      QuestionAt(dns, off, q, QuestionBytes(qs[1..]));
      AskedBack(dns, off + |QuestionBytes([q])|, qs[1..], names + [Canonical(q.name)]);
      ConcatAssoc(names, [Canonical(q.name)], CanonicalNames(qs[1..]));
      assert |qs| - 1 == |qs[1..]|;
    } else {
      assert names + [] == names;
    }
  }

  lemma QuestionAt(dns: seq<byte>, off: nat, q: Question, rest: seq<byte>)
    requires Askable(q) && StartsAt(dns, off, Encoded(LabelsOf(q.name)) + q.typeAndClass + rest)
    ensures var n := |Encoded(LabelsOf(q.name))|;
            && |QuestionBytes([q])| == n + 4 && StartsAt(dns, off + n + 4, rest)
            && ReadName(dns, off) == Name(Canonical(q.name), off + n)
  {
    hide ReadName, Canonical, Encoded;
    var e := Encoded(LabelsOf(q.name));
    var n, t := |e|, e + q.typeAndClass + rest;
    assert t[..n] == e && t[n + 4..] == rest;
    SliceOf(dns, off, t, 0, n);
    SliceOf(dns, off, t, n + 4, |t|);
    InvertsExactly(dns, off, q.name);
  }

  // A query of any questions, with anything behind them, is understood in full; a message
  // with the response bit set never is one.
  lemma QueryUnderstood(dns: seq<byte>, qs: seq<Question>)
    requires |dns| >= 12 && AllAskable(qs) && Count(dns) == |qs| && StartsAt(dns, 12, QuestionBytes(qs))
    ensures QuestionNames(dns) == Asked(if Flags(dns) < 0x8000 then CanonicalNames(qs) else [])
  {
    if |qs| > 0 {
      AskedBack(dns, 12, qs, []);
      assert [] + CanonicalNames(qs) == CanonicalNames(qs);
    }
  }
}
