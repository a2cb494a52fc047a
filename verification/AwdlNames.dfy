// AWDL service records: built by mkpsf.py, parsed by awdl-af-parse.py.  Text is kept as the
// bytes it is encoded in.

module AwdlNames {
  import opened Bytes

  type Text = seq<byte>

  const DOT: byte := 0x2e
  const AIRDROP: Text := Ascii("_airdrop._tcp.local")

  // The fixed dictionary, and the rendering of unknown codes.
  function Tail(code: byte): (t: Text)
    ensures |t| <= 19
  {
    if code == 0x00 then []
    else if code == 0x07 then AIRDROP
    else if code == 0x0a then Ascii("_tcp.local")
    else if code == 0x0b then Ascii("_udp.local")
    else if code == 0x0c then Ascii("local")
    else Ascii("<c0") + [HexDigit(code / 16), HexDigit(code % 16)] + Ascii(">")
  }

  // '.'.join(labels)
  function JoinDots(labels: seq<Text>): Text {
    if |labels| == 0 then []
    else if |labels| == 1 then labels[0]
    else labels[0] + [DOT] + JoinDots(labels[1..])
  }

  // text.split('.')[0]
  function Before(text: Text): (t: Text)
    ensures |t| <= |text| && t == text[..|t|] && DOT !in t
    ensures |t| < |text| ==> text[|t|] == DOT
  {
    if text == [] || text[0] == DOT then [] else [text[0]] + Before(text[1..])
  }

  datatype LabelRun = Run(labels: seq<Text>, next: nat) | Broken

  function TailLabels(code: byte): seq<Text> {
    if Tail(code) == [] then [] else [Tail(code)]
  }

  // name: labels up to the end, a zero byte or a dictionary code; Broken is the index error
  // of a code cut off.
  function Labels(b: seq<byte>, off: nat): LabelRun
    decreases |b| - off
  {
    if off >= |b| then Run([], off)
    else if b[off] == 0xc0 then
      if off + 1 >= |b| then Broken else Run(TailLabels(b[off + 1]), off + 2)
    else if b[off] == 0 then Run([], off + 1)
    else Prepended([Slice(b, off + 1, off + 1 + b[off])], Labels(b, off + 1 + b[off]))
  }

  function Prepended(labels: seq<Text>, r: LabelRun): LabelRun {
    if r.Run? then Run(labels + r.labels, r.next) else r
  }

  datatype NameResult = Named(text: Text, next: nat) | IndexError

  function NameAt(b: seq<byte>, off: nat): NameResult {
    match Labels(b, off)
    case Run(labels, next) => Named(JoinDots(labels), next)
    case Broken => IndexError
  }

  method Name(b: seq<byte>, start: nat) returns (r: NameResult)
    ensures r == NameAt(b, start)
  {
    hide JoinDots, Tail, Labels;
    var labels: seq<Text> := [];
    var off := start;
    assert Prepended([], Labels(b, off)) == Labels(b, off);
    while off < |b|
      invariant off >= 0 && Labels(b, start) == Prepended(labels, Labels(b, off))
      decreases |b| - off
    {
      LabelsStep(b, off);
      var l := b[off];
      if l == 0xc0 {
        if off + 1 >= |b| {
          return IndexError;
        }
        var tail := Tail(b[off + 1]);
        if tail != [] {
          labels := labels + [tail];
        } else {
          assert labels + [] == labels;
        }
        return Named(JoinDots(labels), off + 2);
      }
      if l == 0 {
        assert labels + [] == labels;
        return Named(JoinDots(labels), off + 1);
      }
      var raw := Slice(b, off + 1, off + 1 + l);
      PrependedTwice(labels, raw, Labels(b, off + 1 + l));
      labels := labels + [raw];
      off := off + 1 + l;
    }
    LabelsStep(b, off);
    assert labels + [] == labels;
    return Named(JoinDots(labels), off);
  }

  // One turn of the loop.
  lemma LabelsStep(b: seq<byte>, off: nat)
    ensures off >= |b| ==> Labels(b, off) == Run([], off)
    ensures off < |b| && b[off] == 0 ==> Labels(b, off) == Run([], off + 1)
    ensures off < |b| && b[off] == 0xc0 ==>
              Labels(b, off) == if off + 1 >= |b| then Broken
                                else Run(if Tail(b[off + 1]) == [] then [] else [Tail(b[off + 1])], off + 2)
    ensures off < |b| && b[off] != 0 && b[off] != 0xc0 ==>
              Labels(b, off) == Prepended([Slice(b, off + 1, off + 1 + b[off])], Labels(b, off + 1 + b[off]))
  {
    hide Tail;
  }

  lemma PrependedTwice(labels: seq<Text>, raw: Text, r: LabelRun)
    ensures Prepended(labels, Prepended([raw], r)) == Prepended(labels + [raw], r)
  {
    if r.Run? {
      ConcatAssoc(labels, [raw], r.labels);
    }
  }

  // ---- a code cut off ----

  // Label after label, the name from `off` on comes to stand at `at`.
  predicate Stands(b: seq<byte>, off: nat, at: nat)
    decreases |b| - off
  {
    off == at || (off < |b| && b[off] != 0 && b[off] != 0xc0 && Stands(b, off + 1 + b[off], at))
  }

  // The text ends where a dictionary code would start, and the labels lead there.
  predicate CutOff(b: seq<byte>, off: nat) {
    off < |b| && b[|b| - 1] == 0xc0 && Stands(b, off, |b| - 1)
  }

  lemma StandsStep(b: seq<byte>, off: nat, at: nat)
    requires off < |b| && b[off] != 0 && b[off] != 0xc0 && at < |b|
    ensures Stands(b, off, at) <==> off == at || Stands(b, off + 1 + b[off], at)
    ensures Stands(b, off + 1 + b[off], at) ==> off + 1 + b[off] < |b|
  {
  }

  // Only that raises the index error.
  lemma {:induction false} IndexErrorExactly(b: seq<byte>, off: nat)
    ensures NameAt(b, off).IndexError? <==> CutOff(b, off)
    decreases |b| - off
  {
    hide JoinDots, Tail;
    if off < |b| && b[off] != 0 && b[off] != 0xc0 {
      IndexErrorExactly(b, off + 1 + b[off]);
      StandsStep(b, off, |b| - 1);
    }
  }

  // ---- names as they are built ----

  function Lbl(s: Text): (b: seq<byte>)
    requires |s| < 256
    ensures |b| == 1 + |s|
  {
    [|s|] + s
  }

  // A label that does not pass for the end or for a dictionary code.
  predicate Plain(s: Text) {
    0 < |s| < 256 && |s| != 0xc0
  }

  predicate AllPlain(labels: seq<Text>) {
    forall i :: 0 <= i < |labels| ==> Plain(labels[i])
  }

  function LabelsBytes(labels: seq<Text>): seq<byte>
    requires AllPlain(labels)
  {
    if labels == [] then []
    else
      assert Plain(labels[0]);
      Lbl(labels[0]) + LabelsBytes(labels[1..])
  }

  lemma LabelParts(b: seq<byte>, off: nat, l: Text, tail: seq<byte>)
    requires |l| < 256 && StartsAt(b, off, Lbl(l) + tail)
    ensures b[off] == |l| && b[off + 1..off + 1 + |l|] == l && StartsAt(b, off + 1 + |l|, tail)
  {
    var t := Lbl(l) + tail;
    assert t[1..1 + |l|] == l && t[1 + |l|..] == tail;
    SliceOf(b, off, t, 0, 1);
    SliceOf(b, off, t, 1, 1 + |l|);
    SliceOf(b, off, t, 1 + |l|, |t|);
  }

  // Any labels with any dictionary code behind them read back, wherever they stand.
  lemma {:induction false} NameReadsBack(b: seq<byte>, off: nat, labels: seq<Text>, code: byte)
    requires AllPlain(labels)
    requires StartsAt(b, off, LabelsBytes(labels) + [0xc0, code])
    ensures Labels(b, off) == Run(labels + TailLabels(code), off + |LabelsBytes(labels)| + 2)
    decreases |labels|
  {
    hide StartsAt, Tail, TailLabels, Labels, Lbl;
    if labels == [] {
      assert LabelsBytes(labels) + [0xc0, code] == [0xc0, code];
      CodeAt(b, off, code);
      assert labels + TailLabels(code) == TailLabels(code);
    } else {
      var l, rest := labels[0], LabelsBytes(labels[1..]);
      assert Plain(l);
      ConcatAssoc(Lbl(l), rest, [0xc0, code]);
      LabelParts(b, off, l, rest + [0xc0, code]);
      LabelFits(b, off, l, rest + [0xc0, code]);
      NameReadsBack(b, off + 1 + |l|, labels[1..], code);
      LabelRead(b, off, l);
      ConcatAssoc([l], labels[1..], TailLabels(code));
      assert [l] + labels[1..] == labels;
    }
  }

  lemma LabelRead(b: seq<byte>, off: nat, l: Text)
    requires Plain(l) && off + 1 + |l| <= |b| && b[off] == |l| && b[off + 1..off + 1 + |l|] == l
    ensures Labels(b, off) == Prepended([l], Labels(b, off + 1 + |l|))
  {
  }

  lemma CodeAt(b: seq<byte>, off: nat, code: byte)
    requires StartsAt(b, off, [0xc0, code])
    ensures Labels(b, off) == Run(TailLabels(code), off + 2)
  {
    hide TailLabels;
    var t: seq<byte> := [0xc0, code];
    SliceOf(b, off, t, 0, 1);
    SliceOf(b, off, t, 1, 2);
  }

  lemma LabelFits(b: seq<byte>, off: nat, l: Text, tail: seq<byte>)
    requires |l| < 256 && StartsAt(b, off, Lbl(l) + tail)
    ensures off + 1 + |l| <= |b|
  {
  }

  // What a built name of one label and a code is read as: the two together, unless the
  // label's length passes for the end or for a code.
  function Shown(l: Text, code: byte): Text {
    if l == [] then []
    else if |l| == 0xc0 then Tail(l[0])
    else JoinDots([l] + TailLabels(code))
  }

  lemma OneLabelReads(b: seq<byte>, off: nat, l: Text, code: byte)
    requires |l| < 256 && StartsAt(b, off, Lbl(l) + [0xc0, code])
    ensures NameAt(b, off).Named? && NameAt(b, off).text == Shown(l, code)
  {
    hide JoinDots, Tail, StartsAt;
    LabelParts(b, off, l, [0xc0, code]);
    LabelFits(b, off, l, [0xc0, code]);
    if Plain(l) {
      assert LabelsBytes([l]) == Lbl(l) + LabelsBytes([]);
      assert Lbl(l) + [] == Lbl(l);
      NameReadsBack(b, off, [l], code);
    } else if l != [] {
      assert b[off + 1..off + 1 + |l|][0] == b[off + 1];
      assert JoinDots([Tail(l[0])]) == Tail(l[0]) && JoinDots([]) == [] by {
        JoinShort(Tail(l[0]));
      }
    } else {
      JoinShort([]);
    }
  }

  lemma JoinShort(t: Text)
    ensures JoinDots([t]) == t && JoinDots([]) == []
  {
  }
}
