// The NVRAM text compiler of firmware.c: a state machine over the text that copies each
// `key=value` entry, NUL-terminated, into an output buffer, followed by default entries,
// padding and a length token.

module NvramText {
  import opened Arithmetic
  import opened Bytes

  const MAX_NVRAM_SIZE: nat := 64000
  const DEFAULT_BOARDREV: seq<byte> := Ascii("boardrev=0xff")
  const RAW1: seq<byte> := Ascii("RAW1")
  const DEVPATH: seq<byte> := Ascii("devpath")
  const PCIE: seq<byte> := Ascii("pcie/")
  const BOARDREV: seq<byte> := Ascii("boardrev")
  const MACADDR: seq<byte> := Ascii("macaddr")

  const NUL: byte := 0
  const TAB: byte := 9
  const LF: byte := 10
  const CR: byte := 13
  const SPACE: byte := 32
  const HASH: byte := 35
  const EQUALS: byte := 61

  predicate IsNvramChar(c: byte) {
    c != HASH && 0x20 <= c < 0x7f
  }

  predicate IsWhitespace(c: byte) {
    c == SPACE || c == CR || c == LF || c == TAB
  }

  datatype State = Idle | Key | Value | Comment | End

  // struct nvram_parser without the line and column that only warnings mention;
  // `out` is the part of the output buffer filled so far.
  datatype Parser = Parser(
    state: State,
    pos: nat,
    entry: nat,
    out: seq<byte>,
    found: Found,
    stripMac: bool
  )

  // Which special keys have been seen.
  datatype Found = Found(multiDevV1: bool, multiDevV2: bool, boardrev: bool) {
    function Or(f: Found): Found {
      Found(multiDevV1 || f.multiDevV1, multiDevV2 || f.multiDevV2, boardrev || f.boardrev)
    }
  }

  const NOTHING_FOUND := Found(false, false, false)

  function Start(stripMac: bool): Parser {
    Parser(Idle, 0, 0, [], NOTHING_FOUND, stripMac)
  }

  function FoundAt(data: seq<byte>, entry: nat): Found {
    Found(StartsAt(data, entry, DEVPATH), StartsAt(data, entry, PCIE), StartsAt(data, entry, BOARDREV))
  }

  // The text is readable up to and including a terminating NUL; the part that is parsed,
  // `dataLen` bytes, may or may not include it.
  predicate Terminated(data: seq<byte>, dataLen: nat) {
    |data| > 0 && data[|data| - 1] == NUL && dataLen <= |data|
  }

  // First line feed or NUL at or after `i`.
  function EndOfLine(data: seq<byte>, i: nat): (j: nat)
    requires i < |data| && data[|data| - 1] == NUL
    ensures i <= j < |data| && (data[j] == LF || data[j] == NUL)
    ensures forall k :: i <= k < j ==> data[k] != LF && data[k] != NUL
    decreases |data| - i
  {
    if data[i] == LF || data[i] == NUL then i else EndOfLine(data, i + 1)
  }

  lemma {:induction false} EndOfLineUnique(data: seq<byte>, i: nat, j: nat)
    requires i <= j < |data| && data[|data| - 1] == NUL
    requires data[j] == LF || data[j] == NUL
    requires forall k :: i <= k < j ==> data[k] != LF && data[k] != NUL
    ensures EndOfLine(data, i) == j
    decreases j - i
  {
    if i < j {
      EndOfLineUnique(data, i + 1, j);
    }
  }

  // The state after the `=` of a key that starts at `entry`: RAW1 entries, and the MAC
  // address when the platform supplies one, are skipped like comments.
  function AfterKey(data: seq<byte>, entry: nat, stripMac: bool): (s: State)
    ensures s.Comment? || s.Value?
  {
    if StartsAt(data, entry, RAW1) || (stripMac && StartsAt(data, entry, MACADDR)) then Comment
    else Value
  }

  function Handle(data: seq<byte>, p: Parser): (p': Parser)
    requires p.pos < |data| && data[|data| - 1] == NUL && p.entry <= p.pos
    ensures p'.entry <= p'.pos && p'.stripMac == p.stripMac
  {
    var c := data[p.pos];
    match p.state
    case Idle =>
      if c == LF then p.(state := Comment)
      else if IsWhitespace(c) || c == NUL then p.(pos := p.pos + 1)
      else if c == HASH then p.(state := Comment)
      else if IsNvramChar(c) then p.(state := Key, entry := p.pos)
      else p.(pos := p.pos + 1)
    case Key =>
      if c == EQUALS then
        p.(pos := p.pos + 1,
           state := AfterKey(data, p.entry, p.stripMac),
           found := p.found.Or(FoundAt(data, p.entry)))
      else if !IsNvramChar(c) || c == SPACE then p.(state := Comment)
      else p.(pos := p.pos + 1)
    case Value =>
      if IsNvramChar(c) then p.(pos := p.pos + 1)
      else if |p.out| + (p.pos - p.entry) + 1 >= MAX_NVRAM_SIZE then p.(state := End)
      else p.(state := Idle, out := p.out + data[p.entry..p.pos] + [NUL])
    case Comment => p.(state := Idle, pos := EndOfLine(data, p.pos) + 1)
    case End => p
  }

  // Handlers that stay where they are go to a state of lower rank.
  function Rank(s: State): nat {
    match s
    case Value => 3
    case Idle => 2
    case Key => 1
    case Comment => 0
    case End => 0
  }

  // What keeps a handler from going round in circles: an idle parser that has just
  // completed an entry looks at a character that cannot start one, and the output never
  // outgrows the text it was copied from.
  ghost predicate Sound(data: seq<byte>, dataLen: nat, p: Parser) {
    && Terminated(data, dataLen) && p.entry <= p.pos <= |data|
    && |p.out| <= dataLen && |p.out| < MAX_NVRAM_SIZE
    && match p.state
       case Idle => |p.out| <= p.pos || (|p.out| == p.pos + 1 && p.pos < |data| && !IsNvramChar(data[p.pos]))
       case Key | Value => |p.out| <= p.entry
       case Comment => |p.out| <= p.pos + 1
       case End => true
  }

  predicate Running(dataLen: nat, p: Parser) {
    p.pos < dataLen && !p.state.End?
  }

  // Every handler makes progress: it consumes input, or lowers the rank, or ends.
  ghost predicate Advances(data: seq<byte>, dataLen: nat, p: Parser, p': Parser) {
    Sound(data, dataLen, p') && (p'.pos > p.pos || (p'.pos == p.pos && Rank(p'.state) < Rank(p.state)))
  }

  // A step in a key, and a step in a value.
  lemma KeyStep(data: seq<byte>, p: Parser)
    requires p.pos < |data| && data[|data| - 1] == NUL && p.entry <= p.pos && p.state.Key?
    ensures var c := data[p.pos];
            Handle(data, p)
            == if c == EQUALS then
                 var skip := StartsAt(data, p.entry, RAW1) || (p.stripMac && StartsAt(data, p.entry, MACADDR));
                 Parser(if skip then Comment else Value, p.pos + 1, p.entry, p.out,
                        Found(p.found.multiDevV1 || StartsAt(data, p.entry, DEVPATH),
                              p.found.multiDevV2 || StartsAt(data, p.entry, PCIE),
                              p.found.boardrev || StartsAt(data, p.entry, BOARDREV)), p.stripMac)
               else if !IsNvramChar(c) || c == SPACE then p.(state := Comment)
               else p.(pos := p.pos + 1)
  {
    hide StartsAt, IsNvramChar;
  }

  lemma ValueStep(data: seq<byte>, p: Parser)
    requires p.pos < |data| && data[|data| - 1] == NUL && p.entry <= p.pos && p.state.Value?
    ensures Handle(data, p)
         == if IsNvramChar(data[p.pos]) then p.(pos := p.pos + 1)
            else if |p.out| + (p.pos - p.entry) + 1 >= MAX_NVRAM_SIZE then p.(state := End)
            else p.(state := Idle, out := p.out + data[p.entry..p.pos] + [NUL])
  {
    hide IsNvramChar;
  }

  lemma ValueProgress(data: seq<byte>, dataLen: nat, p: Parser)
    requires Sound(data, dataLen, p) && Running(dataLen, p) && p.state.Value?
    ensures Advances(data, dataLen, p, Handle(data, p))
  {
    if !IsNvramChar(data[p.pos]) {
      var n := p.pos - p.entry;
      assert |p.out + data[p.entry..p.pos] + [NUL]| == |p.out| + n + 1;
    }
  }

  lemma IdleProgress(data: seq<byte>, dataLen: nat, p: Parser)
    requires Sound(data, dataLen, p) && Running(dataLen, p) && p.state.Idle?
    ensures Advances(data, dataLen, p, Handle(data, p))
  {
  }

  lemma KeyProgress(data: seq<byte>, dataLen: nat, p: Parser)
    requires Sound(data, dataLen, p) && Running(dataLen, p) && p.state.Key?
    ensures Advances(data, dataLen, p, Handle(data, p))
  {
  }

  lemma Progress(data: seq<byte>, dataLen: nat, p: Parser)
    requires Sound(data, dataLen, p) && Running(dataLen, p)
    ensures Advances(data, dataLen, p, Handle(data, p))
  {
    match p.state
    case Idle => IdleProgress(data, dataLen, p);
    case Key => KeyProgress(data, dataLen, p);
    case Value => ValueProgress(data, dataLen, p);
    case Comment =>
  }

  // What a handler relies on, and that its step is sound.
  lemma SoundStep(data: seq<byte>, dataLen: nat, p: Parser)
    requires Sound(data, dataLen, p) && Running(dataLen, p)
    ensures p.entry <= p.pos < |data| && data[|data| - 1] == NUL && |p.out| <= dataLen && |p.out| < MAX_NVRAM_SIZE
    ensures p.state.Value? ==> |p.out| <= p.entry
    ensures dataLen <= |data| && Sound(data, dataLen, Handle(data, p))
  {
    Progress(data, dataLen, p);
  }

  function Run(data: seq<byte>, dataLen: nat, p: Parser): (p': Parser)
    requires Sound(data, dataLen, p)
    ensures Sound(data, dataLen, p') && !Running(dataLen, p') && p'.stripMac == p.stripMac
    decreases |data| - p.pos, Rank(p.state)
  {
    if Running(dataLen, p) then
      Progress(data, dataLen, p);
      Run(data, dataLen, Handle(data, p))
    else p
  }

  function Parsed(data: seq<byte>, dataLen: nat, stripMac: bool): Parser
    requires Terminated(data, dataLen)
  {
    Run(data, dataLen, Start(stripMac))
  }

  // ---- the finished image ----

  // aa:bb:cc:dd:ee:ff
  function MacText(mac: seq<byte>): (t: seq<byte>)
    ensures |mac| > 0 ==> |t| == 3 * |mac| - 1
  {
    if mac == [] then []
    else
      var octet := [HexDigit(mac[0] / 16), HexDigit(mac[0] % 16)];
      if |mac| == 1 then octet else octet + [58] + MacText(mac[1..])
  }

  type Mac = m: seq<byte> | |m| == 6 witness [0, 0, 0, 0, 0, 0]

  function MacEntry(mac: Mac): (t: seq<byte>)
    ensures |t| == 26
  {
    Ascii("macaddr=") + MacText(mac) + [NUL]
  }

  // The 32-bit length token: low half the length in words, high half its complement, of which
  // the shift keeps the lower sixteen bits.
  function Token(length: nat): (t: int)
    ensures 0 <= t < 0x1_0000_0000
  {
    var words := length / 4 % 0x1_0000_0000;
    (0xFFFF_FFFF - words) % 0x1_0000 * 0x1_0000 + words % 0x1_0000
  }

  // Everything in the image in front of the padding.
  function Body(p: Parser, mac: Mac): seq<byte> {
    p.out
    + (if p.found.boardrev then [] else DEFAULT_BOARDREV + [NUL])
    + (if p.stripMac then MacEntry(mac) else [])
  }

  lemma BodySize(p: Parser, mac: Mac)
    ensures |Body(p, mac)| == |p.out| + (if p.found.boardrev then 0 else 14) + (if p.stripMac then 26 else 0)
  {
    hide MacEntry;
  }

  function Image(body: seq<byte>): seq<byte> {
    var length := RoundUp4(|body| + 1);
    body + Zeros(length - |body|) + LE32(Token(length))
  }

  lemma ImageIs(body: seq<byte>)
    ensures var length := RoundUp4(|body| + 1);
            Image(body) == body + Zeros(length - |body|) + LE32(Token(length))
  {
  }

  lemma ImageSize(body: seq<byte>)
    ensures |Image(body)| == RoundUp4(|body| + 1) + 4
  {
    hide Token, LE32;
    var length := RoundUp4(|body| + 1);
    assert |LE32(Token(length))| == 4;
  }

  // The one buffer that is allocated for the text and everything that may be added.
  function Allocation(dataLen: nat): nat {
    (if dataLen > MAX_NVRAM_SIZE then MAX_NVRAM_SIZE else dataLen)
    + (|DEFAULT_BOARDREV| + 1) + (7 + 6 * 3 + 1) + (1 + 3 + 4)
  }

  lemma TokenHalves(length: nat)
    requires length < 4 * 0x1_0000 && length % 4 == 0
    ensures Token(length) % 0x1_0000 == length / 4
    ensures Token(length) / 0x1_0000 == 0xFFFF - length / 4
  {
    var w := length / 4;
    DivModUnique(w, 0x1_0000_0000, 0, w);
    DivModUnique(w, 0x1_0000, 0, w);
    DivModUnique(0xFFFF_FFFF - w, 0x1_0000, 0xFFFF, 0xFFFF - w);
    DivModUnique((0xFFFF - w) * 0x1_0000 + w, 0x1_0000, 0xFFFF - w, w);
  }

  // The total is 4 bytes more than four times the low half of the token, and the token's
  // halves are complementary.
  lemma ImageLength(body: seq<byte>)
    requires |body| + 1 < 4 * 0x1_0000 - 4
    ensures var image := Image(body);
            && |body| + 5 <= |image| < |body| + 9
            && body <= image
            && var token := FromLE32(image[|image| - 4..]);
               && |image| == 4 * (token % 0x1_0000) + 4
               && token % 0x1_0000 + token / 0x1_0000 == 0xFFFF
  {
    var length := RoundUp4(|body| + 1);
    TokenHalves(length);
    LE32RoundTrip(Token(length));
    assert Image(body)[|Image(body)| - 4..] == LE32(Token(length));
  }

  // For every terminated text the image fits its allocation.
  lemma ImageFits(data: seq<byte>, dataLen: nat, stripMac: bool, mac: Mac)
    requires Terminated(data, dataLen)
    ensures var image := Image(Body(Parsed(data, dataLen, stripMac), mac));
            && |image| <= Allocation(dataLen)
            && var token := FromLE32(image[|image| - 4..]);
               && |image| == 4 * (token % 0x1_0000) + 4
               && token % 0x1_0000 + token / 0x1_0000 == 0xFFFF
  {
    hide Image, Body, Handle;
    var p := Parsed(data, dataLen, stripMac);
    assert |p.out| <= dataLen && |p.out| < MAX_NVRAM_SIZE;
    BodySize(p, mac);
    ImageLength(Body(p, mac));
    ImageSize(Body(p, mac));
  }
}

module NvramParser {
  import opened Arithmetic
  import opened Bytes
  import opened NvramText

  // strchr: the first `c` at or after `i`, unless a NUL comes first.
  method StrChr(data: seq<byte>, i: nat, c: byte) returns (found: bool, j: nat)
    requires i < |data| && data[|data| - 1] == NUL
    ensures i <= j < |data|
    ensures forall k :: i <= k < j ==> data[k] != c && data[k] != NUL
    ensures if found then data[j] == c else data[j] == NUL && c != NUL
  {
    j := i;
    while data[j] != c && data[j] != NUL
      invariant i <= j < |data|
      invariant forall k :: i <= k < j ==> data[k] != c && data[k] != NUL
      decreases |data| - j
    {
      j := j + 1;
    }
    found := data[j] == c;
  }

  method StrNCmp(data: seq<byte>, i: nat, prefix: seq<byte>) returns (equal: bool)
    ensures equal == StartsAt(data, i, prefix)
  {
    var k := 0;
    while k < |prefix| && i + k < |data| && data[i + k] == prefix[k]
      invariant k <= |prefix| && (k > 0 ==> i + k <= |data|)
      invariant forall m :: 0 <= m < k ==> data[i + m] == prefix[m]
    {
      k := k + 1;
    }
    equal := k == |prefix| && i + k <= |data|;
  }

  class Compiler {
    const data: seq<byte>
    const dataLen: nat
    var nvram: array<byte>
    var state: State
    var nvramLen: nat
    var pos: nat
    var entry: nat
    var multiDevV1: bool
    var multiDevV2: bool
    var boardrevFound: bool
    var stripMac: bool

    ghost function View(): Parser
      requires nvramLen <= nvram.Length
      reads this, nvram
    {
      Parser(state, pos, entry, nvram[..nvramLen],
             Found(multiDevV1, multiDevV2, boardrevFound), stripMac)
    }

    ghost predicate Valid()
      reads this, nvram
    {
      && nvramLen <= nvram.Length == Allocation(dataLen)
      && Sound(data, dataLen, View())
    }

    constructor (data: seq<byte>, dataLen: nat, stripMac: bool)
      requires Terminated(data, dataLen)
      ensures Valid() && fresh(nvram) && View() == Start(stripMac)
      ensures this.data == data && this.dataLen == dataLen
    {
      this.data, this.dataLen, this.stripMac := data, dataLen, stripMac;
      var size := if dataLen > MAX_NVRAM_SIZE then MAX_NVRAM_SIZE else dataLen;
      size := size + |DEFAULT_BOARDREV| + 1;
      size := size + 7 + 6 * 3 + 1;
      size := size + 1 + 3 + 4;
      nvram := new byte[size];
      state, nvramLen, pos, entry := Idle, 0, 0, 0;
      multiDevV1, multiDevV2, boardrevFound := false, false, false;
    }

    method HandleIdle()
      requires Valid() && state.Idle? && pos < dataLen
      modifies this`state, this`pos, this`entry
      ensures Valid() && View() == Handle(data, old(View()))
    {
      hide Sound, StartsAt, IsNvramChar, IsWhitespace, EndOfLine, Terminated;
      SoundStep(data, dataLen, View());
      var c := data[pos];
      if c == LF {
        state := Comment;
        return;
      }
      if !IsWhitespace(c) && c != NUL {
        if c == HASH {
          state := Comment;
          return;
        }
        if IsNvramChar(c) {
          entry := pos;
          state := Key;
          return;
        }
      }
      pos := pos + 1;
    }

    // What the key before the `=` says.
    method NoteKey() returns (st: State)
      modifies this`multiDevV1, this`multiDevV2, this`boardrevFound
      ensures st == if StartsAt(data, entry, RAW1) || (stripMac && StartsAt(data, entry, MACADDR)) then Comment
                    else Value
      ensures multiDevV1 == (old(multiDevV1) || StartsAt(data, entry, DEVPATH))
      ensures multiDevV2 == (old(multiDevV2) || StartsAt(data, entry, PCIE))
      ensures boardrevFound == (old(boardrevFound) || StartsAt(data, entry, BOARDREV))
    {
      hide StartsAt;
      var raw1 := StrNCmp(data, entry, RAW1);
      st := if raw1 then Comment else Value;
      var devpath := StrNCmp(data, entry, DEVPATH);
      if devpath {
        multiDevV1 := true;
      }
      var pcie := StrNCmp(data, entry, PCIE);
      if pcie {
        multiDevV2 := true;
      }
      var boardrev := StrNCmp(data, entry, BOARDREV);
      if boardrev {
        boardrevFound := true;
      }
      var macaddr := StrNCmp(data, entry, MACADDR);
      if stripMac && macaddr {
        st := Comment;
      }
    }

    method HandleKey()
      requires Valid() && state.Key? && pos < dataLen
      modifies this`state, this`pos, this`multiDevV1, this`multiDevV2, this`boardrevFound
      ensures Valid() && View() == Handle(data, old(View()))
    {
      hide Sound, StartsAt, IsNvramChar, Terminated, Handle;
      SoundStep(data, dataLen, View());
      KeyStep(data, View());
      var st := state;
      var c := data[pos];
      if c == EQUALS {
        st := NoteKey();
      } else if !IsNvramChar(c) || c == SPACE {
        state := Comment;
        return;
      }
      pos := pos + 1;
      state := st;
    }

    method CopyEntry()
      requires entry <= pos <= |data| && nvramLen + (pos - entry) + 1 <= nvram.Length
      modifies this`nvramLen, nvram
      ensures nvramLen == old(nvramLen) + (pos - entry) + 1
      ensures nvram[..nvramLen] == old(nvram[..nvramLen]) + data[entry..pos] + [NUL]
    {
      var cplen := pos - entry;
      CopyIn(nvram, nvramLen, data[entry..pos]);
      nvramLen := nvramLen + cplen;
      nvram[nvramLen] := NUL;
      nvramLen := nvramLen + 1;
    }

    method HandleValue()
      requires Valid() && state.Value? && pos < dataLen
      modifies this`state, this`pos, this`nvramLen, nvram
      ensures Valid() && View() == Handle(data, old(View()))
    {
      hide Sound, StartsAt, IsNvramChar, Terminated, Handle;
      SoundStep(data, dataLen, View());
      ValueStep(data, View());
      var c := data[pos];
      if !IsNvramChar(c) {
        var cplen := pos - entry;
        if nvramLen + cplen + 1 >= MAX_NVRAM_SIZE {
          state := End;
          return;
        }
        CopyEntry();
        state := Idle;
        return;
      }
      pos := pos + 1;
    }

    method HandleComment()
      requires Valid() && state.Comment? && pos < dataLen
      modifies this`state, this`pos
      ensures Valid() && View() == Handle(data, old(View()))
    {
      hide Sound, StartsAt, IsNvramChar, IsWhitespace, EndOfLine, Terminated;
      SoundStep(data, dataLen, View());
      var found, eoc := StrChr(data, pos, LF);
      if !found {
        found, eoc := StrChr(data, pos, NUL);
      }
      assert forall k :: pos <= k < eoc ==> data[k] != LF && data[k] != NUL;
      EndOfLineUnique(data, pos, eoc);
      pos := pos + (eoc - pos) + 1;
      state := Idle;
    }

    method Parse()
      requires Valid() && state.Idle?
      modifies this`state, this`pos, this`entry, this`nvramLen, nvram
      modifies this`multiDevV1, this`multiDevV2, this`boardrevFound
      ensures Valid() && View() == Run(data, dataLen, old(View()))
    {
      while pos < dataLen
        invariant Valid() && !state.End?
        invariant Run(data, dataLen, View()) == Run(data, dataLen, old(View()))
        decreases |data| - pos, Rank(state)
      {
        Progress(data, dataLen, View());
        match state {
          case Idle => HandleIdle();
          case Key => HandleKey();
          case Value => HandleValue();
          case Comment => HandleComment();
        }
        if state == End {
          break;
        }
      }
    }

    method AddDefaults()
      requires nvramLen <= nvram.Length
      requires boardrevFound || nvramLen + |DEFAULT_BOARDREV| + 1 <= nvram.Length
      modifies this`nvramLen, nvram
      ensures nvramLen <= nvram.Length
      ensures nvram[..nvramLen]
           == old(nvram[..nvramLen]) + (if boardrevFound then [] else DEFAULT_BOARDREV + [NUL])
    {
      if boardrevFound {
        return;
      }
      CopyIn(nvram, nvramLen, DEFAULT_BOARDREV);
      nvramLen := nvramLen + |DEFAULT_BOARDREV|;
      nvram[nvramLen] := NUL;
      nvramLen := nvramLen + 1;
    }

    method AddMacAddr(mac: Mac)
      requires nvramLen + 26 <= nvram.Length
      modifies this`nvramLen, nvram
      ensures nvramLen <= nvram.Length
      ensures nvram[..nvramLen] == old(nvram[..nvramLen]) + MacEntry(mac)
    {
      CopyIn(nvram, nvramLen, MacEntry(mac));
      nvramLen := nvramLen + 25 + 1;
    }

    method Pad(newLength: nat)
      requires nvramLen <= newLength <= nvram.Length
      modifies nvram
      ensures nvram[..newLength] == old(nvram[..nvramLen]) + Zeros(newLength - nvramLen)
    {
      var pad := nvramLen;
      while pad != newLength
        invariant nvramLen <= pad <= newLength
        invariant nvram[..nvramLen] == old(nvram[..nvramLen])
        invariant forall k :: nvramLen <= k < pad ==> nvram[k] == 0
        decreases newLength - pad
      {
        nvram[pad] := 0;
        pad := pad + 1;
      }
      assert nvram[..newLength] == nvram[..nvramLen] + nvram[nvramLen..newLength];
    }

    method PutToken(length: nat)
      requires length + 4 <= nvram.Length
      modifies nvram
      ensures nvram[..length + 4] == old(nvram[..length]) + LE32(Token(length))
    {
      CopyIn(nvram, length, LE32(Token(length)));
    }

    method AddExtras(mac: Mac)
      requires nvramLen <= nvram.Length && |Body(View(), mac)| <= nvram.Length
      modifies this`nvramLen, nvram
      ensures nvramLen <= nvram.Length
      ensures nvram[..nvramLen] == Body(old(View()), mac)
    {
      BodySize(View(), mac);
      AddDefaults();
      if stripMac {
        AddMacAddr(mac);
      }
    }

    // The rest of brcmf_fw_nvram_strip, where the image fits the buffer.
    method Finish(mac: Mac) returns (newLength: nat)
      requires nvramLen <= nvram.Length && |Image(Body(View(), mac))| <= nvram.Length
      modifies this`nvramLen, nvram
      ensures newLength <= nvram.Length
      ensures nvram[..newLength] == Image(Body(old(View()), mac))
    {
      hide Body, Token, Image, Zeros;
      ghost var body := Body(View(), mac);
      ImageSize(body);
      AddExtras(mac);
      newLength := RoundUp4(nvramLen + 1);
      Pad(newLength);
      PutToken(newLength);
      ImageIs(body);
      newLength := newLength + 4;
    }
  }
}
