// What the NVRAM parser makes of a well-formed text: exactly its entries, in order.

module NvramRoundTrip {
  import opened Wrappers
  import opened Bytes
  import opened NvramText

  // One line of a text, without its line feed.
  datatype Line =
    | Entry(key: seq<byte>, value: seq<byte>, note: Option<seq<byte>>, crlf: bool)  // key=value, maybe #note
    | Blank(space: seq<byte>)
    | Remark(text: seq<byte>)                                                       // #text

  predicate IsKeyChar(c: byte) {
    IsNvramChar(c) && c != SPACE && c != EQUALS
  }

  predicate OneLine(text: seq<byte>) {
    LF !in text && NUL !in text
  }

  predicate WellFormedKeyValue(key: seq<byte>, value: seq<byte>) {
    (forall c <- key :: IsKeyChar(c)) && (forall c <- value :: IsNvramChar(c))
  }

  predicate WellFormed(line: Line) {
    match line
    case Entry(key, value, note, _) => WellFormedKeyValue(key, value) && (note.Some? ==> OneLine(note.value))
    case Blank(space) => forall c <- space :: IsWhitespace(c) && c != LF
    case Remark(text) => OneLine(text)
  }

  // What follows an entry's value on its line.
  function Trailer(note: Option<seq<byte>>, crlf: bool): (t: seq<byte>) {
    (if note.Some? then [HASH] + note.value else []) + (if crlf then [CR] else [])
  }

  function Text(line: Line): seq<byte> {
    match line
    case Entry(key, value, note, crlf) => key + [EQUALS] + value + Trailer(note, crlf)
    case Blank(space) => space
    case Remark(text) => [HASH] + text
  }

  function Print(lines: seq<Line>): seq<byte> {
    if lines == [] then [] else Text(lines[0]) + [LF] + Print(lines[1..])
  }

  predicate Keeps(key: seq<byte>, stripMac: bool) {
    !(RAW1 <= key) && !(stripMac && MACADDR <= key)
  }

  function Kept(line: Line, stripMac: bool): seq<byte> {
    if line.Entry? && Keeps(line.key, stripMac) then line.key + [EQUALS] + line.value + [NUL] else []
  }

  function KeptAll(lines: seq<Line>, stripMac: bool): seq<byte> {
    if lines == [] then [] else Kept(lines[0], stripMac) + KeptAll(lines[1..], stripMac)
  }

  function FoundIn(line: Line): Found {
    if line.Entry? then Found(DEVPATH <= line.key, PCIE <= line.key, BOARDREV <= line.key) else NOTHING_FOUND
  }

  function FoundInAll(lines: seq<Line>): Found {
    if lines == [] then NOTHING_FOUND else FoundIn(lines[0]).Or(FoundInAll(lines[1..]))
  }

  predicate AnyKey(lines: seq<Line>, prefix: seq<byte>) {
    exists line <- lines :: line.Entry? && prefix <= line.key
  }

  lemma {:induction false} FoundMeans(lines: seq<Line>)
    ensures FoundInAll(lines) == Found(AnyKey(lines, DEVPATH), AnyKey(lines, PCIE), AnyKey(lines, BOARDREV))
  {
    if lines != [] {
      FoundMeans(lines[1..]);
      AnyKeyCons(lines, DEVPATH);
      AnyKeyCons(lines, PCIE);
      AnyKeyCons(lines, BOARDREV);
    }
  }

  lemma AnyKeyCons(lines: seq<Line>, prefix: seq<byte>)
    requires lines != []
    ensures AnyKey(lines, prefix)
        <==> (lines[0].Entry? && prefix <= lines[0].key) || AnyKey(lines[1..], prefix)
  {
    assert lines == [lines[0]] + lines[1..];
  }

  // ---- pieces of the text ----

  // `t` is the rest of the line at `at`.
  ghost predicate LineAt(data: seq<byte>, at: nat, t: seq<byte>) {
    at + |t| < |data| && data[at..at + |t|] == t && data[at + |t|] == LF
  }

  lemma LineTail(data: seq<byte>, at: nat, head: seq<byte>, tail: seq<byte>)
    requires LineAt(data, at, head + tail)
    ensures at + |head| + |tail| < |data| && data[at..at + |head|] == head
    ensures LineAt(data, at + |head|, tail)
  {
    var t := head + tail;
    SliceOf(data, at, t, 0, |head|);
    SliceOf(data, at, t, |head|, |t|);
    assert t[0..|head|] == head && t[|head|..|t|] == tail;
  }

  lemma FirstChar(data: seq<byte>, at: nat, t: seq<byte>)
    requires LineAt(data, at, t)
    ensures at + |t| < |data| && data[at] == if t == [] then LF else t[0]
  {
    if t != [] {
      SliceOf(data, at, t, 0, 1);
    }
  }

  lemma PrintPieces(data: seq<byte>, at: nat, t: seq<byte>, rest: seq<byte>)
    requires var all := t + [LF] + rest; at + |all| <= |data| && data[at..at + |all|] == all
    ensures LineAt(data, at, t) && data[at + |t| + 1..at + |t| + 1 + |rest|] == rest
  {
    var all := t + [LF] + rest;
    SliceOf(data, at, all, 0, |t|);
    SliceOf(data, at, all, |t|, |t| + 1);
    SliceOf(data, at, all, |t| + 1, |all|);
    assert all[0..|t|] == t && all[|t| + 1..|all|] == rest;
  }

  lemma KeyChars(data: seq<byte>, at: nat, key: seq<byte>)
    requires at + |key| <= |data| && data[at..at + |key|] == key && forall c <- key :: IsKeyChar(c)
    ensures forall k :: at <= k < at + |key| ==> IsKeyChar(data[k])
  {
    forall k | at <= k < at + |key|
      ensures IsKeyChar(data[k])
    {
      assert data[k] == key[k - at];
    }
  }

  lemma ValueChars(data: seq<byte>, at: nat, value: seq<byte>)
    requires at + |value| <= |data| && data[at..at + |value|] == value && forall c <- value :: IsNvramChar(c)
    ensures forall k :: at <= k < at + |value| ==> IsNvramChar(data[k])
  {
    forall k | at <= k < at + |value|
      ensures IsNvramChar(data[k])
    {
      assert data[k] == value[k - at];
    }
  }

  lemma SpaceChars(data: seq<byte>, at: nat, space: seq<byte>)
    requires at + |space| <= |data| && data[at..at + |space|] == space
    requires forall c <- space :: IsWhitespace(c) && c != LF
    ensures forall k :: at <= k < at + |space| ==> IsWhitespace(data[k]) && data[k] != LF
  {
    forall k | at <= k < at + |space|
      ensures IsWhitespace(data[k]) && data[k] != LF
    {
      assert data[k] == space[k - at];
    }
  }

  // `prefix` is found at the start of the key exactly when the key starts with it.
  lemma KeyPrefix(data: seq<byte>, i: nat, key: seq<byte>, prefix: seq<byte>)
    requires i + |key| < |data| && data[i..i + |key|] == key && data[i + |key|] == EQUALS
    requires EQUALS !in prefix
    ensures StartsAt(data, i, prefix) <==> prefix <= key
  {
    if prefix <= key {
      assert data[i..i + |prefix|] == key[..|prefix|];
    } else if StartsAt(data, i, prefix) {
      assert false;
    }
  }

  // ---- scanning ----

  lemma {:induction false} ScanKey(data: seq<byte>, n: nat, p: Parser, j: nat)
    requires Sound(data, n, p) && p.state.Key? && p.pos <= j <= n
    requires forall k :: p.pos <= k < j ==> IsKeyChar(data[k])
    ensures Run(data, n, p) == Run(data, n, p.(pos := j))
    decreases j - p.pos
  {
    if p.pos < j {
      ScanKey(data, n, p.(pos := p.pos + 1), j);
    }
  }

  lemma {:induction false} ScanValue(data: seq<byte>, n: nat, p: Parser, j: nat)
    requires Sound(data, n, p) && p.state.Value? && p.pos <= j <= n
    requires forall k :: p.pos <= k < j ==> IsNvramChar(data[k])
    ensures Run(data, n, p) == Run(data, n, p.(pos := j))
    decreases j - p.pos
  {
    if p.pos < j {
      ScanValue(data, n, p.(pos := p.pos + 1), j);
    }
  }

  lemma {:induction false} ScanSpace(data: seq<byte>, n: nat, p: Parser, j: nat)
    requires Sound(data, n, p) && p.state.Idle? && |p.out| <= p.pos <= j <= n
    requires forall k :: p.pos <= k < j ==> IsWhitespace(data[k]) && data[k] != LF
    ensures Run(data, n, p) == Run(data, n, p.(pos := j))
    decreases j - p.pos
  {
    if p.pos < j {
      ScanSpace(data, n, p.(pos := p.pos + 1), j);
    }
  }

  // The parser has arrived, idle, at the start of the line after the one it was on.
  ghost predicate NextLine(data: seq<byte>, n: nat, p: Parser, t: seq<byte>, p': Parser) {
    && p' == p.(state := Idle, pos := p.pos + |t| + 1)
    && Sound(data, n, p) && Sound(data, n, p') && |p'.out| <= p'.pos && Run(data, n, p) == Run(data, n, p')
  }

  // A parser in a comment, or idle in front of one or of the line feed, skips the rest of
  // the line.
  lemma EatLine(data: seq<byte>, n: nat, p: Parser, t: seq<byte>) returns (p': Parser)
    requires Sound(data, n, p) && LineAt(data, p.pos, t) && OneLine(t) && p.pos + |t| < n
    requires p.state.Comment? || (p.state.Idle? && (t == [] || t[0] == HASH))
    ensures NextLine(data, n, p, t, p')
  {
    var eol := p.pos + |t|;
    forall k | p.pos <= k < eol
      ensures data[k] != LF && data[k] != NUL
    {
      assert data[k] == t[k - p.pos];
    }
    EndOfLineUnique(data, p.pos, eol);
    var c := p.(state := Comment);
    if p.state.Idle? {
      assert Handle(data, p) == c;
      IdleProgress(data, n, p);
    }
    Progress(data, n, c);
    p' := Handle(data, c);
  }

  // From the end of the value over the trailer to the next line.
  lemma EatTrailer(data: seq<byte>, n: nat, r: Parser, note: Option<seq<byte>>, crlf: bool) returns (p': Parser)
    requires Sound(data, n, r) && r.state.Idle? && (note.Some? ==> OneLine(note.value))
    requires LineAt(data, r.pos, Trailer(note, crlf)) && r.pos + |Trailer(note, crlf)| < n
    ensures NextLine(data, n, r, Trailer(note, crlf), p')
  {
    hide LineAt;
    var t := Trailer(note, crlf);
    if note.None? && crlf {
      assert t == [CR] + [];
      LineTail(data, r.pos, [CR], []);
      assert data[r.pos] == data[r.pos..r.pos + |[CR]|][0] == CR;
      var r1 := Handle(data, r);
      IdleProgress(data, n, r);
      p' := EatLine(data, n, r1, []);
    } else {
      p' := EatLine(data, n, r, t);
    }
  }

  // ---- one entry ----

  // An entry as it lies in the text, up to the character that ends its value.
  ghost predicate EntryAt(data: seq<byte>, at: nat, key: seq<byte>, value: seq<byte>) {
    && WellFormedKeyValue(key, value)
    && at + |key| + 1 + |value| < |data|
    && data[at..at + |key|] == key && data[at + |key|] == EQUALS
    && data[at + |key| + 1..at + |key| + 1 + |value|] == value
    && !IsNvramChar(data[at + |key| + 1 + |value|])
  }

  lemma EntryPieces(data: seq<byte>, at: nat, key: seq<byte>, value: seq<byte>, trailer: seq<byte>)
    requires WellFormedKeyValue(key, value) && (trailer != [] ==> !IsNvramChar(trailer[0]))
    requires LineAt(data, at, key + [EQUALS] + value + trailer)
    ensures EntryAt(data, at, key, value)
    ensures LineAt(data, at + |key| + 1, value + trailer)
    ensures LineAt(data, at + |key| + 1 + |value|, trailer)
  {
    hide LineAt, WellFormedKeyValue, IsNvramChar;
    LineFeedEnds();
    var rest := value + trailer;
    ConcatAssoc(key + [EQUALS], value, trailer);
    ConcatAssoc(key, [EQUALS], rest);
    LineTail(data, at, key, [EQUALS] + rest);
    LineTail(data, at + |key|, [EQUALS], rest);
    LineTail(data, at + |key| + 1, value, trailer);
    FirstChar(data, at + |key|, [EQUALS] + rest);
    FirstChar(data, at + |key| + 1 + |value|, trailer);
  }

  lemma LineFeedEnds()
    ensures !IsNvramChar(LF)
  {
  }

  // At the `=` the parser knows what the key says.
  lemma ReadEquals(data: seq<byte>, n: nat, p: Parser, key: seq<byte>) returns (q: Parser)
    requires Sound(data, n, p) && p.state.Key? && p.pos == p.entry + |key| < n
    requires data[p.entry..p.pos] == key && data[p.pos] == EQUALS
    ensures Sound(data, n, q) && Run(data, n, p) == Run(data, n, q)
    ensures q == p.(state := if Keeps(key, p.stripMac) then Value else Comment, pos := p.pos + 1,
                    found := p.found.Or(Found(DEVPATH <= key, PCIE <= key, BOARDREV <= key)))
  {
    KeyPrefix(data, p.entry, key, RAW1);
    KeyPrefix(data, p.entry, key, MACADDR);
    KeyPrefix(data, p.entry, key, DEVPATH);
    KeyPrefix(data, p.entry, key, PCIE);
    KeyPrefix(data, p.entry, key, BOARDREV);
    KeyProgress(data, n, p);
    q := Handle(data, p);
  }

  lemma ReadKey(data: seq<byte>, n: nat, p: Parser, key: seq<byte>, value: seq<byte>) returns (q: Parser)
    requires Sound(data, n, p) && p.state.Idle? && |p.out| <= p.pos
    requires EntryAt(data, p.pos, key, value) && p.pos + |key| < n
    ensures Sound(data, n, q) && Run(data, n, p) == Run(data, n, q)
    ensures q == p.(state := if Keeps(key, p.stripMac) then Value else Comment,
                    pos := p.pos + |key| + 1, entry := p.pos,
                    found := p.found.Or(Found(DEVPATH <= key, PCIE <= key, BOARDREV <= key)))
  {
    hide Run, Sound, WellFormedKeyValue, StartsAt;
    KeyIsThere(data, p.pos, key, value);
    var p1 := EnterKey(data, n, p);
    ScanKey(data, n, p1, p.pos + |key|);
    SoundInKey(data, n, p1, p.pos + |key|);
    q := ReadEquals(data, n, p1.(pos := p.pos + |key|), key);
  }

  lemma KeyIsThere(data: seq<byte>, at: nat, key: seq<byte>, value: seq<byte>)
    requires EntryAt(data, at, key, value)
    ensures at + |key| < |data| && IsNvramChar(data[at]) && !IsWhitespace(data[at])
    ensures forall k :: at <= k < at + |key| ==> IsKeyChar(data[k])
  {
    KeyChars(data, at, key);
  }

  lemma EnterKey(data: seq<byte>, n: nat, p: Parser) returns (p1: Parser)
    requires Sound(data, n, p) && p.state.Idle? && |p.out| <= p.pos < n
    requires IsNvramChar(data[p.pos]) && !IsWhitespace(data[p.pos])
    ensures Sound(data, n, p1) && Run(data, n, p) == Run(data, n, p1) && p1 == p.(state := Key, entry := p.pos)
  {
    p1 := Handle(data, p);
    IdleProgress(data, n, p);
  }

  lemma SoundInKey(data: seq<byte>, n: nat, p: Parser, j: nat)
    requires Sound(data, n, p) && p.state.Key? && p.pos <= j <= n
    ensures Sound(data, n, p.(pos := j))
  {
  }

  // After the value the entry has been copied.
  lemma ReadValue(data: seq<byte>, n: nat, q: Parser, key: seq<byte>, value: seq<byte>) returns (r: Parser)
    requires Sound(data, n, q) && q.state.Value?
    requires EntryAt(data, q.entry, key, value)
    requires q.pos == q.entry + |key| + 1 && q.pos + |value| < n && q.pos + |value| + 1 < MAX_NVRAM_SIZE
    ensures Sound(data, n, r) && Run(data, n, q) == Run(data, n, r)
    ensures r == q.(state := Idle, pos := q.pos + |value|, out := q.out + (key + [EQUALS] + value + [NUL]))
  {
    hide Run, IsNvramChar;
    var end := q.pos + |value|;
    ValueChars(data, q.pos, value);
    ScanValue(data, n, q, end);
    var q1 := q.(pos := end);
    EntryText(data, q.entry, key, value);
    r := CopyValue(data, n, q1, key + [EQUALS] + value);
  }

  lemma EntryText(data: seq<byte>, at: nat, key: seq<byte>, value: seq<byte>)
    requires EntryAt(data, at, key, value)
    ensures data[at..at + |key| + 1 + |value|] == key + [EQUALS] + value
  {
    hide WellFormedKeyValue, IsNvramChar;
  }

  // At the end of a value its entry is copied.
  lemma CopyValue(data: seq<byte>, n: nat, q: Parser, e: seq<byte>) returns (r: Parser)
    requires Sound(data, n, q) && q.state.Value? && q.pos < n && q.pos + 1 < MAX_NVRAM_SIZE
    requires data[q.entry..q.pos] == e && !IsNvramChar(data[q.pos])
    ensures Sound(data, n, r) && Run(data, n, q) == Run(data, n, r)
    ensures r == q.(state := Idle, out := q.out + (e + [NUL]))
  {
    hide IsNvramChar;
    ValueProgress(data, n, q);
    r := Handle(data, q);
    ConcatAssoc(q.out, e, [NUL]);
  }

  // ---- lines ----

  // The parser, idle at the start of a line, has gone over it.
  ghost predicate Took(p: Parser, line: Line, p': Parser) {
    && p'.state.Idle? && p'.pos == p.pos + |Text(line)| + 1 && |p'.out| <= p'.pos
    && p'.stripMac == p.stripMac
    && p'.out == p.out + Kept(line, p.stripMac)
    && p'.found == p.found.Or(FoundIn(line))
  }

  ghost predicate TookEntry(p: Parser, key: seq<byte>, value: seq<byte>, trailing: nat, p': Parser) {
    && p'.state.Idle? && |p'.out| <= p'.pos == p.pos + |key| + 1 + |value| + trailing + 1
    && p'.stripMac == p.stripMac
    && p'.out == p.out + (if Keeps(key, p.stripMac) then key + [EQUALS] + value + [NUL] else [])
    && p'.found == p.found.Or(Found(DEVPATH <= key, PCIE <= key, BOARDREV <= key))
  }

  // The parser has read the key and its `=`.
  ghost predicate AfterEquals(data: seq<byte>, n: nat, p: Parser, key: seq<byte>, q: Parser) {
    && Sound(data, n, q) && |q.out| <= q.entry
    && q == p.(state := if Keeps(key, p.stripMac) then Value else Comment,
               pos := p.pos + |key| + 1, entry := p.pos,
               found := p.found.Or(Found(DEVPATH <= key, PCIE <= key, BOARDREV <= key)))
  }

  lemma SkipRest(data: seq<byte>, n: nat, p: Parser, q: Parser, key: seq<byte>, value: seq<byte>,
                 note: Option<seq<byte>>, crlf: bool) returns (p': Parser)
    requires AfterEquals(data, n, p, key, q) && !Keeps(key, p.stripMac)
    requires WellFormedKeyValue(key, value) && (note.Some? ==> OneLine(note.value))
    requires LineAt(data, q.pos, value + Trailer(note, crlf))
    requires q.pos + |value| + |Trailer(note, crlf)| < n
    ensures Sound(data, n, p') && Run(data, n, q) == Run(data, n, p')
    ensures TookEntry(p, key, value, |Trailer(note, crlf)|, p')
  {
    OneLineConcat(value, note, crlf);
    p' := EatLine(data, n, q, value + Trailer(note, crlf));
  }

  lemma CopyRest(data: seq<byte>, n: nat, p: Parser, q: Parser, key: seq<byte>, value: seq<byte>,
                 note: Option<seq<byte>>, crlf: bool) returns (p': Parser)
    requires AfterEquals(data, n, p, key, q) && Keeps(key, p.stripMac)
    requires EntryAt(data, p.pos, key, value) && (note.Some? ==> OneLine(note.value))
    requires LineAt(data, q.pos + |value|, Trailer(note, crlf))
    requires q.pos + |value| + |Trailer(note, crlf)| < n && q.pos + |value| + 1 < MAX_NVRAM_SIZE
    ensures Sound(data, n, p') && Run(data, n, q) == Run(data, n, p')
    ensures TookEntry(p, key, value, |Trailer(note, crlf)|, p')
  {
    hide Run, LineAt, EntryAt, OneLine, Keeps, WellFormedKeyValue, Trailer;
    var r := ReadValue(data, n, q, key, value);
    p' := EatTrailer(data, n, r, note, crlf);
  }

  lemma TakeEntry(data: seq<byte>, n: nat, p: Parser, key: seq<byte>, value: seq<byte>,
                  note: Option<seq<byte>>, crlf: bool) returns (p': Parser)
    requires Sound(data, n, p) && p.state.Idle? && |p.out| <= p.pos
    requires EntryAt(data, p.pos, key, value) && (note.Some? ==> OneLine(note.value))
    requires LineAt(data, p.pos + |key| + 1, value + Trailer(note, crlf))
    requires LineAt(data, p.pos + |key| + 1 + |value|, Trailer(note, crlf))
    requires p.pos + |key| + 1 + |value| + |Trailer(note, crlf)| < n
    requires p.pos + |key| + 2 + |value| < MAX_NVRAM_SIZE
    ensures Sound(data, n, p') && Run(data, n, p) == Run(data, n, p')
    ensures TookEntry(p, key, value, |Trailer(note, crlf)|, p')
  {
    hide Sound, Run, LineAt, EntryAt, OneLine, WellFormedKeyValue, Keeps, TookEntry;
    EntryParts(data, p.pos, key, value);
    var q := ReadKey(data, n, p, key, value);
    if Keeps(key, p.stripMac) {
      p' := CopyRest(data, n, p, q, key, value, note, crlf);
    } else {
      p' := SkipRest(data, n, p, q, key, value, note, crlf);
    }
  }

  lemma EntryParts(data: seq<byte>, at: nat, key: seq<byte>, value: seq<byte>)
    requires EntryAt(data, at, key, value)
    ensures WellFormedKeyValue(key, value)
  {
  }

  lemma OneLineConcat(value: seq<byte>, note: Option<seq<byte>>, crlf: bool)
    requires (forall c <- value :: IsNvramChar(c)) && (note.Some? ==> OneLine(note.value))
    ensures OneLine(value + Trailer(note, crlf))
  {
  }

  lemma TakeEntryLine(data: seq<byte>, n: nat, p: Parser, line: Line) returns (p': Parser)
    requires Sound(data, n, p) && p.state.Idle? && |p.out| <= p.pos && line.Entry?
    requires WellFormed(line) && LineAt(data, p.pos, Text(line))
    requires p.pos + |Text(line)| < n && p.pos + |Text(line)| + 1 < MAX_NVRAM_SIZE
    ensures Sound(data, n, p') && Run(data, n, p) == Run(data, n, p') && Took(p, line, p')
  {
    hide LineAt, Sound, Run, EntryAt;
    var t := Trailer(line.note, line.crlf);
    assert |Text(line)| == |line.key| + 1 + |line.value| + |t|;
    EntryPieces(data, p.pos, line.key, line.value, t);
    p' := TakeEntry(data, n, p, line.key, line.value, line.note, line.crlf);
  }

  lemma TakeBlank(data: seq<byte>, n: nat, p: Parser, line: Line) returns (p': Parser)
    requires Sound(data, n, p) && p.state.Idle? && |p.out| <= p.pos && line.Blank?
    requires WellFormed(line) && LineAt(data, p.pos, Text(line)) && p.pos + |Text(line)| < n
    ensures Sound(data, n, p') && Run(data, n, p) == Run(data, n, p') && Took(p, line, p')
  {
    hide Run, LineAt, IsWhitespace;
    assert line.space + [] == line.space;
    LineTail(data, p.pos, line.space, []);
    SpaceChars(data, p.pos, line.space);
    ScanSpace(data, n, p, p.pos + |line.space|);
    p' := EatLine(data, n, p.(pos := p.pos + |line.space|), []);
  }

  lemma TakeLine(data: seq<byte>, n: nat, p: Parser, line: Line) returns (p': Parser)
    requires Sound(data, n, p) && p.state.Idle? && |p.out| <= p.pos
    requires WellFormed(line) && LineAt(data, p.pos, Text(line))
    requires p.pos + |Text(line)| < n && p.pos + |Text(line)| + 1 < MAX_NVRAM_SIZE
    ensures Sound(data, n, p') && Run(data, n, p) == Run(data, n, p') && Took(p, line, p')
  {
    match line
    case Entry(_, _, _, _) => p' := TakeEntryLine(data, n, p, line);
    case Blank(_) => p' := TakeBlank(data, n, p, line);
    case Remark(text) => p' := EatLine(data, n, p, Text(line));
  }

  // The text of `lines` lies at `at`.
  ghost predicate PrintedAt(data: seq<byte>, at: nat, lines: seq<Line>) {
    at + |Print(lines)| <= |data| && data[at..at + |Print(lines)|] == Print(lines)
  }

  lemma FirstLine(data: seq<byte>, at: nat, lines: seq<Line>)
    requires PrintedAt(data, at, lines) && lines != []
    ensures LineAt(data, at, Text(lines[0]))
    ensures PrintedAt(data, at + |Text(lines[0])| + 1, lines[1..])
    ensures |Print(lines)| == |Text(lines[0])| + 1 + |Print(lines[1..])|
  {
    hide Print, Text, LineAt;
    PrintCons(lines);
    PrintPieces(data, at, Text(lines[0]), Print(lines[1..]));
  }

  lemma PrintCons(lines: seq<Line>)
    requires lines != []
    ensures Print(lines) == Text(lines[0]) + [LF] + Print(lines[1..])
  {
    hide Text;
  }

  ghost predicate TookAll(p: Parser, lines: seq<Line>, p': Parser) {
    && p'.state.Idle? && |p'.out| <= p'.pos == p.pos + |Print(lines)| && p'.stripMac == p.stripMac
    && p'.out == p.out + KeptAll(lines, p.stripMac)
    && p'.found == p.found.Or(FoundInAll(lines))
  }

  lemma TookMoves(p: Parser, line: Line, q: Parser)
    requires Took(p, line, q)
    ensures q.state.Idle? && |q.out| <= q.pos == p.pos + |Text(line)| + 1
  {
  }

  lemma TookNone(p: Parser, lines: seq<Line>)
    requires lines == [] && p.state.Idle? && |p.out| <= p.pos
    ensures TookAll(p, lines, p)
  {
    assert p.out + [] == p.out;
  }

  lemma TookCons(p: Parser, lines: seq<Line>, q: Parser, p': Parser)
    requires lines != [] && Took(p, lines[0], q) && TookAll(q, lines[1..], p')
    requires |Print(lines)| == |Text(lines[0])| + 1 + |Print(lines[1..])|
    ensures TookAll(p, lines, p')
  {
    ConcatAssoc(p.out, Kept(lines[0], p.stripMac), KeptAll(lines[1..], p.stripMac));
  }

  lemma {:induction false} TakeLines(data: seq<byte>, n: nat, p: Parser, lines: seq<Line>) returns (p': Parser)
    requires Sound(data, n, p) && p.state.Idle? && |p.out| <= p.pos
    requires forall line <- lines :: WellFormed(line)
    requires p.pos + |Print(lines)| <= n && p.pos + |Print(lines)| < MAX_NVRAM_SIZE
    requires PrintedAt(data, p.pos, lines)
    ensures Sound(data, n, p') && Run(data, n, p) == Run(data, n, p')
    ensures TookAll(p, lines, p')
    decreases |lines|
  {
    hide *;
    if lines == [] {
      p' := p;
      TookNone(p, lines);
    } else {
      FirstLine(data, p.pos, lines);
      var q := TakeLine(data, n, p, lines[0]);
      TookMoves(p, lines[0], q);
      p' := TakeLines(data, n, q, lines[1..]);
      TookCons(p, lines, q, p');
    }
  }

  // Whatever the lines, the parser's output is exactly the kept entries, in order, each
  // NUL-terminated, and its flags say which special keys occur.  The terminating NUL may
  // or may not be counted in the length.
  lemma RoundTrip(lines: seq<Line>, countNul: bool, stripMac: bool)
    requires forall line <- lines :: WellFormed(line)
    requires |Print(lines)| < MAX_NVRAM_SIZE
    ensures var data := Print(lines) + [NUL];
            var n := if countNul then |data| else |data| - 1;
            && Terminated(data, n)
            && var p := Parsed(data, n, stripMac);
               && p.out == KeptAll(lines, stripMac)
               && p.found == Found(AnyKey(lines, DEVPATH), AnyKey(lines, PCIE), AnyKey(lines, BOARDREV))
  {
    var text := Print(lines);
    var data := text + [NUL];
    var n := if countNul then |data| else |data| - 1;
    assert data[0..|text|] == text;
    var p := TakeLines(data, n, Start(stripMac), lines);
    FoundMeans(lines);
    if countNul {
      assert Handle(data, p) == p.(pos := p.pos + 1);
    }
  }

  // A text whose last line is an entry without a line feed.
  function Unfinished(lines: seq<Line>, key: seq<byte>, value: seq<byte>): seq<byte> {
    Print(lines) + (key + [EQUALS] + value + [NUL])
  }

  lemma UnfinishedPieces(lines: seq<Line>, key: seq<byte>, value: seq<byte>)
    requires WellFormedKeyValue(key, value)
    ensures var data := Unfinished(lines, key, value);
            PrintedAt(data, 0, lines) && EntryAt(data, |Print(lines)|, key, value)
            && |data| == |Print(lines)| + |key| + |value| + 2 && data[|data| - 1] == NUL
  {
    var data, at := Unfinished(lines, key, value), |Print(lines)|;
    var e := key + [EQUALS] + value + [NUL];
    hide Print, EntryAt;
    assert data[0..at] == Print(lines) && data[at..at + |e|] == e;
    EntryAlone(data, at, key, value);
  }

  lemma EntryAlone(data: seq<byte>, at: nat, key: seq<byte>, value: seq<byte>)
    requires WellFormedKeyValue(key, value)
    requires var e := key + [EQUALS] + value + [NUL]; at + |e| <= |data| && data[at..at + |e|] == e
    ensures EntryAt(data, at, key, value) && data[at + |key| + |value| + 1] == NUL
  {
    hide WellFormedKeyValue, IsNvramChar;
    var e := key + [EQUALS] + value + [NUL];
    AlonePieces(key, value);
    NulEnds();
    SliceOf(data, at, e, 0, |key|);
    SliceOf(data, at, e, |key|, |key| + 1);
    SliceOf(data, at, e, |key| + 1, |key| + 1 + |value|);
    SliceOf(data, at, e, |key| + 1 + |value|, |e|);
  }

  lemma AlonePieces(key: seq<byte>, value: seq<byte>)
    ensures var e := key + [EQUALS] + value + [NUL];
            && e[0..|key|] == key && e[|key|] == EQUALS
            && e[|key| + 1..|key| + 1 + |value|] == value && e[|key| + 1 + |value|] == NUL
  {
  }

  lemma NulEnds()
    ensures !IsNvramChar(NUL)
  {
  }

  // Such an entry is kept exactly when it would be with its line feed and the terminating NUL
  // is counted in the length; the lines before it are kept as always.
  lemma UnterminatedEntry(lines: seq<Line>, key: seq<byte>, value: seq<byte>, countNul: bool, stripMac: bool)
    requires (forall line <- lines :: WellFormed(line)) && WellFormedKeyValue(key, value)
    requires |Print(lines)| + |key| + |value| + 2 < MAX_NVRAM_SIZE
    ensures var data := Unfinished(lines, key, value);
            var n := if countNul then |data| else |data| - 1;
            && Terminated(data, n)
            && Parsed(data, n, stripMac).out
            == KeptAll(lines, stripMac)
               + if countNul && Keeps(key, stripMac) then key + [EQUALS] + value + [NUL] else []
  {
    hide LineAt, EntryAt, Print, KeptAll, WellFormedKeyValue, WellFormed, Keeps, Run, Unfinished;
    var data := Unfinished(lines, key, value);
    var n := if countNul then |data| else |data| - 1;
    UnfinishedPieces(lines, key, value);
    var p := TakeLines(data, n, Start(stripMac), lines);
    LastEntry(data, n, p, key, value);
  }

  lemma LastEntry(data: seq<byte>, n: nat, p: Parser, key: seq<byte>, value: seq<byte>)
    requires Sound(data, n, p) && p.state.Idle? && |p.out| <= p.pos && EntryAt(data, p.pos, key, value)
    requires |data| == p.pos + |key| + |value| + 2 && |data| < MAX_NVRAM_SIZE && |data| - 1 <= n <= |data|
    ensures Run(data, n, p).out
         == p.out + if n == |data| && Keeps(key, p.stripMac) then key + [EQUALS] + value + [NUL] else []
  {
    hide Sound, Run, Handle, Keeps;
    var q := ReadKey(data, n, p, key, value);
    ValuePlain(data, q.pos, value);
    if !Keeps(key, p.stripMac) {
      SkipToEnd(data, n, q);
    } else if n == |data| {
      var r := ReadValue(data, n, q, key, value);
      LastNul(data, n, r);
    } else {
      StopInValue(data, n, q);
    }
  }

  lemma ValuePlain(data: seq<byte>, at: nat, value: seq<byte>)
    requires at + |value| <= |data| && data[at..at + |value|] == value && forall c <- value :: IsNvramChar(c)
    ensures forall k :: at <= k < at + |value| ==> IsNvramChar(data[k]) && data[k] != LF && data[k] != NUL
  {
    ValueChars(data, at, value);
  }

  // The terminating NUL, if the parser gets to see it.
  lemma LastNul(data: seq<byte>, n: nat, r: Parser)
    requires Sound(data, n, r) && r.state.Idle? && r.pos == |data| - 1 && n == |data|
    ensures Run(data, n, r) == r.(pos := n)
  {
    assert Handle(data, r) == r.(pos := n);
  }

  // A value the text ends in is not copied.
  lemma StopInValue(data: seq<byte>, n: nat, q: Parser)
    requires Sound(data, n, q) && q.state.Value? && q.pos <= n
    requires forall k :: q.pos <= k < n ==> IsNvramChar(data[k])
    ensures Run(data, n, q).out == q.out
  {
    ScanValue(data, n, q, n);
  }

  lemma SkipToEnd(data: seq<byte>, n: nat, q: Parser)
    requires Sound(data, n, q) && q.state.Comment? && |data| - 1 <= n
    requires forall k :: q.pos <= k < |data| - 1 ==> data[k] != LF && data[k] != NUL
    ensures Run(data, n, q).out == q.out
  {
    if q.pos < n {
      EndOfLineUnique(data, q.pos, |data| - 1);
      Progress(data, n, q);
    }
  }

  // The allocation has no byte to spare: this text needs all of it.
  lemma AllocationTight(mac: Mac)
    ensures var data := [97, EQUALS, 98, NUL];
            Terminated(data, 4) && |Image(Body(Parsed(data, 4, true), mac))| == Allocation(4)
  {
    hide Parsed, Image, Body;
    SmallestText();
    var p := Parsed([97, EQUALS, 98, NUL], 4, true);
    BodySize(p, mac);
    ImageSize(Body(p, mac));
  }

  lemma SmallestText()
    ensures var data := [97, EQUALS, 98, NUL];
            && Terminated(data, 4)
            && var p := Parsed(data, 4, true); |p.out| == 4 && p.stripMac && !p.found.boardrev
  {
    var data := [97, EQUALS, 98, NUL];
    assert [97] + [EQUALS] + [98] + [NUL] == data;
    assert EntryAt(data, 0, [97], [98]);
    assert Sound(data, 4, Start(true));
    assert !(RAW1 <= [97]) && !(MACADDR <= [97]);
    hide Sound, Run, EntryAt;
    var q := ReadKey(data, 4, Start(true), [97], [98]);
    var r := ReadValue(data, 4, q, [97], [98]);
    LastNul(data, 4, r);
  }
}
