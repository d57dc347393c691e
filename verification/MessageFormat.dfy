/**
 The format language of messages: the flat commands it is compiled to, the interpreter that checks a
 message against them, and what formats mean.
 */
module MessageFormat {
  import opened WireValues

  datatype Element =
    | Flag
    | Integer(width: nat, signed: bool)
    | Real(width: nat)
    | Text(limit: int)
    | Blob(limit: int)
    | Words(words: nat)
    | Flags(flags: nat)

  /** `repeat` is -1 for "as often as the last integer says". */
  datatype Command = Item(element: Element) | Start | End | Mul(repeat: int)

  datatype Fault = OutOfData | OutOfLimit

  /** How far a chunk is checked, and the byte of booleans being taken apart. */
  datatype Test = Test(offset: nat, bits: byte, count: byte)

  datatype Checked = Fine(test: Test, last: int) | Wrong(fault: Fault)

  // ----- checking one element -----

  const WORD := 0x1_0000_0000

  /** Steps over `n` bytes; offsets are 32-bit words and wrap around. */
  function Skip(data: seq<byte>, t: Test, n: nat, last: int): Checked {
    var next := (t.offset + n) % WORD;
    if next > |data| then Wrong(OutOfData) else Fine(t.(offset := next), last)
  }

  function ToInt32(v: int): int {
    FromWire(4, true, v % WORD)
  }

  /** An integer is the multiplier of what follows; its value is in `last`. */
  function CheckInteger(data: seq<byte>, t: Test, width: nat, signed: bool): Checked {
    if t.offset + width > |data| then Wrong(OutOfData)
    else
      var v := FromWire(width, signed, Value(data[t.offset..t.offset + width]));
      Fine(t.(offset := t.offset + width, count := 0), ToInt32(v))
  }

  function CheckFlag(data: seq<byte>, t: Test, last: int): Checked {
    if t.count > 0 then Fine(t.(count := t.count - 1), last)
    else if t.offset + 1 > |data| then Wrong(OutOfData)
    else Fine(Test(t.offset + 1, data[t.offset], 7), last)
  }

  function CheckFlags(data: seq<byte>, t: Test, n: nat, last: int): Checked {
    if n == 0 then Fine(t, last)
    else
      var first := CheckFlags(data, t, n - 1, last);
      if first.Wrong? then first else CheckFlag(data, first.test, last)
  }

  function CheckText(data: seq<byte>, t: Test, limit: int): Checked {
    var size := CheckInteger(data, t, 4, true);
    if size.Wrong? then size
    else if limit >= 0 && !(0 <= size.last <= limit) then Wrong(OutOfLimit)
    else Skip(data, size.test, size.last % WORD, size.last)
  }

  function CheckBlob(data: seq<byte>, t: Test, limit: int, last: int): Checked {
    var size := CheckInteger(data, t, 4, true);
    if size.Wrong? then size
    else
      var next := Skip(data, size.test, size.last % WORD, last);
      if next.Wrong? then next
      else if limit >= 0 && size.last % WORD > limit then Wrong(OutOfLimit)
      else next
  }

  /** Checks an element; integers and texts change the last integer read. */
  function Check(data: seq<byte>, t: Test, e: Element, last: int): Checked {
    match e
    case Flag => CheckFlag(data, t, last)
    case Integer(width, signed) => CheckInteger(data, t, width, signed)
    case Real(width) => Skip(data, t.(count := 0), width, last)
    case Text(limit) => CheckText(data, t, limit)
    case Blob(limit) => CheckBlob(data, t, limit, last)
    case Words(words) => Skip(data, t, 4 * words, last)
    case Flags(flags) => CheckFlags(data, t, flags, last)
  }

  /** Of any bytes at all, a text that is let through keeps its limit and ends inside the chunk. */
  lemma TextIsInside(data: seq<byte>, t: Test, limit: nat)
    requires CheckText(data, t, limit).Fine? && |data| + limit < WORD
    ensures var c := CheckText(data, t, limit);
      0 <= c.last <= limit && c.test.offset == t.offset + 4 + c.last <= |data| && c.test.count == 0
  {
  }

  /** Of any bytes at all, a block that is let through keeps its limit and ends inside the chunk. */
  lemma BlockIsInside(data: seq<byte>, t: Test, limit: nat, last: int)
    requires CheckBlob(data, t, limit, last).Fine? && |data| + limit < WORD
    ensures var c := CheckBlob(data, t, limit, last);
      c.last == last && t.offset + 4 <= c.test.offset <= t.offset + 4 + limit && c.test.offset <= |data|
  {
  }

  /** Offsets wrap around: behind a block without limit whose size passes 2^32, the check goes on in front of it. */
  lemma BlockWrapsAround(data: seq<byte>, t: Test, size: nat, last: int)
    requires t.offset + 4 <= |data| < WORD && CheckInteger(data, t, 4, true).last % WORD == size
    requires WORD <= t.offset + 4 + size
    ensures Check(data, t, Blob(-1), last) == Fine(Test(t.offset + 4 + size - WORD, t.bits, 0), last)
  {
    var next := t.offset + 4 + size - WORD;
    assert (t.offset + 4 + size) % WORD == next;
  }

  /** Words are four bytes each; booleans that are at hand stay at hand. */
  lemma WordsStepOver(data: seq<byte>, t: Test, words: nat, last: int)
    requires t.offset + 4 * words < WORD
    ensures var end := t.offset + words + words + words + words;
      Check(data, t, Words(words), last) == if end <= |data| then Fine(Test(end, t.bits, t.count), last)
        else Wrong(OutOfData)
  {
  }

  // ----- the interpreter -----

  datatype Parsed = Done(pos: nat, test: Test) | Failed(fault: Fault)

  /** The index of the end that closes the group in which `pos` is, `level` groups deep; past the end if none. */
  function Closing(commands: seq<Command>, pos: nat, level: nat): nat
    requires pos <= |commands|
    decreases |commands| - pos
  {
    if pos == |commands| then pos
    else if commands[pos].Start? then Closing(commands, pos + 1, level + 1)
    else if commands[pos].End? then if level <= 1 then pos else Closing(commands, pos + 1, level - 1)
    else Closing(commands, pos + 1, level)
  }

  lemma {:induction false} ClosingAhead(commands: seq<Command>, pos: nat, level: nat)
    requires pos <= |commands|
    ensures pos <= Closing(commands, pos, level) <= |commands|
    decreases |commands| - pos
  {
    if pos < |commands| {
      if commands[pos].Start? {
        ClosingAhead(commands, pos + 1, level + 1);
      } else if commands[pos].End? && level > 1 {
        ClosingAhead(commands, pos + 1, level - 1);
      } else if !commands[pos].End? {
        ClosingAhead(commands, pos + 1, level);
      }
    }
  }

  /** Where the interpreter is after a multiplier with nothing to repeat: a group is skipped, a bare element is not. */
  function AfterNone(commands: seq<Command>, pos: nat): (next: nat)
    requires pos < |commands|
    ensures next > pos
  {
    if pos + 1 < |commands| && commands[pos + 1].Start? then
      ClosingAhead(commands, pos + 1, 0);
      Closing(commands, pos + 1, 0) + 1
    else pos + 1
  }

  /** A call of the interpreter at `pos`: a single element or a group, except at the top, which runs to the end. */
  function Call(commands: seq<Command>, data: seq<byte>, pos: nat, t: Test): (r: Parsed)
    ensures r.Done? ==> r.pos >= pos
    decreases |commands| - pos, 2, 0
  {
    Loop(commands, data, pos, pos != 0, 0, t)
  }

  function Loop(commands: seq<Command>, data: seq<byte>, pos: nat, single: bool, last: int, t: Test): (r: Parsed)
    ensures r.Done? ==> r.pos >= pos
    decreases |commands| - pos, 1, 0
  {
    if pos >= |commands| then Done(pos, t)
    else
      match commands[pos]
      case Start => Loop(commands, data, pos + 1, false, last, t)
      case End => Done(pos + 1, t)
      case Item(e) =>
        var c := Check(data, t, e, last);
        if c.Wrong? then Failed(c.fault)
        else if single then Done(pos + 1, c.test)
        else Loop(commands, data, pos + 1, false, c.last, c.test)
      case Mul(repeat) =>
        var n := if repeat != -1 then repeat else last;
        var r := if n > 0 then Repeat(commands, data, pos + 1, n, t)
          else Done(if n == 0 then AfterNone(commands, pos) else pos + 1, t);
        if r.Failed? then r
        else if single then r
        else Loop(commands, data, r.pos, false, last, r.test)
  }

  /** `n` calls at `pos`; the last one tells where to go on. */
  function Repeat(commands: seq<Command>, data: seq<byte>, pos: nat, n: nat, t: Test): (r: Parsed)
    requires n > 0
    ensures r.Done? ==> r.pos >= pos
    decreases |commands| - pos, 3, n
  {
    if n == 1 then Call(commands, data, pos, t)
    else
      var r := Call(commands, data, pos, t);
      if r.Failed? then r else Repeat(commands, data, pos, n - 1, r.test)
  }

  // ----- a whole message -----

  /** A message too short for its number is not refused: the exception of the checker escapes. */
  datatype Verdict = Accepted(test: Test) | Refused | Escaped

  /** A message starts with its number, which selects its format. */
  function TestMessage(formats: map<int, seq<Command>>, data: seq<byte>): Verdict {
    var id := CheckInteger(data, Test(4, 0, 0), 4, true);
    if id.Wrong? then Escaped
    else if id.last !in formats then Refused
    else
      match Call(formats[id.last], data, 0, id.test)
      case Done(pos, test) => Accepted(test)
      case Failed(fault) => Refused
  }

  /** A message too short for its number escapes, and one whose number has no format is refused. */
  lemma NumberDecides(formats: map<int, seq<Command>>, data: seq<byte>)
    ensures |data| < 8 ==> TestMessage(formats, data) == Escaped
    ensures |data| >= 8 && ToInt32(Value(data[4..8])) !in formats ==> TestMessage(formats, data) == Refused
  {
    if |data| >= 8 {
      NumberRead(data[4..8]);
    }
  }

  lemma NumberRead(s: seq<byte>)
    requires |s| == 4
    ensures ToInt32(FromWire(4, true, Value(s))) == ToInt32(Value(s))
  {
    assert Power(4) == WORD;
    ValueBounded(s);
  }
}
