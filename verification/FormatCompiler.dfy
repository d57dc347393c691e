/**
 What formats mean, and that the commands they compile to are interpreted to mean that.

 A format is a sequence of elements, named sub-formats, and multiplied groups and elements.
 */
module FormatCompiler {
  import opened WireValues
  import opened MessageFormat

  /** `count` is -1 for `*`, which repeats as often as the last integer of the same level says. */
  datatype Format =
    | Empty
    | One(element: Element, rest: Format)
    | Sub(name: string, body: Format, rest: Format)
    | Group(count: int, body: Format, rest: Format)
    | Bare(count: int, element: Element, rest: Format)

  function Compile(f: Format): seq<Command> {
    match f
    case Empty => []
    case One(e, rest) => [Item(e)] + Compile(rest)
    case Sub(name, body, rest) => Compile(body) + Compile(rest)
    case Group(count, body, rest) => ([Mul(count), Start] + Compile(body) + [End]) + Compile(rest)
    case Bare(count, e, rest) => [Mul(count), Item(e)] + Compile(rest)
  }

  // ----- what a format means -----

  /** `Broken` is the meaning where a multiplier is negative, or zero in front of a bare element. */
  datatype Meaning = Reads(test: Test, last: int) | Rejects(fault: Fault) | Broken

  function Times(count: int, last: int): int {
    if count != -1 then count else last
  }

  /** Reads a format once; the multiplier inside a group starts anew, and is not seen outside. */
  function Read(f: Format, data: seq<byte>, t: Test, last: int): Meaning
    decreases f, 0, 0
  {
    match f
    case Empty => Reads(t, last)
    case One(e, rest) =>
      var c := Check(data, t, e, last);
      if c.Wrong? then Rejects(c.fault) else Read(rest, data, c.test, c.last)
    case Sub(name, body, rest) =>
      var m := Read(body, data, t, last);
      if m.Reads? then Read(rest, data, m.test, m.last) else m
    case Group(count, body, rest) =>
      var n := Times(count, last);
      if n < 0 then Broken
      else
        var m := ReadTimes(body, data, t, n);
        if m.Reads? then Read(rest, data, m.test, last) else m
    case Bare(count, e, rest) =>
      var n := Times(count, last);
      if n <= 0 then Broken
      else
        var c := CheckTimes(e, data, t, n);
        if c.Wrong? then Rejects(c.fault) else Read(rest, data, c.test, last)
  }

  function ReadTimes(body: Format, data: seq<byte>, t: Test, n: nat): Meaning
    decreases body, 1, n
  {
    if n == 0 then Reads(t, 0)
    else
      var m := Read(body, data, t, 0);
      if m.Reads? then ReadTimes(body, data, m.test, n - 1) else m
  }

  function CheckTimes(e: Element, data: seq<byte>, t: Test, n: nat): Checked
    decreases n
  {
    if n == 0 then Fine(t, 0)
    else
      var c := Check(data, t, e, 0);
      if c.Wrong? then c else CheckTimes(e, data, c.test, n - 1)
  }

  // ----- commands in place -----

  /** The commands of a format stand at `pos`. */
  ghost predicate At(commands: seq<Command>, pos: nat, part: seq<Command>) {
    pos + |part| <= |commands| && commands[pos..pos + |part|] == part
  }

  lemma AtParts(commands: seq<Command>, pos: nat, a: seq<Command>, b: seq<Command>)
    requires At(commands, pos, a + b)
    ensures At(commands, pos, a) && At(commands, pos + |a|, b)
  {
    assert commands[pos..pos + |a|] == commands[pos..pos + |a + b|][..|a|] == a;
    assert commands[pos + |a|..pos + |a| + |b|] == commands[pos..pos + |a + b|][|a|..] == b;
  }

  lemma AtOne(commands: seq<Command>, pos: nat, c: Command)
    requires At(commands, pos, [c])
    ensures pos < |commands| && commands[pos] == c
  {
    assert commands[pos] == commands[pos..pos + 1][0];
  }

  /** The positions of the parts of a multiplied group. */
  lemma AtGroup(commands: seq<Command>, pos: nat, f: Format)
    requires f.Group? && At(commands, pos, Compile(f))
    ensures var n := |Compile(f.body)|;
      && pos + n + 3 <= |commands| && commands[pos] == Mul(f.count) && commands[pos + 1] == Start
      && At(commands, pos + 2, Compile(f.body)) && commands[pos + 2 + n] == End
      && At(commands, pos + 3 + n, Compile(f.rest)) && |Compile(f)| == n + 3 + |Compile(f.rest)|
  {
    var body := Compile(f.body);
    AtParts(commands, pos, [Mul(f.count), Start] + body + [End], Compile(f.rest));
    AtParts(commands, pos, [Mul(f.count), Start] + body, [End]);
    AtParts(commands, pos, [Mul(f.count), Start], body);
    AtOne(commands, pos + 2 + |body|, End);
    assert commands[pos..pos + 2][0] == commands[pos] && commands[pos..pos + 2][1] == commands[pos + 1];
  }

  lemma AtSub(commands: seq<Command>, pos: nat, f: Format)
    requires f.Sub? && At(commands, pos, Compile(f))
    ensures At(commands, pos, Compile(f.body)) && At(commands, pos + |Compile(f.body)|, Compile(f.rest))
    ensures |Compile(f)| == |Compile(f.body)| + |Compile(f.rest)|
  {
    AtParts(commands, pos, Compile(f.body), Compile(f.rest));
  }

  lemma AtBare(commands: seq<Command>, pos: nat, f: Format)
    requires f.Bare? && At(commands, pos, Compile(f))
    ensures pos + 2 <= |commands| && commands[pos] == Mul(f.count) && commands[pos + 1] == Item(f.element)
    ensures At(commands, pos + 2, Compile(f.rest)) && |Compile(f)| == 2 + |Compile(f.rest)|
  {
    AtParts(commands, pos, [Mul(f.count), Item(f.element)], Compile(f.rest));
    assert commands[pos..pos + 2][0] == commands[pos] && commands[pos..pos + 2][1] == commands[pos + 1];
  }

  // ----- skipping -----

  lemma ClosingItem(commands: seq<Command>, pos: nat, level: nat)
    requires pos < |commands| && (commands[pos].Item? || commands[pos].Mul?)
    ensures Closing(commands, pos, level) == Closing(commands, pos + 1, level)
  {
  }

  lemma {:induction false} ClosingOverGroup(commands: seq<Command>, pos: nat, f: Format, level: nat)
    requires f.Group? && level > 0 && At(commands, pos, Compile(f))
    ensures Closing(commands, pos, level) == Closing(commands, pos + 3 + |Compile(f.body)|, level)
    decreases f, 0
  {
    AtGroup(commands, pos, f);
    ClosingItem(commands, pos, level);
    ClosingOver(commands, pos + 2, f.body, level + 1);
  }

  lemma {:induction false} ClosingOverSub(commands: seq<Command>, pos: nat, f: Format, level: nat)
    requires f.Sub? && level > 0 && At(commands, pos, Compile(f))
    ensures Closing(commands, pos, level) == Closing(commands, pos + |Compile(f)|, level)
    decreases f, 0
  {
    AtParts(commands, pos, Compile(f.body), Compile(f.rest));
    ClosingOver(commands, pos, f.body, level);
    ClosingOver(commands, pos + |Compile(f.body)|, f.rest, level);
  }

  /** The commands of a format up to the rest: for a bare element and a single one, none of them is a bracket. */
  lemma ClosingOverHead(commands: seq<Command>, pos: nat, f: Format, level: nat)
    requires (f.One? || f.Bare?) && At(commands, pos, Compile(f))
    ensures var n := if f.One? then 1 else 2;
      && Closing(commands, pos, level) == Closing(commands, pos + n, level)
      && At(commands, pos + n, Compile(f.rest)) && |Compile(f)| == n + |Compile(f.rest)|
  {
    if f.One? {
      AtParts(commands, pos, [Item(f.element)], Compile(f.rest));
      AtOne(commands, pos, Item(f.element));
    } else {
      AtBare(commands, pos, f);
      ClosingItem(commands, pos + 1, level);
    }
    ClosingItem(commands, pos, level);
  }

  /** The brackets of a compiled format match: none is closed that was not opened in it. */
  lemma {:induction false} ClosingOver(commands: seq<Command>, pos: nat, f: Format, level: nat)
    requires level > 0 && At(commands, pos, Compile(f))
    ensures Closing(commands, pos, level) == Closing(commands, pos + |Compile(f)|, level)
    decreases f, 1
  {
    match f
    case Empty =>
    case One(e, rest) =>
      ClosingOverHead(commands, pos, f, level);
      ClosingOver(commands, pos + 1, rest, level);
    case Sub(name, body, rest) => ClosingOverSub(commands, pos, f, level);
    case Group(count, body, rest) =>
      AtGroup(commands, pos, f);
      ClosingOverGroup(commands, pos, f, level);
      ClosingOver(commands, pos + 3 + |Compile(body)|, rest, level);
    case Bare(count, e, rest) =>
      ClosingOverHead(commands, pos, f, level);
      ClosingOver(commands, pos + 2, rest, level);
  }

  /** A group that is not repeated at all is skipped whole, whatever is nested in it. */
  lemma GroupIsSkipped(commands: seq<Command>, pos: nat, f: Format)
    requires f.Group? && At(commands, pos, Compile(f))
    ensures AfterNone(commands, pos) == pos + 3 + |Compile(f.body)|
  {
    AtGroup(commands, pos, f);
    ClosingOver(commands, pos + 2, f.body, 1);
  }

  // ----- the interpreter reads what the format means -----

  /** What running a part of the commands comes to: going on behind it, or failing. */
  predicate Continues(m: Meaning, r: Parsed, commands: seq<Command>, data: seq<byte>, next: nat) {
    match m
    case Reads(t, last) => r == Loop(commands, data, next, false, last, t)
    case Rejects(fault) => r == Failed(fault)
    case Broken => true
  }

  predicate Ends(m: Meaning, r: Parsed, next: nat) {
    match m
    case Reads(t, last) => r == Done(next, t)
    case Rejects(fault) => r == Failed(fault)
    case Broken => true
  }

  lemma {:induction false} RepeatReads(commands: seq<Command>, data: seq<byte>, pos: nat, body: Format, n: nat, t: Test)
    requires 0 < pos < |commands| && commands[pos] == Start && At(commands, pos + 1, Compile(body)) && n > 0
    requires pos + 1 + |Compile(body)| < |commands| && commands[pos + 1 + |Compile(body)|] == End
    ensures Ends(ReadTimes(body, data, t, n), Repeat(commands, data, pos, n, t), pos + 2 + |Compile(body)|)
    decreases body, 3, n
  {
    var size := |Compile(body)|;
    LoopReads(commands, data, pos + 1, body, 0, t);
    assert Call(commands, data, pos, t) == Loop(commands, data, pos + 1, false, 0, t);
    var m := Read(body, data, t, 0);
    if m.Reads? {
      assert Loop(commands, data, pos + 1 + size, false, m.last, m.test) == Done(pos + 2 + size, m.test);
      if n == 1 {
        assert ReadTimes(body, data, m.test, 0) == Reads(m.test, 0);
      } else {
        RepeatReads(commands, data, pos, body, n - 1, m.test);
      }
    }
  }

  lemma {:induction false} RepeatChecks(commands: seq<Command>, data: seq<byte>, pos: nat, e: Element, n: nat, t: Test)
    requires 0 < pos < |commands| && commands[pos] == Item(e) && n > 0
    ensures var c := CheckTimes(e, data, t, n);
      Repeat(commands, data, pos, n, t) == if c.Wrong? then Failed(c.fault) else Done(pos + 1, c.test)
    decreases n
  {
    var c := Check(data, t, e, 0);
    assert Call(commands, data, pos, t) == if c.Wrong? then Failed(c.fault) else Done(pos + 1, c.test);
    if c.Fine? {
      if n == 1 {
        assert CheckTimes(e, data, c.test, 0) == Fine(c.test, 0);
      } else {
        RepeatChecks(commands, data, pos, e, n - 1, c.test);
      }
    }
  }

  lemma StepItem(commands: seq<Command>, data: seq<byte>, pos: nat, e: Element, last: int, t: Test)
    requires pos < |commands| && commands[pos] == Item(e)
    ensures var c := Check(data, t, e, last);
      Loop(commands, data, pos, false, last, t) ==
        if c.Wrong? then Failed(c.fault) else Loop(commands, data, pos + 1, false, c.last, c.test)
  {
  }

  lemma StepBare(commands: seq<Command>, data: seq<byte>, pos: nat, count: int, e: Element, last: int, t: Test)
    requires pos + 1 < |commands| && commands[pos] == Mul(count) && commands[pos + 1] == Item(e) &&
      Times(count, last) > 0
    ensures var c := CheckTimes(e, data, t, Times(count, last));
      Loop(commands, data, pos, false, last, t) ==
        if c.Wrong? then Failed(c.fault) else Loop(commands, data, pos + 2, false, last, c.test)
  {
    RepeatChecks(commands, data, pos + 1, e, Times(count, last), t);
  }

  lemma {:induction false} GroupReads(commands: seq<Command>, data: seq<byte>, pos: nat, f: Format, last: int, t: Test)
    requires f.Group? && At(commands, pos, Compile(f)) && Times(f.count, last) >= 0
    ensures var m := ReadTimes(f.body, data, t, Times(f.count, last));
      Continues(if m.Reads? then Reads(m.test, last) else m, Loop(commands, data, pos, false, last, t), commands, data,
                pos + 3 + |Compile(f.body)|)
    decreases f, 0
  {
    AtGroup(commands, pos, f);
    var n := Times(f.count, last);
    if n == 0 {
      GroupIsSkipped(commands, pos, f);
    } else {
      RepeatReads(commands, data, pos + 1, f.body, n, t);
    }
  }

  /** What a sub-format means, with what follows it. */
  lemma SubMeans(f: Format, data: seq<byte>, t: Test, last: int)
    requires f.Sub?
    ensures var m := Read(f.body, data, t, last);
      Read(f, data, t, last) == if m.Reads? then Read(f.rest, data, m.test, m.last) else m
  {
  }

  /** Going on behind one part, and then behind the next. */
  lemma GoesOn(m: Meaning, r: Parsed, mid: Parsed, commands: seq<Command>, data: seq<byte>, next: nat)
    requires Continues(m, mid, commands, data, next) && r == mid
    ensures Continues(m, r, commands, data, next)
  {
  }

  /** If running went on behind the sub-format, and from there behind the rest, it goes on behind both. */
  lemma SubGoesOn(f: Format, data: seq<byte>, t: Test, last: int, r: Parsed, commands: seq<Command>, mid: nat,
                  next: nat)
    requires f.Sub? && Continues(Read(f.body, data, t, last), r, commands, data, mid)
    requires var m := Read(f.body, data, t, last);
      m.Reads? ==>
        Continues(Read(f.rest, data, m.test, m.last), Loop(commands, data, mid, false, m.last, m.test), commands, data,
          next)
    ensures Continues(Read(f, data, t, last), r, commands, data, next)
  {
    SubMeans(f, data, t, last);
  }

  /** Running the commands of a sub-format goes on behind them. */
  lemma {:induction false} BodyReads(commands: seq<Command>, data: seq<byte>, pos: nat, f: Format, last: int, t: Test)
    returns (m: Meaning, mid: nat)
    requires f.Sub? && At(commands, pos, Compile(f))
    ensures m == Read(f.body, data, t, last) && mid + |Compile(f.rest)| == pos + |Compile(f)|
    ensures At(commands, mid, Compile(f.rest))
    ensures Continues(m, Loop(commands, data, pos, false, last, t), commands, data, mid)
    decreases f, 0
  {
    AtSub(commands, pos, f);
    LoopReads(commands, data, pos, f.body, last, t);
    m, mid := Read(f.body, data, t, last), pos + |Compile(f.body)|;
  }

  lemma {:induction false} SubReads(commands: seq<Command>, data: seq<byte>, pos: nat, f: Format, last: int, t: Test)
    requires f.Sub? && At(commands, pos, Compile(f))
    ensures Continues(Read(f, data, t, last), Loop(commands, data, pos, false, last, t), commands, data,
      pos + |Compile(f)|)
    decreases f, 1
  {
    var m, mid := BodyReads(commands, data, pos, f, last, t);
    if m.Reads? {
      LoopReads(commands, data, mid, f.rest, m.last, m.test);
    }
    SubGoesOn(f, data, t, last, Loop(commands, data, pos, false, last, t), commands, mid, pos + |Compile(f)|);
  }

  /** What a multiplied group means, with what follows it. */
  lemma GroupMeans(f: Format, data: seq<byte>, t: Test, last: int)
    requires f.Group?
    ensures var n := Times(f.count, last);
      if n < 0 then Read(f, data, t, last) == Broken
      else
        var m := ReadTimes(f.body, data, t, n);
        Read(f, data, t, last) == if m.Reads? then Read(f.rest, data, m.test, last) else m
  {
  }

  lemma {:induction false} GroupAndRestReads(commands: seq<Command>, data: seq<byte>, pos: nat, f: Format, last: int,
                                             t: Test)
    requires f.Group? && At(commands, pos, Compile(f))
    ensures Continues(Read(f, data, t, last), Loop(commands, data, pos, false, last, t), commands, data,
      pos + |Compile(f)|)
    decreases f, 1
  {
    AtGroup(commands, pos, f);
    GroupMeans(f, data, t, last);
    var mid := pos + 3 + |Compile(f.body)|;
    var next := mid + |Compile(f.rest)|;
    assert next == pos + |Compile(f)|;
    if Times(f.count, last) >= 0 {
      GroupReads(commands, data, pos, f, last, t);
      var m := ReadTimes(f.body, data, t, Times(f.count, last));
      if m.Reads? {
        LoopReads(commands, data, mid, f.rest, last, m.test);
        GoesOn(Read(f, data, t, last), Loop(commands, data, pos, false, last, t),
          Loop(commands, data, mid, false, last, m.test),
               commands, data, next);
      }
    }
  }

  /** Wherever the commands of a format stand, running them reads what the format means. */
  lemma {:induction false} LoopReads(commands: seq<Command>, data: seq<byte>, pos: nat, f: Format, last: int, t: Test)
    requires At(commands, pos, Compile(f))
    ensures Continues(Read(f, data, t, last), Loop(commands, data, pos, false, last, t), commands, data,
      pos + |Compile(f)|)
    decreases f, 2
  {
    match f
    case Empty =>
    case One(e, rest) =>
      AtParts(commands, pos, [Item(e)], Compile(rest));
      AtOne(commands, pos, Item(e));
      StepItem(commands, data, pos, e, last, t);
      var c := Check(data, t, e, last);
      if c.Fine? {
        LoopReads(commands, data, pos + 1, rest, c.last, c.test);
      }
    case Sub(name, body, rest) => SubReads(commands, data, pos, f, last, t);
    case Group(count, body, rest) => GroupAndRestReads(commands, data, pos, f, last, t);
    case Bare(count, e, rest) =>
      AtBare(commands, pos, f);
      if Times(count, last) > 0 {
        StepBare(commands, data, pos, count, e, last, t);
        var c := CheckTimes(e, data, t, Times(count, last));
        if c.Fine? {
          LoopReads(commands, data, pos + 2, rest, last, c.test);
        }
      }
  }

  /** A message is accepted exactly if its format reads it, and exactly the bytes the format reads are checked. */
  lemma CompiledReads(f: Format, data: seq<byte>, t: Test)
    ensures Ends(Read(f, data, t, 0), Call(Compile(f), data, 0, t), |Compile(f)|)
  {
    LoopReads(Compile(f), data, 0, f, 0, t);
  }

  // ----- multipliers that do not mean what they say -----

  /** The multiplier is passed over, and the element is checked once. */
  lemma BareOnce(commands: seq<Command>, data: seq<byte>, pos: nat, f: Format, last: int, t: Test)
    returns (c: Checked, mid: nat)
    requires f.Bare? && At(commands, pos, Compile(f)) && Times(f.count, last) <= 0
    ensures c == Check(data, t, f.element, last)
    ensures At(commands, mid, Compile(f.rest)) && mid + |Compile(f.rest)| == pos + |Compile(f)|
    ensures Loop(commands, data, pos, false, last, t) ==
      if c.Wrong? then Failed(c.fault) else Loop(commands, data, mid, false, c.last, c.test)
  {
    AtBare(commands, pos, f);
    assert Loop(commands, data, pos, false, last, t) == Loop(commands, data, pos + 1, false, last, t);
    StepItem(commands, data, pos + 1, f.element, last, t);
    c, mid := Check(data, t, f.element, last), pos + 2;
  }

  /** A bare element multiplied by zero or less is not skipped: it is read once, like an element of its own. */
  lemma NoneReadsBareElement(commands: seq<Command>, data: seq<byte>, pos: nat, f: Format, last: int, t: Test)
    requires f.Bare? && At(commands, pos, Compile(f)) && Times(f.count, last) <= 0
    ensures Continues(Read(One(f.element, f.rest), data, t, last), Loop(commands, data, pos, false, last, t),
                      commands, data, pos + |Compile(f)|)
  {
    var c, mid := BareOnce(commands, data, pos, f, last, t);
    if c.Fine? {
      LoopReads(commands, data, mid, f.rest, c.last, c.test);
    }
  }

  /** "i*c" on a message that ends with the integer 0: nothing is to be repeated, and yet it is rejected. */
  lemma ZeroRejectsAtEnd(data: seq<byte>, t: Test)
    requires t.offset + 4 == |data| < WORD && Value(data[t.offset..]) == 0
    ensures var f := One(Integer(4, true), Bare(-1, Integer(1, true), Empty));
      Call(Compile(f), data, 0, t) == Failed(OutOfData)
  {
    var e, f := Integer(4, true), Bare(-1, Integer(1, true), Empty);
    var commands := Compile(One(e, f));
    assert data[t.offset..t.offset + 4] == data[t.offset..];
    AtParts(commands, 0, [Item(e)], Compile(f));
    StepItem(commands, data, 0, e, 0, t);
    var c := Check(data, t, e, 0);
    NoneReadsBareElement(commands, data, 1, f, c.last, c.test);
  }

  /** The bracket behind a negative multiplier is passed over, and the commands of the group are run. */
  lemma GroupOnce(commands: seq<Command>, data: seq<byte>, pos: nat, f: Format, last: int, t: Test)
    returns (m: Meaning, end: nat)
    requires f.Group? && At(commands, pos, Compile(f)) && Times(f.count, last) < 0
    ensures m == Read(f.body, data, t, last) && end == pos + 2 + |Compile(f.body)|
    ensures end < |commands| && commands[end] == End
    ensures Continues(m, Loop(commands, data, pos, false, last, t), commands, data, end)
  {
    AtGroup(commands, pos, f);
    LoopReads(commands, data, pos + 2, f.body, last, t);
    m, end := Read(f.body, data, t, last), pos + 2 + |Compile(f.body)|;
    NegativeSteps(commands, data, pos, f.count, last, t);
    GoesOn(m, Loop(commands, data, pos, false, last, t), Loop(commands, data, pos + 2, false, last, t),
           commands, data, end);
  }

  lemma NegativeSteps(commands: seq<Command>, data: seq<byte>, pos: nat, count: int, last: int, t: Test)
    requires pos + 1 < |commands| && commands[pos] == Mul(count) && commands[pos + 1] == Start && Times(count, last) < 0
    ensures Loop(commands, data, pos, false, last, t) == Loop(commands, data, pos + 2, false, last, t)
  {
    assert Loop(commands, data, pos, false, last, t) == Loop(commands, data, pos + 1, false, last, t);
  }

  /**
   A group with a negative multiplier is read once, and the call ends with it: whatever follows in the
   format is not checked, and the message is accepted.
   */
  lemma NegativeEndsTheCall(commands: seq<Command>, data: seq<byte>, pos: nat, f: Format, last: int, t: Test)
    requires f.Group? && At(commands, pos, Compile(f)) && Times(f.count, last) < 0
    ensures var m := Read(f.body, data, t, last);
      Ends(m, Loop(commands, data, pos, false, last, t), pos + 3 + |Compile(f.body)|)
  {
    var m, end := GroupOnce(commands, data, pos, f, last, t);
    if m.Reads? {
      assert Loop(commands, data, end, false, m.last, m.test) == Done(end + 1, m.test);
    }
  }

  /**
   "i*(c)I" on a message that ends with the integer -1 and one byte: the last eight bytes are
   missing, and yet it is accepted.
   */
  lemma NegativeAcceptsShort(data: seq<byte>, t: Test)
    requires t.offset + 5 == |data| < WORD && data[t.offset..t.offset + 4] == [0xFF, 0xFF, 0xFF, 0xFF]
    ensures var f := One(Integer(4, true), Group(-1, One(Integer(1, true), Empty), One(Integer(8, true), Empty)));
      Call(Compile(f), data, 0, t).Done?
  {
    var e, body := Integer(4, true), One(Integer(1, true), Empty);
    var g := Group(-1, body, One(Integer(8, true), Empty));
    var commands := Compile(One(e, g));
    assert Value([0xFF, 0xFF, 0xFF, 0xFF]) == 0xFFFF_FFFF && Power(4) == WORD;
    AtParts(commands, 0, [Item(e)], Compile(g));
    StepItem(commands, data, 0, e, 0, t);
    var c := Check(data, t, e, 0);
    assert c.last == -1;
    NegativeEndsTheCall(commands, data, 1, g, c.last, c.test);
    assert Read(Empty, data, Check(data, c.test, Integer(1, true), -1).test,
      Check(data, c.test, Integer(1, true), -1).last).Reads?;
  }

  // ----- formats whose multipliers mean what they say -----

  /** Whether the last integer cannot be negative behind an element, if it could not be before. */
  function Fed(e: Element, fed: bool): bool {
    match e
    case Integer(width, signed) => !signed && width <= 2
    case Text(limit) => limit >= 0
    case _ => fed
  }

  function FedBehind(f: Format, fed: bool): bool {
    match f
    case Empty => fed
    case One(e, rest) => FedBehind(rest, Fed(e, fed))
    case Sub(name, body, rest) => FedBehind(rest, FedBehind(body, fed))
    case Group(count, body, rest) => FedBehind(rest, fed)
    case Bare(count, e, rest) => FedBehind(rest, fed)
  }

  /**
   Multipliers of bare elements are positive numbers, and those of groups are numbers or follow an integer
   that cannot be negative: a text of limited length, or an unsigned integer of at most two bytes.
   */
  predicate Steady(f: Format, fed: bool) {
    match f
    case Empty => true
    case One(e, rest) => Steady(rest, Fed(e, fed))
    case Sub(name, body, rest) => Steady(body, fed) && Steady(rest, FedBehind(body, fed))
    case Group(count, body, rest) => (count >= 0 || (count == -1 && fed)) && Steady(body, true) && Steady(rest, fed)
    case Bare(count, e, rest) => count > 0 && Steady(rest, fed)
  }

  lemma SmallIsNotNegative(data: seq<byte>, t: Test, width: nat)
    requires width <= 2
    ensures var c := CheckInteger(data, t, width, false); c.Fine? ==> c.last >= 0
  {
    if t.offset + width <= |data| {
      var s := data[t.offset..t.offset + width];
      ValueBounded(s);
      assert Power(0) == 1 && Power(1) == 256 && Power(2) == 65536 && Power(4) == WORD;
      assert Power(width) <= 65536;
    }
  }

  lemma FedIsNotNegative(e: Element, data: seq<byte>, t: Test, last: int, fed: bool)
    requires fed ==> last >= 0
    ensures var c := Check(data, t, e, last); c.Fine? && Fed(e, fed) ==> c.last >= 0
  {
    match e
    case Integer(width, signed) =>
      if !signed && width <= 2 {
        SmallIsNotNegative(data, t, width);
      }
    case Flags(flags) => FlagsKeepLast(data, t, flags, last);
    case _ =>
  }

  lemma {:induction false} FlagsKeepLast(data: seq<byte>, t: Test, n: nat, last: int)
    ensures var c := CheckFlags(data, t, n, last); c.Fine? ==> c.last == last
  {
    if n > 0 {
      FlagsKeepLast(data, t, n - 1, last);
    }
  }

  lemma {:induction false} SteadyTimesNeverBroken(body: Format, data: seq<byte>, t: Test, n: nat)
    requires Steady(body, true)
    ensures !ReadTimes(body, data, t, n).Broken?
    decreases body, 1, n
  {
    if n > 0 {
      SteadyNeverBroken(body, data, t, 0, true);
      var m := Read(body, data, t, 0);
      if m.Reads? {
        SteadyTimesNeverBroken(body, data, m.test, n - 1);
      }
    }
  }

  /** Such a format always reads or rejects. */
  lemma {:induction false} SteadyNeverBroken(f: Format, data: seq<byte>, t: Test, last: int, fed: bool)
    requires Steady(f, fed) && (fed ==> last >= 0)
    ensures var m := Read(f, data, t, last); !m.Broken? && (m.Reads? && FedBehind(f, fed) ==> m.last >= 0)
    decreases f, 0, 0
  {
    match f
    case Empty =>
    case One(e, rest) =>
      FedIsNotNegative(e, data, t, last, fed);
      var c := Check(data, t, e, last);
      if c.Fine? {
        SteadyNeverBroken(rest, data, c.test, c.last, Fed(e, fed));
      }
    case Sub(name, body, rest) =>
      SteadyNeverBroken(body, data, t, last, fed);
      var m := Read(body, data, t, last);
      if m.Reads? {
        SteadyNeverBroken(rest, data, m.test, m.last, FedBehind(body, fed));
      }
    case Group(count, body, rest) =>
      var n: nat := Times(count, last);
      SteadyTimesNeverBroken(body, data, t, n);
      var m := ReadTimes(body, data, t, n);
      if m.Reads? {
        SteadyNeverBroken(rest, data, m.test, last, fed);
      }
    case Bare(count, e, rest) =>
      var c := CheckTimes(e, data, t, count);
      if c.Fine? {
        SteadyNeverBroken(rest, data, c.test, last, fed);
      }
  }

  /** The commands of such a format accept a message exactly if the format reads it, and reject it otherwise. */
  lemma SteadyAcceptsExactly(f: Format, data: seq<byte>, t: Test)
    requires Steady(f, true)
    ensures var m, r := Read(f, data, t, 0), Call(Compile(f), data, 0, t);
      if m.Reads? then r == Done(|Compile(f)|, m.test) else m.Rejects? && r == Failed(m.fault)
  {
    CompiledReads(f, data, t);
    SteadyNeverBroken(f, data, t, 0, true);
  }
}
