/**
 The compiler and the interpreter of formats as they work: over a list of commands that grows, and over
 a chunk in which the checker advances.
 */
module FormatChecker {
  import opened Wrappers
  import opened WireValues
  import opened MessageFormat
  import T = FormatText

  class Descriptor {
    var commands: seq<Command>

    constructor ()
      ensures commands == []
    {
      commands := [];
    }

    /** Compiles a format; false where the source asserts that the format is well formed. */
    method Build(format: string, subs: map<string, seq<Command>>) returns (ok: bool)
      requires commands == []
      modifies this
      ensures T.Build(format, subs, 0) == if ok then Some(commands) else None
    {
      var f := format;
      var brackets: seq<nat> := [];
      T.PrependNothing(commands, T.Build(f, subs, 0));
      while f != ""
        invariant T.Build(format, subs, 0) == T.Prepend(commands, T.Build(f, subs, |brackets|))
        decreases |f|
      {
        T.BuildStep(commands, f, subs, |brackets|);
        var t := T.Next(f, subs);
        if t.None? {
          return false;
        }
        if f[0] == '(' {
          brackets := brackets + [|commands|];
        } else if f[0] == ')' {
          if brackets == [] {
            return false;
          }
          brackets := brackets[..|brackets| - 1];
        }
        commands := commands + t.value.commands;
        f := t.value.rest;
      }
      T.PrependNothing(commands, None);
      ok := brackets == [];
    }
  }

  class Checker {
    var test: Test

    constructor ()
      ensures test == Test(4, 0, 0)
    {
      test := Test(4, 0, 0);
    }

    /** The commands of a group whose first bracket is at `pos` are stepped over, to the bracket that closes it. */
    method SkipGroup(commands: seq<Command>, pos: nat) returns (end: nat)
      requires pos < |commands|
      ensures end == Closing(commands, pos, 0)
    {
      var level: nat := 0;
      end := pos;
      while end < |commands|
        invariant end <= |commands| && Closing(commands, pos, 0) == Closing(commands, end, level)
      {
        if commands[end].Start? {
          level := level + 1;
        } else if commands[end].End? {
          if level <= 1 {
            break;
          }
          level := level - 1;
        }
        end := end + 1;
      }
    }

    /** The calls of a multiplier that repeats at least once. */
    method RepeatFormat(commands: seq<Command>, data: seq<byte>, pos: nat, repeat: nat) returns (ok: bool, ret: nat)
      requires repeat > 0 && pos <= |commands|
      modifies this
      ensures match Repeat(commands, data, pos, repeat, old(test))
        case Done(next, t) => ok && pos + ret == next && test == t
        case Failed(fault) => !ok
      decreases |commands| - pos, 1
    {
      var c := 0;
      ret, ok := 0, true;
      while c < repeat
        invariant 0 <= c <= repeat && ok
        invariant c < repeat ==>
          Repeat(commands, data, pos, repeat, old(test)) == Repeat(commands, data, pos, repeat - c, test)
        invariant c == repeat ==> Repeat(commands, data, pos, repeat, old(test)) == Done(pos + ret, test)
      {
        ok, ret := ParseFormat(commands, data, pos);
        if !ok {
          return;
        }
        c := c + 1;
      }
    }

    /** Checks a chunk against the commands from `pos` on; false where the source throws. */
    method ParseFormat(commands: seq<Command>, data: seq<byte>, pos: nat) returns (ok: bool, ret: nat)
      requires pos <= |commands|
      modifies this
      ensures match Call(commands, data, pos, old(test))
        case Done(next, t) => ok && pos + ret == next && test == t
        case Failed(fault) => !ok
      decreases |commands| - pos, 0
    {
      var p, last, fastUp := pos, 0, pos != 0;
      ok := true;
      while p < |commands|
        invariant pos <= p && ok
        invariant Call(commands, data, pos, old(test)) == Loop(commands, data, p, fastUp, last, test)
        decreases |commands| - p
      {
        match commands[p] {
          case Start => fastUp := false;
          case End => return true, p + 1 - pos;
          case Item(e) =>
            var c := Check(data, test, e, last);
            if c.Wrong? {
              return false, 0;
            }
            test, last := c.test, c.last;
          case Mul(count) =>
            var repeat := if count != -1 then count else last;
            if repeat > 0 {
              ok, ret := RepeatFormat(commands, data, p + 1, repeat);
              if !ok {
                return;
              }
              p := p + ret;
            } else if repeat == 0 && p + 1 < |commands| && commands[p + 1].Start? {
              p := SkipGroup(commands, p + 1);
            }
        }
        p := p + 1;
        if fastUp {
          return true, p - pos;
        }
      }
      ret := p - pos;
    }

    /** Checks a message from its number on; `escaped` where an exception escapes. */
    method TestMsg(formats: map<int, seq<Command>>, data: seq<byte>) returns (ok: bool, escaped: bool)
      modifies this
      ensures match TestMessage(formats, data)
        case Accepted(t) => ok && !escaped && test == t
        case Refused => !ok && !escaped
        case Escaped => !ok && escaped
    {
      test, ok, escaped := Test(4, 0, 0), false, false;
      var msg := CheckInteger(data, test, 4, true);
      if msg.Wrong? {
        escaped := true;
        return;
      }
      test := msg.test;
      if msg.last in formats {
        var ret;
        ok, ret := ParseFormat(formats[msg.last], data, 0);
      }
    }
  }
}
