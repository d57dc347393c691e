/**
 The text of a format, and how it is compiled: balanced commands, or a refusal.
 */
module FormatText {
  import opened Wrappers
  import opened Numbers
  import opened Sequences
  import opened WireValues
  import opened MessageFormat
  import opened FormatCompiler

  // ----- compiling -----

  datatype Token = Token(commands: seq<Command>, rest: string)

  function Before(s: string, c: char): (n: nat)
    ensures n <= |s| && (n < |s| ==> s[n] == c)
  {
    if s == "" || s[0] == c then 0 else 1 + Before(s[1..], c)
  }

  /** A number in square brackets. */
  function Limit(s: string): (l: Option<(nat, string)>)
    ensures l.Some? ==> |l.value.1| < |s|
  {
    if s == "" || s[0] != '[' then None
    else
      var n := Digits(s[1..]);
      var rest := s[1..][n..];
      if rest == "" || rest[0] != ']' then None else Some((Number(s[1..][..n]), rest[1..]))
  }

  predicate Bracketed(s: string) {
    s != "" && s[0] == '['
  }

  /** An element without limits; ranges are refused. */
  function Plain(e: Option<Element>, rest: string): (t: Option<Token>)
    ensures t.Some? ==> t.value.rest == rest
  {
    if e.None? || Bracketed(rest) then None else Some(Token([Item(e.value)], rest))
  }

  function UnsignedElement(c: char): Option<Element> {
    match c
    case 'c' => Some(Integer(1, false))
    case 's' => Some(Integer(2, false))
    case 'i' => Some(Integer(4, false))
    case 'I' => Some(Integer(8, false))
    case _ => None
  }

  function PlainElement(c: char): Option<Element> {
    match c
    case 'b' => Some(Flag)
    case 'c' => Some(Integer(1, true))
    case 's' => Some(Integer(2, true))
    case 'i' => Some(Integer(4, true))
    case 'I' => Some(Integer(8, true))
    case 'f' => Some(Real(4))
    case 'd' => Some(Real(8))
    case _ => None
  }

  predicate IsLimited(c: char) {
    c == 't' || c == 'o' || c == 'e' || c == 'r'
  }

  function LimitedElement(c: char, limit: nat): Element {
    if c == 't' then Text(limit) else if c == 'o' then Blob(limit) else if c == 'e' then Flags(limit) else Words(limit)
  }

  /** An element whose limit may be given; without one, texts and blocks are unlimited, and there is one word. */
  function Limited(c: char, rest: string): (t: Option<Token>)
    ensures t.Some? ==> |t.value.rest| <= |rest|
  {
    if Bracketed(rest) then
      var l := Limit(rest);
      if l.None? then None else Some(Token([Item(LimitedElement(c, l.value.0))], l.value.1))
    else if c == 'e' then None
    else Some(Token([Item(if c == 't' then Text(-1) else if c == 'o' then Blob(-1) else Words(1))], rest))
  }

  predicate IsBlank(c: char) {
    c == ' ' || c == '-' || c == '_' || c == '+'
  }

  function AfterComment(rest: string): (t: Option<Token>)
    ensures t.Some? ==> |t.value.rest| <= |rest|
  {
    var n := Before(rest, '/');
    if n == |rest| then None else Some(Token([], rest[n + 1..]))
  }

  /** The commands of a sub-format take the place of its name. */
  function Named(rest: string, subs: map<string, seq<Command>>): (t: Option<Token>)
    ensures t.Some? ==> |t.value.rest| <= |rest|
  {
    var n := Before(rest, '>');
    if n == |rest| || rest[..n] !in subs || subs[rest[..n]] == [] then None
    else Some(Token(subs[rest[..n]], rest[n + 1..]))
  }

  /** A count is kept as a 32-bit integer. */
  function Multiplier(s: string): (t: Token)
    requires s != "" && IsDigit(s[0])
    ensures |t.rest| < |s|
  {
    Token([Mul(ToInt32(Number(s[..Digits(s)])))], s[Digits(s)..])
  }

  /** The first token of a text, and the rest. */
  function Next(s: string, subs: map<string, seq<Command>>): (t: Option<Token>)
    requires s != ""
    ensures t.Some? ==> |t.value.rest| < |s|
  {
    var c, rest := s[0], s[1..];
    if '1' <= c <= '9' then Some(Multiplier(s))
    else if IsBlank(c) then Some(Token([], rest))
    else if c == '/' then AfterComment(rest)
    else if c == '<' then Named(rest, subs)
    else if c == '(' then Some(Token([Start], rest))
    else if c == ')' then Some(Token([End], rest))
    else if c == '*' || c == 'x' then Some(Token([Mul(-1)], rest))
    else if c == 'u' || c == 'U' then if rest == "" then None else Plain(UnsignedElement(rest[0]), rest[1..])
    else if IsLimited(c) then Limited(c, rest)
    else Plain(PlainElement(c), rest)
  }

  function Change(s: string): int
    requires s != ""
  {
    if s[0] == '(' then 1 else if s[0] == ')' then -1 else 0
  }

  function Prepend(a: seq<Command>, b: Option<seq<Command>>): Option<seq<Command>> {
    if b.None? then None else Some(a + b.value)
  }

  /** Compiles the rest of a text of which `open` brackets are not closed yet. */
  function Build(s: string, subs: map<string, seq<Command>>, open: nat): Option<seq<Command>>
    decreases |s|
  {
    if s == "" then if open == 0 then Some([]) else None
    else
      var t := Next(s, subs);
      if t.None? || (s[0] == ')' && open == 0) then None
      else
        Prepend(t.value.commands, Build(t.value.rest, subs, open + Change(s)))
  }

  // ----- brackets match -----

  /** How many groups are open after some commands, if none was closed that was not open. */
  function Depth(commands: seq<Command>, open: nat): Option<nat> {
    if commands == [] then Some(open)
    else if commands[0].Start? then Depth(commands[1..], open + 1)
    else if commands[0].End? then if open == 0 then None else Depth(commands[1..], open - 1)
    else Depth(commands[1..], open)
  }

  predicate Balanced(commands: seq<Command>) {
    Depth(commands, 0) == Some(0)
  }

  lemma {:induction false} DepthConcat(a: seq<Command>, b: seq<Command>, open: nat)
    ensures Depth(a + b, open) == if Depth(a, open).None? then None else Depth(b, Depth(a, open).value)
    decreases |a|
  {
    if a == [] {
      assert a + b == b;
    } else {
      assert (a + b)[1..] == a[1..] + b;
      if a[0].Start? {
        DepthConcat(a[1..], b, open + 1);
      } else if a[0].End? {
        if open > 0 {
          DepthConcat(a[1..], b, open - 1);
        }
      } else {
        DepthConcat(a[1..], b, open);
      }
    }
  }

  lemma {:induction false} DepthShift(a: seq<Command>, open: nat, more: nat)
    requires Depth(a, open).Some?
    ensures Depth(a, open + more) == Some(Depth(a, open).value + more)
    decreases |a|
  {
    if a != [] {
      if a[0].Start? {
        DepthShift(a[1..], open + 1, more);
      } else if a[0].End? {
        DepthShift(a[1..], open - 1, more);
      } else {
        DepthShift(a[1..], open, more);
      }
    }
  }

  predicate AllBalanced(subs: map<string, seq<Command>>) {
    forall name | name in subs :: Balanced(subs[name])
  }

  lemma DepthOfOne(commands: seq<Command>, open: nat)
    requires |commands| == 1 && (commands[0].End? ==> open > 0)
    ensures Depth(commands, open) ==
      Some(if commands[0].Start? then open + 1 else if commands[0].End? then open - 1 else open)
  {
    assert commands[1..] == [];
  }

  /** Any token but a sub-format is at most one command, and a bracket only where one is written. */
  lemma NextIsOne(s: string, subs: map<string, seq<Command>>)
    requires s != "" && Next(s, subs).Some? && s[0] != '<'
    ensures var commands := Next(s, subs).value.commands;
      && |commands| <= 1 && (Change(s) != 0 ==> commands != [])
      && (commands != [] ==> Change(s) == if commands[0].Start? then 1 else if commands[0].End? then -1 else 0)
      && (commands != [] ==> (commands[0].End? <==> s[0] == ')'))
  {
  }

  lemma NextDepth(s: string, subs: map<string, seq<Command>>, open: nat)
    requires s != "" && AllBalanced(subs) && Next(s, subs).Some? && (s[0] == ')' ==> open > 0)
    ensures Depth(Next(s, subs).value.commands, open) == Some(open + Change(s))
  {
    var commands := Next(s, subs).value.commands;
    if s[0] == '<' {
      DepthShift(commands, 0, open);
    } else {
      NextIsOne(s, subs);
      if commands != [] {
        DepthOfOne(commands, open);
      }
    }
  }

  /** The first token of a text that compiles, and how many brackets are open behind it. */
  lemma FirstToken(s: string, subs: map<string, seq<Command>>, open: nat) returns (t: Token, level: nat)
    requires s != "" && AllBalanced(subs) && Build(s, subs, open).Some?
    ensures |t.rest| < |s| && Build(t.rest, subs, level).Some?
    ensures Build(s, subs, open).value == t.commands + Build(t.rest, subs, level).value
    ensures Depth(t.commands, open) == Some(level)
  {
    t := Next(s, subs).value;
    NextDepth(s, subs, open);
    level := open + Change(s);
  }

  /** Whatever compiles, compiles to commands whose brackets match. */
  lemma {:induction false} BuildIsBalanced(s: string, subs: map<string, seq<Command>>, open: nat)
    requires AllBalanced(subs) && Build(s, subs, open).Some?
    ensures Depth(Build(s, subs, open).value, open) == Some(0)
    decreases |s|
  {
    if s != "" {
      var t, level := FirstToken(s, subs, open);
      BuildIsBalanced(t.rest, subs, level);
      DepthConcat(t.commands, Build(t.rest, subs, level).value, open);
    }
  }

  // ----- letter by letter -----

  /** Integers are signed by themselves. */
  lemma SignedLetters(rest: string, subs: map<string, seq<Command>>)
    requires !Bracketed(rest)
    ensures Next("c" + rest, subs) == Some(Token([Item(Integer(1, true))], rest))
    ensures Next("s" + rest, subs) == Some(Token([Item(Integer(2, true))], rest))
    ensures Next("i" + rest, subs) == Some(Token([Item(Integer(4, true))], rest))
    ensures Next("I" + rest, subs) == Some(Token([Item(Integer(8, true))], rest))
  {
  }

  /** Booleans and real numbers. */
  lemma PlainLetters(rest: string, subs: map<string, seq<Command>>)
    requires !Bracketed(rest)
    ensures Next("b" + rest, subs) == Some(Token([Item(Flag)], rest))
    ensures Next("f" + rest, subs) == Some(Token([Item(Real(4))], rest))
    ensures Next("d" + rest, subs) == Some(Token([Item(Real(8))], rest))
  {
  }

  /** Without a limit, texts and blocks are unlimited, there is one word, and bit sets are refused. */
  lemma UnlimitedLetters(rest: string, subs: map<string, seq<Command>>)
    requires !Bracketed(rest)
    ensures Next("t" + rest, subs) == Some(Token([Item(Text(-1))], rest))
    ensures Next("o" + rest, subs) == Some(Token([Item(Blob(-1))], rest))
    ensures Next("r" + rest, subs) == Some(Token([Item(Words(1))], rest))
    ensures Next("e" + rest, subs) == None
  {
  }

  /** An integer is unsigned behind a `u` of either case. */
  lemma UnsignedLetters(u: char, rest: string, subs: map<string, seq<Command>>)
    requires (u == 'u' || u == 'U') && !Bracketed(rest)
    ensures Next([u] + ("c" + rest), subs) == Some(Token([Item(Integer(1, false))], rest))
    ensures Next([u] + ("s" + rest), subs) == Some(Token([Item(Integer(2, false))], rest))
    ensures Next([u] + ("i" + rest), subs) == Some(Token([Item(Integer(4, false))], rest))
    ensures Next([u] + ("I" + rest), subs) == Some(Token([Item(Integer(8, false))], rest))
  {
    assert ("c" + rest)[1..] == ("s" + rest)[1..] == ("i" + rest)[1..] == ("I" + rest)[1..] == rest;
  }

  /** Four characters mean nothing, two stand for a count that was read, two are brackets. */
  lemma OtherCharacters(c: char, rest: string, subs: map<string, seq<Command>>)
    ensures c in " -_+" ==> Next([c] + rest, subs) == Some(Token([], rest))
    ensures c in "*x" ==> Next([c] + rest, subs) == Some(Token([Mul(-1)], rest))
    ensures Next("(" + rest, subs) == Some(Token([Start], rest)) && Next(")" + rest, subs) == Some(Token([End], rest))
    ensures c !in "123456789 -_+/<()*xuUbcsiIfdtoer" ==> Next([c] + rest, subs) == None
  {
    assert ([c] + rest)[1..] == rest;
  }

  /** A range behind an element is refused. */
  lemma RangesRefused(c: char, rest: string, subs: map<string, seq<Command>>)
    requires c in "bcsiIfd" && Bracketed(rest)
    ensures Next([c] + rest, subs) == None
  {
    assert ([c] + rest)[1..] == rest;
  }

  lemma {:induction false} BeforeAll(a: string, c: char)
    requires c !in a
    ensures Before(a, c) == |a|
  {
    if a != "" {
      BeforeAll(a[1..], c);
    }
  }

  lemma AroundOne(a: string, c: char, rest: string)
    ensures (a + ([c] + rest))[..|a|] == a && (a + ([c] + rest))[|a| + 1..] == rest
  {
  }

  lemma BeforeEnd(a: string, c: char, rest: string)
    requires c !in a
    ensures Before(a, c) == |a| && Before(a + ([c] + rest), c) == |a|
    ensures (a + ([c] + rest))[..|a|] == a && (a + ([c] + rest))[|a| + 1..] == rest
  {
    BeforeConcat(a, c, rest);
    BeforeAll(a, c);
    Associative(a, [c], rest);
    AroundOne(a, c, rest);
  }

  lemma Behind(c: char, rest: string)
    ensures ([c] + rest)[0] == c && ([c] + rest)[1..] == rest
  {
  }

  /** A comment ends at the next slash; without one, the text is refused. */
  lemma Comments(comment: string, rest: string, subs: map<string, seq<Command>>)
    requires '/' !in comment
    ensures Next(['/'] + (comment + (['/'] + rest)), subs) == Some(Token([], rest))
    ensures Next(['/'] + comment, subs) == None
  {
    BeforeEnd(comment, '/', rest);
    Behind('/', comment);
    Behind('/', comment + (['/'] + rest));
  }

  /** A name that is not closed, unknown, or that of an empty format is refused. */
  lemma NamesRefused(name: string, rest: string, subs: map<string, seq<Command>>)
    requires '>' !in name
    ensures Next(['<'] + name, subs) == None
    ensures name !in subs || subs[name] == [] ==> Next(['<'] + (name + (['>'] + rest)), subs) == None
  {
    BeforeEnd(name, '>', rest);
    Behind('<', name);
    Behind('<', name + (['>'] + rest));
  }

  /** A limit that is not closed behind its digits is refused. */
  lemma LimitsAreClosed(c: char, digits: string, rest: string, subs: map<string, seq<Command>>)
    requires c in "toer" && AllDigits(digits) && !StartsWithDigit(rest) && (rest == "" || rest[0] != ']')
    ensures Next([c] + (['['] + (digits + rest)), subs) == None
  {
    DigitsOfConcat(digits, rest);
    Behind(c, ['['] + (digits + rest));
    Behind('[', digits + rest);
    assert (digits + rest)[|digits|..] == rest;
  }

  // ----- a format as text -----

  function InBrackets(n: nat): string {
    "[" + Decimal(n) + "]"
  }

  function IntegerText(width: nat, signed: bool): string {
    var letter := if width == 1 then "c" else if width == 2 then "s" else if width == 4 then "i" else "I";
    if signed then letter else "u" + letter
  }

  function ElementText(e: Element): string {
    match e
    case Flag => "b"
    case Integer(width, signed) => IntegerText(width, signed)
    case Real(width) => if width == 4 then "f" else "d"
    case Text(limit) => if limit >= 0 then "t" + InBrackets(limit) else "t"
    case Blob(limit) => if limit >= 0 then "o" + InBrackets(limit) else "o"
    case Words(words) => "r" + InBrackets(words)
    case Flags(flags) => "e" + InBrackets(flags)
  }

  function CountText(count: int): string {
    if count >= 0 then Decimal(count) else "*"
  }

  function Written(f: Format): string {
    match f
    case Empty => ""
    case One(e, rest) => ElementText(e) + Written(rest)
    case Sub(name, body, rest) => "<" + name + ">" + Written(rest)
    case Group(count, body, rest) => CountText(count) + "(" + Written(body) + ")" + Written(rest)
    case Bare(count, e, rest) => CountText(count) + ElementText(e) + Written(rest)
  }

  /** Numbers below fit a 32-bit integer. */
  const LIMIT := 0x8000_0000

  predicate Writable(e: Element) {
    match e
    case Integer(width, signed) => width == 1 || width == 2 || width == 4 || width == 8
    case Real(width) => width == 4 || width == 8
    case Text(limit) => -1 <= limit < LIMIT
    case Blob(limit) => -1 <= limit < LIMIT
    case Words(words) => words < LIMIT
    case Flags(flags) => flags < LIMIT
    case _ => true
  }

  /** `*`, or a positive number that fits a 32-bit integer. */
  predicate IsCount(count: int) {
    count == -1 || 0 < count < LIMIT
  }

  /** Formats that can be written down: counts are `*` or at least 1, and sub-formats are known. */
  predicate Wellformed(f: Format, subs: map<string, seq<Command>>) {
    match f
    case Empty => true
    case One(e, rest) => Writable(e) && Wellformed(rest, subs)
    case Sub(name, body, rest) =>
      '>' !in name && name in subs && subs[name] == Compile(body) != [] && Wellformed(rest, subs)
    case Group(count, body, rest) => IsCount(count) && Wellformed(body, subs) && Wellformed(rest, subs)
    case Bare(count, e, rest) => IsCount(count) && Writable(e) && Wellformed(rest, subs)
  }

  // ----- compiling what was written -----

  lemma {:induction false} BeforeConcat(a: string, c: char, s: string)
    requires c !in a
    ensures Before(a + [c] + s, c) == |a|
  {
    if a == "" {
      assert a + [c] + s == [c] + s;
    } else {
      assert (a + [c] + s)[1..] == a[1..] + [c] + s;
      BeforeConcat(a[1..], c, s);
    }
  }

  lemma LimitOfBrackets(n: nat, s: string)
    ensures Limit(InBrackets(n) + s) == Some((n, s))
  {
    var all := InBrackets(n) + s;
    DecimalNumber(n);
    assert all[1..] == Decimal(n) + ("]" + s);
    DigitsOfConcat(Decimal(n), "]" + s);
    assert all[1..][..|Decimal(n)|] == Decimal(n) && all[1..][|Decimal(n)|..] == "]" + s;
    assert ("]" + s)[1..] == s;
  }

  lemma NextInteger(width: nat, signed: bool, s: string, subs: map<string, seq<Command>>)
    requires Writable(Integer(width, signed)) && !Bracketed(s)
    ensures Next(IntegerText(width, signed) + s, subs) == Some(Token([Item(Integer(width, signed))], s))
  {
    var letter := IntegerText(width, true);
    assert (letter + s)[1..] == s && (letter + s)[0] == letter[0];
    if signed {
      assert PlainElement(letter[0]) == Some(Integer(width, true));
    } else {
      assert UnsignedElement(letter[0]) == Some(Integer(width, false));
      assert (("u" + letter) + s)[1..] == letter + s;
    }
  }

  lemma NextLimited(c: char, n: nat, s: string, subs: map<string, seq<Command>>)
    requires IsLimited(c)
    ensures Next([c] + InBrackets(n) + s, subs) == Some(Token([Item(LimitedElement(c, n))], s))
  {
    var all := [c] + InBrackets(n) + s;
    assert all[1..] == InBrackets(n) + s;
    LimitOfBrackets(n, s);
  }

  lemma NextUnlimited(c: char, s: string, subs: map<string, seq<Command>>)
    requires (c == 't' || c == 'o') && !Bracketed(s)
    ensures Next([c] + s, subs) == Some(Token([Item(if c == 't' then Text(-1) else Blob(-1))], s))
  {
    assert ([c] + s)[1..] == s;
  }

  lemma NextPlain(letter: string, e: Element, s: string, subs: map<string, seq<Command>>)
    requires letter == "b" || letter == "f" || letter == "d"
    requires PlainElement(letter[0]) == Some(e) && !Bracketed(s)
    ensures Next(letter + s, subs) == Some(Token([Item(e)], s))
  {
    var c := letter[0];
    assert letter == [c] && (c == 'b' || c == 'f' || c == 'd');
    assert (letter + s)[0] == c && (letter + s)[1..] == s;
    assert !IsBlank(c) && !IsLimited(c) && c > '9';
    assert Plain(PlainElement(c), s) == Some(Token([Item(e)], s));
  }

  /** No element is written with a bracket or a digit in front. */
  lemma ElementStarts(e: Element, s: string)
    ensures var all := ElementText(e) + s;
      all != "" && Change(all) == 0 && !StartsWithDigit(all) && !Bracketed(all)
  {
    assert (ElementText(e) + s)[0] == ElementText(e)[0];
  }

  /** An element is compiled to itself, whatever follows that is not a limit. */
  lemma NextElement(e: Element, s: string, subs: map<string, seq<Command>>)
    requires Writable(e) && !Bracketed(s)
    ensures Next(ElementText(e) + s, subs) == Some(Token([Item(e)], s))
  {
    match e
    case Flag => NextPlain("b", Flag, s, subs);
    case Integer(width, signed) => NextInteger(width, signed, s, subs);
    case Real(width) => NextPlain(if width == 4 then "f" else "d", e, s, subs);
    case Text(limit) =>
      if limit >= 0 {
        NextLimited('t', limit, s, subs);
      } else {
        NextUnlimited('t', s, subs);
      }
    case Blob(limit) =>
      if limit >= 0 {
        NextLimited('o', limit, s, subs);
      } else {
        NextUnlimited('o', s, subs);
      }
    case Words(words) => NextLimited('r', words, s, subs);
    case Flags(flags) => NextLimited('e', flags, s, subs);
  }

  lemma MultiplierOfDigits(digits: string, s: string)
    requires AllDigits(digits) && digits != "" && !StartsWithDigit(s)
    ensures (digits + s)[0] == digits[0] && Multiplier(digits + s) == Token([Mul(ToInt32(Number(digits)))], s)
  {
    DigitsOfConcat(digits, s);
    assert (digits + s)[..|digits|] == digits && (digits + s)[|digits|..] == s;
  }

  lemma NextOfDigit(all: string, subs: map<string, seq<Command>>)
    requires all != "" && '1' <= all[0] <= '9'
    ensures Next(all, subs) == Some(Multiplier(all)) && Change(all) == 0 && !Bracketed(all)
  {
  }

  lemma NextOfDigits(digits: string, s: string, all: string, subs: map<string, seq<Command>>)
    requires AllDigits(digits) && digits != "" && '1' <= digits[0] <= '9' && !StartsWithDigit(s) && all == digits + s
    ensures Next(all, subs) == Some(Token([Mul(ToInt32(Number(digits)))], s)) && Change(all) == 0 && !Bracketed(all)
  {
    MultiplierOfDigits(digits, s);
    NextOfDigit(all, subs);
  }

  /** Whatever number stands for a count, its lowest 32 bits count. */
  lemma NextNumber(n: nat, s: string, subs: map<string, seq<Command>>)
    requires n > 0 && !StartsWithDigit(s)
    ensures var all := Decimal(n) + s;
      Next(all, subs) == Some(Token([Mul(ToInt32(n))], s)) && Change(all) == 0 && !Bracketed(all)
  {
    DecimalNumber(n);
    assert IsDigit(Decimal(n)[0]);
    NextOfDigits(Decimal(n), s, Decimal(n) + s, subs);
  }

  /** So 4294967295 is the same as `*`. */
  lemma LargestCountIsStar(s: string, subs: map<string, seq<Command>>)
    requires !StartsWithDigit(s)
    ensures Next(Decimal(0xFFFF_FFFF) + s, subs) == Next("*" + s, subs)
  {
    NextNumber(0xFFFF_FFFF, s, subs);
    assert Power(4) == WORD;
    assert ("*" + s)[1..] == s;
  }

  lemma CountIsKept(n: nat)
    requires n < LIMIT
    ensures ToInt32(n) == n
  {
    assert Power(4) == WORD;
  }

  lemma NextCount(count: int, s: string, subs: map<string, seq<Command>>)
    requires IsCount(count) && !StartsWithDigit(s)
    ensures var all := CountText(count) + s;
      Next(all, subs) == Some(Token([Mul(count)], s)) && Change(all) == 0 && !Bracketed(all)
  {
    if count == -1 {
      assert ("*" + s)[1..] == s;
    } else {
      NextNumber(count, s, subs);
      CountIsKept(count);
    }
  }

  lemma NextSub(name: string, s: string, subs: map<string, seq<Command>>)
    requires '>' !in name && name in subs && subs[name] != []
    ensures var all := "<" + name + ">" + s;
      Next(all, subs) == Some(Token(subs[name], s)) && Change(all) == 0 && !Bracketed(all)
  {
    var all := "<" + name + ">" + s;
    assert all[1..] == name + ">" + s;
    BeforeConcat(name, '>', s);
    assert (name + ">" + s)[..|name|] == name && (name + ">" + s)[|name| + 1..] == s;
  }

  lemma BuildNext(all: string, commands: seq<Command>, s: string, subs: map<string, seq<Command>>, open: nat)
    requires all != "" && Next(all, subs) == Some(Token(commands, s)) && Change(all) == 0
    ensures Build(all, subs, open) == Prepend(commands, Build(s, subs, open))
  {
  }

  lemma BuildOpen(s: string, subs: map<string, seq<Command>>, open: nat)
    ensures Build("(" + s, subs, open) == Prepend([Start], Build(s, subs, open + 1))
  {
    assert ("(" + s)[1..] == s;
  }

  lemma BuildClose(s: string, subs: map<string, seq<Command>>, open: nat)
    ensures Build(")" + s, subs, open + 1) == Prepend([End], Build(s, subs, open))
  {
    assert (")" + s)[1..] == s;
  }

  lemma PrependTwice(a: seq<Command>, b: seq<Command>, c: Option<seq<Command>>)
    ensures Prepend(a, Prepend(b, c)) == Prepend(a + b, c)
  {
    if c.Some? {
      assert a + (b + c.value) == (a + b) + c.value;
    }
  }

  lemma PrependNothing(a: seq<Command>, b: Option<seq<Command>>)
    ensures Prepend([], b) == b && Prepend(a, Some([])) == Some(a)
  {
    assert a + [] == a;
    if b.Some? {
      assert [] + b.value == b.value;
    }
  }

  /** Compiling one token more. */
  lemma BuildStep(commands: seq<Command>, s: string, subs: map<string, seq<Command>>, open: nat)
    requires s != ""
    ensures var t := Next(s, subs);
      Prepend(commands, Build(s, subs, open)) ==
        if t.None? || (s[0] == ')' && open == 0) then None
        else Prepend(commands + t.value.commands, Build(t.value.rest, subs, open + Change(s)))
  {
    var t := Next(s, subs);
    if t.Some? && !(s[0] == ')' && open == 0) {
      PrependTwice(commands, t.value.commands, Build(t.value.rest, subs, open + Change(s)));
    }
  }

  lemma {:induction false} WrittenNotBracketed(f: Format, s: string, subs: map<string, seq<Command>>)
    requires Wellformed(f, subs) && !Bracketed(s)
    ensures !Bracketed(Written(f) + s)
  {
    match f
    case Empty => assert Written(f) + s == s;
    case One(e, rest) => ElementStarts(e, "");
    case Sub(name, body, rest) =>
    case Group(count, body, rest) => NextCount(count, "", subs);
    case Bare(count, e, rest) => NextCount(count, "", subs);
  }

  lemma BuildElement(e: Element, s: string, subs: map<string, seq<Command>>, open: nat)
    requires Writable(e) && !Bracketed(s)
    ensures Build(ElementText(e) + s, subs, open) == Prepend([Item(e)], Build(s, subs, open))
  {
    NextElement(e, s, subs);
    ElementStarts(e, s);
    BuildNext(ElementText(e) + s, [Item(e)], s, subs, open);
  }

  lemma BuildCount(count: int, s: string, subs: map<string, seq<Command>>, open: nat)
    requires IsCount(count) && !StartsWithDigit(s)
    ensures Build(CountText(count) + s, subs, open) == Prepend([Mul(count)], Build(s, subs, open))
  {
    NextCount(count, s, subs);
    if count > 0 {
      DecimalNumber(count);
    }
    BuildNext(CountText(count) + s, [Mul(count)], s, subs, open);
  }

  lemma BareParts(count: int, e: Element, rest: seq<Command>, end: Option<seq<Command>>)
    ensures Prepend([Mul(count)], Prepend([Item(e)], Prepend(rest, end))) == Prepend([Mul(count), Item(e)] + rest, end)
  {
    PrependTwice([Item(e)], rest, end);
    PrependTwice([Mul(count)], [Item(e)] + rest, end);
    assert [Mul(count)] + ([Item(e)] + rest) == [Mul(count), Item(e)] + rest;
  }

  lemma GroupParts(count: int, body: seq<Command>, rest: seq<Command>, end: Option<seq<Command>>)
    ensures Prepend([Mul(count)], Prepend([Start], Prepend(body, Prepend([End], Prepend(rest, end))))) ==
      Prepend(([Mul(count), Start] + body + [End]) + rest, end)
  {
    PrependTwice([End], rest, end);
    PrependTwice(body, [End] + rest, end);
    PrependTwice([Start], body + ([End] + rest), end);
    PrependTwice([Mul(count)], [Start] + (body + ([End] + rest)), end);
    assert [Mul(count)] + ([Start] + (body + ([End] + rest))) == ([Mul(count), Start] + body + [End]) + rest;
  }

  lemma WrittenBare(f: Format, s: string)
    requires f.Bare?
    ensures Written(f) + s == CountText(f.count) + (ElementText(f.element) + (Written(f.rest) + s))
  {
  }

  lemma WrittenGroup(f: Format, s: string)
    requires f.Group?
    ensures Written(f) + s == CountText(f.count) + ("(" + (Written(f.body) + (")" + (Written(f.rest) + s))))
  {
  }

  lemma {:induction false} BuildOne(f: Format, s: string, subs: map<string, seq<Command>>, open: nat)
    requires f.One? && Wellformed(f, subs) && !Bracketed(s)
    ensures Build(Written(f) + s, subs, open) == Prepend(Compile(f), Build(s, subs, open))
    decreases f, 0
  {
    var rest := Written(f.rest) + s;
    assert Written(f) + s == ElementText(f.element) + rest;
    WrittenNotBracketed(f.rest, s, subs);
    BuildElement(f.element, rest, subs, open);
    BuildWritten(f.rest, s, subs, open);
    PrependTwice([Item(f.element)], Compile(f.rest), Build(s, subs, open));
  }

  lemma {:induction false} BuildSub(f: Format, s: string, subs: map<string, seq<Command>>, open: nat)
    requires f.Sub? && Wellformed(f, subs) && !Bracketed(s)
    ensures Build(Written(f) + s, subs, open) == Prepend(Compile(f), Build(s, subs, open))
    decreases f, 0
  {
    var rest := Written(f.rest) + s;
    assert Written(f) + s == "<" + f.name + ">" + rest;
    NextSub(f.name, rest, subs);
    BuildNext("<" + f.name + ">" + rest, subs[f.name], rest, subs, open);
    BuildWritten(f.rest, s, subs, open);
    PrependTwice(Compile(f.body), Compile(f.rest), Build(s, subs, open));
  }

  lemma {:induction false} BuildBare(f: Format, s: string, subs: map<string, seq<Command>>, open: nat)
    requires f.Bare? && Wellformed(f, subs) && !Bracketed(s)
    ensures Build(Written(f) + s, subs, open) == Prepend(Compile(f), Build(s, subs, open))
    decreases f, 0
  {
    var rest := Written(f.rest) + s;
    var element := ElementText(f.element) + rest;
    WrittenBare(f, s);
    WrittenNotBracketed(f.rest, s, subs);
    ElementStarts(f.element, rest);
    BuildCount(f.count, element, subs, open);
    BuildElement(f.element, rest, subs, open);
    BuildWritten(f.rest, s, subs, open);
    BareParts(f.count, f.element, Compile(f.rest), Build(s, subs, open));
  }

  lemma {:induction false} BuildGroup(f: Format, s: string, subs: map<string, seq<Command>>, open: nat)
    requires f.Group? && Wellformed(f, subs) && !Bracketed(s)
    ensures Build(Written(f) + s, subs, open) == Prepend(Compile(f), Build(s, subs, open))
    decreases f, 0
  {
    var rest := Written(f.rest) + s;
    var body := Written(f.body) + (")" + rest);
    WrittenGroup(f, s);
    BuildCount(f.count, "(" + body, subs, open);
    BuildOpen(body, subs, open);
    BuildWritten(f.body, ")" + rest, subs, open + 1);
    BuildClose(rest, subs, open);
    BuildWritten(f.rest, s, subs, open);
    GroupParts(f.count, Compile(f.body), Compile(f.rest), Build(s, subs, open));
  }

  /** A format that is written down compiles to its commands. */
  lemma {:induction false} BuildWritten(f: Format, s: string, subs: map<string, seq<Command>>, open: nat)
    requires Wellformed(f, subs) && !Bracketed(s)
    ensures Build(Written(f) + s, subs, open) == Prepend(Compile(f), Build(s, subs, open))
    decreases f, 1
  {
    match f
    case Empty =>
      assert Written(f) + s == s;
      if Build(s, subs, open).Some? {
        assert [] + Build(s, subs, open).value == Build(s, subs, open).value;
      }
    case One(e, rest) => BuildOne(f, s, subs, open);
    case Sub(name, body, rest) => BuildSub(f, s, subs, open);
    case Group(count, body, rest) => BuildGroup(f, s, subs, open);
    case Bare(count, e, rest) => BuildBare(f, s, subs, open);
  }

  /** The text of a format is compiled to commands that accept what the format reads, and consume what it consumes. */
  lemma TextMeansFormat(f: Format, subs: map<string, seq<Command>>)
    requires Wellformed(f, subs)
    ensures Build(Written(f), subs, 0) == Some(Compile(f))
    ensures forall data: seq<byte>, t: Test ::
      Ends(Read(f, data, t, 0), Call(Build(Written(f), subs, 0).value, data, 0, t), |Compile(f)|)
  {
    BuildWritten(f, "", subs, 0);
    assert Written(f) + "" == Written(f) && Compile(f) + [] == Compile(f);
    forall data: seq<byte>, t: Test
      ensures Ends(Read(f, data, t, 0), Call(Build(Written(f), subs, 0).value, data, 0, t), |Compile(f)|)
    {
      CompiledReads(f, data, t);
    }
  }
}
