/** Printing numbers, formatted output and the line editor of the C library. */
module BasicIO {
  import opened Arith
  import opened Bytes
  import opened Folding
  import opened Keyboard
  import opened Seqs

  const U64: nat := 0x1_0000_0000_0000_0000
  const U32: nat := 0x1_0000_0000

  type I64 = x: int | -0x8000_0000_0000_0000 <= x < 0x8000_0000_0000_0000

  const NUL: char := '\0'

  // ----- digits -----

  const DIGITS: string := "0123456789ABCDEF"

  function Digit(d: nat): (c: char)
    requires d < 16
    ensures c != NUL && c != '-'
  {
    DIGITS[d]
  }

  function DigitValue(c: char): nat {
    if '0' <= c <= '9' then (c - '0') as nat
    else if 'A' <= c <= 'F' then (c - 'A') as nat + 10
    else 0
  }

  lemma DigitValueOf(d: nat)
    requires d < 16
    ensures DigitValue(Digit(d)) == d
  {}

  /** The digits of `n`, most significant first, without a leading zero. */
  function Digits(n: nat, base: nat): (s: string)
    requires 2 <= base <= 16
    ensures s != ""
    ensures forall i :: 0 <= i < |s| ==> s[i] != NUL && s[i] != '-'
  {
    if n < base then [Digit(n)] else Digits(n / base, base) + [Digit(n % base)]
  }

  /** The number a string of digits denotes. */
  function ValueOf(s: string, base: nat): nat {
    if s == "" then 0 else ValueOf(s[..|s| - 1], base) * base + DigitValue(s[|s| - 1])
  }

  lemma {:induction false} ValueOfDigits(n: nat, base: nat)
    requires 2 <= base <= 16
    ensures ValueOf(Digits(n, base), base) == n
  {
    if n < base {
      DigitValueOf(n);
    } else {
      ValueOfDigits(n / base, base);
      DigitValueOf(n % base);
      DivMod(n, base);
    }
  }

  lemma Quotient(n: nat, base: nat)
    requires 2 <= base
    ensures n / base < n || n == 0
    ensures n / base == 0 <==> n < base
  {
    DivMod(n, base);
  }

  /** One round of the digit loop. */
  lemma DigitsStep(n: nat, base: nat, done: string)
    requires 2 <= base <= 16
    ensures Digits(n, base) + done == (if n / base != 0 then Digits(n / base, base) else "") + ([Digit(n % base)] + done)
    ensures n / base < n || n == 0
  {
    Quotient(n, base);
    if n >= base {
      Assoc(Digits(n / base, base), [Digit(n % base)], done);
    }
  }

  function Pow(b: nat, k: nat): nat {
    if k == 0 then 1 else b * Pow(b, k - 1)
  }

  lemma {:induction false} DigitsAtMost(n: nat, base: nat, b: nat, k: nat)
    requires 2 <= b <= base <= 16 && n < Pow(b, k) && k > 0
    ensures |Digits(n, base)| <= k
    decreases k
  {
    if n >= base {
      assert Pow(b, 1) == b * Pow(b, 0) == b;
      QuotientBelow(n, base, b, Pow(b, k - 1));
      DigitsAtMost(n / base, base, b, k - 1);
    }
  }

  lemma QuotientBelow(n: nat, base: nat, b: nat, p: nat)
    requires 0 < b <= base && n < b * p
    ensures n / base < p
  {
    DivMod(n, base);
    TimesMonotone(b, base, p);
    if n / base >= p {
      TimesMonotone(p, n / base, base);
    }
  }

  lemma {:induction false} DigitsAtLeast(n: nat, base: nat, k: nat)
    requires 2 <= base <= 16 && n >= Pow(base, k)
    ensures |Digits(n, base)| > k
    decreases k
  {
    if k > 0 {
      var p := Pow(base, k - 1);
      PowPositive(base, k - 1);
      QuotientAbove(n, base, p);
      DigitsAtLeast(n / base, base, k - 1);
    }
  }

  lemma {:induction false} PowPositive(b: nat, k: nat)
    requires b > 0
    ensures Pow(b, k) > 0
  {
    if k > 0 {
      PowPositive(b, k - 1);
    }
  }

  lemma QuotientAbove(n: nat, base: nat, p: nat)
    requires base > 0 && p > 0 && n >= base * p
    ensures n / base >= p && n >= base
  {
    DivMod(n, base);
    TimesMonotone(1, p, base);
    if n / base < p {
      TimesMonotone(n / base + 1, p, base);
    }
  }

  // ----- the text of a number -----

  /** Conversion to 64 unsigned bits, and to 64 signed ones. */
  function ToU64(x: int): (n: nat)
    ensures n < U64
  {
    x % U64
  }

  function ToI64(x: int): (n: I64)
    ensures ToU64(n) == ToU64(x)
  {
    var n := x % U64;
    if n < 0x8000_0000_0000_0000 then n else n - U64
  }

  predicate Minus(num: I64, sign: bool) {
    sign && num < 0
  }

  /** The digits are those of the wrapped negation of a negative number. */
  function Magnitude(num: I64, sign: bool): nat {
    if Minus(num, sign) then ToU64(-(num as int)) else ToU64(num)
  }

  function Text(num: I64, base: nat, sign: bool): string
    requires 2 <= base <= 16
  {
    (if Minus(num, sign) then "-" else "") + Digits(Magnitude(num, sign), base)
  }

  /** The number a text denotes, sign and all. */
  function Parse(s: string, base: nat): int {
    if s != "" && s[0] == '-' then -(ValueOf(s[1..], base) as int) else ValueOf(s, base)
  }

  lemma MagnitudeIs(num: I64, sign: bool)
    ensures Magnitude(num, sign) == if Minus(num, sign) then -(num as int) else if sign then num else ToU64(num)
  {}

  /** What is printed denotes the number, for every 64-bit input, the least one included. */
  lemma ParseText(num: I64, base: nat, sign: bool)
    requires 2 <= base <= 16
    ensures Parse(Text(num, base, sign), base) == if sign then num else ToU64(num)
  {
    var m := Magnitude(num, sign);
    MagnitudeIs(num, sign);
    ValueOfDigits(m, base);
    ParseDigits(m, base);
  }

  lemma ParseDigits(m: nat, base: nat)
    requires 2 <= base <= 16
    ensures var d := Digits(m, base);
      Parse("-" + d, base) == -(ValueOf(d, base) as int) && Parse("" + d, base) == ValueOf(d, base)
  {
    var d := Digits(m, base);
    assert ("-" + d)[1..] == d && "" + d == d;
  }

  // ----- the buffer of put_int -----

  const BUF_LEN: nat := 30

  /** Room for the text before the terminating zero. */
  predicate Fits(base: nat)
    requires 2 <= base <= 16
  {
    forall num: I64, sign: bool :: |Text(num, base, sign)| < BUF_LEN
  }

  lemma Pow5()
    ensures Pow(5, 28) > U64
  {
    assert Pow(5, 4) == 625;
    assert Pow(5, 8) == 390625;
    assert Pow(5, 12) == 244140625;
    assert Pow(5, 16) == 152587890625;
    assert Pow(5, 20) == 95367431640625;
    assert Pow(5, 24) == 59604644775390625;
  }

  lemma DigitsFit(n: nat, base: nat)
    requires 5 <= base <= 16 && n < U64
    ensures |Digits(n, base)| <= 28
  {
    Pow5();
    DigitsAtMost(n, base, 5, 28);
  }

  lemma Pow4()
    ensures Pow(4, 30) < U64 && Pow(3, 30) < U64 && Pow(2, 30) < U64
  {
    assert Pow(4, 5) == 1024 && Pow(4, 10) == 0x10_0000 && Pow(4, 15) == 0x4000_0000;
    assert Pow(4, 20) == 0x100_0000_0000 && Pow(4, 25) == 0x4_0000_0000_0000;
    assert Pow(3, 5) == 243 && Pow(3, 10) == 59049 && Pow(3, 15) == 14348907;
    assert Pow(3, 20) == 3486784401 && Pow(3, 25) == 847288609443;
    assert Pow(2, 5) == 32 && Pow(2, 10) == 1024 && Pow(2, 15) == 0x8000;
    assert Pow(2, 20) == 0x10_0000 && Pow(2, 25) == 0x200_0000;
  }

  lemma TextFits(num: I64, base: nat, sign: bool)
    requires 5 <= base <= 16
    ensures |Text(num, base, sign)| < BUF_LEN
  {
    DigitsFit(Magnitude(num, sign), base);
  }

  lemma TextOverflows(base: nat)
    requires 2 <= base <= 4
    ensures |Text(-1, base, false)| >= BUF_LEN
  {
    PowBelow(base);
    MagnitudeIs(-1, false);
    DigitsAtLeast(U64 - 1, base, 30);
  }

  lemma PowBelow(base: nat)
    requires 2 <= base <= 4
    ensures Pow(base, 30) < U64
  {
    Pow4();
    assert base == 2 || base == 3 || base == 4;
  }

  /** Every 64-bit number fits the buffer from base 5 on, and not below. The library prints in bases 10 and 16. */
  lemma FitsExactly(base: nat)
    requires 2 <= base <= 16
    ensures Fits(base) <==> base >= 5
  {
    if base >= 5 {
      forall num: I64, sign: bool ensures |Text(num, base, sign)| < BUF_LEN {
        TextFits(num, base, sign);
      }
    } else {
      TextOverflows(base);
    }
  }

  /** The digits of `left`, if there are `more`, and those already in the buffer make up `all`. */
  ghost predicate Filling(all: string, left: nat, base: nat, more: bool, done: string)
    requires 2 <= base <= 16
  {
    forall z: nat {:trigger Opened(z)} ::
      |all| <= 28 && all == (if more then Digits(left, base) else "") + done
  }

  lemma FillStarts(n: nat, base: nat)
    requires 5 <= base <= 16 && n < U64
    ensures Filling(Digits(n, base), n, base, true, "")
  {
    DigitsFit(n, base);
  }

  lemma FillStep(all: string, left: nat, base: nat, d: nat, q: nat, done: string)
    requires 2 <= base <= 16 && Filling(all, left, base, true, done) && d == left % base && q == left / base
    ensures d < base && Filling(all, q, base, q != 0, [Digit(d)] + done)
    ensures |done| < 28 && (q < left || left == q == 0)
  {
    assert Opened(0);
    DigitsStep(left, base, done);
  }

  lemma FillEnds(all: string, left: nat, base: nat, done: string)
    requires 2 <= base <= 16 && Filling(all, left, base, false, done)
    ensures all == done && |done| <= 28
  {
    assert Opened(0);
  }

  // ----- formatted output -----

  /** What a vararg slot holds: 64 bits, or a pointer to a string. */
  type Bits64 = x: int | 0 <= x < 0x1_0000_0000_0000_0000

  datatype Arg = Word64(bits: Bits64) | Pointer(s: string) | Null

  predicate TakesWord(c: char) {
    c in "dulxpc"
  }

  predicate Takes(c: char) {
    TakesWord(c) || c == 's'
  }

  /** What the directive prints, given the argument it takes. */
  function Shown(c: char, a: Arg): string
    requires Takes(c) && (TakesWord(c) <==> a.Word64?)
  {
    match a
    case Pointer(s) => s
    case Null => "(null)"
    case Word64(bits) =>
      if c == 'd' then Text(ToI64(bits), 10, true)
      else if c == 'u' then Text(ToI64(bits), 10, false)
      else if c == 'l' then Text(ToI64(bits % U32), 10, false)
      else if c == 'x' then Text(ToI64(bits), 16, false)
      else if c == 'p' then "0x" + Text(ToI64(bits), 16, false)
      else [(bits % 256) as char]
  }

  /** What any other character after a percent sign prints. */
  function Literal(c: char): string {
    if c == '%' then "%" else ['%', c]
  }

  /** The arguments are as many and of the kinds as the format calls for. */
  predicate Matches(fmt: string, args: seq<Arg>)
    decreases |fmt|
  {
    if |fmt| == 0 then true
    else if fmt[0] != '%' then Matches(fmt[1..], args)
    else if |fmt| == 1 then true
    else if Takes(fmt[1]) then
      args != [] && (TakesWord(fmt[1]) <==> args[0].Word64?) && Matches(fmt[2..], args[1..])
    else Matches(fmt[2..], args)
  }

  function Formatted(fmt: string, args: seq<Arg>): string
    requires Matches(fmt, args)
    decreases |fmt|
  {
    if |fmt| == 0 then ""
    else if fmt[0] != '%' then [fmt[0]] + Formatted(fmt[1..], args)
    else if |fmt| == 1 then ""
    else if Takes(fmt[1]) then Shown(fmt[1], args[0]) + Formatted(fmt[2..], args[1..])
    else Literal(fmt[1]) + Formatted(fmt[2..], args)
  }

  /** A text with its percent signs doubled. */
  function Escaped(s: string): string
    decreases |s|
  {
    if s == "" then "" else (if s[0] == '%' then "%%" else [s[0]]) + Escaped(s[1..])
  }

  /** An escaped text prints as itself, takes no argument and leaves what follows it alone. */
  lemma {:induction false} EscapedPrints(s: string, fmt: string, args: seq<Arg>)
    requires Matches(fmt, args)
    ensures Matches(Escaped(s) + fmt, args) && Formatted(Escaped(s) + fmt, args) == s + Formatted(fmt, args)
    decreases |s|
  {
    if s == "" {
      assert Escaped(s) + fmt == fmt;
    } else {
      EscapedPrints(s[1..], fmt, args);
      EscapedFirst(s, fmt);
      Assoc([s[0]], s[1..], Formatted(fmt, args));
      assert [s[0]] + s[1..] == s;
    }
  }

  lemma EscapedFirst(s: string, fmt: string)
    requires s != ""
    ensures var all, rest := Escaped(s) + fmt, Escaped(s[1..]) + fmt;
      if s[0] == '%' then |all| >= 2 && all[0] == all[1] == '%' && all[2..] == rest
      else |all| >= 1 && all[0] == s[0] && all[1..] == rest
  {
    var first := if s[0] == '%' then "%%" else [s[0]];
    var rest := Escaped(s[1..]) + fmt;
    Assoc(first, Escaped(s[1..]), fmt);
    assert (first + rest)[|first|..] == rest;
  }

  /** What is still to be read: the percent sign of a directive counts until the directive is done. */
  function Left(percent: bool, fmt: string): string {
    if percent then "%" + fmt else fmt
  }

  /** `fmt` and `args` remain; with what they print, `output` becomes `all`. */
  ghost predicate Pending(all: string, output: string, fmt: string, args: seq<Arg>) {
    forall z: nat {:trigger Opened(z)} :: Matches(fmt, args) && all == output + Formatted(fmt, args)
  }

  lemma PendingAtLast(all: string, output: string, percent: bool, args: seq<Arg>)
    requires Pending(all, output, Left(percent, ""), args)
    ensures all == output
  {
    assert Opened(0);
  }

  /** One character of the format. */
  lemma PendingStep(all: string, output: string, percent: bool, fmt: string, args: seq<Arg>)
    requires fmt != "" && Pending(all, output, Left(percent, fmt), args)
    ensures var c, rest := fmt[0], fmt[1..];
      if !percent then
        if c == '%' then Pending(all, output, Left(true, rest), args)
        else Pending(all, output + [c], Left(false, rest), args)
      else if Takes(c) then
        && args != [] && (TakesWord(c) <==> args[0].Word64?)
        && Pending(all, output + Shown(c, args[0]), Left(false, rest), args[1..])
      else Pending(all, output + Literal(c), Left(false, rest), args)
  {
    assert Opened(0);
    var c, rest := fmt[0], fmt[1..];
    if !percent {
      if c == '%' {
        assert fmt == "%" + rest;
      } else {
        Assoc(output, [c], Formatted(rest, args));
      }
    } else {
      var left := "%" + fmt;
      assert left[0] == '%' && left[1] == c && left[2..] == rest;
      if Takes(c) {
        Assoc(output, Shown(c, args[0]), Formatted(rest, args[1..]));
      } else {
        Assoc(output, Literal(c), Formatted(rest, args));
      }
    }
  }

  // ----- the line editor -----

  const DEL: Byte := 127
  const RUBOUT: string := [8 as char, ' ', 8 as char]

  /** What getc_noecho returns: 0xFF where the read brought no byte. */
  function Pressed(es: seq<Event>): Byte {
    if es != [] && es[0].Got? then es[0].b else 0xFF
  }

  function AfterPress(es: seq<Event>): seq<Event> {
    if es == [] then [] else es[1..]
  }

  /** Newline, return, end of input, control-D. */
  predicate Stops(c: Byte) {
    c == 10 || c == 13 || c == 0xFF || c == 4
  }

  /** What tb_getc prints. */
  function Echo(c: Byte): string {
    if c == 0xFF then "" else if c == 13 then [c as char, '\n'] else [c as char]
  }

  function Rubout(c: Byte): string {
    if c == DEL then RUBOUT else ""
  }

  function KeyEcho(c: Byte): string {
    Echo(c) + Rubout(c)
  }

  datatype Typed = Typed(line: seq<Byte>, rest: seq<Event>, echo: string)

  /** The line, the input that remains and what was printed, when at most `room` bytes are taken. */
  function TypeLine(es: seq<Event>, line: seq<Byte>, room: nat): Typed
    decreases |es|
  {
    if |line| >= room then Typed(line, es, "")
    else
      var c := Pressed(es);
      if Stops(c) then Typed(line, AfterPress(es), Echo(c))
      else
        var more := TypeLine(AfterPress(es), Key(line, c, DEL), room);
        Typed(more.line, more.rest, KeyEcho(c) + more.echo)
  }

  /** The line, the input that remains and all that was ever printed. */
  function TypedAfter(es: seq<Event>, room: nat, output: string): Typed {
    var typed := TypeLine(es, [], room);
    Typed(typed.line, typed.rest, output + typed.echo)
  }

  function KeysEcho(keys: seq<Byte>): string
    decreases |keys|
  {
    if keys == [] then "" else KeyEcho(keys[0]) + KeysEcho(keys[1..])
  }

  /** As long as the line stays below `room`, the keys act on it as if there were no bound. */
  ghost predicate StaysBelow(line: seq<Byte>, keys: seq<Byte>, room: nat)
    decreases |keys|
  {
    keys == [] || (|line| < room && StaysBelow(Key(line, keys[0], DEL), keys[1..], room))
  }

  lemma {:induction false} TypeKeys(es: seq<Event>, line: seq<Byte>, keys: seq<Byte>, room: nat)
    requires StaysBelow(line, keys, room)
    requires forall i :: 0 <= i < |keys| ==> keys[i] != 10 && keys[i] != 13 && keys[i] != 255 && keys[i] != 4
    ensures var done := TypeLine(es, Edited(line, keys, DEL), room);
      TypeLine(Events(keys) + es, line, room) == Typed(done.line, done.rest, KeysEcho(keys) + done.echo)
    decreases |keys|
  {
    if keys == [] {
      assert Events(keys) + es == es;
    } else {
      var c := keys[0];
      var line' := Key(line, c, DEL);
      FirstKey(es, keys);
      TypeKeys(es, line', keys[1..], room);
      Assoc(KeyEcho(c), KeysEcho(keys[1..]), TypeLine(es, Edited(line', keys[1..], DEL), room).echo);
    }
  }

  lemma FirstKey(es: seq<Event>, keys: seq<Byte>)
    requires keys != []
    ensures var all := Events(keys) + es;
      all != [] && Pressed(all) == keys[0] && AfterPress(all) == Events(keys[1..]) + es
  {}

  /**
   One key, while there is room: newline (10), return (13), control-D (4) and 255 end the line and are not stored; 127
   takes back the last byte; every other byte is stored. What each prints is given beside it.
   */
  lemma OneKey(c: Byte, es: seq<Event>, line: seq<Byte>, room: nat)
    requires |line| < room
    ensures c == 10 || c == 4 ==> TypeLine([Got(c)] + es, line, room) == Typed(line, es, [c as char])
    ensures c == 13 ==> TypeLine([Got(c)] + es, line, room) == Typed(line, es, [13 as char, 10 as char])
    ensures c == 255 ==> TypeLine([Got(c)] + es, line, room) == Typed(line, es, "")
    ensures c == 127 ==>
      var more := TypeLine(es, if line == [] then [] else line[..|line| - 1], room);
      TypeLine([Got(c)] + es, line, room) ==
        Typed(more.line, more.rest, [127 as char, 8 as char, ' ', 8 as char] + more.echo)
    ensures c != 10 && c != 4 && c != 13 && c != 255 && c != 127 ==>
      var more := TypeLine(es, line + [c], room);
      TypeLine([Got(c)] + es, line, room) == Typed(more.line, more.rest, [c as char] + more.echo)
  {
    var all := [Got(c)] + es;
    assert all[1..] == es;
    assert KeyEcho(c) == if c == 127 then [127 as char, 8 as char, ' ', 8 as char] else Echo(c);
  }

  /** Where a read brings nothing or fails the line ends, and nothing is printed. */
  lemma NoKey(es: seq<Event>, line: seq<Byte>, room: nat, error: nat)
    requires |line| < room
    ensures TypeLine([], line, room) == Typed(line, [], "")
    ensures TypeLine([Nothing] + es, line, room) == Typed(line, es, "")
    ensures TypeLine([Failed(error)] + es, line, room) == Typed(line, es, "")
  {
    assert ([Nothing] + es)[1..] == es && ([Failed(error)] + es)[1..] == es;
  }

  /** Keys that delete nothing and are no return are echoed as they are. */
  lemma {:induction false} KeysEchoPlain(keys: seq<Byte>)
    requires forall i :: 0 <= i < |keys| ==> keys[i] != 127 && keys[i] != 13 && keys[i] != 255
    ensures |KeysEcho(keys)| == |keys| && forall i :: 0 <= i < |keys| ==> KeysEcho(keys)[i] == keys[i] as char
    decreases |keys|
  {
    if keys != [] {
      KeysEchoPlain(keys[1..]);
      assert KeyEcho(keys[0]) == [keys[0] as char];
    }
  }

  /** A line ended by a key: the bounded stack machine's result, and the key is consumed. */
  lemma LineEnded(es: seq<Event>, keys: seq<Byte>, end: Byte, room: nat)
    requires StaysBelow([], keys, room)
    requires forall i :: 0 <= i < |keys| ==> keys[i] != 10 && keys[i] != 13 && keys[i] != 255 && keys[i] != 4
    requires (end == 10 || end == 13 || end == 255 || end == 4) && |Edited([], keys, 127)| < room
    ensures TypeLine(Events(keys) + [Got(end)] + es, [], room) ==
      Typed(Edited([], keys, 127), es,
            KeysEcho(keys) + if end == 255 then "" else if end == 13 then [13 as char, 10 as char] else [end as char])
  {
    assert Events(keys) + [Got(end)] + es == Events(keys) + ([Got(end)] + es);
    TypeKeys([Got(end)] + es, [], keys, room);
  }

  /** A line that fills the buffer ends there, and what follows stays unread. */
  lemma LineFull(es: seq<Event>, keys: seq<Byte>, room: nat)
    requires StaysBelow([], keys, room) && |Edited([], keys, 127)| >= room
    requires forall i :: 0 <= i < |keys| ==> keys[i] != 10 && keys[i] != 13 && keys[i] != 255 && keys[i] != 4
    ensures TypeLine(Events(keys) + es, [], room) == Typed(Edited([], keys, 127), es, KeysEcho(keys))
  {
    TypeKeys(es, [], keys, room);
    assert KeysEcho(keys) + "" == KeysEcho(keys);
  }

  /** The line leaves a byte for the terminating zero. */
  lemma {:induction false} LineBounded(es: seq<Event>, line: seq<Byte>, room: nat)
    requires |line| <= room
    ensures |TypeLine(es, line, room).line| <= room
    decreases |es|
  {
    if |line| < room && !Stops(Pressed(es)) {
      LineBounded(AfterPress(es), Key(line, Pressed(es), DEL), room);
    }
  }

  /** `line` was typed and `es` is still to come; with what that prints, the outcome is `all`. */
  ghost predicate LineSoFar(all: Typed, output: string, es: seq<Event>, line: seq<Byte>, room: nat) {
    forall z: nat {:trigger Opened(z)} ::
      var done := TypeLine(es, line, room);
      all == Typed(done.line, done.rest, output + done.echo)
  }

  lemma LineStarts(es: seq<Event>, room: nat, output: string)
    ensures LineSoFar(TypedAfter(es, room, output), output, es, [], room)
  {}

  lemma LineStops(all: Typed, output: string, es: seq<Event>, line: seq<Byte>, room: nat)
    requires LineSoFar(all, output, es, line, room) && |line| < room && Stops(Pressed(es))
    ensures all == Typed(line, AfterPress(es), output + Echo(Pressed(es)))
  {
    assert Opened(0);
  }

  lemma LineIsFull(all: Typed, output: string, es: seq<Event>, line: seq<Byte>, room: nat)
    requires LineSoFar(all, output, es, line, room) && |line| >= room
    ensures all == Typed(line, es, output)
  {
    assert Opened(0);
    assert output + "" == output;
  }

  lemma LineKey(all: Typed, output: string, es: seq<Event>, line: seq<Byte>, room: nat)
    requires LineSoFar(all, output, es, line, room) && |line| < room && !Stops(Pressed(es))
    ensures var c := Pressed(es);
      LineSoFar(all, output + Echo(c) + Rubout(c), AfterPress(es), Key(line, c, DEL), room)
  {
    assert Opened(0);
    var c := Pressed(es);
    var more := TypeLine(AfterPress(es), Key(line, c, DEL), room);
    Assoc(output, Echo(c), Rubout(c));
    Assoc(output, KeyEcho(c), more.echo);
  }

  // ----- the terminal -----

  class Terminal {
    var input: seq<Event>
    var output: string

    constructor (es: seq<Event>)
      ensures input == es && output == ""
    {
      input, output := es, "";
    }

    method Putc(c: char)
      modifies this`output
      ensures output == old(output) + [c]
    {
      output := output + [c];
    }

    /** puts: the characters from `from` up to the first zero. */
    method Puts(buf: array<char>, from: nat, ghost end: nat)
      requires from <= end < buf.Length && buf[end] == NUL && forall i :: from <= i < end ==> buf[i] != NUL
      modifies this`output
      ensures output == old(output) + buf[from..end]
    {
      var p := from;
      while buf[p] != NUL
        invariant from <= p <= end
        decreases end - p
      {
        p := p + 1;
      }
      output := output + buf[from..p];
    }

    /** The digit loop of put_int: the buffer is filled backwards with the digits `all`, and no write leaves it. */
    method FillDigits(buf: array<char>, n: nat, base: nat, ghost all: string) returns (p: nat)
      requires buf.Length == BUF_LEN && buf[29] == NUL && 2 <= base <= 16 && Filling(all, n, base, true, "")
      modifies buf
      ensures p < 28 && buf[29] == NUL && buf[p + 1..29] == all
    {
      p := 28;
      var left: nat, more := n, true;
      assert buf[p + 1..29] == "";
      while more
        invariant p <= 28 && buf[29] == NUL && (more || p < 28)
        invariant Filling(all, left, base, more, buf[p + 1..29])
        decreases if more then left + 1 else 0
      {
        ghost var done := buf[p + 1..29];
        var d: nat, q: nat := left % base, left / base;
        FillStep(all, left, base, d, q, done);
        buf[p] := Digit(d);
        assert buf[p..29] == [Digit(d)] + done;
        p := p - 1;
        left := q;
        more := q != 0;
      }
      FillEnds(all, left, base, buf[p + 1..29]);
    }

    /** put_int */
    method PutInt(num: I64, base: nat, sign: bool)
      requires 5 <= base <= 16
      modifies this`output
      ensures output == old(output) + Text(num, base, sign)
    {
      var buf := new char[BUF_LEN](_ => NUL);
      var unsigned := Magnitude(num, sign);
      FillStarts(unsigned, base);
      var p: nat := FillDigits(buf, unsigned, base, Digits(unsigned, base));
      ghost var digits := buf[p + 1..29];
      assert forall i :: p < i < 29 ==> buf[i] == digits[i - (p + 1)] && buf[i] != NUL;
      if Minus(num, sign) {
        buf[p] := '-';
        assert buf[p..29] == "-" + digits;
        Puts(buf, p, 29);
      } else {
        Puts(buf, p + 1, 29);
      }
    }

    /** A directive that takes an argument. */
    method Show(c: char, a: Arg)
      requires Takes(c) && (TakesWord(c) <==> a.Word64?)
      modifies this`output
      ensures output == old(output) + Shown(c, a)
    {
      match a
      case Pointer(s) => output := output + s;
      case Null => output := output + "(null)";
      case Word64(bits) =>
        if c == 'd' {
          PutInt(ToI64(bits), 10, true);
        } else if c == 'u' {
          PutInt(ToI64(bits), 10, false);
        } else if c == 'l' {
          PutInt(ToI64(bits % U32), 10, false);
        } else if c == 'x' {
          PutInt(ToI64(bits), 16, false);
        } else if c == 'p' {
          output := output + "0x";
          PutInt(ToI64(bits), 16, false);
        } else {
          Putc((bits % 256) as char);
        }
    }

    /** Any other character after a percent sign. */
    method ShowLiteral(c: char)
      modifies this`output
      ensures output == old(output) + Literal(c)
    {
      if c != '%' {
        // Unknown: printed with its percent sign.
        Putc('%');
      }
      Putc(c);
    }

    /** vfprintf */
    method VFPrintf(fmt: string, args: seq<Arg>)
      requires Matches(fmt, args)
      modifies this`output
      ensures output == old(output) + Formatted(fmt, args)
    {
      var percent, taken: nat := false, 0;
      ghost var all := output + Formatted(fmt, args);
      assert fmt[0..] == fmt && args[0..] == args;
      for i := 0 to |fmt|
        invariant taken <= |args| && Pending(all, output, Left(percent, fmt[i..]), args[taken..])
      {
        var c := fmt[i];
        PendingStep(all, output, percent, fmt[i..], args[taken..]);
        if !percent {
          if c == '%' {
            percent := true;
          } else {
            Putc(c);
          }
        } else {
          if Takes(c) {
            Show(c, args[taken]);
            taken := taken + 1;
          } else {
            ShowLiteral(c);
          }
          percent := false;
        }
      }
      PendingAtLast(all, output, percent, args[taken..]);
    }

    /** tb_getc */
    method GetC() returns (c: Byte)
      modifies this
      ensures c == Pressed(old(input)) && input == AfterPress(old(input)) && output == old(output) + Echo(c)
    {
      c := Pressed(input);
      input := AfterPress(input);
      if c == 0xFF {
        return;
      }
      output := output + [c as char];
      if c == 13 {
        output := output + "\n";
      }
    }

    /** What tb_getline does with a key that does not end the line, once it was echoed. */
    method Edit(buf: array<Byte>, length: nat, p: nat, c: Byte) returns (p': nat)
      requires p + 1 < length <= buf.Length
      modifies this`output, buf
      ensures p' < length && buf[..p'] == Key(old(buf[..p]), c, DEL) && buf[length..] == old(buf[length..])
      ensures output == old(output) + Rubout(c)
    {
      p' := p;
      if c == DEL {
        buf[p] := 0;
        if p != 0 {
          p' := p - 1;
        }
        output := output + RUBOUT;
      } else {
        buf[p] := c;
        p' := p + 1;
      }
    }

    /** The loop of tb_getline: the line is typed into `buf`. */
    method TypeIn(buf: array<Byte>, length: nat) returns (p: nat)
      requires 0 < length <= buf.Length
      modifies this, buf
      ensures p < length && Typed(buf[..p], input, output) == TypedAfter(old(input), length - 1, old(output))
      ensures buf[length..] == old(buf[length..])
    {
      p := 0;
      ghost var room: nat := length - 1;
      ghost var all := TypedAfter(input, room, output);
      LineStarts(input, room, output);
      assert buf[..p] == [];
      while p < length - 1
        invariant p < length && buf[length..] == old(buf[length..])
        invariant LineSoFar(all, output, input, buf[..p], room)
        decreases |input|
      {
        ghost var es, line, out := input, buf[..p], output;
        var c := GetC();
        if Stops(c) {
          LineStops(all, out, es, line, room);
          return;
        }
        LineKey(all, out, es, line, room);
        p := Edit(buf, length, p, c);
      }
      LineIsFull(all, output, input, buf[..p], room);
    }

    /** tb_getline */
    method GetLine(buf: array<Byte>, length: nat) returns (n: nat)
      requires length <= buf.Length
      modifies this, buf
      ensures length == 0 ==> n == 0 && input == old(input) && output == old(output) && buf[..] == old(buf[..])
      ensures length > 0 ==>
        && n < length && Typed(buf[..n], input, output) == TypedAfter(old(input), length - 1, old(output))
        && buf[n] == 0 && buf[length..] == old(buf[length..])
    {
      if length == 0 {
        return 0;
      }
      n := TypeIn(buf, length);
      ghost var line := buf[..n];
      buf[n] := 0;
      assert buf[..n] == line;
    }
  }
}
