/** Reading characters and lines from a byte stream: UTF-8 as section 3 of RFC 3629 lays it out. */
module Utf8 {
  import opened Arith
  import opened Bytes
  import opened Folding
  import opened Keyboard
  import opened Seqs

  predicate IsScalar(v: int) {
    0 <= v < 0xD800 || 0xE000 <= v < 0x11_0000
  }

  /** A Unicode scalar value: what Rust's `char` holds. */
  type Scalar = v: int | 0 <= v < 0xD800 || 0xE000 <= v < 0x11_0000

  const REPLACEMENT: Scalar := 0xFFFD
  const CR: Scalar := 13
  const LF: Scalar := 10
  const DEL: Scalar := 127
  const BACKSPACE: Scalar := 8
  const SPACE: Scalar := 32

  const EEOF: nat := 2000

  datatype Result<T> = Ok(value: T) | Err(error: nat)

  /** A result, and the input that remains. */
  datatype Taken<T> = Taken(res: Result<T>, rest: seq<Event>)

  // ----- the encoding -----

  /** 10xxxxxx */
  function Continuation(x: nat): (b: Byte)
    ensures IsContinuation(b) && b % 64 == x % 64
  {
    0x80 + x % 64
  }

  /** The table of RFC 3629, section 3. */
  function Encode(v: Scalar): (r: seq<Byte>)
    ensures 1 <= |r| <= 4
  {
    if v < 0x80 then [v as Byte]
    else if v < 0x800 then [(0xC0 + v / 64) as Byte, Continuation(v)]
    else if v < 0x1_0000 then [(0xE0 + v / 64 / 64) as Byte, Continuation(v / 64), Continuation(v)]
    else [(0xF0 + v / 64 / 64 / 64) as Byte, Continuation(v / 64 / 64), Continuation(v / 64), Continuation(v)]
  }

  function EncodeAll(vs: seq<Scalar>): seq<Byte> {
    if vs == [] then [] else Encode(vs[0]) + EncodeAll(vs[1..])
  }

  // ----- what one call reads -----

  function NextByte(es: seq<Event>): Taken<Byte> {
    if es == [] then Taken(Err(EEOF), [])
    else match es[0]
      case Got(b) => Taken(Ok(b), es[1..])
      case Nothing => Taken(Err(EEOF), es[1..])
      case Failed(e) => Taken(Err(e), es[1..])
  }

  /** How many bytes a sequence has by its first byte; 0 if the byte cannot begin one. */
  function Length(init: Byte): (n: nat)
    ensures n <= 6
  {
    if init < 0x80 then 1
    else if init < 0xE0 then 2
    else if init < 0xF0 then 3
    else if init < 0xF8 then 4
    else if init < 0xFC then 5
    else if init < 0xFE then 6
    else 0
  }

  /** The bits of the first byte below its length marker, `init & (0x7F >> length)`. */
  function Payload(init: Byte, length: nat): Word
    requires 2 <= length <= 6
  {
    match length
    case 2 => init % 32
    case 3 => init % 16
    case 4 => init % 8
    case 5 => init % 4
    case _ => init % 2
  }

  /** `b & 0b11000000 == 0b10000000` */
  predicate IsContinuation(b: Byte) {
    b / 64 == 2
  }

  /** `buf <<= 6; buf += b & 0b00111111`: bits shifted out of 32 are lost. */
  function Shift(acc: Word, b: Byte): Word {
    acc * 64 % 0x1_0000_0000 + b % 64
  }

  /** `char::from_u32`, the replacement character where it has no answer. */
  function FromU32(v: Word): Scalar {
    if IsScalar(v) then v else REPLACEMENT
  }

  /** The bytes after the first. */
  function NextTail(es: seq<Event>, left: nat, acc: Word): (t: Taken<Scalar>)
    ensures t.res.Ok? ==> |t.rest| <= |es|
    decreases left
  {
    if left == 0 then Taken(Ok(FromU32(acc)), es)
    else
      var next := NextByte(es);
      match next.res
      case Err(e) => Taken(Err(e), next.rest)
      case Ok(b) =>
        if IsContinuation(b) then NextTail(next.rest, left - 1, Shift(acc, b)) else Taken(Ok(REPLACEMENT), next.rest)
  }

  function NextChar(es: seq<Event>): (t: Taken<Scalar>)
    ensures t.res.Ok? ==> |t.rest| < |es|
  {
    var next := NextByte(es);
    match next.res
    case Err(e) => Taken(Err(e), next.rest)
    case Ok(init) =>
      var length := Length(init);
      if length == 0 then Taken(Ok(REPLACEMENT), next.rest)
      else if length == 1 then Taken(Ok(init), next.rest)
      else NextTail(next.rest, length - 1, Payload(init, length))
  }

  // ----- the accumulator -----

  function Fold(acc: Word, bs: seq<Byte>): Word
    decreases |bs|
  {
    if bs == [] then acc else Fold(Shift(acc, bs[0]), bs[1..])
  }

  /** The number the bits spell, without a width. */
  function Spelled(acc: nat, bs: seq<Byte>): nat
    decreases |bs|
  {
    if bs == [] then acc else Spelled(acc * 64 + bs[0] % 64, bs[1..])
  }

  function Pow64(k: nat): (p: nat)
    ensures p > 0
  {
    if k == 0 then 1 else 64 * Pow64(k - 1)
  }

  /** Room for `left` more bytes below 2^31. */
  predicate HasRoom(acc: nat, left: nat) {
    (acc + 1) * Pow64(left) <= 0x8000_0000
  }

  lemma RoomStep(acc: nat, left: nat, b: Byte)
    requires left > 0 && HasRoom(acc, left)
    ensures HasRoom(acc * 64 + b % 64, left - 1)
    ensures acc < 0x0200_0000
  {
    var q := Pow64(left - 1);
    assert (acc + 1) * Pow64(left) == (acc * 64 + 64) * q;
    TimesMonotone(acc * 64 + b % 64 + 1, acc * 64 + 64, q);
    TimesMonotone(1, q, acc * 64 + 64);
  }

  lemma RoomBound(acc: nat, left: nat)
    requires HasRoom(acc, left)
    ensures acc < 0x8000_0000
  {
    TimesMonotone(1, Pow64(left), acc + 1);
  }

  lemma {:induction false} FoldFits(acc: Word, bs: seq<Byte>, left: nat)
    requires |bs| <= left && HasRoom(acc, left)
    ensures Fold(acc, bs) == Spelled(acc, bs) < 0x8000_0000
    decreases |bs|
  {
    RoomBound(acc, left);
    if bs != [] {
      RoomStep(acc, left, bs[0]);
      assert Shift(acc, bs[0]) == acc * 64 + bs[0] % 64;
      FoldFits(Shift(acc, bs[0]), bs[1..], left - 1);
    }
  }

  /** On any bytes the accumulator stays below 2^31, and no bit is shifted out of it. */
  lemma AccumulatorFits(init: Byte, bs: seq<Byte>)
    requires Length(init) >= 2 && |bs| < Length(init)
    ensures var acc := Payload(init, Length(init)); Fold(acc, bs) == Spelled(acc, bs) < 0x8000_0000
  {
    FoldFits(Payload(init, Length(init)), bs, Length(init) - 1);
  }

  // ----- decoding what was encoded -----

  predicate AllContinue(bs: seq<Byte>) {
    forall i :: 0 <= i < |bs| ==> IsContinuation(bs[i])
  }

  lemma {:induction false} TailFolds(bs: seq<Byte>, acc: Word, rest: seq<Event>)
    requires AllContinue(bs)
    ensures NextTail(Events(bs) + rest, |bs|, acc) == Taken(Ok(FromU32(Fold(acc, bs))), rest)
  {
    if bs == [] {
      assert Events(bs) + rest == rest;
    } else {
      var es := Events(bs) + rest;
      assert es[0] == Got(bs[0]) && es[1..] == Events(bs[1..]) + rest;
      assert IsContinuation(bs[0]);
      assert forall i :: 0 <= i < |bs| - 1 ==> bs[1..][i] == bs[i + 1];
      TailFolds(bs[1..], Shift(acc, bs[0]), rest);
    }
  }

  /** A first byte and as many continuation bytes as it calls for. */
  predicate IsSequence(bs: seq<Byte>) {
    bs != [] && |bs| == Length(bs[0]) && AllContinue(bs[1..])
  }

  /** The number such a sequence spells. */
  function ValueOf(bs: seq<Byte>): nat
    requires IsSequence(bs)
  {
    if |bs| == 1 then bs[0] else Spelled(Payload(bs[0], |bs|), bs[1..])
  }

  lemma SequenceDecodes(bs: seq<Byte>, rest: seq<Event>)
    requires IsSequence(bs)
    ensures NextChar(Events(bs) + rest) == Taken(Ok(if IsScalar(ValueOf(bs)) then ValueOf(bs) else 0xFFFD), rest)
  {
    var es := Events(bs) + rest;
    assert es[0] == Got(bs[0]) && es[1..] == Events(bs[1..]) + rest;
    if |bs| > 1 {
      AccumulatorFits(bs[0], bs[1..]);
      TailFolds(bs[1..], Payload(bs[0], |bs|), rest);
    } else {
      assert Events(bs[1..]) + rest == rest;
    }
  }

  lemma Spelled1(acc: nat, b: Byte)
    ensures Spelled(acc, [b]) == acc * 64 + b % 64
  {
    assert [b][1..] == [];
  }

  lemma Spelled2(acc: nat, b: Byte, c: Byte)
    ensures Spelled(acc, [b, c]) == (acc * 64 + b % 64) * 64 + c % 64
  {
    assert [b, c][1..] == [c];
    Spelled1(acc * 64 + b % 64, c);
  }

  lemma Spelled3(acc: nat, b: Byte, c: Byte, d: Byte)
    ensures Spelled(acc, [b, c, d]) == ((acc * 64 + b % 64) * 64 + c % 64) * 64 + d % 64
  {
    assert [b, c, d][1..] == [c, d];
    Spelled2(acc * 64 + b % 64, c, d);
  }

  lemma EncodeIsSequence(v: Scalar)
    ensures IsSequence(Encode(v)) && ValueOf(Encode(v)) == v
  {
    if v >= 0x1_0000 {
      EncodeIs4(v);
    } else if v >= 0x800 {
      var b, c := Continuation(v / 64), Continuation(v);
      assert Encode(v)[1..] == [b, c];
      Spelled2(v / 64 / 64, b, c);
    } else if v >= 0x80 {
      assert Encode(v)[1..] == [Continuation(v)];
      Spelled1(v / 64, Continuation(v));
    }
  }

  lemma EncodeIs4(v: Scalar)
    requires v >= 0x1_0000
    ensures IsSequence(Encode(v)) && ValueOf(Encode(v)) == v
  {
    var b, c, d := Continuation(v / 64 / 64), Continuation(v / 64), Continuation(v);
    assert Encode(v)[1..] == [b, c, d];
    Spelled3(v / 64 / 64 / 64, b, c, d);
  }

  /** One character comes back, and exactly its bytes are consumed. */
  lemma DecodeEncode(v: Scalar, rest: seq<Event>)
    ensures NextChar(Events(Encode(v)) + rest) == Taken(Ok(v), rest)
  {
    EncodeIsSequence(v);
    SequenceDecodes(Encode(v), rest);
  }

  function Before(c: Scalar, more: Taken<seq<Scalar>>): Taken<seq<Scalar>> {
    match more.res
    case Err(e) => Taken(Err(e), more.rest)
    case Ok(cs) => Taken(Ok([c] + cs), more.rest)
  }

  /** `n` calls in a row; the first error ends them. */
  function NextChars(es: seq<Event>, n: nat): Taken<seq<Scalar>>
    decreases n, 0
  {
    if n == 0 then Taken(Ok([]), es) else AfterFirst(NextChar(es), n)
  }

  function AfterFirst(first: Taken<Scalar>, n: nat): Taken<seq<Scalar>>
    requires n > 0
    decreases n - 1, 1
  {
    match first.res
    case Err(e) => Taken(Err(e), first.rest)
    case Ok(c) => Before(c, NextChars(first.rest, n - 1))
  }

  /** Every text comes back character by character, and exactly its bytes are consumed. */
  lemma {:induction false} DecodeEncodeAll(vs: seq<Scalar>, rest: seq<Event>)
    ensures NextChars(Events(EncodeAll(vs)) + rest, |vs|) == Taken(Ok(vs), rest)
  {
    if vs == [] {
      assert Events(EncodeAll(vs)) + rest == rest;
    } else {
      var more := Events(EncodeAll(vs[1..])) + rest;
      assert Events(EncodeAll(vs)) + rest == Events(Encode(vs[0])) + more;
      DecodeEncode(vs[0], more);
      DecodeEncodeAll(vs[1..], rest);
      assert [vs[0]] + vs[1..] == vs;
    }
  }

  // ----- what else is accepted -----

  /** The first two bytes are those of a shortest form: RFC 3629, section 4. */
  predicate Shortest(bs: seq<Byte>)
    requires IsSequence(bs)
  {
    || |bs| == 1
    || (|bs| == 2 && bs[0] >= 0xC2)
    || (|bs| == 3 && (bs[0] > 0xE0 || bs[1] >= 0xA0))
    || (|bs| == 4 && (bs[0] > 0xF0 || bs[1] >= 0x90))
  }

  /**
   A sequence that spells a scalar value is accepted; it is the encoding of that value exactly when its first two bytes
   are those of a shortest form. The decoder does not look at this.
   */
  lemma AcceptsShortest(bs: seq<Byte>)
    requires IsSequence(bs) && IsScalar(ValueOf(bs))
    ensures Encode(ValueOf(bs)) == bs <==> Shortest(bs)
  {
    EncodeIsSequence(ValueOf(bs));
    if |bs| == 2 {
      Accepts2(bs);
    } else if |bs| == 3 {
      Accepts3(bs);
    } else if |bs| == 4 {
      Accepts4(bs);
    }
  }

  lemma Digit(v: nat, hi: nat, b: Byte)
    requires IsContinuation(b) && v == hi * 64 + b % 64
    ensures v / 64 == hi && 0x80 + v % 64 == b
  {}

  lemma Accepts2(bs: seq<Byte>)
    requires IsSequence(bs) && |bs| == 2 && IsScalar(ValueOf(bs))
    ensures Encode(ValueOf(bs)) == bs <==> Shortest(bs)
  {
    var a := Payload(bs[0], 2);
    assert bs[1..] == [bs[1]];
    Spelled1(a, bs[1]);
    assert IsContinuation(bs[1..][0]);
    Digit(ValueOf(bs), a, bs[1]);
  }

  lemma Accepts3(bs: seq<Byte>)
    requires IsSequence(bs) && |bs| == 3 && IsScalar(ValueOf(bs))
    ensures Encode(ValueOf(bs)) == bs <==> Shortest(bs)
  {
    var a := Payload(bs[0], 3);
    assert bs[1..] == [bs[1], bs[2]];
    Spelled2(a, bs[1], bs[2]);
    assert IsContinuation(bs[1..][0]) && IsContinuation(bs[1..][1]);
    var v1 := a * 64 + bs[1] % 64;
    Digit(v1, a, bs[1]);
    Digit(ValueOf(bs), v1, bs[2]);
  }

  lemma Accepts4(bs: seq<Byte>)
    requires IsSequence(bs) && |bs| == 4 && IsScalar(ValueOf(bs))
    ensures Encode(ValueOf(bs)) == bs <==> Shortest(bs)
  {
    var a := Payload(bs[0], 4);
    assert bs[1..] == [bs[1], bs[2], bs[3]];
    Spelled3(a, bs[1], bs[2], bs[3]);
    assert IsContinuation(bs[1..][0]) && IsContinuation(bs[1..][1]) && IsContinuation(bs[1..][2]);
    var v1 := a * 64 + bs[1] % 64;
    var v2 := v1 * 64 + bs[2] % 64;
    Digit(v1, a, bs[1]);
    Digit(v2, v1, bs[2]);
    Digit(ValueOf(bs), v2, bs[3]);
  }

  /** Two continuation bytes and a two-byte form of the null character are both read as it. */
  lemma AcceptsMalformed(rest: seq<Event>)
    ensures NextChar(Events([0x80, 0x80]) + rest) == Taken(Ok(0), rest)
    ensures NextChar(Events([0xC0, 0x80]) + rest) == Taken(Ok(0), rest)
    ensures Encode(0) == [0]
  {}

  lemma {:induction false} TailBreaks(bs: seq<Byte>, b: Byte, left: nat, acc: Word, rest: seq<Event>)
    requires AllContinue(bs) && |bs| < left && !IsContinuation(b)
    ensures NextTail(Events(bs + [b]) + rest, left, acc) == Taken(Ok(REPLACEMENT), rest)
    decreases |bs|
  {
    var es := Events(bs + [b]) + rest;
    if bs == [] {
      assert es[0] == Got(b) && es[1..] == rest;
    } else {
      assert es[0] == Got(bs[0]) && es[1..] == Events(bs[1..] + [b]) + rest;
      assert IsContinuation(bs[0]);
      assert forall i :: 0 <= i < |bs| - 1 ==> bs[1..][i] == bs[i + 1];
      TailBreaks(bs[1..], b, left - 1, Shift(acc, bs[0]), rest);
    }
  }

  /** A sequence that breaks off yields the replacement character; the byte that breaks it is consumed with it. */
  lemma BreaksOff(init: Byte, bs: seq<Byte>, b: Byte, rest: seq<Event>)
    requires AllContinue(bs) && |bs| + 1 < Length(init) && !IsContinuation(b)
    ensures NextChar(Events([init] + bs + [b]) + rest) == Taken(Ok(0xFFFD), rest)
  {
    var es := Events([init] + bs + [b]) + rest;
    assert es[0] == Got(init) && es[1..] == Events(bs + [b]) + rest;
    TailBreaks(bs, b, Length(init) - 1, Payload(init, Length(init)), rest);
  }

  /** The two bytes that begin no sequence. */
  lemma BeginsNothing(b: Byte, rest: seq<Event>)
    requires b == 0xFE || b == 0xFF
    ensures NextChar([Got(b)] + rest) == Taken(Ok(0xFFFD), rest)
  {
    assert ([Got(b)] + rest)[1..] == rest;
  }

  /** What a first byte says: how long the sequence is, and the bits it contributes. Continuation bytes pass for two. */
  lemma LeadBytes(b: Byte)
    ensures b < 0x80 ==> Length(b) == 1
    ensures 0x80 <= b < 0xC0 ==> Length(b) == 2 && Payload(b, 2) == b % 32
    ensures 0xC0 <= b < 0xE0 ==> Length(b) == 2 && Payload(b, 2) == b - 0xC0
    ensures 0xE0 <= b < 0xF0 ==> Length(b) == 3 && Payload(b, 3) == b - 0xE0
    ensures 0xF0 <= b < 0xF8 ==> Length(b) == 4 && Payload(b, 4) == b - 0xF0
    ensures 0xF8 <= b < 0xFC ==> Length(b) == 5 && Payload(b, 5) == b - 0xF8
    ensures 0xFC <= b < 0xFE ==> Length(b) == 6 && Payload(b, 6) == b - 0xFC
    ensures b >= 0xFE ==> Length(b) == 0
  {}

  // ----- when a read brings no byte -----

  /** At the first byte: the end of input is error 2000, an error is passed on, and no character is made up. */
  lemma ReadFails(rest: seq<Event>, error: nat)
    ensures NextChar([]) == Taken(Err(2000), [])
    ensures NextChar([Nothing] + rest) == Taken(Err(2000), rest)
    ensures NextChar([Failed(error)] + rest) == Taken(Err(error), rest)
  {
    assert ([Nothing] + rest)[1..] == rest && ([Failed(error)] + rest)[1..] == rest;
  }

  lemma {:induction false} TailFails(bs: seq<Byte>, left: nat, acc: Word, rest: seq<Event>)
    requires AllContinue(bs) && |bs| < left && (rest == [] || !rest[0].Got?)
    ensures NextTail(Events(bs) + rest, left, acc) ==
      Taken(Err(if rest != [] && rest[0].Failed? then rest[0].error else 2000), if rest == [] then [] else rest[1..])
    decreases |bs|
  {
    var es := Events(bs) + rest;
    if bs == [] {
      assert es == rest;
    } else {
      assert es[0] == Got(bs[0]) && es[1..] == Events(bs[1..]) + rest;
      assert IsContinuation(bs[0]);
      assert forall i :: 0 <= i < |bs| - 1 ==> bs[1..][i] == bs[i + 1];
      TailFails(bs[1..], left - 1, Shift(acc, bs[0]), rest);
    }
  }

  /** Inside a sequence: the same, and the bytes read so far are lost. */
  lemma ReadFailsInside(init: Byte, bs: seq<Byte>, rest: seq<Event>)
    requires AllContinue(bs) && |bs| + 1 < Length(init) && (rest == [] || !rest[0].Got?)
    ensures NextChar(Events([init] + bs) + rest) ==
      Taken(Err(if rest != [] && rest[0].Failed? then rest[0].error else 2000), if rest == [] then [] else rest[1..])
  {
    var es := Events([init] + bs) + rest;
    assert es[0] == Got(init) && es[1..] == Events(bs) + rest;
    TailFails(bs, Length(init) - 1, Payload(init, Length(init)), rest);
  }

  // ----- lines -----

  /** What getchar prints for a character it read. */
  function Echo(c: Scalar): seq<Scalar> {
    if c == CR then [LF, c] else [c]
  }

  const RUBOUT: seq<Scalar> := [BACKSPACE, SPACE, BACKSPACE]

  function Rubout(line: seq<Scalar>, c: Scalar): seq<Scalar> {
    if c == DEL && line != [] then RUBOUT else []
  }

  function KeyEcho(line: seq<Scalar>, c: Scalar): seq<Scalar> {
    Echo(c) + Rubout(line, c)
  }

  predicate Ends(c: Scalar) {
    c == CR || c == LF
  }

  /** What get_line returns, the input that remains, and what it printed. */
  datatype Lined = Lined(res: Result<seq<Scalar>>, rest: seq<Event>, echo: seq<Scalar>)

  function Line(es: seq<Event>, line: seq<Scalar>): Lined
    decreases |es|
  {
    var next := NextChar(es);
    match next.res
    case Err(e) => Lined(Err(e), next.rest, [])
    case Ok(c) =>
      if Ends(c) then Lined(Ok(line), next.rest, Echo(c))
      else
        var more := Line(next.rest, Key(line, c, DEL));
        Lined(more.res, more.rest, KeyEcho(line, c) + more.echo)
  }

  function EditedEcho(line: seq<Scalar>, keys: seq<Scalar>): seq<Scalar>
    decreases |keys|
  {
    if keys == [] then [] else KeyEcho(line, keys[0]) + EditedEcho(Key(line, keys[0], DEL), keys[1..])
  }

  /**
   One character of a line: return (13) and newline (10) end it, delete (127) takes back the last character, every other
   character is kept. What each prints is given beside it.
   */
  lemma OneChar(c: Scalar, es: seq<Event>, rest: seq<Event>, line: seq<Scalar>)
    requires NextChar(es) == Taken(Ok(c), rest)
    ensures c == 13 ==> Line(es, line) == Lined(Ok(line), rest, [10, 13])
    ensures c == 10 ==> Line(es, line) == Lined(Ok(line), rest, [10])
    ensures c == 127 ==>
      var more := Line(rest, if line == [] then [] else line[..|line| - 1]);
      Line(es, line) == Lined(more.res, more.rest, (if line == [] then [127] else [127, 8, 32, 8]) + more.echo)
    ensures c != 13 && c != 10 && c != 127 ==>
      var more := Line(rest, line + [c]);
      Line(es, line) == Lined(more.res, more.rest, [c] + more.echo)
  {
    KeyEchoIs(line, c);
  }

  lemma KeyEchoIs(line: seq<Scalar>, c: Scalar)
    ensures c == 127 ==> KeyEcho(line, c) == if line == [] then [127] else [127, 8, 32, 8]
    ensures c != 127 && c != 13 ==> KeyEcho(line, c) == [c]
  {}

  /** An error ends the line, and what was typed is lost. */
  lemma LineFails(es: seq<Event>, line: seq<Scalar>)
    requires NextChar(es).res.Err?
    ensures Line(es, line) == Lined(Err(NextChar(es).res.error), NextChar(es).rest, [])
  {}

  /** A line typed in any characters, deletes among them, and ended by return or newline. */
  lemma {:induction false} LineOfKeys(line: seq<Scalar>, keys: seq<Scalar>, end: Scalar, rest: seq<Event>)
    requires (end == 10 || end == 13) && forall i :: 0 <= i < |keys| ==> keys[i] != 10 && keys[i] != 13
    ensures Line(Events(EncodeAll(keys) + Encode(end)) + rest, line) ==
      Lined(Ok(Edited(line, keys, 127)), rest, EditedEcho(line, keys) + if end == 13 then [10, 13] else [10])
    decreases |keys|
  {
    var es := Events(EncodeAll(keys) + Encode(end)) + rest;
    if keys == [] {
      assert es == Events(Encode(end)) + rest;
      DecodeEncode(end, rest);
    } else {
      var c := keys[0];
      var more := EncodeAll(keys[1..]) + Encode(end);
      assert EncodeAll(keys) + Encode(end) == Encode(c) + more;
      assert es == Events(Encode(c)) + (Events(more) + rest);
      DecodeEncode(c, Events(more) + rest);
      LineOfKeys(Key(line, c, DEL), keys[1..], end, rest);
    }
  }

  /** `line` was typed and `es` is still to come; with what that prints, the outcome is `all`. */
  ghost predicate LineSoFar(all: Lined, output: seq<Scalar>, es: seq<Event>, line: seq<Scalar>) {
    forall z: nat {:trigger Opened(z)} ::
      var done := Line(es, line);
      all == Lined(done.res, done.rest, output + done.echo)
  }

  lemma LineStarts(es: seq<Event>, output: seq<Scalar>)
    ensures var line := Line(es, []); LineSoFar(Lined(line.res, line.rest, output + line.echo), output, es, [])
  {}

  lemma LineErr(all: Lined, output: seq<Scalar>, es: seq<Event>, line: seq<Scalar>, c: Result<Scalar>, rest: seq<Event>)
    requires LineSoFar(all, output, es, line) && Taken(c, rest) == NextChar(es) && c.Err?
    ensures all == Lined(Err(c.error), rest, output)
  {
    assert Opened(0);
    assert output + [] == output;
  }

  lemma LineEnd(all: Lined, output: seq<Scalar>, es: seq<Event>, line: seq<Scalar>, c: Result<Scalar>, rest: seq<Event>)
    requires LineSoFar(all, output, es, line) && Taken(c, rest) == NextChar(es) && c.Ok? && Ends(c.value)
    ensures all == Lined(Ok(line), rest, output + Echo(c.value))
  {
    assert Opened(0);
  }

  lemma LineKey(all: Lined, output: seq<Scalar>, es: seq<Event>, line: seq<Scalar>, c: Result<Scalar>, rest: seq<Event>)
    requires LineSoFar(all, output, es, line) && Taken(c, rest) == NextChar(es) && c.Ok? && !Ends(c.value)
    ensures LineSoFar(all, output + Echo(c.value) + Rubout(line, c.value), rest, Key(line, c.value, DEL))
  {
    assert Opened(0);
    var more := Line(rest, Key(line, c.value, DEL));
    Assoc(output, Echo(c.value), Rubout(line, c.value));
    Assoc(output, KeyEcho(line, c.value), more.echo);
  }

  // ----- the console -----

  /** Standard input as the reads deliver it, and what was printed. */
  class Console {
    var input: seq<Event>
    var output: seq<Scalar>

    constructor (es: seq<Event>)
      ensures input == es && output == []
    {
      input, output := es, [];
    }

    /** getbyte_noecho */
    method GetByte() returns (r: Result<Byte>)
      modifies this`input
      ensures Taken(r, input) == NextByte(old(input))
    {
      if input == [] {
        return Err(EEOF);
      }
      match input[0] {
        case Got(b) => r := Ok(b);
        case Nothing => r := Err(EEOF);
        case Failed(e) => r := Err(e);
      }
      input := input[1..];
    }

    /** getchar_noecho */
    method GetCharNoEcho() returns (r: Result<Scalar>)
      modifies this`input
      ensures Taken(r, input) == NextChar(old(input))
    {
      var first := GetByte();
      if first.Err? {
        return Err(first.error);
      }
      var init := first.value;
      var length := Length(init);
      if length == 0 {
        return Ok(REPLACEMENT);
      }
      if length == 1 {
        return Ok(init);
      }
      r := GetTail(Payload(init, length), length - 1);
    }

    /** The loop of getchar_noecho over the bytes after the first. */
    method GetTail(payload: Word, left: nat) returns (r: Result<Scalar>)
      requires HasRoom(payload, left)
      modifies this`input
      ensures Taken(r, input) == NextTail(old(input), left, payload)
    {
      RoomBound(payload, left);
      var buf := payload;
      for i := 0 to left
        invariant NextTail(input, left - i, buf) == NextTail(old(input), left, payload)
        invariant HasRoom(buf, left - i) && buf < 0x8000_0000
      {
        var next := GetByte();
        if next.Err? {
          return Err(next.error);
        }
        var b := next.value;
        if !IsContinuation(b) {
          return Ok(REPLACEMENT);
        }
        RoomStep(buf, left - i, b);
        buf := Shift(buf, b);
        RoomBound(buf, left - i - 1);
      }
      r := Ok(FromU32(buf));
    }

    /** getchar */
    method GetChar() returns (r: Result<Scalar>)
      modifies this
      ensures Taken(r, input) == NextChar(old(input))
      ensures output == old(output) + if r.Ok? then Echo(r.value) else []
    {
      r := GetCharNoEcho();
      if r.Ok? {
        if r.value == CR {
          output := output + [LF];
        }
        output := output + [r.value];
      }
    }

    /** What get_line does with a key that does not end the line, once it was echoed. */
    method Edit(line: seq<Scalar>, c: Scalar) returns (r: seq<Scalar>)
      modifies this`output
      ensures r == Key(line, c, DEL) && output == old(output) + Rubout(line, c)
    {
      r := line;
      if c == DEL {
        if line != [] {
          r := line[..|line| - 1];
          output := output + RUBOUT;
        }
      } else {
        r := line + [c];
      }
    }

    /** get_line */
    method GetLine() returns (r: Result<seq<Scalar>>)
      modifies this
      ensures var line := Line(old(input), []);
        r == line.res && input == line.rest && output == old(output) + line.echo
    {
      var res: seq<Scalar> := [];
      ghost var line := Line(input, []);
      ghost var all := Lined(line.res, line.rest, output + line.echo);
      LineStarts(input, output);
      while true
        invariant LineSoFar(all, output, input, res)
        decreases |input|
      {
        ghost var es, out, typed := input, output, res;
        var c := GetChar();
        if c.Err? {
          LineErr(all, out, es, typed, c, input);
          return Err(c.error);
        }
        if Ends(c.value) {
          LineEnd(all, out, es, typed, c, input);
          return Ok(res);
        }
        res := Edit(res, c.value);
        LineKey(all, out, es, typed, c, input);
      }
    }
  }
}
