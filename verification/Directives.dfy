/** What each directive of vfprintf prints, as a reader of the output sees it, and how formats compose. */
module Directives {
  import opened Arith
  import opened BasicIO
  import opened Folding
  import opened Seqs

  // ----- numerals -----

  /** Digits of the base, capital letters from ten on, without a leading zero. */
  predicate IsNumeral(s: string, base: nat)
    requires 2 <= base <= 16
  {
    && s != "" && (|s| > 1 ==> s[0] != '0')
    && forall i :: 0 <= i < |s| ==> s[i] in "0123456789ABCDEF"[..base]
  }

  lemma {:induction false} DigitsNumeral(n: nat, base: nat)
    requires 2 <= base <= 16
    ensures IsNumeral(Digits(n, base), base) && (n > 0 ==> Digits(n, base)[0] != '0')
  {
    if n >= base {
      Quotient(n, base);
      DigitsNumeral(n / base, base);
    }
  }

  lemma DigitBelow(c: char, base: nat)
    requires 2 <= base <= 16 && c in "0123456789ABCDEF"[..base]
    ensures DigitValue(c) < base && c == "0123456789ABCDEF"[DigitValue(c)]
  {
    var i :| 0 <= i < base && "0123456789ABCDEF"[..base][i] == c;
    DigitValueOf(i);
    assert Digit(i) == c;
  }

  lemma {:induction false} NumeralPositive(s: string, base: nat)
    requires 2 <= base <= 16 && IsNumeral(s, base) && s[0] != '0'
    ensures ValueOf(s, base) > 0
    decreases |s|
  {
    if |s| > 1 {
      NumeralPositive(Init(s), base);
      TimesMonotone(1, ValueOf(Init(s), base), base);
    } else {
      assert Init(s) == "";
      DigitBelow(s[0], base);
    }
  }

  lemma LastDigit(s: string, base: nat)
    requires 2 <= base <= 16 && IsNumeral(s, base)
    ensures ValueOf(s, base) == ValueOf(Init(s), base) * base + DigitValue(Last(s)) && DigitValue(Last(s)) < base
  {
    DigitBelow(Last(s), base);
  }

  lemma DivModUnique(q: nat, r: nat, p: nat, t: nat, base: nat)
    requires r < base && t < base && q * base + r == p * base + t
    ensures q == p && r == t
  {
    if q < p {
      TimesMonotone(q + 1, p, base);
    } else if p < q {
      TimesMonotone(p + 1, q, base);
    }
  }

  /** `s` is the numeral of `n`. */
  ghost predicate Spells(s: string, n: nat, base: nat)
    requires 2 <= base <= 16
  {
    forall z: nat {:trigger Opened(z)} :: IsNumeral(s, base) && ValueOf(s, base) == n
  }

  lemma SpellsMeans(s: string, n: nat, base: nat)
    requires 2 <= base <= 16 && Spells(s, n, base)
    ensures IsNumeral(s, base) && ValueOf(s, base) == n
  {
    assert Opened(0);
  }

  lemma EqualAtTheEnd(s: string, t: string, n: nat, base: nat)
    requires 2 <= base <= 16 && Spells(s, n, base) && Spells(t, n, base)
    ensures s != "" && t != "" && Last(s) == Last(t)
    ensures |s| > 1 ==>
      var m := ValueOf(Init(s), base); Spells(Init(s), m, base) && Spells(Init(t), m, base)
    ensures |s| == 1 ==> Init(s) == "" == Init(t)
  {
    SpellsMeans(s, n, base);
    SpellsMeans(t, n, base);
    LongOrShort(s, base);
    LongOrShort(t, base);
    LastDigit(s, base);
    LastDigit(t, base);
    DivModUnique(ValueOf(Init(s), base), DigitValue(Last(s)), ValueOf(Init(t), base), DigitValue(Last(t)), base);
    DigitBelow(Last(s), base);
    DigitBelow(Last(t), base);
  }

  /** A number has one numeral in each base. */
  lemma {:induction false} NumeralUnique(s: string, t: string, n: nat, base: nat)
    requires 2 <= base <= 16 && Spells(s, n, base) && Spells(t, n, base)
    ensures s == t
    decreases |s|
  {
    EqualAtTheEnd(s, t, n, base);
    if |s| > 1 {
      NumeralUnique(Init(s), Init(t), ValueOf(Init(s), base), base);
    }
    SameEnds(s, t);
  }

  /** More than one digit, exactly when there is something before the last. */
  lemma LongOrShort(s: string, base: nat)
    requires 2 <= base <= 16 && IsNumeral(s, base)
    ensures |s| > 1 <==> ValueOf(Init(s), base) > 0
    ensures if |s| > 1 then IsNumeral(Init(s), base) else Init(s) == ""
  {
    if |s| > 1 {
      NumeralPositive(Init(s), base);
    } else {
      assert Init(s) == "";
    }
  }

  lemma DigitsSpell(n: nat, base: nat)
    requires 2 <= base <= 16
    ensures Spells(Digits(n, base), n, base)
  {
    DigitsNumeral(n, base);
    ValueOfDigits(n, base);
  }

  // ----- one directive -----

  lemma OneDirective(fmt: string, a: Arg)
    requires |fmt| == 2 && fmt[0] == '%' && Takes(fmt[1]) && (TakesWord(fmt[1]) <==> a.Word64?)
    ensures Matches(fmt, [a]) && Formatted(fmt, [a]) == Shown(fmt[1], a)
  {
    assert fmt[2..] == "" && [a][1..] == [];
    assert Formatted(fmt, [a]) == Shown(fmt[1], a) + "";
  }

  lemma SignedMagnitude(n: Bits64)
    ensures Minus(ToI64(n), true) <==> n >= 0x8000_0000_0000_0000
    ensures Magnitude(ToI64(n), true) == if n >= 0x8000_0000_0000_0000 then 0x1_0000_0000_0000_0000 - n else n
  {
    MagnitudeIs(ToI64(n), true);
    assert n % U64 == n;
  }

  lemma TextSpells(num: I64, base: nat, sign: bool, m: nat)
    requires 2 <= base <= 16 && m == Magnitude(num, sign)
    ensures var s := Text(num, base, sign);
      if Minus(num, sign) then |s| > 0 && s[0] == '-' && Spells(s[1..], m, base) else Spells(s, m, base)
  {
    var d := Digits(m, base);
    DigitsSpell(m, base);
    assert "" + d == d && ("-" + d)[1..] == d;
  }

  lemma UnsignedText(n: Bits64, base: nat)
    requires 2 <= base <= 16
    ensures Spells(Text(ToI64(n), base, false), n, base)
  {
    TextSpells(ToI64(n), base, false, n);
  }

  /** %d: the signed number in base 10. */
  lemma PrintsSigned(bits: Bits64)
    ensures Matches("%d", [Word64(bits)])
    ensures var s := Formatted("%d", [Word64(bits)]);
      if bits < 0x8000_0000_0000_0000 then Spells(s, bits, 10)
      else |s| > 0 && s[0] == '-' && Spells(s[1..], 0x1_0000_0000_0000_0000 - bits, 10)
  {
    OneDirective("%d", Word64(bits));
    SignedMagnitude(bits);
    TextSpells(ToI64(bits), 10, true, Magnitude(ToI64(bits), true));
  }

  /** %u: the unsigned number in base 10. */
  lemma PrintsUnsigned(bits: Bits64)
    ensures Matches("%u", [Word64(bits)]) && Spells(Formatted("%u", [Word64(bits)]), bits, 10)
  {
    OneDirective("%u", Word64(bits));
    assert Formatted("%u", [Word64(bits)]) == Text(ToI64(bits), 10, false);
    UnsignedText(bits, 10);
  }

  /** %l: its low 32 bits in base 10. */
  lemma PrintsLow(bits: Bits64)
    ensures Matches("%l", [Word64(bits)]) && Spells(Formatted("%l", [Word64(bits)]), bits % 0x1_0000_0000, 10)
  {
    OneDirective("%l", Word64(bits));
    assert Formatted("%l", [Word64(bits)]) == Text(ToI64(bits % U32), 10, false);
    UnsignedText(bits % 0x1_0000_0000, 10);
  }

  /** %x: the unsigned number in base 16. */
  lemma PrintsHex(bits: Bits64)
    ensures Matches("%x", [Word64(bits)]) && Spells(Formatted("%x", [Word64(bits)]), bits, 16)
  {
    OneDirective("%x", Word64(bits));
    assert Formatted("%x", [Word64(bits)]) == Text(ToI64(bits), 16, false);
    UnsignedText(bits, 16);
  }

  /** %p: the same after 0x. */
  lemma PrintsPointer(bits: Bits64)
    ensures Matches("%p", [Word64(bits)])
    ensures var s := Formatted("%p", [Word64(bits)]);
      |s| > 2 && s[..2] == "0x" && Spells(s[2..], bits, 16)
  {
    OneDirective("%p", Word64(bits));
    UnsignedText(bits, 16);
    var t := Text(ToI64(bits), 16, false);
    assert ("0x" + t)[2..] == t && ("0x" + t)[..2] == "0x";
  }

  /** %c: one character, the low eight bits. */
  lemma PrintsChar(bits: Bits64)
    ensures Matches("%c", [Word64(bits)]) && Formatted("%c", [Word64(bits)]) == [(bits % 256) as char]
  {
    OneDirective("%c", Word64(bits));
  }

  /** %s: the string, or (null). */
  lemma PrintsString(s: string)
    ensures Matches("%s", [Pointer(s)]) && Formatted("%s", [Pointer(s)]) == s
    ensures Matches("%s", [Null]) && Formatted("%s", [Null]) == "(null)"
  {
    OneDirective("%s", Pointer(s));
    OneDirective("%s", Null);
  }

  /** Two percent signs print one; any other character that is no directive is printed after its percent sign. */
  lemma PrintsOther(c: char)
    requires c !in "dulxpcs"
    ensures Matches(['%', c], [])
    ensures Formatted(['%', c], []) == if c == '%' then "%" else ['%', c]
  {
    assert ['%', c][2..] == "";
    assert forall s: string :: s + "" == s;
  }

  /** A character outside directives prints as it is, and a percent sign at the end prints nothing. */
  lemma PrintsPlain(c: char)
    requires c != '%'
    ensures Matches([c], []) && Formatted([c], []) == [c]
    ensures Matches("%", []) && Formatted("%", []) == ""
  {
    assert [c][1..] == "";
  }

  // ----- composition -----

  /** How many arguments a format takes. */
  function Needs(fmt: string): nat
    decreases |fmt|
  {
    if |fmt| == 0 then 0
    else if fmt[0] != '%' then Needs(fmt[1..])
    else if |fmt| == 1 then 0
    else (if Takes(fmt[1]) then 1 else 0) + Needs(fmt[2..])
  }

  /** The format does not end inside a directive. */
  predicate Closed(fmt: string)
    decreases |fmt|
  {
    if |fmt| == 0 then true
    else if fmt[0] != '%' then Closed(fmt[1..])
    else |fmt| > 1 && Closed(fmt[2..])
  }

  /** Formats print one after the other, each with its own arguments. */
  lemma {:induction false} FormattedAppend(f: string, g: string, a: seq<Arg>, b: seq<Arg>)
    requires Closed(f) && Matches(f, a) && |a| == Needs(f) && Matches(g, b)
    ensures Matches(f + g, a + b) && Formatted(f + g, a + b) == Formatted(f, a) + Formatted(g, b)
    decreases |f|
  {
    if |f| == 0 {
      assert f + g == g && a + b == b;
    } else if f[0] != '%' {
      FormattedAppend(f[1..], g, a, b);
      AppendPlain(f, g, a, b);
    } else if Takes(f[1]) {
      FormattedAppend(f[2..], g, a[1..], b);
      AppendTaking(f, g, a, b);
    } else {
      FormattedAppend(f[2..], g, a, b);
      AppendLiteral(f, g, a, b);
    }
  }

  lemma AppendPlain(f: string, g: string, a: seq<Arg>, b: seq<Arg>)
    requires |f| > 0 && f[0] != '%' && Matches(f, a) && Matches(g, b) && Matches(f[1..] + g, a + b)
    requires Formatted(f[1..] + g, a + b) == Formatted(f[1..], a) + Formatted(g, b)
    ensures Matches(f + g, a + b) && Formatted(f + g, a + b) == Formatted(f, a) + Formatted(g, b)
  {
    assert (f + g)[1..] == f[1..] + g;
    Assoc([f[0]], Formatted(f[1..], a), Formatted(g, b));
  }

  lemma AppendTaking(f: string, g: string, a: seq<Arg>, b: seq<Arg>)
    requires |f| > 1 && f[0] == '%' && Takes(f[1]) && Matches(f, a) && Matches(g, b) && Matches(f[2..] + g, a[1..] + b)
    requires Formatted(f[2..] + g, a[1..] + b) == Formatted(f[2..], a[1..]) + Formatted(g, b)
    ensures Matches(f + g, a + b) && Formatted(f + g, a + b) == Formatted(f, a) + Formatted(g, b)
  {
    assert (f + g)[2..] == f[2..] + g && (f + g)[1] == f[1];
    assert (a + b)[1..] == a[1..] + b;
    Assoc(Shown(f[1], a[0]), Formatted(f[2..], a[1..]), Formatted(g, b));
  }

  lemma AppendLiteral(f: string, g: string, a: seq<Arg>, b: seq<Arg>)
    requires |f| > 1 && f[0] == '%' && !Takes(f[1]) && Matches(f, a) && Matches(g, b) && Matches(f[2..] + g, a + b)
    requires Formatted(f[2..] + g, a + b) == Formatted(f[2..], a) + Formatted(g, b)
    ensures Matches(f + g, a + b) && Formatted(f + g, a + b) == Formatted(f, a) + Formatted(g, b)
  {
    assert (f + g)[2..] == f[2..] + g && (f + g)[1] == f[1];
    Assoc(Literal(f[1]), Formatted(f[2..], a), Formatted(g, b));
  }
}
