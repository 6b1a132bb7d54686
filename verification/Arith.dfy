/** Facts about products and quotients of symbolic numbers. */
module Arith {
  lemma DivMod(n: nat, base: nat)
    requires base > 0
    ensures n / base * base + n % base == n
  {}

  lemma TimesMonotone(a: nat, b: nat, q: nat)
    requires a <= b
    ensures q * a <= q * b && a * q <= b * q
  {}
}
