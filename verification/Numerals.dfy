/** Place value: what a text of digits says. */
module Numerals {
  import opened Bytes

  function Power(base: nat, k: nat): nat {
    if k == 0 then 1 else base * Power(base, k - 1)
  }

  /** The value of a list of digits, the most significant first. */
  function PlaceValue(vs: seq<int>, base: nat): int {
    if vs == [] then 0 else vs[0] * Power(base, |vs| - 1) + PlaceValue(vs[1..], base)
  }

  lemma {:induction false} PlaceValueSnoc(vs: seq<int>, d: int, base: nat)
    ensures PlaceValue(vs + [d], base) == PlaceValue(vs, base) * base + d
  {
    if vs == [] {
      assert (vs + [d])[1..] == [];
      assert PlaceValue([], base) == 0 && PlaceValue(vs + [d], base) == d * Power(base, 0);
    } else {
      var v, k, rest := vs[0], |vs| - 1, PlaceValue(vs[1..], base);
      PlaceValueSnoc(vs[1..], d, base);
      assert (vs + [d])[0] == v && (vs + [d])[1..] == vs[1..] + [d];
      assert Power(base, k + 1) == base * Power(base, k);
      Regroup(v, base, Power(base, k), rest);
    }
  }

  lemma Regroup(v: int, base: int, power: int, rest: int)
    ensures v * (base * power) + rest * base == (v * power + rest) * base
  {
  }

  /** The bytes of s are these digits, given by their positions in the alphabet. */
  predicate DigitsAre(s: bytes, alphabet: string, vs: seq<int>) {
    |vs| == |s| && forall i | 0 <= i < |s| :: 0 <= vs[i] < |alphabet| && s[i] == alphabet[vs[i]] as int
  }

  /** s is n in the positional system of this alphabet. */
  ghost predicate Spells(s: bytes, alphabet: string, n: int) {
    exists vs :: DigitsAre(s, alphabet, vs) && PlaceValue(vs, |alphabet|) == n
  }

  /** The same without superfluous zeros in front. */
  ghost predicate Numeral(s: bytes, alphabet: string, n: int) {
    s != [] && Spells(s, alphabet, n) && (|s| > 1 ==> alphabet != "" && s[0] != alphabet[0] as int)
  }

  lemma SpellsNothing(alphabet: string)
    ensures Spells([], alphabet, 0)
  {
    assert DigitsAre([], alphabet, []);
  }

  lemma SpellsSnoc(s: bytes, alphabet: string, n: int, d: nat, c: byte)
    requires Spells(s, alphabet, n) && d < |alphabet| && c == alphabet[d] as int
    ensures Spells(s + [c], alphabet, n * |alphabet| + d)
  {
    var vs :| DigitsAre(s, alphabet, vs) && PlaceValue(vs, |alphabet|) == n;
    PlaceValueSnoc(vs, d, |alphabet|);
    assert DigitsAre(s + [c], alphabet, vs + [d]);
  }

  /** The last digit of a spelled number, and what stands before it. */
  lemma LastDigit(s: bytes, alphabet: string, n: int) returns (d: nat, q: int)
    requires s != [] && Spells(s, alphabet, n)
    ensures d < |alphabet| && s[|s| - 1] == alphabet[d] as int
    ensures n == q * |alphabet| + d && Spells(s[..|s| - 1], alphabet, q)
  {
    var vs :| DigitsAre(s, alphabet, vs) && PlaceValue(vs, |alphabet|) == n;
    var front: seq<int> := vs[..|vs| - 1];
    var last: int := vs[|vs| - 1];
    d, q := last, PlaceValue(front, |alphabet|);
    assert vs == front + [last];
    PlaceValueSnoc(front, last, |alphabet|);
    assert DigitsAre(s[..|s| - 1], alphabet, front);
  }

  lemma {:induction false} SpellsNat(s: bytes, alphabet: string, n: int)
    requires Spells(s, alphabet, n)
    ensures n >= 0 && (s == [] ==> n == 0)
  {
    if s == [] {
      var vs :| DigitsAre(s, alphabet, vs) && PlaceValue(vs, |alphabet|) == n;
    } else {
      var d, q := LastDigit(s, alphabet, n);
      SpellsNat(s[..|s| - 1], alphabet, q);
    }
  }

  lemma {:induction false} NumeralPositive(s: bytes, alphabet: string, n: int)
    requires s != [] && Spells(s, alphabet, n) && alphabet != "" && s[0] != alphabet[0] as int
    ensures n > 0
  {
    var d, q := LastDigit(s, alphabet, n);
    if |s| > 1 {
      NumeralPositive(s[..|s| - 1], alphabet, q);
      Multiples(q, 0, |alphabet|);
    } else {
      SpellsNat(s[..|s| - 1], alphabet, q);
    }
  }

  /** A number has one numeral only. */
  lemma {:induction false} OneNumeral(s: bytes, t: bytes, alphabet: string, n: int)
    requires |alphabet| > 1 && Numeral(s, alphabet, n) && Numeral(t, alphabet, n)
    ensures s == t
    decreases |s|
  {
    hide Spells;
    var d, p := LastDigit(s, alphabet, n);
    var e, q := LastDigit(t, alphabet, n);
    var s', t' := s[..|s| - 1], t[..|t| - 1];
    Divided(p, d, q, e, |alphabet|);
    SpellsNat(s', alphabet, p);
    SpellsNat(t', alphabet, q);
    if |s| > 1 {
      NumeralPositive(s', alphabet, p);
    }
    if |t| > 1 {
      NumeralPositive(t', alphabet, q);
    }
    if |s| > 1 && |t| > 1 {
      OneNumeral(s', t', alphabet, p);
    }
    assert s == s' + [s[|s| - 1]] && t == t' + [t[|t| - 1]];
  }

  lemma Multiples(p: int, q: int, base: nat)
    ensures p > q ==> p * base >= q * base + base
  {
    if p > q {
      assert p * base - q * base == (p - q) * base;
      assert (p - q) * base == base + (p - q - 1) * base;
    }
  }

  lemma Divided(p: int, d: nat, q: int, e: nat, base: nat)
    requires d < base && e < base && p * base + d == q * base + e
    ensures p == q && d == e
  {
    Multiples(p, q, base);
    Multiples(q, p, base);
  }
}
