/** Fixed-width positional numerals over byte characters: digit `d` is the
    character with code `zero + d`. Base 256 with `zero` 0 is big-endian
    `struct.pack(">I")`/`unpack(">I")`, base 85 with `zero` 33 is an
    Ascii85 group, base 2 with `zero` 48 is a string of binary digits. */
module Radix {
  import opened Common
  import opened Arith

  function Pow(b: nat, n: nat): (r: nat)
    ensures b > 0 ==> r > 0
  {
    if n == 0 then 1 else b * Pow(b, n - 1)
  }

  /** The digit characters of a numeral in `base`. */
  predicate IsDigits(s: Bytes, base: nat, zero: nat)
  {
    forall i | 0 <= i < |s| :: zero <= s[i] as int < zero + base
  }

  /** The `n` low digits of `v`, most significant first. */
  function Digits(v: nat, n: nat, base: nat, zero: nat): (r: Bytes)
    requires base > 0 && zero + base <= 256
    ensures |r| == n
    ensures IsDigits(r, base, zero)
  {
    if n == 0 then []
    else
      DivMod(v, base);
      var h := Digits(v / base, n - 1, base, zero);
      var r := h + [(v % base + zero) as char];
      assert forall i | 0 <= i < |h| :: r[i] == h[i];
      r
  }

  /** The value of a numeral, read most significant digit first. */
  function Value(s: Bytes, base: nat, zero: nat): int
  {
    if s == [] then 0
    else Value(s[..|s| - 1], base, zero) * base + (s[|s| - 1] as int - zero)
  }

  // ---------------------------------------------------------------------
  // Lemmas

  lemma PowAdd(b: nat, m: nat, n: nat)
    ensures Pow(b, m + n) == Pow(b, m) * Pow(b, n)
    decreases n
  {
    if n > 0 {
      PowAdd(b, m, n - 1);
      var x, y := Pow(b, m), Pow(b, n - 1);
      assert Pow(b, m + n) == b * (x * y);
      assert Pow(b, n) == b * y;
      MulLeftSwap(b, x, y);
    }
  }

  lemma PowMonotone(b: nat, m: nat, n: nat)
    requires b > 0 && m <= n
    ensures Pow(b, m) <= Pow(b, n)
    decreases n
  {
    if m < n {
      PowMonotone(b, m, n - 1);
      MulMonotone(Pow(b, n - 1), 1, b);
    }
  }

  lemma {:induction false} ValueBound(s: Bytes, base: nat, zero: nat)
    requires IsDigits(s, base, zero)
    ensures 0 <= Value(s, base, zero) < Pow(base, |s|)
  {
    if s != [] {
      var h := s[..|s| - 1];
      assert IsDigits(h, base, zero) by {
        forall i | 0 <= i < |h| ensures zero <= h[i] as int < zero + base {
          assert h[i] == s[i];
        }
      }
      ValueBound(h, base, zero);
      HornerStep(Value(h, base, zero), s[|s| - 1] as int - zero, base, Pow(base, |h|));
    }
  }

  /** One more digit in front of the last keeps the value below the next
      power. */
  lemma HornerStep(v: int, d: int, base: nat, p: nat)
    requires 0 <= v < p && 0 <= d < base
    ensures 0 <= v * base + d < base * p
  {
    MulMonotone(base, v, p - 1);
    MulDistSub(base, p, 1);
    MulMonotone(base, 0, v);
  }

  /** Appending digits shifts the value left by as many places. */
  lemma {:induction false} ValueConcat(s: Bytes, t: Bytes, base: nat, zero: nat)
    ensures Value(s + t, base, zero) == Value(s, base, zero) * Pow(base, |t|) + Value(t, base, zero)
    decreases |t|
  {
    if t == [] {
      assert s + t == s;
    } else {
      var t' := t[..|t| - 1];
      assert (s + t)[..|s + t| - 1] == s + t';
      assert (s + t)[|s + t| - 1] == t[|t| - 1];
      ValueConcat(s, t', base, zero);
      var vs, vt := Value(s, base, zero), Value(t', base, zero);
      calc {
        Value(s + t, base, zero);
        (vs * Pow(base, |t'|) + vt) * base + (t[|t| - 1] as int - zero);
        vs * (Pow(base, |t'|) * base) + (vt * base + (t[|t| - 1] as int - zero));
        { assert Pow(base, |t|) == base * Pow(base, |t'|); }
        vs * Pow(base, |t|) + Value(t, base, zero);
      }
    }
  }

  /** A numeral of `n` digits holds `v` modulo `base` to the `n`. */
  lemma {:induction false} ValueOfDigits(v: nat, n: nat, base: nat, zero: nat)
    requires base > 0 && zero + base <= 256
    ensures Value(Digits(v, n, base, zero), base, zero) == v % Pow(base, n)
  {
    if n > 0 {
      var d := Digits(v, n, base, zero);
      DivMod(v, base);
      assert d[..|d| - 1] == Digits(v / base, n - 1, base, zero);
      ValueOfDigits(v / base, n - 1, base, zero);
      DivModNested(v, base, Pow(base, n - 1));
      DivMod(v, base);
      assert d[|d| - 1] as int - zero == v % base;
      assert Pow(base, n) == base * Pow(base, n - 1);
    }
  }

  /** Reading a numeral and writing it back gives the same digits. */
  lemma {:induction false} DigitsOfValue(s: Bytes, base: nat, zero: nat)
    requires base > 0 && zero + base <= 256
    requires IsDigits(s, base, zero)
    ensures 0 <= Value(s, base, zero) && Digits(Value(s, base, zero), |s|, base, zero) == s
  {
    if s != [] {
      var h := s[..|s| - 1];
      assert IsDigits(h, base, zero) by {
        forall i | 0 <= i < |h| ensures zero <= h[i] as int < zero + base {
          assert h[i] == s[i];
        }
      }
      DigitsOfValue(h, base, zero);
      ValueBound(h, base, zero);
      var vh := Value(h, base, zero);
      var d := s[|s| - 1] as int - zero;
      HornerStep(vh, d, base, Pow(base, |h|));
      var v := Value(s, base, zero);
      DivModUnique(v, base, vh, d);
      assert s == h + [s[|s| - 1]];
    }
  }

  /** The leading `n - k` digits of `v` are the digits of `v` with its
      `k` low digits divided away. */
  lemma {:induction false} DigitsPrefix(v: nat, n: nat, k: nat, base: nat, zero: nat)
    requires base > 0 && zero + base <= 256 && k <= n
    ensures Digits(v, n, base, zero)[..n - k] == Digits(v / Pow(base, k), n - k, base, zero)
    decreases k
  {
    if k == 0 {
      assert Digits(v, n, base, zero)[..n] == Digits(v, n, base, zero);
    } else {
      var d := Digits(v, n, base, zero);
      DivMod(v, base);
      var h := Digits(v / base, n - 1, base, zero);
      assert d[..n - 1] == h;
      DigitsPrefix(v / base, n - 1, k - 1, base, zero);
      assert d[..n - k] == h[..n - 1 - (k - 1)];
      DivModNested(v, base, Pow(base, k - 1));
    }
  }
}
