/** Decimal notation of non-negative numbers. */
module Decimal {

  predicate IsDigit(c: char) {
    '0' <= c <= '9'
  }

  function DigitChar(d: nat): (c: char)
    requires d < 10
    ensures IsDigit(c) && c as int - '0' as int == d
  {
    ('0' as int + d) as char
  }

  /** The usual digits of `n`, without leading zeros. */
  function Digits(n: nat): (s: string)
    ensures s != [] && forall i :: 0 <= i < |s| ==> IsDigit(s[i])
  {
    (if n < 10 then [] else Digits(n / 10)) + [DigitChar(n % 10)]
  }

  /** The digit with weight 10^k, counted from the last. */
  lemma {:induction false} DigitAt(n: nat, k: nat)
    requires k < |Digits(n)|
    ensures Digits(n)[|Digits(n)| - 1 - k] == "0123456789"[Place(n, k)]
    ensures n > 0 ==> Digits(n)[0] != '0'
    decreases n
  {
    var c := DigitChar(n % 10);
    assert c == "0123456789"[n % 10];
    if n >= 10 {
      if k > 0 {
        DigitAt(n / 10, k - 1);
      } else {
        DigitAt(n / 10, 0);
      }
    }
  }

  function Place(n: nat, k: nat): (d: nat)
    ensures d < 10
  {
    if k == 0 then n % 10 else Place(n / 10, k - 1)
  }

  /** What reading the leading digits of `s` on from position `i` adds to `acc`. */
  function ReadDigits(s: string, i: nat, acc: nat): nat
    requires i <= |s|
    decreases |s| - i
  {
    if i < |s| && IsDigit(s[i]) then ReadDigits(s, i + 1, 10 * acc + (s[i] as int - '0' as int)) else acc
  }

  /** Conversion of a string to a number, from its leading digits. */
  function Atoi(s: string): nat {
    ReadDigits(s, 0, 0)
  }

  lemma {:induction false} ReadAll(s: string, d: char, i: nat, acc: nat)
    requires i <= |s| && IsDigit(d) && forall k :: 0 <= k < |s| ==> IsDigit(s[k])
    ensures ReadDigits(s + [d], i, acc) == 10 * ReadDigits(s, i, acc) + (d as int - '0' as int)
    decreases |s| - i
  {
    if i < |s| {
      assert (s + [d])[i] == s[i];
      ReadAll(s, d, i + 1, 10 * acc + (s[i] as int - '0' as int));
    } else {
      assert (s + [d])[i] == d;
    }
  }

  /** Reading back the digits of a number gives the number, whatever follows them
      that is not a digit. */
  lemma {:induction false} AtoiOfDigits(n: nat)
    ensures Atoi(Digits(n)) == n
  {
    if n >= 10 {
      AtoiOfDigits(n / 10);
      ReadAll(Digits(n / 10), DigitChar(n % 10), 0, 0);
    } else {
      ReadAll([], DigitChar(n), 0, 0);
      assert Digits(n) == [] + [DigitChar(n)];
    }
  }

  lemma {:induction false} ReadStops(s: string, tail: string, i: nat, acc: nat)
    requires i <= |s| && (tail == "" || !IsDigit(tail[0]))
    ensures ReadDigits(s + tail, i, acc) == ReadDigits(s, i, acc)
    decreases |s| - i
  {
    if i < |s| {
      assert (s + tail)[i] == s[i];
      if IsDigit(s[i]) {
        ReadStops(s, tail, i + 1, 10 * acc + (s[i] as int - '0' as int));
      }
    }
  }

  lemma {:induction false} DigitCount(n: nat, k: nat, bound: nat)
    requires n < bound && bound == Pow10(k) && k > 0
    ensures |Digits(n)| <= k
  {
    if n >= 10 {
      assert k > 1;
      DigitCount(n / 10, k - 1, Pow10(k - 1));
    }
  }

  function Pow10(k: nat): nat {
    if k == 0 then 1 else 10 * Pow10(k - 1)
  }
}
