/**
 * The identifier generator behind `generateUserId` and `generateAddressId`.
 * That generator is not part of this model; it is assumed to draw random
 * characters from 0-9, A-Z, a-z. This model uses a counter written in base 62
 * over that alphabet, so that the identifiers it hands out can be reasoned
 * about.
 */
module Ids {

  /** Length of every public user id and address id the service requests. */
  const IdLength: nat := 30

  predicate IsAlphanumeric(c: char) {
    ('0' <= c <= '9') || ('A' <= c <= 'Z') || ('a' <= c <= 'z')
  }

  /** The value of an alphabet character: digits, then upper case, then lower case. */
  function DigitValue(c: char): nat {
    if '0' <= c <= '9' then c as int - '0' as int
    else if 'A' <= c <= 'Z' then c as int - 'A' as int + 10
    else if 'a' <= c <= 'z' then c as int - 'a' as int + 36
    else 0
  }

  /** The alphabet character for a base-62 digit. */
  function Digit(d: nat): (c: char)
    requires d < 62
    ensures IsAlphanumeric(c)
    ensures DigitValue(c) == d
  {
    if d < 10 then (48 + d) as char
    else if d < 36 then (65 + d - 10) as char
    else (97 + d - 36) as char
  }

  function Pow(base: nat, exp: nat): nat {
    if exp == 0 then 1 else base * Pow(base, exp - 1)
  }

  /** Base-62 digit `k` of `n`, counting from the least significant digit 0. */
  function DigitAt(n: nat, k: nat): (d: nat)
    ensures d < 62
  {
    if k == 0 then n % 62 else DigitAt(n / 62, k - 1)
  }

  /**
   * The identifier of `length` characters that the generator issues for
   * counter value `n`: the last `length` base-62 digits of `n`, most
   * significant first.
   */
  function IdFor(n: nat, length: nat): (id: string)
    ensures |id| == length
    ensures forall i :: 0 <= i < |id| ==> IsAlphanumeric(id[i])
  {
    seq(length, i requires 0 <= i < length => DigitChar(n, length - 1 - i))
  }

  /** The character for digit `k` of `n`. */
  function DigitChar(n: nat, k: nat): (c: char)
    ensures IsAlphanumeric(c)
  {
    Digit(DigitAt(n, k))
  }

  /** Two numbers below 62^length that agree on their last `length` digits are equal. */
  lemma {:induction false} DigitsDetermine(n: nat, m: nat, length: nat)
    requires n < Pow(62, length) && m < Pow(62, length)
    requires forall k :: 0 <= k < length ==> DigitAt(n, k) == DigitAt(m, k)
    ensures n == m
  {
    if length > 0 {
      assert n % 62 == DigitAt(n, 0) == DigitAt(m, 0) == m % 62;
      var p := Pow(62, length - 1);
      assert n / 62 < p by { assert n < 62 * p; }
      assert m / 62 < p by { assert m < 62 * p; }
      forall k | 0 <= k < length - 1
        ensures DigitAt(n / 62, k) == DigitAt(m / 62, k)
      {
        assert DigitAt(n, k + 1) == DigitAt(m, k + 1);
      }
      DigitsDetermine(n / 62, m / 62, length - 1);
    } else {
      assert Pow(62, 0) == 1;
    }
  }

  /** Distinct counter values below 62^length give distinct identifiers. */
  lemma IdForInjective(n: nat, m: nat, length: nat)
    requires n < Pow(62, length) && m < Pow(62, length)
    requires IdFor(n, length) == IdFor(m, length)
    ensures n == m
  {
    forall k | 0 <= k < length
      ensures DigitAt(n, k) == DigitAt(m, k)
    {
      var i := length - 1 - k;
      assert IdFor(n, length)[i] == DigitChar(n, k);
      assert IdFor(m, length)[i] == DigitChar(m, k);
    }
    DigitsDetermine(n, m, length);
  }

  /** The generator object the service calls once per identifier. */
  class IdGenerator {
    var counter: nat

    constructor ()
      ensures counter == 0
    {
      counter := 0;
    }

    /** Issues the next identifier of the given length. */
    method GenerateId(length: nat) returns (id: string)
      modifies this
      ensures id == IdFor(old(counter), length)
      ensures |id| == length
      ensures counter == old(counter) + 1
    {
      id := IdFor(counter, length);
      counter := counter + 1;
    }
  }
}
