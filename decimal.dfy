/** Decimal text of integers as ASCII bytes: `strconv.Itoa`, used for the positional
    keys "0", "1", ... of BSON arrays, and `strconv.FormatInt`, used by the Int64 JSON projection. */
module Decimal {
  import opened Bytes
  import opened Wrappers

  const Zero: byte := 48  // '0'
  const Minus: byte := 45  // '-'

  predicate IsDigit(b: byte) { Zero <= b <= Zero + 9 }

  /** strconv.Itoa for a non-negative int: shortest decimal form, most significant digit first. */
  function Itoa(n: nat): (r: Bytes)
    ensures 1 <= |r|
    ensures forall i :: 0 <= i < |r| ==> IsDigit(r[i])
  {
    if n < 10 then [Zero + n] else Itoa(n / 10) + [Zero + n % 10]
  }

  /** The value of a string of decimal digits (the inverse of Itoa). */
  function Atoi(s: Bytes): nat
    requires forall i :: 0 <= i < |s| ==> IsDigit(s[i])
  {
    if s == [] then 0
    else
      assert IsDigit(s[|s| - 1]);
      Atoi(s[..|s| - 1]) * 10 + (s[|s| - 1] as int - Zero as int)
  }

  lemma {:induction false} AtoiItoa(n: nat)
    ensures Atoi(Itoa(n)) == n
  {
    if n >= 10 {
      var s := Itoa(n);
      assert s[..|s| - 1] == Itoa(n / 10);
      AtoiItoa(n / 10);
    }
  }

  /** Distinct indexes have distinct keys, so an array's key list never repeats. */
  lemma ItoaInjective(i: nat, j: nat)
    ensures Itoa(i) == Itoa(j) <==> i == j
  {
    AtoiItoa(i);
    AtoiItoa(j);
  }

  /** strconv.FormatInt(i, 10): a leading '-' for negative values. */
  function FormatInt(i: int): (r: Bytes)
    ensures 1 <= |r|
  {
    if i < 0 then [Minus] + Itoa(-i) else Itoa(i)
  }

  /** strconv.ParseInt(s, 10, _) on the texts FormatInt produces. */
  function ParseInt(s: Bytes): (r: Option<int>)
  {
    if |s| >= 2 && s[0] == Minus && forall i :: 1 <= i < |s| ==> IsDigit(s[i]) then Some(-(Atoi(s[1..]) as int))
    else if |s| >= 1 && forall i :: 0 <= i < |s| ==> IsDigit(s[i]) then Some(Atoi(s))
    else None
  }

  lemma ParseFormatInt(i: int)
    ensures ParseInt(FormatInt(i)) == Some(i)
  {
    if i < 0 {
      var s := FormatInt(i);
      assert s[1..] == Itoa(-i);
      AtoiItoa(-i);
    } else {
      AtoiItoa(i);
    }
  }
}
