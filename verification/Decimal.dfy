// Numbers in decimal.
module Decimal {

  function Digit(n: int): char
  {
    '0' + (n % 10) as char
  }

  // A number in decimal, padded with zeros to a width.
  function Padded(n: nat, width: nat): (s: string)
    ensures |s| >= width && (n == 0 && width == 0 ==> s == "")
    decreases n + width
  {
    if n == 0 && width == 0 then ""
    else Padded(n / 10, if width == 0 then 0 else width - 1) + [Digit(n)]
  }

  function Value(s: string): int
  {
    if s == "" then 0 else 10 * Value(s[..|s| - 1]) + (s[|s| - 1] as int - '0' as int)
  }

  lemma {:induction false} PaddedReadsBack(n: nat, width: nat)
    ensures Value(Padded(n, width)) == n
    decreases n + width
  {
    if n > 0 || width > 0 {
      var w := if width == 0 then 0 else width - 1;
      PaddedReadsBack(n / 10, w);
      assert Padded(n, width)[..|Padded(n, width)| - 1] == Padded(n / 10, w);
    }
  }

  predicate AllDigits(s: string)
  {
    forall i :: 0 <= i < |s| ==> '0' <= s[i] <= '9'
  }

  lemma {:induction false} PaddedDigits(n: nat, width: nat)
    ensures AllDigits(Padded(n, width))
    decreases n + width
  {
    if n > 0 || width > 0 {
      PaddedDigits(n / 10, if width == 0 then 0 else width - 1);
    }
  }

  lemma {:induction false} PaddedWidth(n: nat, width: nat, bound: nat)
    requires bound == (if width == 0 then 1 else if width == 1 then 10 else 100) && width <= 2 && n < bound
    ensures |Padded(n, width)| == width
  {
    if width > 0 {
      PaddedWidth(n / 10, width - 1, if width == 1 then 1 else 10);
    }
  }

  function DecimalText(n: nat): string
  {
    Padded(n, 1)
  }
}
