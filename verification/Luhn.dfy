/** The checksum that keeps reference numbers out of CREDIT_CARD matches. */
module Luhn {
  import opened Strings

  /** What a digit adds to the sum, at a plain or at a doubled position. */
  function Weight(c: char, doubled: bool): (w: nat)
    requires IsDigit(c)
    ensures w < 10
  {
    var d := DigitValue(c);
    if !doubled then d else if d * 2 > 9 then d * 2 - 9 else d * 2
  }

  /** ISO/IEC 7812-1 Annex B, read from the right; `doubled` is the role of the last digit. */
  function Sum(s: string, doubled: bool): nat
    requires AllDigits(s)
  {
    if s == "" then 0
    else Weight(s[|s| - 1], doubled) + Sum(s[..|s| - 1], !doubled)
  }

  predicate Valid(s: string)
    requires AllDigits(s)
  {
    Sum(s, false) % 10 == 0
  }

  lemma SumOfAll(s: string)
    requires AllDigits(s)
    ensures s[..|s|] == s && forall doubled :: Sum(s[..0], doubled) == 0
  {
  }

  lemma SumStep(s: string, i: nat, doubled: bool)
    requires AllDigits(s) && i < |s|
    ensures Sum(s[..i + 1], doubled) == Weight(s[i], doubled) + Sum(s[..i], !doubled)
  {
    assert s[..i + 1][..i] == s[..i];
    hide Weight;
  }

  /** Whether the last of the first `k` of `n` digits is doubled. */
  predicate Doubled(n: nat, k: nat) {
    (k + 1) % 2 == n % 2
  }

  lemma DoubledAlternates(n: nat, k: nat)
    ensures Doubled(n, k + 1) <==> k % 2 == n % 2
    ensures Doubled(n, k + 1) <==> !Doubled(n, k)
    ensures !Doubled(n, n)
  {
  }

  /** The source's left-to-right loop with its parity test. */
  method LuhnOk(digits: string) returns (ok: bool)
    requires AllDigits(digits)
    ensures ok <==> Valid(digits)
  {
    hide Sum, IsDigit, Doubled;
    SumOfAll(digits);
    DoubledAlternates(|digits|, |digits|);
    var total := 0;
    var parity := |digits| % 2;
    for index := 0 to |digits|
      invariant total == Sum(digits[..index], Doubled(|digits|, index))
    {
      DoubledAlternates(|digits|, index);
      SumStep(digits, index, index % 2 == parity);
      var digit := DigitValue(digits[index]);
      if index % 2 == parity {
        digit := digit * 2;
        if digit > 9 {
          digit := digit - 9;
        }
      }
      total := total + digit;
    }
    return total % 10 == 0;
  }

  /** Whether the digit at `i` is doubled when the last one has role `doubled`. */
  predicate Role(s: string, i: nat, doubled: bool)
    requires i < |s|
  {
    doubled != ((|s| - 1 - i) % 2 == 1)
  }

  lemma {:induction false} SumAfterUpdate(s: string, i: nat, c: char, doubled: bool)
    requires AllDigits(s) && i < |s| && IsDigit(c)
    ensures Sum(s[i := c], doubled)
         == Sum(s, doubled) - Weight(s[i], Role(s, i, doubled)) + Weight(c, Role(s, i, doubled))
  {
    var n := |s| - 1;
    hide Weight, IsDigit, Role;
    RoleOf(s, i, doubled);
    if i == n {
      assert s[i := c][..n] == s[..n];
    } else {
      assert s[i := c][..n] == s[..n][i := c];
      SumAfterUpdate(s[..n], i, c, !doubled);
    }
  }

  lemma RoleOf(s: string, i: nat, doubled: bool)
    requires i < |s|
    ensures if i == |s| - 1 then Role(s, i, doubled) == doubled else Role(s, i, doubled) == Role(s[..|s| - 1], i, !doubled)
  {
  }

  /** The check reads from the right: a zero in front changes nothing. */
  lemma {:induction false} LeadingZeroIsIdle(s: string, doubled: bool)
    requires AllDigits(s)
    ensures AllDigits("0" + s) && Sum("0" + s, doubled) == Sum(s, doubled)
  {
    var t := "0" + s;
    if s == "" {
      assert t[..0] == "";
    } else {
      var n := |s| - 1;
      assert t[..n + 1] == "0" + s[..n] && t[n + 1] == s[n];
      LeadingZeroIsIdle(s[..n], !doubled);
    }
  }

  /** Of the ten digits that can follow a number, exactly the one that completes its sum to a multiple of ten is accepted. */
  lemma OneCheckDigit(s: string, c: char)
    requires AllDigits(s) && IsDigit(c)
    ensures AllDigits(s + [c])
    ensures Valid(s + [c]) <==> exists tens: nat :: Sum(s, true) + DigitValue(c) == 10 * tens
    ensures Valid("")
  {
    var t, total := s + [c], Sum(s, true) + DigitValue(c);
    assert t[..|s|] == s && Sum(t, false) == total;
    hide Sum;
    if total % 10 == 0 {
      assert total == 10 * (total / 10);
    }
  }

  /** A doubled digit counts with the sum of its digits. */
  lemma WeightIsDigitSum(c: char)
    requires IsDigit(c)
    ensures Weight(c, false) == DigitValue(c)
    ensures Weight(c, true) == 2 * DigitValue(c) / 10 + 2 * DigitValue(c) % 10
  {
  }

  lemma SumIsCongruentOnly(a: int, b: int)
    requires a % 10 == 0 && -10 < b - a < 10 && a != b
    ensures b % 10 != 0
  {
  }

  /** Every single-digit error is caught. */
  lemma DetectsSingleDigitError(s: string, i: nat, c: char)
    requires AllDigits(s) && Valid(s)
    requires i < |s| && IsDigit(c) && c != s[i]
    ensures !Valid(s[i := c])
  {
    SumAfterUpdate(s, i, c, false);
    SumIsCongruentOnly(Sum(s, false), Sum(s[i := c], false));
  }

  function SwapAt(s: string, i: nat): string
    requires i + 1 < |s|
  {
    s[i := s[i + 1]][i + 1 := s[i]]
  }

  /** What doubling changes about a digit's contribution. */
  function Gain(c: char): (g: int)
    requires IsDigit(c)
    ensures -4 <= g <= 4
    ensures g == if DigitValue(c) <= 4 then DigitValue(c) else DigitValue(c) - 9
  {
    Weight(c, true) - Weight(c, false)
  }

  /** A swap of neighbours goes unnoticed exactly when they are equal or are 0 and 9. */
  lemma DetectsAdjacentSwap(s: string, i: nat)
    requires AllDigits(s) && Valid(s) && i + 1 < |s|
    ensures Valid(SwapAt(s, i)) <==> s[i] == s[i + 1] || (s[i], s[i + 1]) in {('0', '9'), ('9', '0')}
  {
    var a, b := s[i], s[i + 1];
    var drift := Drift(s, i);
    SwapDrifts(s, i);
    assert Valid(s) == (Sum(s, false) % 10 == 0) && Valid(SwapAt(s, i)) == (Sum(SwapAt(s, i), false) % 10 == 0);
    assert -10 < drift < 10 && (drift == 0 <==> Gain(a) == Gain(b));
    hide *;
    if drift != 0 {
      SumIsCongruentOnly(Sum(s, false), Sum(s, false) + drift);
    }
    SameGain(a, b);
  }

  /** How far a swap of neighbours moves the sum. */
  function Drift(s: string, i: nat): int
    requires AllDigits(s) && i + 1 < |s|
  {
    if Role(s, i, false) then Gain(s[i + 1]) - Gain(s[i]) else Gain(s[i]) - Gain(s[i + 1])
  }

  lemma SwapDrifts(s: string, i: nat)
    requires AllDigits(s) && i + 1 < |s|
    ensures AllDigits(SwapAt(s, i)) && Sum(SwapAt(s, i), false) == Sum(s, false) + Drift(s, i)
  {
    hide Sum, Weight, Gain, Role, IsDigit;
    var a, b := s[i], s[i + 1];
    SumAfterUpdate(s, i, b, false);
    SumAfterUpdate(s[i := b], i + 1, a, false);
    GainIsDrift(s, i, a);
    GainIsDrift(s, i, b);
  }

  /** What a swap of neighbours changes about their two contributions. */
  lemma GainIsDrift(s: string, i: nat, c: char)
    requires AllDigits(s) && i + 1 < |s| && IsDigit(c)
    ensures Role(s[i := s[i + 1]], i + 1, false) == !Role(s, i, false)
    ensures Weight(c, true) - Weight(c, false) == Gain(c)
  {
  }

  lemma SameGain(a: char, b: char)
    requires IsDigit(a) && IsDigit(b)
    ensures Gain(a) == Gain(b) <==> a == b || (a, b) in {('0', '9'), ('9', '0')}
  {
    assert DigitValue(a) == DigitValue(b) <==> a == b;
    assert DigitValue(a) == 0 <==> a == '0';
    assert DigitValue(b) == 0 <==> b == '0';
    assert DigitValue(a) == 9 <==> a == '9';
    assert DigitValue(b) == 9 <==> b == '9';
  }
}
