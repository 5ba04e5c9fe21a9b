/** Reserved-range fakes: e-mail, IPv4, phone and card numbers, with the Luhn check of ISO/IEC 7812-1. */
module Reserved {
  import opened Basics
  import opened Text

  const EMAIL_DOMAIN := "@example.com"
  const EMAIL_LOCAL_LEN: nat := 10
  const IPV4_PREFIX := "192.0.2."
  const PHONE_PREFIX := "555-01"
  const CARD_BIN := "4242"

  // ----- the Luhn sum -----

  /** What a digit adds to the sum at a position counted from the right. */
  function Share(c: char, fromRight: nat): nat
    requires IsDigit(c)
  {
    var d := DigitValue(c);
    var v := if fromRight % 2 == 0 then d else d * 2;
    if v > 9 then v - 9 else v
  }

  /** Sum over all digits when `shift` more digits are to follow on the right. */
  function LuhnSum(digits: string, shift: nat): nat
    requires AllDigits(digits)
  {
    if digits == [] then 0
    else Share(digits[0], |digits| - 1 + shift) + LuhnSum(digits[1..], shift)
  }

  function CheckDigit(digits: string): (d: nat)
    requires AllDigits(digits)
    ensures d < 10
  {
    (10 - LuhnSum(digits, 1) % 10) % 10
  }

  ghost predicate LuhnOk(digits: string) {
    AllDigits(digits) && LuhnSum(digits, 0) % 10 == 0
  }

  ghost function Total(xs: seq<nat>): nat {
    if xs == [] then 0 else xs[0] + Total(xs[1..])
  }

  /** The sum, spelled out: from the right, every second digit is doubled, and nine taken off what then exceeds nine. */
  lemma {:induction false} LuhnSumSpelledOut(digits: string, shares: seq<nat>)
    requires AllDigits(digits) && |shares| == |digits|
    requires forall i :: 0 <= i < |digits| ==>
               var d := DigitValue(digits[i]);
               shares[i] == if (|digits| - 1 - i) % 2 == 0 then d else if d < 5 then 2 * d else 2 * d - 9
    ensures LuhnSum(digits, 0) == Total(shares)
    decreases |digits|
  {
    if digits != [] {
      LuhnSumSpelledOut(digits[1..], shares[1..]);
    }
  }

  method LuhnCheckDigit(digits: string) returns (d: nat)
    requires AllDigits(digits)
    ensures d == CheckDigit(digits)
  {
    var sum, n := 0, |digits|;
    for i := 0 to n
      invariant sum + LuhnSum(digits[i..], 1) == LuhnSum(digits, 1)
    {
      assert digits[i..][1..] == digits[i + 1..];
      sum := sum + Share(digits[i], n - i);
    }
    d := (10 - sum % 10) % 10;
  }

  method LuhnValid(digits: string) returns (ok: bool)
    ensures ok <==> LuhnOk(digits)
  {
    var sum, n := 0, |digits|;
    for i := 0 to n
      invariant forall j :: 0 <= j < i ==> IsDigit(digits[j])
      invariant AllDigits(digits) ==> sum + LuhnSum(digits[i..], 0) == LuhnSum(digits, 0)
    {
      if !IsDigit(digits[i]) {
        return false;
      }
      assert digits[i..][1..] == digits[i + 1..];
      sum := sum + Share(digits[i], n - 1 - i);
    }
    return sum % 10 == 0;
  }

  lemma {:induction false} LuhnAppend(digits: string, c: char, shift: nat)
    requires AllDigits(digits) && IsDigit(c)
    ensures LuhnSum(digits + [c], shift) == LuhnSum(digits, shift + 1) + Share(c, shift)
    decreases |digits|
  {
    if digits == [] {
      assert digits + [c] == [c];
    } else {
      assert (digits + [c])[1..] == digits[1..] + [c];
      LuhnAppend(digits[1..], c, shift);
    }
  }

  /** Exactly one appended digit passes, and it is the check digit. */
  lemma {:induction false} CheckDigitIsUnique(digits: string, d: nat)
    requires AllDigits(digits) && d < 10
    ensures LuhnOk(digits + [DigitChar(d)]) <==> d == CheckDigit(digits)
  {
    LuhnAppend(digits, DigitChar(d), 0);
    CompletesTen(LuhnSum(digits, 1), d);
    assert AllDigits(digits + [DigitChar(d)]);
  }

  lemma CompletesTen(sum: nat, d: nat)
    requires d < 10
    ensures (sum + d) % 10 == 0 <==> d == (10 - sum % 10) % 10
  {
  }

  lemma {:induction false} LuhnUpdate(digits: string, i: nat, c: char, shift: nat)
    requires AllDigits(digits) && i < |digits| && IsDigit(c)
    ensures LuhnSum(digits[i := c], shift) ==
            LuhnSum(digits, shift) - Share(digits[i], |digits| - 1 - i + shift) + Share(c, |digits| - 1 - i + shift)
    decreases |digits|
  {
    if i == 0 {
      assert digits[0 := c][1..] == digits[1..];
    } else {
      assert digits[i := c][1..] == digits[1..][i - 1 := c];
      LuhnUpdate(digits[1..], i - 1, c, shift);
    }
  }

  lemma SameResidue(x: int, change: int)
    requires x % 10 == 0
    ensures (x + change) % 10 == 0 <==> change % 10 == 0
  {
  }

  lemma ResidueMoves(x: int, was: nat, now: nat)
    requires x % 10 == 0 && was < 10 && now < 10 && was != now
    ensures (x - was + now) % 10 != 0
  {
  }

  lemma SharesDiffer(a: char, c: char, p: nat)
    requires IsDigit(a) && IsDigit(c) && a != c
    ensures Share(a, p) < 10 && Share(c, p) < 10 && Share(a, p) != Share(c, p)
  {
  }

  /** A single wrong digit is always caught. */
  lemma {:induction false} SingleErrorIsCaught(digits: string, i: nat, c: char)
    requires LuhnOk(digits) && i < |digits| && IsDigit(c) && c != digits[i]
    ensures !LuhnOk(digits[i := c])
  {
    LuhnUpdate(digits, i, c, 0);
    var p := |digits| - 1 - i;
    SharesDiffer(digits[i], c, p);
    ResidueMoves(LuhnSum(digits, 0), Share(digits[i], p), Share(c, p));
  }

  lemma SwapShares(a: char, b: char, p: nat)
    requires IsDigit(a) && IsDigit(b) && a != b
    ensures var change := Share(b, p + 1) + Share(a, p) - Share(a, p + 1) - Share(b, p);
            change % 10 == 0 <==> (a == '0' && b == '9') || (a == '9' && b == '0')
  {
  }

  lemma {:induction false} SwapChanges(digits: string, i: nat)
    requires AllDigits(digits) && i + 1 < |digits|
    ensures var a, b, p := digits[i], digits[i + 1], |digits| - 2 - i;
            var swapped := digits[i := b][i + 1 := a];
            && AllDigits(swapped)
            && LuhnSum(swapped, 0) == LuhnSum(digits, 0) + (Share(b, p + 1) + Share(a, p) - Share(a, p + 1) - Share(b, p))
  {
    var a, b := digits[i], digits[i + 1];
    LuhnUpdate(digits, i, b, 0);
    LuhnUpdate(digits[i := b], i + 1, a, 0);
  }

  /** A swap of different neighbours is caught unless they are 0 and 9. */
  lemma {:induction false} SwapIsCaught(digits: string, i: nat)
    requires LuhnOk(digits) && i + 1 < |digits| && digits[i] != digits[i + 1]
    ensures LuhnOk(digits[i := digits[i + 1]][i + 1 := digits[i]]) <==>
            (digits[i] == '0' && digits[i + 1] == '9') || (digits[i] == '9' && digits[i + 1] == '0')
  {
    var a, b, p := digits[i], digits[i + 1], |digits| - 2 - i;
    var change := Share(b, p + 1) + Share(a, p) - Share(a, p + 1) - Share(b, p);
    assert change % 10 == 0 <==> (a == '0' && b == '9') || (a == '9' && b == '0') by {
      SwapShares(a, b, p);
    }
    SwapChanges(digits, i);
    SameResidue(LuhnSum(digits, 0), change);
  }

  // ----- the generators, from the hash of the value -----

  function FakeEmail(hash: Bytes): (r: string)
    requires |hash| >= EMAIL_LOCAL_LEN
    ensures |r| == EMAIL_LOCAL_LEN + |EMAIL_DOMAIN| && r[EMAIL_LOCAL_LEN..] == EMAIL_DOMAIN
    ensures forall i :: 0 <= i < EMAIL_LOCAL_LEN ==> 'a' <= r[i] <= 'z' && r[i] as int - 'a' as int == hash[i] % 26
  {
    seq(EMAIL_LOCAL_LEN, i requires 0 <= i < EMAIL_LOCAL_LEN => ('a' as int + hash[i] % 26) as char) + EMAIL_DOMAIN
  }

  /** An address of 192.0.2.0/24: the last octet is a number below 256, without leading zeros. */
  function FakeIpv4(hash: Bytes): (r: string)
    requires |hash| >= 1
    ensures IPV4_PREFIX < r && AllDigits(r[|IPV4_PREFIX|..]) && DecimalValue(r[|IPV4_PREFIX|..]) == hash[0] < 256
    ensures r[|IPV4_PREFIX|] == '0' ==> |r| == |IPV4_PREFIX| + 1
  {
    IPV4_PREFIX + Decimal(hash[0])
  }

  function FakePhone(hash: Bytes): (r: string)
    requires |hash| >= 1
    ensures |r| == 8 && PHONE_PREFIX < r && AllDigits(r[6..]) && DecimalValue(r[6..]) == hash[0] % 100
  {
    var suffix := hash[0] % 100;
    var digits := [DigitChar(suffix / 10), DigitChar(suffix % 10)];
    TwoDigitValue(suffix / 10, suffix % 10);
    assert (PHONE_PREFIX + digits)[6..] == digits;
    PHONE_PREFIX + digits
  }

  lemma TwoDigitValue(a: nat, b: nat)
    requires a < 10 && b < 10
    ensures DecimalValue([DigitChar(a), DigitChar(b)]) == a * 10 + b
  {
    var s := [DigitChar(a), DigitChar(b)];
    assert s[..1] == [DigitChar(a)] && s[..1][..0] == [];
    assert DecimalValue([DigitChar(a)]) == a;
  }

  function DigitsOf(s: string): (r: string)
    ensures AllDigits(r)
  {
    if s == [] then [] else (if IsDigit(s[0]) then [s[0]] else []) + DigitsOf(s[1..])
  }

  function CardDigits(hash: Bytes): (r: string)
    requires |hash| >= 11
    ensures |r| == 16 && AllDigits(r) && r[..4] == CARD_BIN && LuhnOk(r)
    ensures forall i :: 0 <= i < 11 ==> DigitValue(r[4 + i]) == hash[i] % 10
  {
    var fifteen := CARD_BIN + seq(11, i requires 0 <= i < 11 => DigitChar(hash[i] % 10));
    CheckDigitIsUnique(fifteen, CheckDigit(fifteen));
    fifteen + [DigitChar(CheckDigit(fifteen))]
  }

  /** Lays digits over a text, keeping everything that is not a digit. */
  function Overlay(original: string, digits: string): (r: string)
    requires |DigitsOf(original)| <= |digits|
  {
    if original == [] then []
    else if IsDigit(original[0]) then [digits[0]] + Overlay(original[1..], digits[1..])
    else [original[0]] + Overlay(original[1..], digits)
  }

  function FakeCard(hash: Bytes, original: string): Option<string>
    requires |hash| >= 11
  {
    if |DigitsOf(original)| != 16 then None else Some(Overlay(original, CardDigits(hash)))
  }

  lemma {:induction false} OverlayOne(original: string, digits: string, i: nat, next: nat)
    requires i < |original| && next <= |digits| && |DigitsOf(original[i..])| <= |digits| - next
    ensures var digit := IsDigit(original[i]);
            var next' := if digit then next + 1 else next;
            && next' <= |digits| && |DigitsOf(original[i + 1..])| <= |digits| - next'
            && Overlay(original[i..], digits[next..]) ==
                 [if digit then digits[next] else original[i]] + Overlay(original[i + 1..], digits[next'..])
  {
    assert original[i..][1..] == original[i + 1..] && original[i..][0] == original[i];
    if IsDigit(original[i]) {
      assert digits[next..][1..] == digits[next + 1..];
    }
  }

  /** The overlay loop. */
  method OverlayDigits(original: string, digits: string) returns (out: string)
    requires |DigitsOf(original)| <= |digits|
    ensures out == Overlay(original, digits)
  {
    out := "";
    var next := 0;
    for i := 0 to |original|
      invariant next <= |digits| && |DigitsOf(original[i..])| <= |digits| - next
      invariant out + Overlay(original[i..], digits[next..]) == Overlay(original, digits)
    {
      OverlayOne(original, digits, i, next);
      if IsDigit(original[i]) {
        out := out + [digits[next]];
        next := next + 1;
      } else {
        out := out + [original[i]];
      }
    }
  }

  lemma {:induction false} OverlayKeepsLayout(original: string, digits: string)
    requires AllDigits(digits) && |DigitsOf(original)| <= |digits|
    ensures var r := Overlay(original, digits);
            && |r| == |original|
            && (forall i :: 0 <= i < |r| ==> if IsDigit(original[i]) then IsDigit(r[i]) else r[i] == original[i])
            && DigitsOf(r) == digits[..|DigitsOf(original)|]
    decreases |original|
  {
    var r := Overlay(original, digits);
    if original != [] {
      if IsDigit(original[0]) {
        OverlayKeepsLayout(original[1..], digits[1..]);
      } else {
        OverlayKeepsLayout(original[1..], digits);
      }
      assert r[1..] == Overlay(original[1..], if IsDigit(original[0]) then digits[1..] else digits);
    }
  }

  /** A card fake has the layout of the original and a Luhn-valid number in the test range. */
  lemma CardFakeIsValid(hash: Bytes, original: string)
    requires |hash| >= 11 && |DigitsOf(original)| == 16
    ensures var r := FakeCard(hash, original).value;
            && |r| == |original|
            && (forall i :: 0 <= i < |r| ==> if IsDigit(original[i]) then IsDigit(r[i]) else r[i] == original[i])
            && LuhnOk(DigitsOf(r)) && |DigitsOf(r)| == 16 && CARD_BIN <= DigitsOf(r)
  {
    var all := CardDigits(hash);
    OverlayKeepsLayout(original, all);
    assert all[..16] == all;
    CheckDigitIsUnique(all[..15], CheckDigit(all[..15]));
    assert all == all[..15] + [DigitChar(CheckDigit(all[..15]))];
  }
}
