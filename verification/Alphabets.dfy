/** Character sets of the fakes: validation, the symbol numbering, and the MAC-tail length. */
module Alphabets {
  import opened Basics
  import opened Text

  type Alphabet = string

  /** n consecutive ASCII characters. */
  function CharRange(first: char, n: nat): (r: string)
    requires first as int + n <= 128
    ensures |r| == n && forall i :: 0 <= i < n ==> r[i] as int == first as int + i
  {
    seq(n, i requires 0 <= i < n => (first as int + i) as char)
  }

  /** `0-9 A-Z a-z` */
  const BASE62: Alphabet := CharRange('0', 10) + CharRange('A', 26) + CharRange('a', 26)

  /** Digits, then capitals, then small letters, by their codes. */
  lemma Base62InOrder(i: nat)
    requires i < 62
    ensures |BASE62| == 62 && BASE62[i] as int == if i < 10 then 48 + i else if i < 36 then 65 + (i - 10) else 97 + (i - 36)
  {
  }

  datatype AlphabetError = NonAscii | ContainsWhitespace | RadixOutOfRange(radix: nat) | DuplicateChar(ch: char)

  ghost predicate Distinct(s: string) {
    forall i, j :: 0 <= i < j < |s| ==> s[i] != s[j]
  }

  ghost predicate NoWhitespace(s: string) {
    forall i :: 0 <= i < |s| ==> !IsWhitespace(s[i])
  }

  ghost predicate Valid(a: Alphabet) {
    IsAscii(a) && NoWhitespace(a) && 2 <= |a| <= 65535 && Distinct(a)
  }

  /** Accepts exactly the valid alphabets; a duplicate is reported at its first repetition. */
  method Validate(chars: string) returns (error: Option<AlphabetError>)
    ensures error.None? <==> Valid(chars)
    ensures error == Some(NonAscii) <==> !IsAscii(chars)
    ensures error == Some(ContainsWhitespace) <==> IsAscii(chars) && !NoWhitespace(chars)
    ensures error.Some? && error.value.RadixOutOfRange? <==> IsAscii(chars) && NoWhitespace(chars) && !(2 <= |chars| <= 65535)
    ensures error.Some? && error.value.RadixOutOfRange? ==> error.value.radix == |chars|
    ensures error.Some? && error.value.DuplicateChar? ==>
              exists i :: 0 <= i < |chars| && chars[i] == error.value.ch && chars[i] in chars[..i] && Distinct(chars[..i])
  {
    if !IsAscii(chars) {
      return Some(NonAscii);
    }
    if exists i :: 0 <= i < |chars| && IsWhitespace(chars[i]) {
      return Some(ContainsWhitespace);
    }
    if !(2 <= |chars| <= 65535) {
      return Some(RadixOutOfRange(|chars|));
    }
    var seen := new bool[128](_ => false);
    for i := 0 to |chars|
      invariant forall b :: 0 <= b < 128 ==> (seen[b] <==> exists j :: 0 <= j < i && chars[j] as int == b)
      invariant Distinct(chars[..i])
    {
      var b := chars[i] as int;
      if seen[b] {
        assert exists j :: 0 <= j < i && chars[j] as int == b;
        return Some(DuplicateChar(chars[i]));
      }
      seen[b] := true;
    }
    assert chars[..|chars|] == chars;
    return None;
  }

  // ----- symbols and their numbers -----

  function IndexFrom(a: Alphabet, c: char, from: nat): (r: Option<nat>)
    requires from <= |a|
    ensures r.Some? ==> from <= r.value < |a| && a[r.value] == c && c !in a[from..r.value]
    ensures r.None? ==> c !in a[from..]
    decreases |a| - from
  {
    if from == |a| then None
    else if a[from] == c then Some(from)
    else IndexFrom(a, c, from + 1)
  }

  function IndexOf(a: Alphabet, c: char): Option<nat> {
    IndexFrom(a, c, 0)
  }

  function SymbolAt(a: Alphabet, index: nat): char
    requires index < |a|
  {
    a[index]
  }

  /** On a valid alphabet, numbering symbols and naming numbers undo one another. */
  lemma IndexSymbolInverse(a: Alphabet, c: char, i: nat)
    requires Valid(a)
    ensures i < |a| ==> IndexOf(a, SymbolAt(a, i)) == Some(i)
    ensures c in a ==> IndexOf(a, c).Some? && IndexOf(a, c).value < |a| && SymbolAt(a, IndexOf(a, c).value) == c
    ensures c !in a ==> IndexOf(a, c).None?
  {
    assert a[0..] == a;
  }

  // ----- how large a valid alphabet can be -----

  ghost function Codes(n: nat): (r: set<int>)
    ensures |r| == n && forall k :: k in r <==> 0 <= k < n
  {
    if n == 0 then {} else Codes(n - 1) + {n - 1}
  }

  ghost function CodesOf(s: string): (r: set<int>)
    ensures forall k :: k in r <==> exists i :: 0 <= i < |s| && s[i] as int == k
  {
    set i | 0 <= i < |s| :: s[i] as int
  }

  lemma {:induction false} DistinctCodes(s: string)
    requires Distinct(s)
    ensures |CodesOf(s)| == |s|
    decreases |s|
  {
    if s != [] {
      var n := |s| - 1;
      DistinctCodes(s[..n]);
      assert CodesOf(s) == CodesOf(s[..n]) + {s[n] as int};
    }
  }

  /** There are 122 ASCII characters that are not white space, and a valid alphabet repeats none. */
  lemma RadixAtMost122(a: Alphabet)
    requires Valid(a)
    ensures |a| <= 122
  {
    DistinctCodes(a);
    var n := 128;
    CodesWithoutSpaces(a, n);
  }

  lemma {:induction false} CodesWithoutSpaces(s: string, n: nat)
    requires n > 32 && NoWhitespace(s) && forall i :: 0 <= i < |s| ==> s[i] as int < n
    ensures |CodesOf(s)| <= n - 6
  {
    var spaces := {9, 10, 11, 12, 13, 32};
    var codes := Codes(n);
    var allowed := codes - spaces;
    assert codes == allowed + spaces && |spaces| == 6;
    SubsetSize(CodesOf(s), allowed);
  }

  // ----- powers of the radix -----

  function Pow(b: nat, n: nat): (r: nat)
    ensures b >= 1 ==> r >= 1
  {
    if n == 0 then 1 else b * Pow(b, n - 1)
  }

  lemma PowIncreases(b: nat, n: nat)
    requires b >= 2
    ensures Pow(b, n) < Pow(b, n + 1)
  {
    var p := Pow(b, n);
    assert Pow(b, n + 1) == b * p;
    assert b * p >= 2 * p;
  }

  const TAIL_FLOOR: nat := 0x1_0000_0000

  /** Least k, counting from `from`, whose power of the radix reaches 32 bits. */
  function TailLenFrom(radix: nat, from: nat): (k: nat)
    requires radix >= 2 && (from == 0 || Pow(radix, from - 1) < TAIL_FLOOR)
    ensures Pow(radix, k) >= TAIL_FLOOR && k > 0 && Pow(radix, k - 1) < TAIL_FLOOR
    decreases TAIL_FLOOR - Pow(radix, from)
  {
    if Pow(radix, from) >= TAIL_FLOOR then from
    else
      PowIncreases(radix, from);
      TailLenFrom(radix, from + 1)
  }

  function MacTailLen(a: Alphabet): nat
    requires |a| >= 2
  {
    TailLenFrom(|a|, 0)
  }

  /** The tail carries at least 32 bits, and its modulus stays below 2^48, well inside 64 bits. */
  lemma TailModulusFits(a: Alphabet)
    requires 2 <= |a| <= 65535
    ensures 0x1_0000_0000 <= Pow(|a|, MacTailLen(a)) < 0x1_0000_0000_0000
    ensures forall k :: 0 <= k < MacTailLen(a) ==> Pow(|a|, k) < 0x1_0000_0000
  {
    var k, p := MacTailLen(a), Pow(|a|, MacTailLen(a) - 1);
    assert Pow(|a|, k) == |a| * p;
    assert |a| * p <= 65535 * p;
    forall j | 0 <= j < k
      ensures Pow(|a|, j) < TAIL_FLOOR
    {
      PowGrows(|a|, j, k - 1);
    }
  }

  lemma {:induction false} PowGrows(b: nat, m: nat, n: nat)
    requires b >= 1 && m <= n
    ensures Pow(b, m) <= Pow(b, n)
    decreases n
  {
    if m < n {
      PowGrows(b, m, n - 1);
      assert b * Pow(b, n - 1) >= Pow(b, n - 1);
    }
  }

  lemma Base62Valid()
    ensures Valid(BASE62) && |BASE62| == 62
  {
    assert forall i, j :: 0 <= i < j < 62 ==> BASE62[i] < BASE62[j];
  }

  /** Six symbols of base 62 carry the 32 bits, and five do not. */
  const BASE62_TAIL: nat := 6

  lemma Base62TailLen()
    ensures MacTailLen(BASE62) == BASE62_TAIL
  {
    assert Pow(62, 5) == 916132832;
  }
}
