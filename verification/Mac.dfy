/** MAC-tagged fakes: a truncated HMAC of the body, written in the fake's own alphabet. */
module Mac {
  import opened Basics
  import opened Text
  import opened Alphabets

  /** HMAC-SHA-256 and HKDF-SHA-256, as functions of key, text and output length. */
  datatype Hashes = Hashes(
    hmac: (Bytes, string) -> Bytes,
    expand: (Bytes, string, nat) -> Bytes,
    sha256: string -> Bytes)

  ghost predicate Lawful(h: Hashes) {
    && (forall k, m :: |h.hmac(k, m)| == 32)
    && (forall k, m, n :: |h.expand(k, m, n)| == n)
    && (forall m :: |h.sha256(m)| == 32)
  }

  // ----- fixed-width numbers in a radix -----

  /** The k-digit form of v, most significant digit first. */
  function Digits(v: nat, radix: nat, k: nat): (r: seq<nat>)
    requires radix >= 1
    ensures |r| == k && forall i :: 0 <= i < k ==> r[i] < radix
  {
    if k == 0 then [] else Digits(v / radix, radix, k - 1) + [v % radix]
  }

  function Value(ds: seq<nat>, radix: nat): nat {
    if ds == [] then 0 else Value(ds[..|ds| - 1], radix) * radix + ds[|ds| - 1]
  }

  lemma DivideBelow(v: nat, r: nat, p: nat)
    requires r >= 1 && v < r * p
    ensures v / r < p && v / r * r + v % r == v
  {
    var q := v / r;
    assert v == q * r + v % r;
    assert (p - q) * r > 0;
  }

  lemma {:induction false} DigitsDenote(v: nat, radix: nat, k: nat)
    requires radix >= 1 && v < Pow(radix, k)
    ensures Value(Digits(v, radix, k), radix) == v
    decreases k
  {
    if k > 0 {
      DivideBelow(v, radix, Pow(radix, k - 1));
      DigitsDenote(v / radix, radix, k - 1);
      var ds := Digits(v, radix, k);
      assert ds[..k - 1] == Digits(v / radix, radix, k - 1) && ds[k - 1] == v % radix;
    }
  }

  /** The first eight octets of a hash as a big-endian number. */
  function Prefix64(hash: Bytes): (r: nat)
    ensures r < Pow(256, Min(|hash|, 8))
  {
    BigEndian(hash[..Min(|hash|, 8)])
  }

  function BigEndian(bytes: Bytes): (r: nat)
    ensures r < Pow(256, |bytes|)
  {
    if bytes == [] then 0 else BigEndian(bytes[..|bytes| - 1]) * 256 + bytes[|bytes| - 1]
  }

  function Symbols(ds: seq<nat>, a: Alphabet): (r: string)
    requires forall i :: 0 <= i < |ds| ==> ds[i] < |a|
    ensures |r| == |ds| && forall i :: 0 <= i < |r| ==> r[i] == SymbolAt(a, ds[i])
    ensures AllIn(r, a)
  {
    seq(|ds|, i requires 0 <= i < |ds| => SymbolAt(a, ds[i]))
  }

  function EncodeTail(hash: Bytes, a: Alphabet): (r: string)
    requires |a| >= 2
    ensures |r| == MacTailLen(a) && AllIn(r, a)
  {
    var k := MacTailLen(a);
    Symbols(Digits(Prefix64(hash) % Pow(|a|, k), |a|, k), a)
  }

  /** Shifts the first eight octets into a number. */
  method ReadPrefix(hash: Bytes) returns (value: nat)
    ensures value == Prefix64(hash)
  {
    value := 0;
    var first := hash[..Min(|hash|, 8)];
    for i := 0 to |first|
      invariant value == BigEndian(first[..i])
    {
      assert first[..i + 1][..i] == first[..i];
      value := value * 256 + first[i];
    }
    assert first[..|first|] == first;
  }

  lemma {:induction false} PeelDigit(v: nat, radix: nat, k: nat, low: seq<nat>)
    requires radix >= 1 && k > 0
    ensures v / radix >= 0 && 0 <= v % radix < radix
    ensures Digits(v, radix, k) + low == Digits(v / radix, radix, k - 1) + ([v % radix] + low)
  {
  }

  /** Peels k digits off the low end. */
  method LowDigits(value: nat, radix: nat, k: nat) returns (digits: seq<nat>)
    requires radix >= 1
    ensures digits == Digits(value, radix, k)
  {
    var v: nat := value;
    digits := [];
    for n := 0 to k
      invariant Digits(v, radix, k - n) + digits == Digits(value, radix, k)
    {
      PeelDigit(v, radix, k - n, digits);
      digits := [v % radix] + digits;
      v := v / radix;
    }
  }

  method EncodeToAlphabet(hash: Bytes, a: Alphabet) returns (tail: string)
    requires 2 <= |a| <= 65535
    ensures tail == EncodeTail(hash, a)
  {
    var k := MacTailLen(a);
    var modulus := Pow(|a|, k);
    var value := ReadPrefix(hash);
    var digits := LowDigits(value % modulus, |a|, k);
    tail := Symbols(digits, a);
  }

  lemma {:induction false} SymbolsInjective(ds: seq<nat>, es: seq<nat>, a: Alphabet)
    requires Distinct(a) && |ds| == |es|
    requires (forall i :: 0 <= i < |ds| ==> ds[i] < |a|) && (forall i :: 0 <= i < |es| ==> es[i] < |a|)
    requires Symbols(ds, a) == Symbols(es, a)
    ensures ds == es
  {
    forall i | 0 <= i < |ds|
      ensures ds[i] == es[i]
    {
      assert Symbols(ds, a)[i] == Symbols(es, a)[i];
    }
  }

  /** Two hashes share a tail exactly when their prefixes agree modulo radix^K. */
  lemma TailsAgreeModulo(x: Bytes, y: Bytes, a: Alphabet)
    requires Valid(a)
    ensures EncodeTail(x, a) == EncodeTail(y, a) <==>
            Prefix64(x) % Pow(|a|, MacTailLen(a)) == Prefix64(y) % Pow(|a|, MacTailLen(a))
  {
    var radix, k := |a|, MacTailLen(a);
    var v, w := Prefix64(x) % Pow(radix, k), Prefix64(y) % Pow(radix, k);
    DigitsDenote(v, radix, k);
    DigitsDenote(w, radix, k);
    if EncodeTail(x, a) == EncodeTail(y, a) {
      SymbolsInjective(Digits(v, radix, k), Digits(w, radix, k), a);
    }
  }

  // ----- tagging and recognising -----

  const HKDF_CEILING: nat := 255 * 32

  function MacTail(h: Hashes, key: Bytes, body: string, a: Alphabet): (r: string)
    requires |a| >= 2
    ensures |r| == MacTailLen(a) && AllIn(r, a)
  {
    EncodeTail(h.hmac(key, body), a)
  }

  predicate Verify(h: Hashes, key: Bytes, candidate: string, a: Alphabet)
    requires |a| >= 2
  {
    && IsAscii(candidate)
    && |candidate| >= MacTailLen(a)
    && var split := |candidate| - MacTailLen(a);
       AllIn(candidate[split..], a) && MacTail(h, key, candidate[..split], a) == candidate[split..]
  }

  function DeriveBody(h: Hashes, key: Bytes, value: string, len: nat, a: Alphabet): (r: string)
    requires Lawful(h) && |a| >= 2 && len <= HKDF_CEILING
    ensures |r| == len && AllIn(r, a)
  {
    var out := h.expand(key, value, len);
    var ds := seq(len, i requires 0 <= i < len => out[i] % |a|);
    Symbols(ds, a)
  }

  /** None for values too short to carry a tail; beyond the HKDF ceiling the source panics. */
  function MakeMacFake(h: Hashes, key: Bytes, value: string, a: Alphabet): (r: Option<string>)
    requires Lawful(h) && |a| >= 2 && |value| <= HKDF_CEILING + MacTailLen(a)
    ensures r.None? <==> |value| <= MacTailLen(a)
    ensures r.Some? ==> |r.value| == |value| && AllIn(r.value, a)
  {
    var k := MacTailLen(a);
    if |value| <= k then None
    else
      var body := DeriveBody(h, key, value, |value| - k, a);
      Some(body + MacTail(h, key, body, a))
  }

  /** A tagged fake is recognised by anyone who holds the key. */
  lemma MacFakeVerifies(h: Hashes, key: Bytes, value: string, a: Alphabet)
    requires Lawful(h) && Valid(a) && |value| <= HKDF_CEILING + MacTailLen(a)
    requires MakeMacFake(h, key, value, a).Some?
    ensures Verify(h, key, MakeMacFake(h, key, value, a).value, a)
  {
    var k := MacTailLen(a);
    var fake := MakeMacFake(h, key, value, a).value;
    var body := DeriveBody(h, key, value, |value| - k, a);
    assert fake[..|fake| - k] == body && fake[|fake| - k..] == MacTail(h, key, body, a);
    forall i | 0 <= i < |fake|
      ensures fake[i] as int < 128
    {
      assert fake[i] in a;
    }
  }
}
