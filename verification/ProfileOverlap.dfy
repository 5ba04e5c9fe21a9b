/**
 * When a session fake can lie in the profile of an FF1 registration.  First the
 * exact range of every session generator, over all hashes and keys; then a test on
 * the two registrations that decides whether some string of that range has a span
 * with the registration's prefix, length and alphabet.
 */
module ProfileOverlap {
  import opened Basics
  import opened Text
  import opened Alphabets
  import opened Fpe
  import opened Reserved
  import opened Idempotence
  import opened Restore
  import Mac

  // ----- what the generators can make -----

  /** The digits of one are where the digits of the other are; everything else is the same. */
  predicate SameLayout(a: string, b: string) {
    |a| == |b| && forall i :: 0 <= i < |a| ==> if IsDigit(a[i]) then IsDigit(b[i]) else b[i] == a[i]
  }

  /** The fakes that a session registration can get. */
  ghost predicate CanBe(mapped: SessionRegistration, f: string) {
    match mapped.kind
    case Pii(Email) =>
      |f| == EMAIL_LOCAL_LEN + |EMAIL_DOMAIN| && f[EMAIL_LOCAL_LEN..] == EMAIL_DOMAIN
      && forall i :: 0 <= i < EMAIL_LOCAL_LEN ==> 'a' <= f[i] <= 'z'
    case Pii(Ipv4) => exists n :: 0 <= n < 256 && f == IPV4_PREFIX + Decimal(n)
    case Pii(Phone) => |f| == 8 && PHONE_PREFIX <= f && AllDigits(f[6..])
    case Card =>
      |DigitsOf(mapped.value)| == 16 && SameLayout(mapped.value, f) && LuhnOk(DigitsOf(f)) && CARD_BIN <= DigitsOf(f)
    case Formatless => BASE62_TAIL < |mapped.value| == |f| && AllIn(f, BASE62)
  }

  ghost predicate WithinCeiling(mapped: SessionRegistration) {
    mapped.kind == Formatless ==> |mapped.value| <= Mac.HKDF_CEILING + BASE62_TAIL
  }

  lemma FakeCanBe(h: Mac.Hashes, key: Bytes, mapped: SessionRegistration)
    requires Mac.Lawful(h) && WithinCeiling(mapped) && SessionFake(h, key, mapped).Some?
    ensures CanBe(mapped, SessionFake(h, key, mapped).value)
  {
    match mapped.kind
    case Card => CardFakeIsValid(h.sha256(mapped.value), mapped.value);
    case Formatless => Base62TailLen();
    case Pii(Phone) =>
      var f := SessionFake(h, key, mapped).value;
      assert f[..6] == PHONE_PREFIX;
    case Pii(_) =>
  }

  // ----- ... and do make, for some hashes -----

  /** Hashes with fixed results. */
  function FixedHashes(sha: Bytes, hmac: Bytes, expanded: Bytes): (h: Mac.Hashes)
    requires |sha| == 32 && |hmac| == 32
    ensures Mac.Lawful(h)
  {
    Mac.Hashes((_, _) => hmac, (_, _, n: nat) => if n == |expanded| then expanded else seq(n, _ => 0), _ => sha)
  }

  function Padded(bytes: Bytes): (r: Bytes)
    requires |bytes| <= 32
    ensures |r| == 32 && r[..|bytes|] == bytes && forall i :: 0 <= i < |bytes| ==> r[i] == bytes[i]
  {
    bytes + seq(32 - |bytes|, _ => 0)
  }

  const ZEROS: Bytes := Padded([])

  lemma EmailIsMade(mapped: SessionRegistration, f: string) returns (h: Mac.Hashes)
    requires mapped.kind == Pii(Email) && CanBe(mapped, f)
    ensures Mac.Lawful(h) && SessionFake(h, [], mapped) == Some(f)
  {
    var letters: Bytes := seq(EMAIL_LOCAL_LEN, i requires 0 <= i < EMAIL_LOCAL_LEN => f[i] as int - 'a' as int);
    h := FixedHashes(Padded(letters), ZEROS, []);
    var made := FakeEmail(Padded(letters));
    assert forall i :: 0 <= i < EMAIL_LOCAL_LEN ==> made[i] == f[i];
    assert made == made[..EMAIL_LOCAL_LEN] + made[EMAIL_LOCAL_LEN..] && f == f[..EMAIL_LOCAL_LEN] + f[EMAIL_LOCAL_LEN..];
    assert made[..EMAIL_LOCAL_LEN] == f[..EMAIL_LOCAL_LEN];
  }

  lemma Ipv4IsMade(mapped: SessionRegistration, f: string) returns (h: Mac.Hashes)
    requires mapped.kind == Pii(Ipv4) && CanBe(mapped, f)
    ensures Mac.Lawful(h) && SessionFake(h, [], mapped) == Some(f)
  {
    var n :| 0 <= n < 256 && f == IPV4_PREFIX + Decimal(n);
    h := FixedHashes(Padded([n]), ZEROS, []);
  }

  lemma PhoneIsMade(mapped: SessionRegistration, f: string) returns (h: Mac.Hashes)
    requires mapped.kind == Pii(Phone) && CanBe(mapped, f)
    ensures Mac.Lawful(h) && SessionFake(h, [], mapped) == Some(f)
  {
    assert IsDigit(f[6..][0]) && IsDigit(f[6..][1]);
    var n := DigitValue(f[6]) * 10 + DigitValue(f[7]);
    h := FixedHashes(Padded([n]), ZEROS, []);
    var made := FakePhone(Padded([n]));
    assert n / 10 == DigitValue(f[6]) && n % 10 == DigitValue(f[7]);
    assert made[6] == f[6] && made[7] == f[7];
    assert f[..6] == PHONE_PREFIX;
    assert f == PHONE_PREFIX + [f[6], f[7]];
  }

  lemma {:induction false} OverlayIsOnly(original: string, f: string)
    requires SameLayout(original, f)
    ensures |DigitsOf(original)| == |DigitsOf(f)| && Overlay(original, DigitsOf(f)) == f
    decreases |original|
  {
    if original != [] {
      assert SameLayout(original[1..], f[1..]);
      OverlayIsOnly(original[1..], f[1..]);
      assert f == [f[0]] + f[1..];
      if IsDigit(original[0]) {
        assert DigitsOf(f)[1..] == DigitsOf(f[1..]);
      } else {
        assert DigitsOf(f) == DigitsOf(f[1..]);
      }
    }
  }

  /** Every valid number of the test range comes from some hash. */
  lemma {:induction false} NumberIsMade(ds: string) returns (hash: Bytes)
    requires |ds| == 16 && LuhnOk(ds) && CARD_BIN <= ds
    ensures |hash| == 32 && CardDigits(hash) == ds
  {
    var middle: Bytes := seq(11, i requires 0 <= i < 11 => DigitValue(ds[4 + i]));
    hash := Padded(middle);
    var made := CardDigits(hash);
    assert ds[..4] == CARD_BIN;
    forall i | 0 <= i < 15
      ensures made[i] == ds[i]
    {
      if i < 4 {
        assert made[i] == CARD_BIN[i] == ds[..4][i];
      } else {
        assert hash[i - 4] == DigitValue(ds[4 + (i - 4)]);
      }
    }
    CheckDigitDecides(made, ds);
  }

  /** Of two numbers that agree up to a check digit and are both valid, there is only one. */
  lemma {:induction false} CheckDigitDecides(made: string, ds: string)
    requires |made| == |ds| == 16 && LuhnOk(ds) && AllDigits(made) && (forall i :: 0 <= i < 15 ==> made[i] == ds[i])
    requires made[15] == DigitChar(CheckDigit(made[..15]))
    ensures made == ds
  {
    assert made[..15] == ds[..15];
    assert ds == ds[..15] + [DigitChar(DigitValue(ds[15]))];
    CheckDigitIsUnique(ds[..15], DigitValue(ds[15]));
  }

  lemma CardIsMade(mapped: SessionRegistration, f: string) returns (h: Mac.Hashes)
    requires mapped.kind == Card && CanBe(mapped, f)
    ensures Mac.Lawful(h) && SessionFake(h, [], mapped) == Some(f)
  {
    OverlayIsOnly(mapped.value, f);
    var hash := NumberIsMade(DigitsOf(f));
    h := FixedHashes(hash, ZEROS, []);
  }

  // ----- the MAC-tagged fakes: every base-62 string of the length -----

  lemma {:induction false} DigitsOfValue(ds: seq<nat>, radix: nat)
    requires radix >= 1 && forall i :: 0 <= i < |ds| ==> ds[i] < radix
    ensures Mac.Value(ds, radix) < Pow(radix, |ds|) && Mac.Digits(Mac.Value(ds, radix), radix, |ds|) == ds
    decreases |ds|
  {
    if ds != [] {
      var n := |ds| - 1;
      var front, last := ds[..n], ds[n];
      DigitsOfValue(front, radix);
      AppendDigit(Mac.Value(front, radix), last, radix, Pow(radix, n));
      assert ds == front + [last];
    }
  }

  lemma AppendDigit(v: nat, d: nat, radix: nat, p: nat)
    requires d < radix && v < p
    ensures v * radix + d < radix * p && (v * radix + d) / radix == v && (v * radix + d) % radix == d
  {
    TimesGrows(v + 1, p, radix);
    var x := v * radix + d;
    SplitOnce(x / radix, x % radix, v, d, radix);
  }

  lemma TimesGrows(a: nat, b: nat, c: nat)
    requires a <= b
    ensures a * c <= b * c
  {
  }

  lemma SplitOnce(q: nat, r: nat, v: nat, d: nat, radix: nat)
    requires r < radix && d < radix && q * radix + r == v * radix + d
    ensures q == v && r == d
  {
    if q > v {
      TimesGrows(v + 1, q, radix);
    } else if v > q {
      TimesGrows(q + 1, v, radix);
    }
  }

  lemma {:induction false} BigEndianIsValue(bytes: Bytes, ds: seq<nat>)
    requires |bytes| == |ds| && forall i :: 0 <= i < |ds| ==> ds[i] == bytes[i]
    ensures Mac.BigEndian(bytes) == Mac.Value(ds, 256)
    decreases |ds|
  {
    if ds != [] {
      BigEndianIsValue(bytes[..|ds| - 1], ds[..|ds| - 1]);
    }
  }

  /** Some hash has a given number as its 64-bit prefix. */
  lemma HashWithPrefix(v: nat) returns (hash: Bytes)
    requires v < Pow(256, 8)
    ensures |hash| == 32 && Mac.Prefix64(hash) == v
  {
    var ds := Mac.Digits(v, 256, 8);
    var bytes: Bytes := seq(8, i requires 0 <= i < 8 => ds[i]);
    hash := Padded(bytes);
    assert hash[..8] == bytes;
    BigEndianIsValue(bytes, ds);
    Mac.DigitsDenote(v, 256, 8);
  }

  /** The symbols' numbers. */
  function Indices(s: string, a: Alphabet): (r: seq<nat>)
    requires AllIn(s, a)
    ensures |r| == |s| && forall i :: 0 <= i < |s| ==> r[i] < |a| && SymbolAt(a, r[i]) == s[i]
  {
    BodyToNumerals(s, a)
  }

  lemma SixtyTwoToTheSix()
    ensures Pow(62, 6) == 56800235584 && Pow(62, 6) < Pow(256, 8)
  {
    assert Pow(256, 4) == 4294967296;
    assert Pow(256, 8) == 256 * (256 * (256 * (256 * Pow(256, 4))));
    assert Pow(62, 3) == 238328;
    assert Pow(62, 6) == 62 * (62 * (62 * Pow(62, 3)));
  }

  /** Six numerals are the last digits of some hash. */
  lemma {:induction false} DigitsAreMade(ds: seq<nat>) returns (hash: Bytes)
    requires |ds| == 6 && forall i :: 0 <= i < 6 ==> ds[i] < 62
    ensures |hash| == 32 && Mac.Digits(Mac.Prefix64(hash) % Pow(62, 6), 62, 6) == ds
  {
    SixtyTwoToTheSix();
    DigitsOfValue(ds, 62);
    var v := Mac.Value(ds, 62);
    hash := HashWithPrefix(v);
    assert v % Pow(62, 6) == v;
  }

  /** Every six symbols are the tail of some hash. */
  lemma {:induction false} TailIsMade(tail: string) returns (hash: Bytes)
    requires |tail| == BASE62_TAIL && AllIn(tail, BASE62)
    ensures |hash| == 32 && Mac.EncodeTail(hash, BASE62) == tail
  {
    Base62Valid();
    Base62TailLen();
    var ds := Indices(tail, BASE62);
    hash := DigitsAreMade(ds);
  }

  /** The octets that HKDF must give for a body. */
  lemma {:induction false} BodyOctets(body: string, a: Alphabet) returns (octets: Bytes)
    requires AllIn(body, a) && 2 <= |a| <= 256
    ensures |octets| == |body| && forall i :: 0 <= i < |body| ==> SymbolAt(a, octets[i] % |a|) == body[i]
  {
    var ds := Indices(body, a);
    octets := seq(|body|, i requires 0 <= i < |body| => ds[i]);
    forall i | 0 <= i < |body|
      ensures SymbolAt(a, octets[i] % |a|) == body[i]
    {
      SmallRemainder(ds[i], |a|);
    }
  }

  lemma SmallRemainder(x: nat, m: nat)
    requires x < m
    ensures x % m == x
  {
  }

  lemma {:induction false} DerivedBody(h: Mac.Hashes, value: string, body: string, a: Alphabet)
    requires Mac.Lawful(h) && |a| >= 2 && |body| <= Mac.HKDF_CEILING
    requires var octets := h.expand([], value, |body|);
             |octets| == |body| && forall i :: 0 <= i < |body| ==> SymbolAt(a, octets[i] % |a|) == body[i]
    ensures Mac.DeriveBody(h, [], value, |body|, a) == body
  {
  }

  lemma {:induction false} BodyIsMade(hmac: Bytes, value: string, body: string, a: Alphabet) returns (h: Mac.Hashes)
    requires |hmac| == 32 && AllIn(body, a) && |body| <= Mac.HKDF_CEILING && 2 <= |a| <= 256
    ensures Mac.Lawful(h) && (forall m :: h.hmac([], m) == hmac) && Mac.DeriveBody(h, [], value, |body|, a) == body
  {
    var octets := BodyOctets(body, a);
    h := FixedHashes(ZEROS, hmac, octets);
    DerivedBody(h, value, body, a);
  }

  lemma {:induction false} SplitString(f: string, n: nat, a: Alphabet)
    requires n <= |f| && AllIn(f, a)
    ensures f == f[..n] + f[n..] && AllIn(f[..n], a) && AllIn(f[n..], a)
  {
    assert forall i :: 0 <= i < |f| - n ==> f[n..][i] == f[n + i];
  }

  lemma {:induction false} FormatlessIsMade(mapped: SessionRegistration, f: string) returns (h: Mac.Hashes)
    requires mapped.kind == Formatless && CanBe(mapped, f) && WithinCeiling(mapped)
    ensures Mac.Lawful(h) && SessionFake(h, [], mapped) == Some(f)
  {
    Base62Valid();
    Base62TailLen();
    var n := |f| - BASE62_TAIL;
    SplitString(f, n, BASE62);
    var hmac := TailIsMade(f[n..]);
    h := BodyIsMade(hmac, mapped.value, f[..n], BASE62);
    assert Mac.MacTail(h, [], f[..n], BASE62) == f[n..];
  }

  /** The generators' range is exact: a string is the fake of a registration under some hashes exactly if it can be. */
  lemma RangeIsExact(mapped: SessionRegistration, f: string)
    requires WithinCeiling(mapped)
    ensures (exists h: Mac.Hashes, key: Bytes :: Mac.Lawful(h) && SessionFake(h, key, mapped) == Some(f)) <==> CanBe(mapped, f)
  {
    forall h: Mac.Hashes, key: Bytes | Mac.Lawful(h) && SessionFake(h, key, mapped) == Some(f)
      ensures CanBe(mapped, f)
    {
      FakeCanBe(h, key, mapped);
    }
    if CanBe(mapped, f) {
      var h := IsMade(mapped, f);
    }
  }

  lemma IsMade(mapped: SessionRegistration, f: string) returns (h: Mac.Hashes)
    requires WithinCeiling(mapped) && CanBe(mapped, f)
    ensures Mac.Lawful(h) && SessionFake(h, [], mapped) == Some(f)
  {
    match mapped.kind
    case Pii(Email) => h := EmailIsMade(mapped, f);
    case Pii(Ipv4) => h := Ipv4IsMade(mapped, f);
    case Pii(Phone) => h := PhoneIsMade(mapped, f);
    case Card => h := CardIsMade(mapped, f);
    case Formatless => h := FormatlessIsMade(mapped, f);
  }

  // ----- windows onto a shape -----

  /** What each position of a string may hold. */
  type Shape = seq<set<char>>

  ghost predicate Matches(shape: Shape, f: string) {
    |f| == |shape| && forall i :: 0 <= i < |shape| ==> f[i] in shape[i]
  }

  /** The registration's profile takes this character at its position j. */
  predicate Takes(reg: FpeRegistration, j: nat, c: char) {
    if j < |reg.prefix| then c == reg.prefix[j] else c in reg.alphabet
  }

  lemma {:induction false} ProfileGives(reg: FpeRegistration, f: string, s: Span)
    requires Profile(reg, f, s)
    ensures forall i :: s.start <= i < s.end ==> Takes(reg, i - s.start, f[i])
  {
    var p, n := s.start, |reg.prefix|;
    var front, back := f[p..p + n], f[p + n..s.end];
    forall i | p <= i < s.end
      ensures Takes(reg, i - p, f[i])
    {
      if i < p + n {
        assert front[i - p] == f[i];
      } else {
        assert back[i - p - n] == f[i] && back[i - p - n] in reg.alphabet;
      }
    }
  }

  lemma {:induction false} TakesPrefix(reg: FpeRegistration, f: string, p: nat)
    requires p + |reg.prefix| <= |f| && forall j :: 0 <= j < |reg.prefix| ==> f[p + j] == reg.prefix[j]
    ensures OccursAt(f, reg.prefix, p)
  {
    var front := f[p..p + |reg.prefix|];
    assert forall j :: 0 <= j < |reg.prefix| ==> front[j] == f[p + j];
    assert front == reg.prefix;
  }

  lemma {:induction false} TakesBody(reg: FpeRegistration, f: string, lo: nat, hi: nat)
    requires lo <= hi <= |f| && forall i :: lo <= i < hi ==> f[i] in reg.alphabet
    ensures AllIn(f[lo..hi], reg.alphabet)
  {
    forall j | 0 <= j < hi - lo
      ensures f[lo..hi][j] in reg.alphabet
    {
      assert f[lo..hi][j] == f[lo + j];
    }
  }

  lemma {:induction false} TakesGives(reg: FpeRegistration, f: string, s: Span)
    requires |reg.prefix| < |reg.value| && s.end == s.start + |reg.value| && s.end <= |f|
    requires forall i :: s.start <= i < s.end ==> Takes(reg, i - s.start, f[i])
    ensures Profile(reg, f, s)
  {
    var p, n := s.start, |reg.prefix|;
    forall j | 0 <= j < n
      ensures f[p + j] == reg.prefix[j]
    {
      var i := p + j;
      assert Takes(reg, i - p, f[i]);
    }
    TakesPrefix(reg, f, p);
    forall i | p + n <= i < s.end
      ensures f[i] in reg.alphabet
    {
      assert Takes(reg, i - p, f[i]);
    }
    TakesBody(reg, f, p + n, s.end);
  }

  /** A span has the profile exactly if each of its characters is taken. */
  lemma ProfileTakes(reg: FpeRegistration, f: string, s: Span)
    ensures Profile(reg, f, s) <==>
              && |reg.prefix| < |reg.value| && s.end == s.start + |reg.value| && s.end <= |f|
              && forall i :: s.start <= i < s.end ==> Takes(reg, i - s.start, f[i])
  {
    if Profile(reg, f, s) {
      ProfileGives(reg, f, s);
    } else if |reg.prefix| < |reg.value| && s.end == s.start + |reg.value| && s.end <= |f|
              && forall i :: s.start <= i < s.end ==> Takes(reg, i - s.start, f[i]) {
      TakesGives(reg, f, s);
    }
  }

  ghost predicate Meets(cs: set<char>, reg: FpeRegistration, j: nat) {
    exists c :: c in cs && Takes(reg, j, c)
  }

  /** At each position of the window, the shape allows something that the profile takes. */
  ghost predicate Window(shape: Shape, reg: FpeRegistration, p: nat) {
    && |reg.prefix| < |reg.value| && p + |reg.value| <= |shape|
    && forall i :: p <= i < p + |reg.value| ==> Meets(shape[i], reg, i - p)
  }

  /** A character for position i: one the profile takes, inside the window. */
  ghost function Pick(shape: Shape, reg: FpeRegistration, p: nat, i: nat): (c: char)
    requires Window(shape, reg, p) && i < |shape| && shape[i] != {}
    ensures c in shape[i] && (p <= i < p + |reg.value| ==> Takes(reg, i - p, c))
  {
    if p <= i < p + |reg.value| then
      assert Meets(shape[i], reg, i - p);
      var c :| c in shape[i] && Takes(reg, i - p, c);
      c
    else
      var c :| c in shape[i];
      c
  }

  ghost predicate Inhabited(shape: Shape) {
    forall i :: 0 <= i < |shape| ==> shape[i] != {}
  }

  /** A window is exactly where some string of the shape has the profile. */
  lemma WindowFills(shape: Shape, reg: FpeRegistration, p: nat) returns (f: string)
    requires Window(shape, reg, p) && Inhabited(shape)
    ensures Matches(shape, f) && Profile(reg, f, Span(p, p + |reg.value|))
  {
    f := seq(|shape|, i requires 0 <= i < |shape| => Pick(shape, reg, p, i));
    assert forall i :: p <= i < p + |reg.value| ==> f[i] == Pick(shape, reg, p, i);
    ProfileTakes(reg, f, Span(p, p + |reg.value|));
  }

  lemma WindowNeeded(shape: Shape, reg: FpeRegistration, f: string, s: Span)
    requires Matches(shape, f) && Profile(reg, f, s)
    ensures Window(shape, reg, s.start)
  {
    ProfileTakes(reg, f, s);
    forall i | s.start <= i < s.end
      ensures Meets(shape[i], reg, i - s.start)
    {
      assert f[i] in shape[i] && Takes(reg, i - s.start, f[i]);
    }
  }

  // ----- the shapes of the generators -----

  const LOWER: set<char> := set c: char | 'a' <= c <= 'z'
  const DIGIT: set<char> := set c: char | '0' <= c <= '9'

  ghost function EmailShape(): (r: Shape)
    ensures |r| == EMAIL_LOCAL_LEN + |EMAIL_DOMAIN|
  {
    seq(EMAIL_LOCAL_LEN + |EMAIL_DOMAIN|, i requires 0 <= i < EMAIL_LOCAL_LEN + |EMAIL_DOMAIN| =>
      if i < EMAIL_LOCAL_LEN then LOWER else {EMAIL_DOMAIN[i - EMAIL_LOCAL_LEN]})
  }

  ghost function PhoneShape(): (r: Shape)
    ensures |r| == 8
  {
    seq(8, i requires 0 <= i < 8 => if i < 6 then {PHONE_PREFIX[i]} else DIGIT)
  }

  /** How many digits come before position i. */
  function Rank(value: string, i: nat): nat
    requires i <= |value|
  {
    |DigitsOf(value[..i])|
  }

  ghost function CardShape(value: string): (r: Shape)
    ensures |r| == |value|
  {
    seq(|value|, i requires 0 <= i < |value| =>
      if !IsDigit(value[i]) then {value[i]} else if Rank(value, i) < 4 then {CARD_BIN[Rank(value, i)]} else DIGIT)
  }

  lemma EmailShapeIsExact(mapped: SessionRegistration, f: string)
    requires mapped.kind == Pii(Email)
    ensures CanBe(mapped, f) <==> Matches(EmailShape(), f)
    ensures Inhabited(EmailShape())
  {
    var n := EMAIL_LOCAL_LEN;
    assert 'a' in LOWER;
    if |f| == n + |EMAIL_DOMAIN| {
      assert forall i :: n <= i < |f| ==> f[n..][i - n] == f[i];
      if Matches(EmailShape(), f) {
        assert forall i :: 0 <= i < |EMAIL_DOMAIN| ==> f[n..][i] == f[n + i] && f[n + i] in EmailShape()[n + i];
        assert f[n..] == EMAIL_DOMAIN;
      }
    }
  }

  lemma PhoneShapeIsExact(mapped: SessionRegistration, f: string)
    requires mapped.kind == Pii(Phone)
    ensures CanBe(mapped, f) <==> Matches(PhoneShape(), f)
    ensures Inhabited(PhoneShape())
  {
    assert '0' in DIGIT;
    if |f| == 8 {
      assert f[6..][0] == f[6] && f[6..][1] == f[7];
      if Matches(PhoneShape(), f) {
        assert forall i :: 0 <= i < 6 ==> f[i] in PhoneShape()[i];
        assert f[..6] == PHONE_PREFIX;
      }
    }
  }

  /** The numbers below 256 without leading zeros: 0-9, 10-99, 100-199, 200-249 and 250-255. */
  ghost function OctetShape(k: nat): Shape {
    match k
    case 0 => [DIGIT]
    case 1 => [UpTo('1', '9'), DIGIT]
    case 2 => [{'1'}, DIGIT, DIGIT]
    case 3 => [{'2'}, UpTo('0', '4'), DIGIT]
    case _ => [{'2'}, {'5'}, UpTo('0', '5')]
  }

  ghost function UpTo(a: char, b: char): set<char> {
    set c | c in DIGIT && a <= c <= b
  }

  /** These characters, and nothing else. */
  ghost function Just(s: string): (r: Shape)
    ensures |r| == |s| && forall i :: 0 <= i < |s| ==> r[i] == {s[i]}
  {
    seq(|s|, i requires 0 <= i < |s| => {s[i]})
  }

  ghost function Ipv4Shape(k: nat): Shape {
    Just(IPV4_PREFIX) + OctetShape(k)
  }

  lemma {:induction false} DecimalOf(n: nat)
    requires n < 256
    ensures Decimal(n) == if n < 10 then [DigitChar(n)]
                          else if n < 100 then [DigitChar(n / 10), DigitChar(n % 10)]
                          else [DigitChar(n / 100), DigitChar(n / 10 % 10), DigitChar(n % 10)]
  {
    if 10 <= n < 100 {
      assert Decimal(n / 10) == [DigitChar(n / 10)];
    } else if n >= 100 {
      assert n / 10 / 10 == n / 100;
      assert Decimal(n / 100) == [DigitChar(n / 100)];
      assert Decimal(n / 10) == [DigitChar(n / 100)] + [DigitChar(n / 10 % 10)];
    }
  }

  lemma {:induction false} OctetHasShape(n: nat) returns (k: nat)
    requires n < 256
    ensures k < 5 && Matches(OctetShape(k), Decimal(n))
  {
    DecimalOf(n);
    k := if n < 10 then 0 else if n < 100 then 1 else if n < 200 then 2 else if n < 250 then 3 else 4;
  }

  lemma {:induction false} TwoDigits(a: nat, b: nat)
    requires 1 <= a < 10 && b < 10
    ensures Decimal(a * 10 + b) == [DigitChar(a), DigitChar(b)]
  {
    var n := a * 10 + b;
    assert n / 10 == a;
    assert n % 10 == b;
    DecimalOf(n);
  }

  lemma {:induction false} ThreeDigits(a: nat, b: nat, c: nat)
    requires 1 <= a < 3 && b < 10 && c < 10 && a * 100 + b * 10 + c < 256
    ensures Decimal(a * 100 + b * 10 + c) == [DigitChar(a), DigitChar(b), DigitChar(c)]
  {
    var n := a * 100 + b * 10 + c;
    assert n / 10 == a * 10 + b;
    assert n / 100 == a;
    DecimalOf(n);
  }

  lemma {:induction false} ShapeIsOctet(k: nat, d: string) returns (n: nat)
    requires k < 5 && Matches(OctetShape(k), d)
    ensures n < 256 && d == Decimal(n)
  {
    assert d[0] in OctetShape(k)[0];
    if k == 0 {
      n := DigitValue(d[0]);
    } else if k == 1 {
      assert d[1] in OctetShape(k)[1];
      n := DigitValue(d[0]) * 10 + DigitValue(d[1]);
      TwoDigits(DigitValue(d[0]), DigitValue(d[1]));
    } else {
      assert d[1] in OctetShape(k)[1] && d[2] in OctetShape(k)[2];
      n := DigitValue(d[0]) * 100 + DigitValue(d[1]) * 10 + DigitValue(d[2]);
      ThreeDigits(DigitValue(d[0]), DigitValue(d[1]), DigitValue(d[2]));
    }
  }

  lemma {:induction false} JustFirst(s: string, tail: Shape, f: string)
    requires Matches(Just(s) + tail, f)
    ensures s <= f && Matches(tail, f[|s|..])
  {
    var n, shape := |s|, Just(s) + tail;
    forall i | 0 <= i < n
      ensures f[i] == s[i]
    {
      assert f[i] in shape[i];
    }
    forall i | 0 <= i < |tail|
      ensures f[n..][i] in tail[i]
    {
      assert f[n + i] in shape[n + i];
    }
  }

  lemma {:induction false} JustThen(s: string, tail: Shape, f: string)
    ensures Matches(Just(s) + tail, f) <==> s <= f && Matches(tail, f[|s|..])
  {
    if Matches(Just(s) + tail, f) {
      JustFirst(s, tail, f);
    }
    if s <= f && Matches(tail, f[|s|..]) {
      forall i | 0 <= i < |f|
        ensures f[i] in (Just(s) + tail)[i]
      {
        if i >= |s| {
          assert f[|s|..][i - |s|] in tail[i - |s|];
        }
      }
    }
  }

  lemma {:induction false} OctetsInhabited(k: nat)
    ensures Inhabited(Ipv4Shape(k))
  {
    assert '0' in DIGIT && '1' in UpTo('1', '9') && '0' in UpTo('0', '4') && '0' in UpTo('0', '5');
    var tail := OctetShape(k);
    assert Inhabited(tail);
    forall i | 0 <= i < |Ipv4Shape(k)|
      ensures Ipv4Shape(k)[i] != {}
    {
      if i < |IPV4_PREFIX| {
        assert IPV4_PREFIX[i] in Ipv4Shape(k)[i];
      } else {
        assert Ipv4Shape(k)[i] == tail[i - |IPV4_PREFIX|];
      }
    }
  }

  // ----- cards: a product of shapes but for the check digit -----

  lemma {:induction false} DigitsOfSplit(a: string, b: string)
    ensures DigitsOf(a + b) == DigitsOf(a) + DigitsOf(b)
    decreases |a|
  {
    if a == [] {
      assert a + b == b;
    } else {
      assert (a + b)[1..] == a[1..] + b;
      DigitsOfSplit(a[1..], b);
    }
  }

  /** A digit of the text is the digit of its rank; changing one changes the other. */
  lemma {:induction false} DigitAtRank(f: string, i: nat, c: char)
    requires i < |f| && IsDigit(f[i]) && IsDigit(c)
    ensures Rank(f, i) < |DigitsOf(f)| && DigitsOf(f)[Rank(f, i)] == f[i]
    ensures DigitsOf(f[i := c]) == DigitsOf(f)[Rank(f, i) := c]
  {
    var a, b := f[..i], f[i + 1..];
    assert f == a + ([f[i]] + b) && f[i := c] == a + ([c] + b);
    DigitsOfSplit(a, [f[i]] + b);
    DigitsOfSplit(a, [c] + b);
    assert ([f[i]] + b)[1..] == b && ([c] + b)[1..] == b;
  }

  lemma {:induction false} NthDigit(f: string, m: nat) returns (i: nat)
    requires m < |DigitsOf(f)|
    ensures i < |f| && IsDigit(f[i]) && Rank(f, i) == m
    decreases |f|
  {
    var n := |f| - 1;
    assert f == f[..n] + [f[n]];
    DigitsOfSplit(f[..n], [f[n]]);
    assert DigitsOf([f[n]]) == if IsDigit(f[n]) then [f[n]] else [];
    if m < |DigitsOf(f[..n])| {
      i := NthDigit(f[..n], m);
      assert f[..n][..i] == f[..i];
    } else {
      i := n;
    }
  }

  /** Texts of one layout rank their positions alike. */
  lemma SameRank(a: string, b: string, i: nat)
    requires SameLayout(a, b) && i <= |a|
    ensures Rank(a, i) == Rank(b, i) && |DigitsOf(a)| == |DigitsOf(b)|
  {
    assert SameLayout(a[..i], b[..i]);
    OverlayIsOnly(a[..i], b[..i]);
    OverlayIsOnly(a, b);
  }

  lemma CardMatches(value: string, f: string)
    requires |DigitsOf(value)| == 16
    ensures Matches(CardShape(value), f) <==> SameLayout(value, f) && CARD_BIN <= DigitsOf(f)
    ensures Inhabited(CardShape(value))
  {
    assert '0' in DIGIT;
    if SameLayout(value, f) && CARD_BIN <= DigitsOf(f) {
      forall i | 0 <= i < |value|
        ensures f[i] in CardShape(value)[i]
      {
        SameRank(value, f, i);
        if IsDigit(value[i]) {
          DigitAtRank(f, i, '0');
          assert DigitsOf(f)[..4] == CARD_BIN;
        }
      }
    }
    if Matches(CardShape(value), f) {
      forall i | 0 <= i < |value|
        ensures if IsDigit(value[i]) then IsDigit(f[i]) else f[i] == value[i]
      {
        assert f[i] in CardShape(value)[i];
      }
      SameRank(value, f, 0);
      forall m | 0 <= m < 4
        ensures DigitsOf(f)[m] == CARD_BIN[m]
      {
        var i := NthDigit(value, m);
        SameRank(value, f, i);
        assert f[i] in CardShape(value)[i];
        DigitAtRank(f, i, '0');
      }
    }
  }

  /** Any one digit can be chosen to make the Luhn sum right. */
  lemma LuhnFix(ds: string, m: nat) returns (c: char)
    requires AllDigits(ds) && m < |ds|
    ensures IsDigit(c) && LuhnOk(ds[m := c])
  {
    var p := |ds| - 1 - m;
    var others := LuhnSum(ds, 0) - Share(ds[m], p);
    LuhnUpdate(ds, m, '0', 0);
    assert Share('0', p) == 0 && others == LuhnSum(ds[m := '0'], 0);
    var want := (10 - others % 10) % 10;
    CompletesTen(others, want);
    c := DigitOfShare(want, p);
    LuhnUpdate(ds, m, c, 0);
    assert AllDigits(ds[m := c]);
  }

  lemma DigitOfShare(want: nat, p: nat) returns (c: char)
    requires want < 10
    ensures IsDigit(c) && Share(c, p) == want
  {
    var d := if p % 2 == 0 then want else if want % 2 == 0 then want / 2 else (want + 9) / 2;
    c := DigitChar(d);
  }

  /** One of the twelve digits that vary lies outside the window. */
  ghost predicate LeavesDigit(value: string, reg: FpeRegistration, p: nat) {
    exists i :: 0 <= i < |value| && IsDigit(value[i]) && Rank(value, i) >= 4 && !(p <= i < p + |reg.value|)
  }

  /** Changing a digit outside the window, and not among the first four, to the one that makes the number valid. */
  lemma {:induction false} DigitMakesValid(mapped: SessionRegistration, f0: string, i: nat) returns (f: string)
    requires mapped.kind == Card && |DigitsOf(mapped.value)| == 16
    requires SameLayout(mapped.value, f0) && CARD_BIN <= DigitsOf(f0)
    requires i < |mapped.value| && IsDigit(mapped.value[i]) && Rank(mapped.value, i) >= 4
    ensures CanBe(mapped, f) && |f| == |f0| && forall k :: 0 <= k < |f| && k != i ==> f[k] == f0[k]
  {
    SameRank(mapped.value, f0, i);
    var m := Rank(mapped.value, i);
    DigitAtRank(f0, i, '0');
    var c := LuhnFix(DigitsOf(f0), m);
    DigitAtRank(f0, i, c);
    f := f0[i := c];
    assert DigitsOf(f)[..4] == DigitsOf(f0)[..4] == CARD_BIN;
  }

  /** With a digit left over the window alone decides: that digit makes the number valid. */
  lemma {:induction false} CardWindowFills(mapped: SessionRegistration, reg: FpeRegistration, p: nat) returns (f: string)
    requires mapped.kind == Card && |DigitsOf(mapped.value)| == 16
    requires Window(CardShape(mapped.value), reg, p) && LeavesDigit(mapped.value, reg, p)
    ensures CanBe(mapped, f) && Profile(reg, f, Span(p, p + |reg.value|))
  {
    var v, s := mapped.value, Span(p, p + |reg.value|);
    CardMatches(v, "");
    var f0 := WindowFills(CardShape(v), reg, p);
    CardMatches(v, f0);
    var i :| 0 <= i < |v| && IsDigit(v[i]) && Rank(v, i) >= 4 && !(p <= i < p + |reg.value|);
    f := DigitMakesValid(mapped, f0, i);
    ProfileTakes(reg, f0, s);
    ProfileTakes(reg, f, s);
  }

  /** What a shape allows once the profile must be met at p. */
  ghost function Narrowed(shape: Shape, reg: FpeRegistration, p: nat): (r: Shape)
    ensures |r| == |shape|
  {
    seq(|shape|, i requires 0 <= i < |shape| =>
      if p <= i < p + |reg.value| then set c | c in shape[i] && Takes(reg, i - p, c) else shape[i])
  }

  lemma NarrowedIff(shape: Shape, reg: FpeRegistration, p: nat, f: string)
    requires |reg.prefix| < |reg.value| && p + |reg.value| <= |shape|
    ensures Matches(Narrowed(shape, reg, p), f) <==> Matches(shape, f) && Profile(reg, f, Span(p, p + |reg.value|))
  {
    var narrow := Narrowed(shape, reg, p);
    ProfileTakes(reg, f, Span(p, p + |reg.value|));
    if Matches(narrow, f) {
      assert forall i :: 0 <= i < |shape| ==> f[i] in narrow[i];
    }
  }

  /** What the shape allows where the value has its digits. */
  ghost function DigitSets(value: string, shape: Shape): (r: Shape)
    requires |value| == |shape|
    ensures |r| == |DigitsOf(value)|
  {
    if value == [] then [] else (if IsDigit(value[0]) then [shape[0]] else []) + DigitSets(value[1..], shape[1..])
  }

  ghost predicate SeparatorsFit(value: string, shape: Shape)
    requires |value| == |shape|
  {
    forall i :: 0 <= i < |value| && !IsDigit(value[i]) ==> value[i] in shape[i]
  }

  lemma MatchesCons(cs: set<char>, shape: Shape, c: char, f: string)
    ensures Matches([cs] + shape, [c] + f) <==> c in cs && Matches(shape, f)
  {
    if Matches([cs] + shape, [c] + f) {
      assert ([c] + f)[0] in ([cs] + shape)[0];
      forall i | 0 <= i < |shape|
        ensures f[i] in shape[i]
      {
        assert ([c] + f)[i + 1] in ([cs] + shape)[i + 1];
      }
    }
  }

  lemma SeparatorsCons(value: string, shape: Shape)
    requires |value| == |shape| > 0
    ensures SeparatorsFit(value, shape) <==>
            (!IsDigit(value[0]) ==> value[0] in shape[0]) && SeparatorsFit(value[1..], shape[1..])
  {
    if SeparatorsFit(value[1..], shape[1..]) {
      forall i | 0 < i < |value| && !IsDigit(value[i])
        ensures value[i] in shape[i]
      {
        assert value[1..][i - 1] == value[i] && shape[1..][i - 1] == shape[i];
      }
    }
  }

  /** A text of the value's layout has a shape exactly if its digits have theirs and the separators fit. */
  lemma {:induction false} LayoutMatches(value: string, shape: Shape, f: string)
    requires |value| == |shape| && SameLayout(value, f)
    ensures Matches(shape, f) <==> Matches(DigitSets(value, shape), DigitsOf(f)) && SeparatorsFit(value, shape)
    decreases |value|
  {
    if value != [] {
      assert SameLayout(value[1..], f[1..]);
      LayoutMatches(value[1..], shape[1..], f[1..]);
      SeparatorsCons(value, shape);
      MatchesCons(shape[0], shape[1..], f[0], f[1..]);
      assert [shape[0]] + shape[1..] == shape && [f[0]] + f[1..] == f;
      if IsDigit(value[0]) {
        MatchesCons(shape[0], DigitSets(value[1..], shape[1..]), f[0], DigitsOf(f[1..]));
      } else {
        assert DigitSets(value, shape) == DigitSets(value[1..], shape[1..]) && DigitsOf(f) == DigitsOf(f[1..]);
      }
    }
  }

  /** The last digits of the Luhn sums that digits from the sets can have. */
  ghost function Residues(sets: Shape): set<nat> {
    if sets == [] then {0}
    else set c, r | c in sets[0] && IsDigit(c) && r in Residues(sets[1..]) :: (Share(c, |sets| - 1) + r) % 10
  }

  lemma AddResidue(a: nat, b: nat)
    ensures (a + b % 10) % 10 == (a + b) % 10
  {
  }

  lemma {:induction false} SumIsResidue(sets: Shape, ds: string)
    requires Matches(sets, ds) && AllDigits(ds)
    ensures LuhnSum(ds, 0) % 10 in Residues(sets)
    decreases |sets|
  {
    if sets != [] {
      var rest := LuhnSum(ds[1..], 0);
      SumIsResidue(sets[1..], ds[1..]);
      AddResidue(Share(ds[0], |sets| - 1), rest);
      assert ds[0] in sets[0] && rest % 10 in Residues(sets[1..]);
    }
  }

  lemma {:induction false} SumOfCons(c: char, rest: string, q: nat)
    requires IsDigit(c) && AllDigits(rest) && LuhnSum(rest, 0) % 10 == q
    ensures AllDigits([c] + rest) && LuhnSum([c] + rest, 0) % 10 == (Share(c, |rest|) + q) % 10
  {
    assert ([c] + rest)[1..] == rest;
    AddResidue(Share(c, |rest|), LuhnSum(rest, 0));
  }

  lemma {:induction false} ConsIsSum(sets: Shape, c: char, rest: string, q: nat) returns (ds: string)
    requires sets != [] && c in sets[0] && IsDigit(c) && Matches(sets[1..], rest) && AllDigits(rest) && LuhnSum(rest, 0) % 10 == q
    ensures Matches(sets, ds) && AllDigits(ds) && LuhnSum(ds, 0) % 10 == (Share(c, |sets| - 1) + q) % 10
  {
    ds := [c] + rest;
    SumOfCons(c, rest, q);
    MatchesCons(sets[0], sets[1..], c, rest);
    assert [sets[0]] + sets[1..] == sets;
  }

  lemma {:induction false} ResidueIsSum(sets: Shape, r: nat) returns (ds: string)
    requires r in Residues(sets)
    ensures Matches(sets, ds) && AllDigits(ds) && LuhnSum(ds, 0) % 10 == r
    decreases |sets|
  {
    if sets == [] {
      ds := [];
    } else {
      var c, q :| c in sets[0] && IsDigit(c) && q in Residues(sets[1..]) && r == (Share(c, |sets| - 1) + q) % 10;
      var rest := ResidueIsSum(sets[1..], q);
      ds := ConsIsSum(sets, c, rest, q);
    }
  }

  /** The residues are exactly those of the sums that digits from the sets have. */
  lemma ResiduesAreExact(sets: Shape, r: nat)
    ensures r in Residues(sets) <==> exists ds :: Matches(sets, ds) && AllDigits(ds) && LuhnSum(ds, 0) % 10 == r
  {
    if r in Residues(sets) {
      var ds := ResidueIsSum(sets, r);
    }
    forall ds | Matches(sets, ds) && AllDigits(ds) && LuhnSum(ds, 0) % 10 == r
      ensures r in Residues(sets)
    {
      SumIsResidue(sets, ds);
    }
  }

  /** What the window leaves of the sixteen digits. */
  ghost function CardSets(value: string, reg: FpeRegistration, p: nat): Shape {
    DigitSets(value, Narrowed(CardShape(value), reg, p))
  }

  /** The window fits the layout, and the digits it leaves can have a Luhn sum divisible by ten. */
  ghost predicate CardWindow(value: string, reg: FpeRegistration, p: nat) {
    Window(CardShape(value), reg, p) && 0 in Residues(CardSets(value, reg, p))
  }

  lemma {:induction false} CardWindowNeeded(mapped: SessionRegistration, reg: FpeRegistration, f: string, s: Span)
    requires mapped.kind == Card && CanBe(mapped, f) && Profile(reg, f, s)
    ensures CardWindow(mapped.value, reg, s.start)
  {
    var v, p := mapped.value, s.start;
    CardMatches(v, f);
    WindowNeeded(CardShape(v), reg, f, s);
    assert s == Span(p, p + |reg.value|);
    NarrowedIff(CardShape(v), reg, p, f);
    LayoutMatches(v, Narrowed(CardShape(v), reg, p), f);
    SumIsResidue(CardSets(v, reg, p), DigitsOf(f));
  }

  lemma SeparatorsInWindow(value: string, reg: FpeRegistration, p: nat)
    requires Window(CardShape(value), reg, p)
    ensures SeparatorsFit(value, Narrowed(CardShape(value), reg, p))
  {
    var shape := CardShape(value);
    forall i | 0 <= i < |value| && !IsDigit(value[i])
      ensures value[i] in Narrowed(shape, reg, p)[i]
    {
      assert shape[i] == {value[i]};
      if p <= i < p + |reg.value| {
        assert Meets(shape[i], reg, i - p);
      }
    }
  }

  lemma {:induction false} CardWindowSuffices(mapped: SessionRegistration, reg: FpeRegistration, p: nat) returns (f: string)
    requires mapped.kind == Card && |DigitsOf(mapped.value)| == 16 && CardWindow(mapped.value, reg, p)
    ensures CanBe(mapped, f) && Profile(reg, f, Span(p, p + |reg.value|))
  {
    var v := mapped.value;
    var ds := ResidueIsSum(CardSets(v, reg, p), 0);
    f := Overlay(v, ds);
    OverlayKeepsLayout(v, ds);
    assert ds[..16] == ds;
    SeparatorsInWindow(v, reg, p);
    LayoutMatches(v, Narrowed(CardShape(v), reg, p), f);
    NarrowedIff(CardShape(v), reg, p, f);
    CardMatches(v, f);
  }

  /** With a digit left outside, the window alone decides. */
  lemma LeftoverDecides(mapped: SessionRegistration, reg: FpeRegistration, p: nat)
    requires mapped.kind == Card && |DigitsOf(mapped.value)| == 16 && LeavesDigit(mapped.value, reg, p)
    ensures CardWindow(mapped.value, reg, p) <==> Window(CardShape(mapped.value), reg, p)
  {
    if Window(CardShape(mapped.value), reg, p) {
      var f := CardWindowFills(mapped, reg, p);
      CardWindowNeeded(mapped, reg, f, Span(p, p + |reg.value|));
    }
  }

  // ----- the test -----

  /**
   * Whether some fake of the session registration has a span of the FF1
   * registration's profile; a matter of the two registrations alone.
   */
  ghost predicate Overlaps(mapped: SessionRegistration, reg: FpeRegistration) {
    match mapped.kind
    case Pii(Email) => exists p: nat :: Window(EmailShape(), reg, p)
    case Pii(Phone) => exists p: nat :: Window(PhoneShape(), reg, p)
    case Pii(Ipv4) => exists k, p: nat :: 0 <= k < 5 && Window(Ipv4Shape(k), reg, p)
    case Card =>
      && |DigitsOf(mapped.value)| == 16
      && exists p: nat :: CardWindow(mapped.value, reg, p)
    case Formatless =>
      && BASE62_TAIL < |mapped.value| && |reg.prefix| < |reg.value| <= |mapped.value|
      && AllIn(reg.prefix, BASE62) && exists c :: c in reg.alphabet && c in BASE62
  }

  /** Some string the generator can make has the profile somewhere. */
  ghost predicate SomeFakeFits(mapped: SessionRegistration, reg: FpeRegistration) {
    exists f, s :: CanBe(mapped, f) && Profile(reg, f, s)
  }

  lemma ShapeDecides(mapped: SessionRegistration, reg: FpeRegistration, shape: Shape)
    requires Inhabited(shape) && forall f :: CanBe(mapped, f) <==> Matches(shape, f)
    ensures SomeFakeFits(mapped, reg) <==> exists p: nat :: Window(shape, reg, p)
  {
    if SomeFakeFits(mapped, reg) {
      var f, s :| CanBe(mapped, f) && Profile(reg, f, s);
      WindowNeeded(shape, reg, f, s);
    }
    if p: nat :| Window(shape, reg, p) {
      var f := WindowFills(shape, reg, p);
    }
  }

  lemma EmailDecides(mapped: SessionRegistration, reg: FpeRegistration)
    requires mapped.kind == Pii(Email)
    ensures SomeFakeFits(mapped, reg) <==> Overlaps(mapped, reg)
  {
    EmailShapeIsExact(mapped, "");
    forall f
      ensures CanBe(mapped, f) <==> Matches(EmailShape(), f)
    {
      EmailShapeIsExact(mapped, f);
    }
    ShapeDecides(mapped, reg, EmailShape());
  }

  lemma PhoneDecides(mapped: SessionRegistration, reg: FpeRegistration)
    requires mapped.kind == Pii(Phone)
    ensures SomeFakeFits(mapped, reg) <==> Overlaps(mapped, reg)
  {
    PhoneShapeIsExact(mapped, "");
    forall f
      ensures CanBe(mapped, f) <==> Matches(PhoneShape(), f)
    {
      PhoneShapeIsExact(mapped, f);
    }
    ShapeDecides(mapped, reg, PhoneShape());
  }

  lemma {:induction false} Ipv4Decides(mapped: SessionRegistration, reg: FpeRegistration)
    requires mapped.kind == Pii(Ipv4)
    ensures SomeFakeFits(mapped, reg) <==> Overlaps(mapped, reg)
  {
    if SomeFakeFits(mapped, reg) {
      var f, s :| CanBe(mapped, f) && Profile(reg, f, s);
      var n :| 0 <= n < 256 && f == IPV4_PREFIX + Decimal(n);
      var k := OctetHasShape(n);
      assert f[|IPV4_PREFIX|..] == Decimal(n);
      JustThen(IPV4_PREFIX, OctetShape(k), f);
      WindowNeeded(Ipv4Shape(k), reg, f, s);
    }
    if Overlaps(mapped, reg) {
      var k, p: nat :| 0 <= k < 5 && Window(Ipv4Shape(k), reg, p);
      OctetsInhabited(k);
      var f := WindowFills(Ipv4Shape(k), reg, p);
      JustThen(IPV4_PREFIX, OctetShape(k), f);
      var n := ShapeIsOctet(k, f[|IPV4_PREFIX|..]);
      assert f == IPV4_PREFIX + Decimal(n);
      assert CanBe(mapped, f);
    }
  }

  lemma {:induction false} CardDecides(mapped: SessionRegistration, reg: FpeRegistration)
    requires mapped.kind == Card
    ensures SomeFakeFits(mapped, reg) <==> Overlaps(mapped, reg)
  {
    if SomeFakeFits(mapped, reg) {
      var f, s :| CanBe(mapped, f) && Profile(reg, f, s);
      CardWindowNeeded(mapped, reg, f, s);
    }
    if Overlaps(mapped, reg) {
      var p: nat :| CardWindow(mapped.value, reg, p);
      var f := CardWindowSuffices(mapped, reg, p);
    }
  }

  lemma FormatlessDecides(mapped: SessionRegistration, reg: FpeRegistration)
    requires mapped.kind == Formatless
    ensures SomeFakeFits(mapped, reg) <==> Overlaps(mapped, reg)
  {
    if SomeFakeFits(mapped, reg) {
      var f, s :| CanBe(mapped, f) && Profile(reg, f, s);
      ProfileTakes(reg, f, s);
      forall j | 0 <= j < |reg.prefix|
        ensures reg.prefix[j] in BASE62
      {
        assert Takes(reg, s.start + j - s.start, f[s.start + j]);
      }
      var last := s.end - 1;
      assert Takes(reg, last - s.start, f[last]) && f[last] in BASE62;
    }
    if Overlaps(mapped, reg) {
      var c :| c in reg.alphabet && c in BASE62;
      var f := reg.prefix + seq(|mapped.value| - |reg.prefix|, _ => c);
      ProfileTakes(reg, f, Span(0, |reg.value|));
      assert CanBe(mapped, f);
    }
  }

  lemma TestDecides(mapped: SessionRegistration, reg: FpeRegistration)
    ensures SomeFakeFits(mapped, reg) <==> Overlaps(mapped, reg)
  {
    match mapped.kind
    case Pii(Email) => EmailDecides(mapped, reg);
    case Pii(Ipv4) => Ipv4Decides(mapped, reg);
    case Pii(Phone) => PhoneDecides(mapped, reg);
    case Card => CardDecides(mapped, reg);
    case Formatless => FormatlessDecides(mapped, reg);
  }

  /**
   * Session fakes are said never to lie in an FF1 profile.  They do, for some hashes
   * and key, exactly if the test on the two registrations says so.
   */
  lemma FakesFitProfilesIff(mapped: SessionRegistration, reg: FpeRegistration)
    requires WithinCeiling(mapped)
    ensures (exists h: Mac.Hashes, key: Bytes, s: Span ::
               Mac.Lawful(h) && SessionFake(h, key, mapped).Some? && Profile(reg, SessionFake(h, key, mapped).value, s))
            <==> Overlaps(mapped, reg)
  {
    TestDecides(mapped, reg);
    forall h: Mac.Hashes, key: Bytes, s: Span
      | Mac.Lawful(h) && SessionFake(h, key, mapped).Some? && Profile(reg, SessionFake(h, key, mapped).value, s)
      ensures SomeFakeFits(mapped, reg)
    {
      FakeCanBe(h, key, mapped);
    }
    if SomeFakeFits(mapped, reg) {
      var f, s :| CanBe(mapped, f) && Profile(reg, f, s);
      var h := IsMade(mapped, f);
      assert SessionFake(h, [], mapped).Some? && Profile(reg, SessionFake(h, [], mapped).value, s);
    }
  }

  /** Over an alphabet with all of base 62 and without a prefix they do so always, whatever the hashes. */
  lemma FormatlessAlwaysFits(h: Mac.Hashes, key: Bytes, mapped: SessionRegistration, reg: FpeRegistration)
    requires Mac.Lawful(h) && mapped.kind == Formatless && WithinCeiling(mapped) && SessionFake(h, key, mapped).Some?
    requires reg.prefix == "" && forall c :: c in BASE62 ==> c in reg.alphabet
    ensures (exists s :: Profile(reg, SessionFake(h, key, mapped).value, s)) <==> 0 < |reg.value| <= |mapped.value|
  {
    FakeCanBe(h, key, mapped);
    var fake := SessionFake(h, key, mapped).value;
    ProfileTakes(reg, fake, Span(0, |reg.value|));
  }

  /** And every e-mail fake lies in the profile of a short enough prefix-free registration over lower-case letters. */
  lemma EmailAlwaysFits(h: Mac.Hashes, key: Bytes, mapped: SessionRegistration, reg: FpeRegistration)
    requires Mac.Lawful(h) && mapped.kind == Pii(Email) && 0 < |reg.value| <= EMAIL_LOCAL_LEN
    requires reg.prefix == "" && forall c :: 'a' <= c <= 'z' ==> c in reg.alphabet
    ensures SessionFake(h, key, mapped).Some? && Profile(reg, SessionFake(h, key, mapped).value, Span(0, |reg.value|))
  {
    ProfileTakes(reg, SessionFake(h, key, mapped).value, Span(0, |reg.value|));
  }

  /** And a card fake lies in a prefix-free profile with all ten digits wherever the value's separators are taken. */
  lemma CardAlwaysFits(h: Mac.Hashes, key: Bytes, mapped: SessionRegistration, reg: FpeRegistration, p: nat)
    requires Mac.Lawful(h) && mapped.kind == Card && SessionFake(h, key, mapped).Some?
    requires reg.prefix == "" && reg.value != "" && forall c :: IsDigit(c) ==> c in reg.alphabet
    ensures Profile(reg, SessionFake(h, key, mapped).value, Span(p, p + |reg.value|)) <==>
            p + |reg.value| <= |mapped.value| &&
            forall i :: p <= i < p + |reg.value| ==> IsDigit(mapped.value[i]) || mapped.value[i] in reg.alphabet
  {
    FakeCanBe(h, key, mapped);
    var v, fake := mapped.value, SessionFake(h, key, mapped).value;
    ProfileTakes(reg, fake, Span(p, p + |reg.value|));
    if p + |reg.value| <= |v| && forall i :: p <= i < p + |reg.value| ==> Takes(reg, i - p, fake[i]) {
      forall i | p <= i < p + |reg.value|
        ensures IsDigit(v[i]) || v[i] in reg.alphabet
      {
        assert Takes(reg, i - p, fake[i]);
      }
    }
  }
}
