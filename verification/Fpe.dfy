/** Format-preserving tokens: eligibility, FF1 scrubbing and trial decryption. */
module Fpe {
  import opened Basics
  import opened Text
  import opened Alphabets

  type Tweak = Bytes

  datatype FpeRegistration = FpeRegistration(
    name: string, value: string, tweak: Tweak, alphabet: Alphabet, prefix: string)

  datatype PiiKind = Email | Ipv4 | Phone
  datatype SessionFakeKind = Card | Pii(pii: PiiKind) | Formatless
  datatype SessionRegistration = SessionRegistration(name: string, value: string, kind: SessionFakeKind)

  /**
   * FF1 under the derived key.  `accepts` says for which radix and length the
   * library does not report an error.
   */
  datatype Ff1 = Ff1(
    accepts: (nat, nat) -> bool,
    encrypt: (Tweak, nat, seq<nat>) -> seq<nat>,
    decrypt: (Tweak, nat, seq<nat>) -> seq<nat>)

  predicate Numerals(xs: seq<nat>, radix: nat) {
    forall i :: 0 <= i < |xs| ==> xs[i] < radix
  }

  /** A length-preserving bijection on numeral strings, for every tweak and radix. */
  ghost predicate Lawful(ff1: Ff1) {
    && (forall t, r, xs {:trigger ff1.encrypt(t, r, xs)} :: Numerals(xs, r) && ff1.accepts(r, |xs|) ==>
          var ys := ff1.encrypt(t, r, xs);
          |ys| == |xs| && Numerals(ys, r) && ff1.decrypt(t, r, ys) == xs)
    && (forall t, r, ys {:trigger ff1.decrypt(t, r, ys)} :: Numerals(ys, r) && ff1.accepts(r, |ys|) ==>
          var xs := ff1.decrypt(t, r, ys);
          |xs| == |ys| && Numerals(xs, r) && ff1.encrypt(t, r, xs) == ys)
  }

  // ----- eligibility -----

  const MIN_DOMAIN: nat := 1_000_000
  const U64_LIMIT: nat := 0x1_0000_0000_0000_0000

  datatype EligibilityError =
    | PrefixMissing | ValueNotAscii | ValueContainsWhitespace
    | CharNotInAlphabet | DomainTooSmall | BodyTooLong

  /** `checked_pow`, with the largest 64-bit number standing for an overflow. */
  function CappedPow(radix: nat, n: nat): nat {
    if Pow(radix, n) < U64_LIMIT then Pow(radix, n) else U64_LIMIT - 1
  }

  function CheckEligibility(value: string, prefix: string, alphabet: Alphabet): (error: Option<EligibilityError>)
    ensures error.None? <==>
              && prefix <= value
              && var body := value[|prefix|..];
                 && IsAscii(body) && AllIn(body, alphabet)
                 && (forall i :: 0 <= i < |body| ==> !IsWhitespace(body[i]))
                 && |body| < 0x1_0000_0000 && Pow(|alphabet|, |body|) >= MIN_DOMAIN
  {
    if !(prefix <= value) then Some(PrefixMissing)
    else
      var body := value[|prefix|..];
      if !IsAscii(body) then Some(ValueNotAscii)
      else if exists i :: 0 <= i < |body| && IsWhitespace(body[i]) then Some(ValueContainsWhitespace)
      else if !AllIn(body, alphabet) then Some(CharNotInAlphabet)
      else if |body| >= 0x1_0000_0000 then Some(BodyTooLong)
      else if CappedPow(|alphabet|, |body|) < MIN_DOMAIN then Some(DomainTooSmall)
      else None
  }

  /** Which error is reported: that of the first demand that is not met, in this order. */
  lemma ErrorIsFirst(value: string, prefix: string, alphabet: Alphabet)
    ensures var r := CheckEligibility(value, prefix, alphabet);
            && (r == Some(PrefixMissing) <==> !(prefix <= value))
            && (prefix <= value ==>
                  var body := value[|prefix|..];
                  var ascii := forall i :: 0 <= i < |body| ==> body[i] as int < 128;
                  var solid := forall i :: 0 <= i < |body| ==> !(9 <= body[i] as int <= 13 || body[i] == ' ');
                  var inside := forall i :: 0 <= i < |body| ==> body[i] in alphabet;
                  && (r == Some(ValueNotAscii) <==> !ascii)
                  && (r == Some(ValueContainsWhitespace) <==> ascii && !solid)
                  && (r == Some(CharNotInAlphabet) <==> ascii && solid && !inside)
                  && (r == Some(BodyTooLong) <==> ascii && solid && inside && |body| >= 4_294_967_296)
                  && (r == Some(DomainTooSmall) <==> ascii && solid && inside && |body| < 4_294_967_296 && Pow(|alphabet|, |body|) < 1_000_000))
  {
  }

  predicate Eligible(reg: FpeRegistration) {
    CheckEligibility(reg.value, reg.prefix, reg.alphabet).None?
  }

  // ----- numerals -----

  function BodyToNumerals(body: string, alphabet: Alphabet): (r: seq<nat>)
    requires AllIn(body, alphabet)
    ensures |r| == |body| && Numerals(r, |alphabet|)
    ensures forall i :: 0 <= i < |body| ==> SymbolAt(alphabet, r[i]) == body[i]
  {
    if body == [] then []
    else
      assert alphabet[0..] == alphabet;
      assert body[0] in alphabet;
      [IndexOf(alphabet, body[0]).value] + BodyToNumerals(body[1..], alphabet)
  }

  function NumeralsToBody(numerals: seq<nat>, alphabet: Alphabet): (r: string)
    requires Numerals(numerals, |alphabet|)
    ensures |r| == |numerals| && forall i :: 0 <= i < |r| ==> r[i] == SymbolAt(alphabet, numerals[i])
    ensures AllIn(r, alphabet)
  {
    seq(|numerals|, i requires 0 <= i < |numerals| => SymbolAt(alphabet, numerals[i]))
  }

  /** Over a valid alphabet the two conversions undo one another. */
  lemma NumeralsRoundTrip(body: string, numerals: seq<nat>, alphabet: Alphabet)
    requires Valid(alphabet)
    ensures AllIn(body, alphabet) ==> NumeralsToBody(BodyToNumerals(body, alphabet), alphabet) == body
    ensures Numerals(numerals, |alphabet|) ==> BodyToNumerals(NumeralsToBody(numerals, alphabet), alphabet) == numerals
  {
    if Numerals(numerals, |alphabet|) {
      var body' := NumeralsToBody(numerals, alphabet);
      var back := BodyToNumerals(body', alphabet);
      forall i | 0 <= i < |numerals|
        ensures back[i] == numerals[i]
      {
        assert alphabet[back[i]] == alphabet[numerals[i]];
      }
    }
  }

  // ----- scrub and trial decryption -----

  function EncryptBody(ff1: Ff1, reg: FpeRegistration, body: string): (r: string)
    requires Lawful(ff1) && AllIn(body, reg.alphabet) && ff1.accepts(|reg.alphabet|, |body|)
    ensures |r| == |body| && AllIn(r, reg.alphabet)
  {
    NumeralsToBody(ff1.encrypt(reg.tweak, |reg.alphabet|, BodyToNumerals(body, reg.alphabet)), reg.alphabet)
  }

  function DecryptBody(ff1: Ff1, reg: FpeRegistration, body: string): (r: string)
    requires Lawful(ff1) && AllIn(body, reg.alphabet) && ff1.accepts(|reg.alphabet|, |body|)
    ensures |r| == |body| && AllIn(r, reg.alphabet)
  {
    NumeralsToBody(ff1.decrypt(reg.tweak, |reg.alphabet|, BodyToNumerals(body, reg.alphabet)), reg.alphabet)
  }

  lemma {:induction false} BodyRoundTrip(ff1: Ff1, reg: FpeRegistration, body: string)
    requires Lawful(ff1) && Valid(reg.alphabet) && AllIn(body, reg.alphabet) && ff1.accepts(|reg.alphabet|, |body|)
    ensures DecryptBody(ff1, reg, EncryptBody(ff1, reg, body)) == body
    ensures EncryptBody(ff1, reg, DecryptBody(ff1, reg, body)) == body
  {
    var a, xs := reg.alphabet, BodyToNumerals(body, reg.alphabet);
    NumeralsRoundTrip(body, ff1.encrypt(reg.tweak, |a|, xs), a);
    NumeralsRoundTrip(body, ff1.decrypt(reg.tweak, |a|, xs), a);
  }

  /** The fake of a registration, or nothing when eligibility or FF1 fails. */
  function ScrubValue(ff1: Ff1, reg: FpeRegistration): (r: Option<string>)
    requires Lawful(ff1)
    ensures r.Some? ==> Eligible(reg) && |r.value| == |reg.value| && reg.prefix <= r.value
    ensures r.Some? ==> AllIn(r.value[|reg.prefix|..], reg.alphabet)
  {
    if !Eligible(reg) then None
    else
      var body := reg.value[|reg.prefix|..];
      if !ff1.accepts(|reg.alphabet|, |body|) then None
      else Some(reg.prefix + EncryptBody(ff1, reg, body))
  }

  /** Trial decryption of a candidate under one registration. */
  predicate DecryptsTo(ff1: Ff1, candidate: string, reg: FpeRegistration)
    requires Lawful(ff1)
  {
    && reg.prefix <= candidate
    && var body := candidate[|reg.prefix|..];
       && |body| == (if |reg.value| >= |reg.prefix| then |reg.value| - |reg.prefix| else 0)
       && AllIn(body, reg.alphabet)
       && ff1.accepts(|reg.alphabet|, |body|)
       && reg.prefix + DecryptBody(ff1, reg, body) == reg.value
  }

  /** The first registration whose decryption of the candidate gives its own value. */
  function TryRestore(ff1: Ff1, candidate: string, regs: seq<FpeRegistration>): (r: Option<string>)
    requires Lawful(ff1)
    ensures r.Some? ==> |r.value| == |candidate| && exists i :: 0 <= i < |regs| && regs[i].value == r.value
  {
    if regs == [] then None
    else if DecryptsTo(ff1, candidate, regs[0]) then Some(regs[0].value)
    else
      var rest := TryRestore(ff1, candidate, regs[1..]);
      assert rest.Some? ==> forall i :: 0 <= i < |regs[1..]| ==> regs[1..][i] == regs[i + 1];
      rest
  }

  /** The lookup table that trial decryption stands for. */
  ghost function LookUp(ff1: Ff1, candidate: string, regs: seq<FpeRegistration>): Option<string>
    requires Lawful(ff1)
  {
    if regs == [] then None
    else if ScrubValue(ff1, regs[0]) == Some(candidate) then Some(regs[0].value)
    else LookUp(ff1, candidate, regs[1..])
  }

  lemma SplitPrefix(s: string, prefix: string)
    requires prefix <= s
    ensures prefix + s[|prefix|..] == s
  {
  }

  lemma {:induction false} DecryptsThenScrubs(ff1: Ff1, candidate: string, reg: FpeRegistration)
    requires Lawful(ff1) && Valid(reg.alphabet) && Eligible(reg) && DecryptsTo(ff1, candidate, reg)
    ensures ScrubValue(ff1, reg) == Some(candidate)
  {
    var cbody := candidate[|reg.prefix|..];
    BodyRoundTrip(ff1, reg, cbody);
    assert reg.value[|reg.prefix|..] == DecryptBody(ff1, reg, cbody);
    SplitPrefix(candidate, reg.prefix);
  }

  lemma {:induction false} ScrubThenDecrypts(ff1: Ff1, candidate: string, reg: FpeRegistration)
    requires Lawful(ff1) && Valid(reg.alphabet) && ScrubValue(ff1, reg) == Some(candidate)
    ensures DecryptsTo(ff1, candidate, reg)
  {
    var body := reg.value[|reg.prefix|..];
    BodyRoundTrip(ff1, reg, body);
    assert candidate[|reg.prefix|..] == EncryptBody(ff1, reg, body);
    SplitPrefix(reg.value, reg.prefix);
  }

  /** Registered in the same way as a value, its fake has a fake too, which is another string unless the fake was the value. */
  lemma {:induction false} FakeOfFake(ff1: Ff1, reg: FpeRegistration, again: FpeRegistration)
    requires Lawful(ff1) && Valid(reg.alphabet) && ScrubValue(ff1, reg) == Some(again.value)
    requires again.tweak == reg.tweak && again.alphabet == reg.alphabet && again.prefix == reg.prefix
    ensures ScrubValue(ff1, again).Some?
    ensures ScrubValue(ff1, again) == Some(again.value) <==> again.value == reg.value
  {
    var w := again.value;
    assert Eligible(again);
    ScrubThenDecrypts(ff1, w, reg);
    if ScrubValue(ff1, again) == Some(w) {
      ScrubThenDecrypts(ff1, w, again);
      assert DecryptBody(ff1, again, w[|reg.prefix|..]) == DecryptBody(ff1, reg, w[|reg.prefix|..]);
    }
    if w == reg.value {
      assert EncryptBody(ff1, again, w[|reg.prefix|..]) == EncryptBody(ff1, reg, w[|reg.prefix|..]);
    }
  }

  /** For eligible registrations over valid alphabets, trial decryption refines the lookup table. */
  lemma {:induction false} TrialDecryptionIsLookUp(ff1: Ff1, candidate: string, regs: seq<FpeRegistration>)
    requires Lawful(ff1) && forall i :: 0 <= i < |regs| ==> Valid(regs[i].alphabet) && Eligible(regs[i])
    ensures TryRestore(ff1, candidate, regs) == LookUp(ff1, candidate, regs)
    decreases |regs|
  {
    if regs != [] {
      if DecryptsTo(ff1, candidate, regs[0]) {
        DecryptsThenScrubs(ff1, candidate, regs[0]);
      } else if ScrubValue(ff1, regs[0]) == Some(candidate) {
        ScrubThenDecrypts(ff1, candidate, regs[0]);
      }
      TrialDecryptionIsLookUp(ff1, candidate, regs[1..]);
    }
  }

  /** Registration i has this value and the candidate for its fake, and none before it has that fake. */
  ghost predicate FirstAt(ff1: Ff1, candidate: string, regs: seq<FpeRegistration>, value: string, i: nat)
    requires Lawful(ff1) && i < |regs|
  {
    && ScrubValue(ff1, regs[i]) == Some(candidate) && regs[i].value == value
    && forall j :: 0 <= j < i ==> ScrubValue(ff1, regs[j]) != Some(candidate)
  }

  ghost predicate IsFirst(ff1: Ff1, candidate: string, regs: seq<FpeRegistration>, value: string)
    requires Lawful(ff1)
  {
    exists i :: 0 <= i < |regs| && FirstAt(ff1, candidate, regs, value, i)
  }

  /** A candidate is restored to the value of the first registration whose fake it is, and to none if it is no fake. */
  lemma {:induction false} RestoresFirst(ff1: Ff1, candidate: string, regs: seq<FpeRegistration>, value: string)
    requires Lawful(ff1) && forall i :: 0 <= i < |regs| ==> Valid(regs[i].alphabet) && Eligible(regs[i])
    ensures TryRestore(ff1, candidate, regs) == Some(value) <==> IsFirst(ff1, candidate, regs, value)
    decreases |regs|
  {
    if regs != [] {
      var rest := regs[1..];
      RestoresFirst(ff1, candidate, rest, value);
      if DecryptsTo(ff1, candidate, regs[0]) {
        DecryptsThenScrubs(ff1, candidate, regs[0]);
        assert regs[0].value == value ==> FirstAt(ff1, candidate, regs, value, 0);
      } else {
        if ScrubValue(ff1, regs[0]) == Some(candidate) {
          ScrubThenDecrypts(ff1, candidate, regs[0]);
        }
        FirstOfTail(ff1, candidate, regs, value);
      }
    }
  }

  /** If the head's fake is another one, what is first in the tail is first. */
  lemma {:induction false} FirstOfTail(ff1: Ff1, candidate: string, regs: seq<FpeRegistration>, value: string)
    requires Lawful(ff1) && regs != [] && ScrubValue(ff1, regs[0]) != Some(candidate)
    ensures IsFirst(ff1, candidate, regs[1..], value) <==> IsFirst(ff1, candidate, regs, value)
  {
    var rest := regs[1..];
    if IsFirst(ff1, candidate, rest, value) {
      var i :| 0 <= i < |rest| && FirstAt(ff1, candidate, rest, value, i);
      forall j | 0 <= j < i + 1
        ensures ScrubValue(ff1, regs[j]) != Some(candidate)
      {
        assert j > 0 ==> regs[j] == rest[j - 1];
      }
      assert FirstAt(ff1, candidate, regs, value, i + 1);
    }
    if IsFirst(ff1, candidate, regs, value) {
      var i :| 0 <= i < |regs| && FirstAt(ff1, candidate, regs, value, i);
      assert i > 0;
      forall j | 0 <= j < i - 1
        ensures ScrubValue(ff1, rest[j]) != Some(candidate)
      {
        assert rest[j] == regs[j + 1];
      }
      assert FirstAt(ff1, candidate, rest, value, i - 1);
    }
  }
}
