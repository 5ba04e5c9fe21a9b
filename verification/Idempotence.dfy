/** Recognising the engine's own fakes. */
module Idempotence {
  import opened Basics
  import opened Text
  import opened Alphabets
  import opened Fpe
  import opened Reserved
  import Mac

  datatype NoOpReason = Ff1DecryptedToRegistered | Ff1DecryptedToRetired | ReservedRange | MacVerified
  datatype Decision = Scrub | NoOp(reason: NoOpReason)

  datatype Context = Context(
    registered: seq<FpeRegistration>,
    retired: seq<FpeRegistration>,
    ff1: Ff1,
    hashes: Mac.Hashes,
    macKey: Bytes)

  ghost predicate LawfulContext(ctx: Context) {
    Fpe.Lawful(ctx.ff1) && Mac.Lawful(ctx.hashes)
  }

  predicate EndsWith(s: string, suffix: string) {
    |suffix| <= |s| && s[|s| - |suffix|..] == suffix
  }

  predicate IsEmailExampleDomain(s: string) {
    EndsWith(s, "@example.com") || EndsWith(s, "@example.org") || EndsWith(s, "@example.net")
  }

  predicate IsIpv4Rfc5737(s: string) {
    "192.0.2." <= s || "198.51.100." <= s || "203.0.113." <= s
  }

  predicate IsPhone55501(s: string) {
    |s| == 8 && "555-01" <= s && AllDigits(s[6..8])
  }

  predicate IsCardTestBin4242(s: string) {
    |DigitsOf(s)| == 16 && "4242" <= DigitsOf(s)
  }

  predicate IsInReservedRange(s: string) {
    IsEmailExampleDomain(s) || IsIpv4Rfc5737(s) || IsPhone55501(s) || IsCardTestBin4242(s)
  }

  predicate IsRegisteredValue(ctx: Context, s: string) {
    exists i :: 0 <= i < |ctx.registered| && ctx.registered[i].value == s
  }

  /** A registered value is always scrubbed; otherwise the three checks in turn. */
  function Classify(ctx: Context, candidate: string, macAlphabet: Alphabet): (d: Decision)
    requires LawfulContext(ctx) && |macAlphabet| >= 2
    ensures IsRegisteredValue(ctx, candidate) ==> d == Scrub
  {
    if IsRegisteredValue(ctx, candidate) then Scrub
    else if TryRestore(ctx.ff1, candidate, ctx.registered).Some? then NoOp(Ff1DecryptedToRegistered)
    else if TryRestore(ctx.ff1, candidate, ctx.retired).Some? then NoOp(Ff1DecryptedToRetired)
    else if IsInReservedRange(candidate) then NoOp(ReservedRange)
    else if Mac.Verify(ctx.hashes, ctx.macKey, candidate, macAlphabet) then NoOp(MacVerified)
    else Scrub
  }

  // ----- every generated fake is recognised -----

  function SessionFake(h: Mac.Hashes, macKey: Bytes, reg: SessionRegistration): (r: Option<string>)
    requires Mac.Lawful(h)
    requires reg.kind == Formatless ==> |reg.value| <= Mac.HKDF_CEILING + BASE62_TAIL
  {
    match reg.kind
    case Pii(Email) => Some(FakeEmail(h.sha256(reg.value)))
    case Pii(Ipv4) => Some(FakeIpv4(h.sha256(reg.value)))
    case Pii(Phone) => Some(FakePhone(h.sha256(reg.value)))
    case Card => FakeCard(h.sha256(reg.value), reg.value)
    case Formatless =>
      Base62TailLen();
      Mac.MakeMacFake(h, macKey, reg.value, BASE62)
  }

  lemma {:induction false} OwnFakeDecrypts(ff1: Ff1, regs: seq<FpeRegistration>, i: nat, fake: string)
    requires Fpe.Lawful(ff1) && i < |regs| && Valid(regs[i].alphabet) && ScrubValue(ff1, regs[i]) == Some(fake)
    ensures TryRestore(ff1, fake, regs).Some?
    decreases i
  {
    if i == 0 {
      ScrubThenDecrypts(ff1, fake, regs[0]);
    } else {
      OwnFakeDecrypts(ff1, regs[1..], i - 1, fake);
    }
  }

  ghost predicate AllEligible(regs: seq<FpeRegistration>) {
    forall i :: 0 <= i < |regs| ==> Valid(regs[i].alphabet) && Eligible(regs[i])
  }

  /** The candidate is the FF1 fake of one of the registrations. */
  ghost predicate IsFakeOf(ff1: Ff1, regs: seq<FpeRegistration>, candidate: string)
    requires Fpe.Lawful(ff1)
  {
    exists i :: 0 <= i < |regs| && ScrubValue(ff1, regs[i]) == Some(candidate)
  }

  lemma {:induction false} DecryptsIffFake(ff1: Ff1, regs: seq<FpeRegistration>, candidate: string)
    requires Fpe.Lawful(ff1) && AllEligible(regs)
    ensures TryRestore(ff1, candidate, regs).Some? <==> IsFakeOf(ff1, regs, candidate)
    decreases |regs|
  {
    if regs != [] {
      var rest := regs[1..];
      DecryptsIffFake(ff1, rest, candidate);
      if IsFakeOf(ff1, rest, candidate) {
        var i :| 0 <= i < |rest| && ScrubValue(ff1, rest[i]) == Some(candidate);
        assert regs[i + 1] == rest[i];
      }
      if DecryptsTo(ff1, candidate, regs[0]) {
        DecryptsThenScrubs(ff1, candidate, regs[0]);
      }
      if IsFakeOf(ff1, regs, candidate) {
        var i :| 0 <= i < |regs| && ScrubValue(ff1, regs[i]) == Some(candidate);
        OwnFakeDecrypts(ff1, regs, i, candidate);
      }
    }
  }

  /** A text is left alone exactly if it is not registered itself and is recognised as a fake of some kind. */
  lemma NoOpExactly(ctx: Context, candidate: string, macAlphabet: Alphabet)
    requires LawfulContext(ctx) && |macAlphabet| >= 2 && AllEligible(ctx.registered) && AllEligible(ctx.retired)
    ensures Classify(ctx, candidate, macAlphabet).NoOp? <==>
              && !IsRegisteredValue(ctx, candidate)
              && (|| IsFakeOf(ctx.ff1, ctx.registered, candidate) || IsFakeOf(ctx.ff1, ctx.retired, candidate)
                  || IsInReservedRange(candidate)
                  || Mac.Verify(ctx.hashes, ctx.macKey, candidate, macAlphabet))
  {
    DecryptsIffFake(ctx.ff1, ctx.registered, candidate);
    DecryptsIffFake(ctx.ff1, ctx.retired, candidate);
  }

  /** A text in one of the ranges set aside for examples: mail domains, networks, telephone numbers, and the card range. */
  ghost predicate LooksReserved(s: string) {
    || (exists front :: s == front + "@example.com" || s == front + "@example.org" || s == front + "@example.net")
    || (exists back :: s == "192.0.2." + back || s == "198.51.100." + back || s == "203.0.113." + back)
    || (|s| == 8 && s[..6] == "555-01" && IsDigit(s[6]) && IsDigit(s[7]))
    || (|DigitsOf(s)| == 16 && DigitsOf(s)[..4] == "4242")
  }

  lemma EndsWithIff(s: string, suffix: string)
    ensures EndsWith(s, suffix) <==> exists front :: s == front + suffix
  {
    if EndsWith(s, suffix) {
      assert s == s[..|s| - |suffix|] + suffix;
    }
  }

  lemma BeginsWithIff(s: string, prefix: string)
    ensures prefix <= s <==> exists back :: s == prefix + back
  {
    if prefix <= s {
      assert s == prefix + s[|prefix|..];
    }
  }

  lemma {:induction false} ReservedIff(s: string)
    ensures IsInReservedRange(s) <==> LooksReserved(s)
  {
    EndsWithIff(s, "@example.com");
    EndsWithIff(s, "@example.org");
    EndsWithIff(s, "@example.net");
    BeginsWithIff(s, "192.0.2.");
    BeginsWithIff(s, "198.51.100.");
    BeginsWithIff(s, "203.0.113.");
    assert |s| == 8 ==> s[6..8] == [s[6], s[7]];
    assert |s| >= 6 ==> ("555-01" <= s <==> s[..6] == "555-01");
    assert |DigitsOf(s)| >= 4 ==> ("4242" <= DigitsOf(s) <==> DigitsOf(s)[..4] == "4242");
  }

  /** Which reason is given for leaving a text alone: that of the first check that recognises it, in this order. */
  lemma {:induction false} ReasonIsFirst(ctx: Context, s: string, macAlphabet: Alphabet)
    requires LawfulContext(ctx) && |macAlphabet| >= 2 && AllEligible(ctx.registered) && AllEligible(ctx.retired)
    ensures var d := Classify(ctx, s, macAlphabet);
            var unregistered := forall i :: 0 <= i < |ctx.registered| ==> ctx.registered[i].value != s;
            var active, retired := IsFakeOf(ctx.ff1, ctx.registered, s), IsFakeOf(ctx.ff1, ctx.retired, s);
            && (d == NoOp(Ff1DecryptedToRegistered) <==> unregistered && active)
            && (d == NoOp(Ff1DecryptedToRetired) <==> unregistered && !active && retired)
            && (d == NoOp(ReservedRange) <==> unregistered && !active && !retired && LooksReserved(s))
            && (d == NoOp(MacVerified) <==>
                  unregistered && !active && !retired && !LooksReserved(s) && Mac.Verify(ctx.hashes, ctx.macKey, s, macAlphabet))
  {
    DecryptsIffFake(ctx.ff1, ctx.registered, s);
    DecryptsIffFake(ctx.ff1, ctx.retired, s);
    ReservedIff(s);
  }

  /** FF1 fakes of active and retired registrations. */
  lemma Ff1FakesAreNoOps(ctx: Context, regs: seq<FpeRegistration>, i: nat, fake: string, macAlphabet: Alphabet)
    requires LawfulContext(ctx) && |macAlphabet| >= 2 && (regs == ctx.registered || regs == ctx.retired)
    requires i < |regs| && Valid(regs[i].alphabet) && ScrubValue(ctx.ff1, regs[i]) == Some(fake)
    ensures Classify(ctx, fake, macAlphabet).NoOp? <==> !IsRegisteredValue(ctx, fake)
  {
    OwnFakeDecrypts(ctx.ff1, regs, i, fake);
  }

  lemma {:induction false} ReservedFakeIsReserved(h: Mac.Hashes, macKey: Bytes, reg: SessionRegistration, fake: string)
    requires Mac.Lawful(h) && reg.kind != Formatless && SessionFake(h, macKey, reg) == Some(fake)
    ensures IsInReservedRange(fake)
  {
    match reg.kind
    case Pii(Email) => assert EndsWith(fake, "@example.com");
    case Pii(Ipv4) => assert IsIpv4Rfc5737(fake);
    case Pii(Phone) => assert fake[6..8] == fake[6..];
    case Card => CardFakeIsValid(h.sha256(reg.value), reg.value);
  }

  /** Fakes of session registrations: reserved-range ones, and MAC-tagged ones in their alphabet. */
  lemma SessionFakesAreNoOps(ctx: Context, reg: SessionRegistration, fake: string, macAlphabet: Alphabet)
    requires LawfulContext(ctx) && |macAlphabet| >= 2
    requires reg.kind == Formatless ==>
               macAlphabet == BASE62 && |reg.value| <= Mac.HKDF_CEILING + BASE62_TAIL
    requires SessionFake(ctx.hashes, ctx.macKey, reg) == Some(fake)
    ensures Classify(ctx, fake, macAlphabet).NoOp? <==> !IsRegisteredValue(ctx, fake)
  {
    if reg.kind == Formatless {
      Base62Valid();
      Base62TailLen();
      Mac.MacFakeVerifies(ctx.hashes, ctx.macKey, reg.value, BASE62);
    } else {
      ReservedFakeIsReserved(ctx.hashes, ctx.macKey, reg, fake);
    }
  }
}
