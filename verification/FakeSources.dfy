/** What each fake shows of its value: which octets of which digest, and so when two fakes are the same. */
module FakeSources {
  import opened Basics
  import opened Text
  import opened Alphabets
  import opened Fpe
  import opened Reserved
  import opened Idempotence
  import opened ProfileOverlap
  import Mac

  // ----- reserved ranges -----

  /** The digests agree, octet by octet, in their first n octets modulo m. */
  ghost predicate AgreeModulo(x: Bytes, y: Bytes, n: nat, m: nat)
    requires m > 0 && n <= |x| && n <= |y|
  {
    forall i :: 0 <= i < n ==> x[i] % m == y[i] % m
  }

  lemma {:induction false} EmailsAgree(x: Bytes, y: Bytes)
    requires |x| == |y| == 32
    ensures FakeEmail(x) == FakeEmail(y) <==> AgreeModulo(x, y, 10, 26)
  {
    var a, b := FakeEmail(x), FakeEmail(y);
    if a == b {
      forall i | 0 <= i < 10
        ensures x[i] % 26 == y[i] % 26
      {
        assert a[i] == b[i];
      }
    }
    if AgreeModulo(x, y, 10, 26) {
      assert forall i :: 0 <= i < 10 ==> a[i] == b[i];
      assert a == a[..10] + a[10..] && b == b[..10] + b[10..] && a[..10] == b[..10];
    }
  }

  lemma {:induction false} AddressesAgree(x: Bytes, y: Bytes)
    requires |x| == |y| == 32
    ensures FakeIpv4(x) == FakeIpv4(y) <==> x[0] == y[0]
  {
    if FakeIpv4(x) == FakeIpv4(y) {
      assert DecimalValue(FakeIpv4(x)[8..]) == x[0] && DecimalValue(FakeIpv4(y)[8..]) == y[0];
    }
  }

  lemma {:induction false} PhonesAgree(x: Bytes, y: Bytes)
    requires |x| == |y| == 32
    ensures FakePhone(x) == FakePhone(y) <==> x[0] % 100 == y[0] % 100
  {
    if FakePhone(x) == FakePhone(y) {
      assert DecimalValue(FakePhone(x)[6..]) == x[0] % 100 && DecimalValue(FakePhone(y)[6..]) == y[0] % 100;
    }
  }

  lemma {:induction false} NumbersAgree(x: Bytes, y: Bytes)
    requires |x| == |y| == 32
    ensures CardDigits(x) == CardDigits(y) <==> AgreeModulo(x, y, 11, 10)
  {
    var a, b := CardDigits(x), CardDigits(y);
    if a == b {
      forall i | 0 <= i < 11
        ensures x[i] % 10 == y[i] % 10
      {
        assert a[4 + i] == b[4 + i];
      }
    }
    if AgreeModulo(x, y, 11, 10) {
      forall i | 0 <= i < 15
        ensures a[i] == b[i]
      {
        if i < 4 {
          assert a[..4][i] == b[..4][i];
        } else {
          assert DigitValue(a[4 + (i - 4)]) == DigitValue(b[4 + (i - 4)]);
        }
      }
      assert a[..15] == b[..15];
      CheckDigitDecides(a, b);
    }
  }

  lemma {:induction false} LayoutOfOverlay(v: string, ds: string)
    requires AllDigits(ds) && |DigitsOf(v)| == |ds| == 16
    ensures SameLayout(v, Overlay(v, ds)) && DigitsOf(Overlay(v, ds)) == ds
  {
    OverlayKeepsLayout(v, ds);
    assert ds[..16] == ds;
  }

  lemma {:induction false} CardsAgree(x: Bytes, y: Bytes, v: string, w: string)
    requires |x| == |y| == 32 && |DigitsOf(v)| == |DigitsOf(w)| == 16
    ensures FakeCard(x, v) == FakeCard(y, w) <==> SameLayout(v, w) && AgreeModulo(x, y, 11, 10)
  {
    var a, b := CardDigits(x), CardDigits(y);
    LayoutOfOverlay(v, a);
    LayoutOfOverlay(w, b);
    NumbersAgree(x, y);
    if SameLayout(v, w) && a == b {
      assert SameLayout(v, Overlay(w, b));
      OverlayIsOnly(v, Overlay(w, b));
    }
  }

  // ----- tagged fakes -----

  /** Two symbols of a valid alphabet are the same exactly if their numbers are. */
  lemma SymbolsAgree(a: Alphabet, i: nat, j: nat)
    requires Valid(a) && i < |a| && j < |a|
    ensures SymbolAt(a, i) == SymbolAt(a, j) <==> i == j
  {
  }

  lemma {:induction false} BodiesAgree(h: Mac.Hashes, key: Bytes, v: string, h': Mac.Hashes, key': Bytes, w: string, n: nat)
    requires Mac.Lawful(h) && Mac.Lawful(h') && n <= Mac.HKDF_CEILING
    ensures Valid(BASE62) && |BASE62| == 62
    ensures Mac.DeriveBody(h, key, v, n, BASE62) == Mac.DeriveBody(h', key', w, n, BASE62) <==>
            AgreeModulo(h.expand(key, v, n), h'.expand(key', w, n), n, 62)
  {
    Base62Valid();
    var x, y := h.expand(key, v, n), h'.expand(key', w, n);
    var a, b := Mac.DeriveBody(h, key, v, n, BASE62), Mac.DeriveBody(h', key', w, n, BASE62);
    forall i | 0 <= i < n
      ensures a[i] == b[i] <==> x[i] % 62 == y[i] % 62
    {
      SymbolsAgree(BASE62, x[i] % 62, y[i] % 62);
    }
  }

  /** The tag of the body under the key, as a number below 62^6. */
  function Tag(h: Mac.Hashes, key: Bytes, body: string): nat {
    Mac.Prefix64(h.hmac(key, body)) % 56_800_235_584
  }

  lemma {:induction false} TailsAgree(h: Mac.Hashes, key: Bytes, h': Mac.Hashes, key': Bytes, body: string)
    ensures |BASE62| == 62
    ensures Mac.MacTail(h, key, body, BASE62) == Mac.MacTail(h', key', body, BASE62) <==> Tag(h, key, body) == Tag(h', key', body)
  {
    Base62Valid();
    Base62TailLen();
    SixtyTwoToTheSix();
    Mac.TailsAgreeModulo(h.hmac(key, body), h'.hmac(key', body), BASE62);
  }

  lemma {:induction false} JoinsAgree(a: string, b: string, x: string, y: string)
    requires |a| == |b|
    ensures a + x == b + y <==> a == b && x == y
  {
    assert (a + x)[..|a|] == a && (b + y)[..|b|] == b && (a + x)[|a|..] == x && (b + y)[|b|..] == y;
  }

  /** A tagged fake is its body and the tail of that. */
  lemma {:induction false} TaggedParts(h: Mac.Hashes, key: Bytes, v: string)
    requires Mac.Lawful(h) && 6 < |v| <= Mac.HKDF_CEILING + 6
    ensures MacTailLen(BASE62) == 6 && |BASE62| == 62
    ensures var body := Mac.DeriveBody(h, key, v, |v| - 6, BASE62);
            Mac.MakeMacFake(h, key, v, BASE62) == Some(body + Mac.MacTail(h, key, body, BASE62))
  {
    Base62TailLen();
  }

  lemma {:induction false} TaggedAgree(h: Mac.Hashes, key: Bytes, v: string, h': Mac.Hashes, key': Bytes, w: string)
    requires Mac.Lawful(h) && Mac.Lawful(h') && 6 < |v| == |w| <= Mac.HKDF_CEILING + 6
    ensures MacTailLen(BASE62) == 6 && |BASE62| == 62
    ensures var n := |v| - 6;
            var body := Mac.DeriveBody(h, key, v, n, BASE62);
            Mac.MakeMacFake(h, key, v, BASE62) == Mac.MakeMacFake(h', key', w, BASE62) <==>
              AgreeModulo(h.expand(key, v, n), h'.expand(key', w, n), n, 62) && Tag(h, key, body) == Tag(h', key', body)
  {
    var n := |v| - 6;
    TaggedParts(h, key, v);
    TaggedParts(h', key', w);
    var body, body' := Mac.DeriveBody(h, key, v, n, BASE62), Mac.DeriveBody(h', key', w, n, BASE62);
    var tail, tail' := Mac.MacTail(h, key, body, BASE62), Mac.MacTail(h', key', body', BASE62);
    assert body == body' <==> AgreeModulo(h.expand(key, v, n), h'.expand(key', w, n), n, 62) by {
      BodiesAgree(h, key, v, h', key', w, n);
    }
    assert Mac.MacTail(h, key, body, BASE62) == Mac.MacTail(h', key', body, BASE62) <==> Tag(h, key, body) == Tag(h', key', body) by {
      TailsAgree(h, key, h', key', body);
    }
    JoinsAgree(body, body', tail, tail');
  }

  // ----- every kind -----

  /** What the two fakes show of their values is the same. */
  ghost predicate ShowTheSame(h: Mac.Hashes, key: Bytes, v: string, h': Mac.Hashes, key': Bytes, w: string, kind: SessionFakeKind)
    requires Mac.Lawful(h) && Mac.Lawful(h')
    requires kind == Formatless ==> |v| <= Mac.HKDF_CEILING + 6
  {
    var x, y := h.sha256(v), h'.sha256(w);
    match kind
    case Pii(Email) => AgreeModulo(x, y, 10, 26)
    case Pii(Ipv4) => x[0] == y[0]
    case Pii(Phone) => x[0] % 100 == y[0] % 100
    case Card => SameLayout(v, w) && AgreeModulo(x, y, 11, 10)
    case Formatless =>
      |v| == |w| && |v| > 6 &&
      var n := |v| - 6;
      Base62Valid();
      AgreeModulo(h.expand(key, v, n), h'.expand(key', w, n), n, 62) &&
      var body := Mac.DeriveBody(h, key, v, n, BASE62);
      Tag(h, key, body) == Tag(h', key', body)
  }

  /**
   * Two registrations of one kind get the same fake, under whatever hashes and keys,
   * if and only if the digests of their own values agree in what the kind shows: ten
   * octets modulo 26, one octet, one octet modulo 100, eleven octets modulo 10 and
   * the layout, or the expanded body modulo 62 and the tag of that body.
   */
  lemma {:induction false} SameFakeIff(h: Mac.Hashes, key: Bytes, r: SessionRegistration, h': Mac.Hashes, key': Bytes, r': SessionRegistration)
    requires Mac.Lawful(h) && Mac.Lawful(h') && r.kind == r'.kind && WithinCeiling(r) && WithinCeiling(r')
    requires SessionFake(h, key, r).Some? && SessionFake(h', key', r').Some?
    ensures SessionFake(h, key, r) == SessionFake(h', key', r') <==> ShowTheSame(h, key, r.value, h', key', r'.value, r.kind)
  {
    var x, y := h.sha256(r.value), h'.sha256(r'.value);
    match r.kind
    case Pii(Email) => EmailsAgree(x, y);
    case Pii(Ipv4) => AddressesAgree(x, y);
    case Pii(Phone) => PhonesAgree(x, y);
    case Card => CardsAgree(x, y, r.value, r'.value);
    case Formatless =>
      Base62TailLen();
      if |r.value| == |r'.value| {
        TaggedAgree(h, key, r.value, h', key', r'.value);
      }
  }

  /** A fake is made exactly of card numbers with sixteen digits, of formatless values longer than six, and of everything else. */
  lemma {:induction false} FakeIsMadeIff(h: Mac.Hashes, key: Bytes, r: SessionRegistration)
    requires Mac.Lawful(h) && WithinCeiling(r)
    ensures SessionFake(h, key, r).Some? <==>
              && (r.kind == Card ==> |DigitsOf(r.value)| == 16)
              && (r.kind == Formatless ==> |r.value| > 6)
  {
    Base62TailLen();
  }

  // ----- the tag -----

  /** A candidate carries the key's tag if and only if its last K symbols write, in the alphabet, the tag of what stands before them. */
  lemma {:induction false} VerifyIff(h: Mac.Hashes, key: Bytes, candidate: string, a: Alphabet)
    requires Valid(a)
    ensures var k := MacTailLen(a);
            Mac.Verify(h, key, candidate, a) <==>
              && IsAscii(candidate) && |candidate| >= k
              && var split := |candidate| - k;
                 exists ds: seq<nat> ::
                   && |ds| == k && (forall i :: 0 <= i < k ==> ds[i] < |a|) && candidate[split..] == Mac.Symbols(ds, a)
                   && Mac.Value(ds, |a|) == Mac.Prefix64(h.hmac(key, candidate[..split])) % Pow(|a|, k)
  {
    var k := MacTailLen(a);
    if |candidate| >= k {
      var split := |candidate| - k;
      TailWrites(h.hmac(key, candidate[..split]), a, candidate[split..]);
    }
  }

  lemma {:induction false} TailWrites(hash: Bytes, a: Alphabet, tail: string)
    requires Valid(a) && |tail| == MacTailLen(a)
    ensures var k := MacTailLen(a);
            AllIn(tail, a) && Mac.EncodeTail(hash, a) == tail <==>
              exists ds: seq<nat> :: |ds| == k && (forall i :: 0 <= i < k ==> ds[i] < |a|) && tail == Mac.Symbols(ds, a)
                                  && Mac.Value(ds, |a|) == Mac.Prefix64(hash) % Pow(|a|, k)
  {
    var k := MacTailLen(a);
    var v := Mac.Prefix64(hash) % Pow(|a|, k);
    var digits := Mac.Digits(v, |a|, k);
    Mac.DigitsDenote(v, |a|, k);
    if AllIn(tail, a) && Mac.EncodeTail(hash, a) == tail {
      assert tail == Mac.Symbols(digits, a);
    }
    forall ds: seq<nat> | |ds| == k && (forall i :: 0 <= i < k ==> ds[i] < |a|) && tail == Mac.Symbols(ds, a) && Mac.Value(ds, |a|) == v
      ensures ds == digits
    {
      DigitsOfValue(ds, |a|);
    }
  }

  // ----- FF1 -----

  /** An FF1 fake is the prefix and the encryption of the body's numerals under the registration's own tweak and radix. */
  lemma {:induction false} FakeIsFf1(ff1: Ff1, reg: FpeRegistration, fake: string)
    requires Fpe.Lawful(ff1) && Valid(reg.alphabet) && ScrubValue(ff1, reg) == Some(fake)
    ensures var n := |reg.prefix|;
            && |fake| == |reg.value| && fake[..n] == reg.prefix == reg.value[..n]
            && AllIn(fake[n..], reg.alphabet) && AllIn(reg.value[n..], reg.alphabet)
            && BodyToNumerals(fake[n..], reg.alphabet) ==
                 ff1.encrypt(reg.tweak, |reg.alphabet|, BodyToNumerals(reg.value[n..], reg.alphabet))
  {
    var n := |reg.prefix|;
    var body := reg.value[n..];
    var ys := ff1.encrypt(reg.tweak, |reg.alphabet|, BodyToNumerals(body, reg.alphabet));
    NumeralsRoundTrip(body, ys, reg.alphabet);
    assert fake[n..] == EncryptBody(ff1, reg, body);
  }

  /** There is none exactly if the registration is not eligible or FF1 refuses its radix and length. */
  lemma NoFf1Fake(ff1: Ff1, reg: FpeRegistration)
    requires Fpe.Lawful(ff1)
    ensures ScrubValue(ff1, reg).None? <==> !Eligible(reg) || !ff1.accepts(|reg.alphabet|, |reg.value| - |reg.prefix|)
  {
  }
}
