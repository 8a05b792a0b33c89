/** The X3DH component: domain parameters (p, g), a key bundle for the
    initiator (the supplier) and for the responder (the mill), and the last
    shared secret. The secret combines the four Diffie-Hellman terms of
    section 3.3 of the Signal "X3DH Key Agreement Protocol" specification by
    their product modulo p, where the protocol applies a KDF to their
    concatenation. */
module X3dhDemo {
  import opened JsArith
  import opened Kernel
  import opened Primality
  import opened PrimitiveRoot
  import opened Session

  datatype KeyBundle = KeyBundle(
    identityKey: KeyPair,
    signedPreKey: KeyPair,
    oneTimePreKeys: seq<KeyPair>,
    ephemeralKey: KeyPair)

  const InitialSupplier: KeyBundle :=
    KeyBundle(KeyPair(6, 8), KeyPair(7, 9), [KeyPair(8, 10)], KeyPair(9, 11))
  const InitialMill: KeyBundle :=
    KeyBundle(KeyPair(15, 19), KeyPair(16, 20), [KeyPair(17, 21)], KeyPair(18, 22))

  /** The secret as handleCalculate computes it, from the supplier's private
      keys and the mill's public keys:
        DH1 = DH(IK_A, SPK_B), DH2 = DH(EK_A, IK_B),
        DH3 = DH(EK_A, SPK_B), DH4 = DH(EK_A, OPK_B),
      each `pub ** priv % p`, combined as `(dh1 * dh2 * dh3 * dh4) % p`. */
  function InitiatorSecret(supplier: KeyBundle, mill: KeyBundle, p: int): (r: Eval<int>)
    requires |mill.oneTimePreKeys| >= 1
    ensures r.Ok? <==>
      p != 0 && supplier.identityKey.privateKey >= 0 && supplier.ephemeralKey.privateKey >= 0
    ensures r.Ok? ==> Abs(r.value) < Abs(p)
  {
    var dh1 := PowRem(mill.signedPreKey.publicKey, supplier.identityKey.privateKey, p);
    var dh2 := PowRem(mill.identityKey.publicKey, supplier.ephemeralKey.privateKey, p);
    var dh3 := PowRem(mill.signedPreKey.publicKey, supplier.ephemeralKey.privateKey, p);
    var dh4 := PowRem(mill.oneTimePreKeys[0].publicKey, supplier.ephemeralKey.privateKey, p);
    if dh1.RangeError? || dh2.RangeError? || dh3.RangeError? || dh4.RangeError? then RangeError
    else
      JsRemProperties(dh1.value * dh2.value * dh3.value * dh4.value, p);
      Ok(JsRem(dh1.value * dh2.value * dh3.value * dh4.value, p))
  }

  /** The same secret as the responder computes it in the protocol, from the
      mill's private keys and the supplier's public keys. The component
      never computes this side; it is the reference InitiatorSecret is
      checked against. */
  function ResponderSecret(supplier: KeyBundle, mill: KeyBundle, p: int): (r: Eval<int>)
    requires |mill.oneTimePreKeys| >= 1
    ensures r.Ok? <==>
      && p != 0 && mill.signedPreKey.privateKey >= 0 && mill.identityKey.privateKey >= 0
      && mill.oneTimePreKeys[0].privateKey >= 0
    ensures r.Ok? ==> Abs(r.value) < Abs(p)
  {
    var dh1 := PowRem(supplier.identityKey.publicKey, mill.signedPreKey.privateKey, p);
    var dh2 := PowRem(supplier.ephemeralKey.publicKey, mill.identityKey.privateKey, p);
    var dh3 := PowRem(supplier.ephemeralKey.publicKey, mill.signedPreKey.privateKey, p);
    var dh4 := PowRem(supplier.ephemeralKey.publicKey, mill.oneTimePreKeys[0].privateKey, p);
    if dh1.RangeError? || dh2.RangeError? || dh3.RangeError? || dh4.RangeError? then RangeError
    else
      JsRemProperties(dh1.value * dh2.value * dh3.value * dh4.value, p);
      Ok(JsRem(dh1.value * dh2.value * dh3.value * dh4.value, p))
  }

  /** Every key the four terms use has its public key derived under (g, p). */
  predicate WellFormed(supplier: KeyBundle, mill: KeyBundle, g: int, p: int)
    requires |mill.oneTimePreKeys| >= 1
  {
    && IsDerived(supplier.identityKey, g, p) && IsDerived(supplier.ephemeralKey, g, p)
    && IsDerived(mill.identityKey, g, p) && IsDerived(mill.signedPreKey, g, p)
    && IsDerived(mill.oneTimePreKeys[0], g, p)
  }

  /** With well-formed keys both sides arrive at the same secret. */
  lemma X3dhAgreement(supplier: KeyBundle, mill: KeyBundle, g: int, p: int)
    requires |mill.oneTimePreKeys| >= 1 && WellFormed(supplier, mill, g, p)
    ensures InitiatorSecret(supplier, mill, p).Ok?
    ensures InitiatorSecret(supplier, mill, p) == ResponderSecret(supplier, mill, p)
  {
    var ikA, ekA := supplier.identityKey.privateKey, supplier.ephemeralKey.privateKey;
    var ikB, spkB := mill.identityKey.privateKey, mill.signedPreKey.privateKey;
    var opkB := mill.oneTimePreKeys[0].privateKey;
    DhAgreement(g, ikA, spkB, p);
    DhAgreement(g, ekA, ikB, p);
    DhAgreement(g, ekA, spkB, p);
    DhAgreement(g, ekA, opkB, p);
  }

  /** The private-key text fields a user can type into. The other four
      private-key inputs (the supplier's signed pre-key and every key of the
      mill) are disabled. */
  datatype Field = SupplierIdentity | SupplierEphemeral

  class Demo {
    var p: Numeric
    var g: Numeric
    var supplier: KeyBundle
    var mill: KeyBundle
    var sharedSecret: Option<int>

    /** Every handler replaces the one-time pre-key list by a one-element
        list, so `oneTimePreKeys[0]` always exists. */
    predicate Valid()
      reads this
    {
      |supplier.oneTimePreKeys| == 1 && |mill.oneTimePreKeys| == 1
    }

    /** The initial state; its public keys are not derived from the private
        keys (see InitialKeysNotDerived). */
    constructor ()
      ensures Valid()
      ensures p == Num(10007) && g == Num(2)
      ensures supplier == InitialSupplier && mill == InitialMill
      ensures sharedSecret == None
    {
      p := Num(10007);
      g := Num(2);
      supplier := InitialSupplier;
      mill := InitialMill;
      sharedSecret := None;
    }

    /** handleCalculate gets through the four terms: both fields parse, p is
        not 0 and the supplier's identity and ephemeral private keys are not
        negative. */
    predicate CanCalculate()
      reads this
    {
      && p.Num? && g.Num? && p.value != 0
      && supplier.identityKey.privateKey >= 0 && supplier.ephemeralKey.privateKey >= 0
    }

    /** p and g parse and p is not 0, so a fresh key pair can be derived. */
    predicate CanDerive()
      reads this
    {
      p.Num? && g.Num? && p.value != 0
    }

    /** `handleCalculate`: store the initiator's secret, then replace the
        supplier's ephemeral key and the mill's one-time pre-key with fresh
        derived pairs; nothing else changes. */
    method HandleCalculate(ephemeralDraws: seq<int>, oneTimeDraws: seq<int>) returns (outcome: Outcome)
      requires Valid() && ValidDraws(ephemeralDraws) && ValidDraws(oneTimeDraws)
      modifies this
      ensures Valid()
      ensures outcome == Completed || outcome == CalculationError || outcome == OutOfDraws
      ensures outcome == CalculationError <==> !old(CanCalculate())
      ensures outcome == OutOfDraws <==>
        old(CanCalculate()) && (FirstPrime(ephemeralDraws).None? || FirstPrime(oneTimeDraws).None?)
      ensures outcome != Completed ==> unchanged(this)
      ensures p == old(p) && g == old(g)
      ensures outcome == Completed ==>
        && CanCalculate() && FirstPrime(ephemeralDraws).Some? && FirstPrime(oneTimeDraws).Some?
        && sharedSecret == Some(InitiatorSecret(old(supplier), old(mill), p.value).value)
        && supplier == old(supplier).(ephemeralKey := DerivedKey(FirstPrime(ephemeralDraws).value, g.value, p.value))
        && mill == old(mill).(oneTimePreKeys := [DerivedKey(FirstPrime(oneTimeDraws).value, g.value, p.value)])
    {
      if p.NotANumber? || g.NotANumber? {
        return CalculationError;
      }
      var pBig, gBig := p.value, g.value;
      var dh1 := PowRem(mill.signedPreKey.publicKey, supplier.identityKey.privateKey, pBig);
      var dh2 := PowRem(mill.identityKey.publicKey, supplier.ephemeralKey.privateKey, pBig);
      var dh3 := PowRem(mill.signedPreKey.publicKey, supplier.ephemeralKey.privateKey, pBig);
      var dh4 := PowRem(mill.oneTimePreKeys[0].publicKey, supplier.ephemeralKey.privateKey, pBig);
      if dh1.RangeError? || dh2.RangeError? || dh3.RangeError? || dh4.RangeError? {
        return CalculationError;
      }
      var finalSharedSecret := JsRem(dh1.value * dh2.value * dh3.value * dh4.value, pBig);
      var ephemeralOutcome, newEphemeralKey := GenerateKeyPair(ephemeralDraws, Num(gBig), Num(pBig));
      if ephemeralOutcome != Completed {
        return OutOfDraws;
      }
      var oneTimeOutcome, newOneTimePreKey := GenerateKeyPair(oneTimeDraws, Num(gBig), Num(pBig));
      if oneTimeOutcome != Completed {
        return OutOfDraws;
      }
      sharedSecret := Some(finalSharedSecret);
      supplier := supplier.(ephemeralKey := newEphemeralKey);
      mill := mill.(oneTimePreKeys := [newOneTimePreKey]);
      outcome := Completed;
    }

    /** `handleGenerateIdentityKey`: a fresh derived identity key for the
        chosen party. */
    method HandleGenerateIdentityKey(isSupplier: bool, draws: seq<int>) returns (outcome: Outcome)
      requires Valid() && ValidDraws(draws)
      modifies this
      ensures Valid()
      ensures outcome == Completed || outcome == Uncaught || outcome == OutOfDraws
      ensures outcome == OutOfDraws <==> FirstPrime(draws).None?
      ensures outcome == Uncaught <==> FirstPrime(draws).Some? && !old(CanDerive())
      ensures outcome != Completed ==> unchanged(this)
      ensures p == old(p) && g == old(g) && sharedSecret == old(sharedSecret)
      ensures outcome == Completed ==>
        && FirstPrime(draws).Some? && CanDerive()
        && var key := DerivedKey(FirstPrime(draws).value, g.value, p.value);
           if isSupplier then supplier == old(supplier).(identityKey := key) && mill == old(mill)
           else mill == old(mill).(identityKey := key) && supplier == old(supplier)
    {
      var key;
      outcome, key := GenerateKeyPair(draws, g, p);
      if outcome == Completed {
        if isSupplier {
          supplier := supplier.(identityKey := key);
        } else {
          mill := mill.(identityKey := key);
        }
      }
    }

    /** `handleGenerateSignedPreKey`: a fresh derived signed pre-key for the
        chosen party. */
    method HandleGenerateSignedPreKey(isSupplier: bool, draws: seq<int>) returns (outcome: Outcome)
      requires Valid() && ValidDraws(draws)
      modifies this
      ensures Valid()
      ensures outcome == Completed || outcome == Uncaught || outcome == OutOfDraws
      ensures outcome == OutOfDraws <==> FirstPrime(draws).None?
      ensures outcome == Uncaught <==> FirstPrime(draws).Some? && !old(CanDerive())
      ensures outcome != Completed ==> unchanged(this)
      ensures p == old(p) && g == old(g) && sharedSecret == old(sharedSecret)
      ensures outcome == Completed ==>
        && FirstPrime(draws).Some? && CanDerive()
        && var key := DerivedKey(FirstPrime(draws).value, g.value, p.value);
           if isSupplier then supplier == old(supplier).(signedPreKey := key) && mill == old(mill)
           else mill == old(mill).(signedPreKey := key) && supplier == old(supplier)
    {
      var key;
      outcome, key := GenerateKeyPair(draws, g, p);
      if outcome == Completed {
        if isSupplier {
          supplier := supplier.(signedPreKey := key);
        } else {
          mill := mill.(signedPreKey := key);
        }
      }
    }

    /** `handleGenerateEphemeralKey`: a fresh derived ephemeral key for the
        supplier. */
    method HandleGenerateEphemeralKey(draws: seq<int>) returns (outcome: Outcome)
      requires Valid() && ValidDraws(draws)
      modifies this
      ensures Valid()
      ensures outcome == Completed || outcome == Uncaught || outcome == OutOfDraws
      ensures outcome == OutOfDraws <==> FirstPrime(draws).None?
      ensures outcome == Uncaught <==> FirstPrime(draws).Some? && !old(CanDerive())
      ensures outcome != Completed ==> unchanged(this)
      ensures p == old(p) && g == old(g) && sharedSecret == old(sharedSecret) && mill == old(mill)
      ensures outcome == Completed ==>
        && FirstPrime(draws).Some? && CanDerive()
        && supplier == old(supplier).(ephemeralKey := DerivedKey(FirstPrime(draws).value, g.value, p.value))
    {
      var key;
      outcome, key := GenerateKeyPair(draws, g, p);
      if outcome == Completed {
        supplier := supplier.(ephemeralKey := key);
      }
    }

    /** `handleGenerateOneTimePreKey`: the mill's one-time pre-keys become a
        single fresh derived pair. */
    method HandleGenerateOneTimePreKey(draws: seq<int>) returns (outcome: Outcome)
      requires Valid() && ValidDraws(draws)
      modifies this
      ensures Valid()
      ensures outcome == Completed || outcome == Uncaught || outcome == OutOfDraws
      ensures outcome == OutOfDraws <==> FirstPrime(draws).None?
      ensures outcome == Uncaught <==> FirstPrime(draws).Some? && !old(CanDerive())
      ensures outcome != Completed ==> unchanged(this)
      ensures p == old(p) && g == old(g) && sharedSecret == old(sharedSecret)
      ensures supplier == old(supplier)
      ensures outcome == Completed ==>
        && FirstPrime(draws).Some? && CanDerive()
        && mill == old(mill).(oneTimePreKeys := [DerivedKey(FirstPrime(draws).value, g.value, p.value)])
    {
      var key;
      outcome, key := GenerateKeyPair(draws, g, p);
      if outcome == Completed {
        mill := mill.(oneTimePreKeys := [key]);
      }
    }

    /** `handleGChange(newG)`: g takes the typed value only when it is a
        primitive root modulo the current p. */
    method HandleGChange(newG: Numeric) returns (outcome: Outcome)
      requires Valid()
      modifies this
      ensures Valid()
      ensures outcome == Completed || outcome == InvalidGenerator || outcome == Uncaught
      ensures outcome == Completed <==>
        newG.Num? && p.Num? && PrimitiveRootVerdict(newG.value, p.value) == Ok(true)
      ensures outcome == InvalidGenerator <==>
        newG.Num? && p.Num? && PrimitiveRootVerdict(newG.value, p.value) == Ok(false)
      ensures g == (if outcome == Completed then newG else old(g))
      ensures p == old(p) && supplier == old(supplier) && mill == old(mill)
      ensures sharedSecret == old(sharedSecret)
    {
      outcome := CheckGenerator(newG, p);
      if outcome == Completed {
        g := newG;
      }
    }

    /** `handleRotate`: a fresh prime modulus and its least primitive root;
        the key bundles are not re-derived. */
    method HandleRotate(draws: seq<int>) returns (outcome: Outcome)
      requires Valid() && ValidDraws(draws)
      modifies this
      ensures Valid()
      ensures outcome == Completed || outcome == Uncaught || outcome == OutOfDraws
      ensures outcome == Uncaught <==> old(p).NotANumber?
      ensures outcome == OutOfDraws <==> old(p).Num? && FirstPrime(draws).None?
      ensures outcome != Completed ==> unchanged(this)
      ensures outcome == Completed ==>
        && p == Num(FirstPrime(draws).value) && g.Num?
        && MinCandidate <= p.value < MaxCandidate && IsPrime(p.value)
        && IsFoundRoot(g.value, p.value)
      ensures supplier == old(supplier) && mill == old(mill) && sharedSecret == old(sharedSecret)
    {
      var newP, newG;
      outcome, newP, newG := RotateParameters(p, draws);
      if outcome == Completed {
        p := Num(newP);
        g := Num(newG);
      }
    }

    /** Typing into a private-key field: the text is parsed and stored in
        that one supplier slot; the public key beside it is not recomputed
        and the mill's bundle is untouched. */
    method EditPrivateKey(field: Field, text: Numeric) returns (outcome: Outcome)
      requires Valid()
      modifies this
      ensures Valid()
      ensures outcome == (if text.Num? then Completed else Uncaught)
      ensures text.NotANumber? ==> unchanged(this)
      ensures p == old(p) && g == old(g) && sharedSecret == old(sharedSecret)
      ensures mill == old(mill)
      ensures text.Num? ==>
        match field
        case SupplierIdentity =>
          supplier == old(supplier).(identityKey := old(supplier.identityKey).(privateKey := text.value))
        case SupplierEphemeral =>
          supplier == old(supplier).(ephemeralKey := old(supplier.ephemeralKey).(privateKey := text.value))
    {
      if text.NotANumber? {
        return Uncaught;
      }
      var v := text.value;
      match field {
      case SupplierIdentity =>
        supplier := supplier.(identityKey := supplier.identityKey.(privateKey := v));
      case SupplierEphemeral =>
        supplier := supplier.(ephemeralKey := supplier.ephemeralKey.(privateKey := v));
      }
      outcome := Completed;
    }

    /** Typing into the p field stores the text as it is. */
    method EditModulus(text: Numeric)
      requires Valid()
      modifies this
      ensures Valid()
      ensures p == text
      ensures g == old(g) && supplier == old(supplier) && mill == old(mill)
      ensures sharedSecret == old(sharedSecret)
    {
      p := text;
    }
  }

  /** The initial public keys are placeholders: 2^6 mod 10007 is 64, not the
      supplier's identity public key 8. */
  lemma InitialKeysNotDerived()
    ensures ReducedPow(2, 6, 10007) == 64
    ensures !IsDerived(InitialSupplier.identityKey, 2, 10007)
  {
    SmallPowersOfTwo();
  }

  /** After a completed handleCalculate, the mill's fresh one-time pre-key
      and the supplier's fresh ephemeral key are derived, so once the other
      keys are derived too the two sides agree on the next secret. */
  lemma FreshKeysWellFormed(supplier: KeyBundle, mill: KeyBundle, g: int, p: int, ek: nat, opk: nat)
    requires p != 0
    requires IsDerived(supplier.identityKey, g, p)
    requires IsDerived(mill.identityKey, g, p) && IsDerived(mill.signedPreKey, g, p)
    ensures
      var supplier' := supplier.(ephemeralKey := DerivedKey(ek, g, p));
      var mill' := mill.(oneTimePreKeys := [DerivedKey(opk, g, p)]);
      && WellFormed(supplier', mill', g, p)
      && InitiatorSecret(supplier', mill', p) == ResponderSecret(supplier', mill', p)
  {
    var supplier' := supplier.(ephemeralKey := DerivedKey(ek, g, p));
    var mill' := mill.(oneTimePreKeys := [DerivedKey(opk, g, p)]);
    X3dhAgreement(supplier', mill', g, p);
  }
}
