/** The basic Diffie-Hellman component: domain parameters (p, g) as typed
    into two text fields, a key pair for each of the two parties (the
    supplier and the mill) and the last shared secret, with the event
    handlers that update them. */
module DhDemo {
  import opened JsArith
  import opened Kernel
  import opened Primality
  import opened PrimitiveRoot
  import opened Session

  class Demo {
    var p: Numeric
    var g: Numeric
    var supplier: KeyPair
    var mill: KeyPair
    var sharedSecret: Option<int>

    /** The initial state. Its public keys are not derived from the private
        keys (see InitialKeysNotDerived). */
    constructor ()
      ensures p == Num(13) && g == Num(2)
      ensures supplier == KeyPair(6, 8) && mill == KeyPair(15, 19)
      ensures sharedSecret == None
    {
      p := Num(13);
      g := Num(2);
      supplier := KeyPair(6, 8);
      mill := KeyPair(15, 19);
      sharedSecret := None;
    }

    /** handleCalculate gets through its try block: both fields parse, p is
        not 0 and neither private key is negative. */
    predicate CanCalculate()
      reads this
    {
      p.Num? && g.Num? && p.value != 0 && supplier.privateKey >= 0 && mill.privateKey >= 0
    }

    /** `handleCalculate`: derive both public keys, both shared secrets, and
        store the supplier's. The secrets always agree, so the mismatch
        alert is never raised. */
    method HandleCalculate() returns (outcome: Outcome)
      modifies this
      ensures outcome == Completed || outcome == CalculationError
      ensures outcome == Completed <==> old(CanCalculate())
      ensures outcome == CalculationError ==> unchanged(this)
      ensures p == old(p) && g == old(g)
      ensures supplier.privateKey == old(supplier.privateKey)
      ensures mill.privateKey == old(mill.privateKey)
      ensures outcome == Completed ==>
        && IsDerived(supplier, g.value, p.value)
        && IsDerived(mill, g.value, p.value)
        && sharedSecret == Some(ReducedPow(mill.publicKey, supplier.privateKey, p.value))
        && sharedSecret == Some(ReducedPow(supplier.publicKey, mill.privateKey, p.value))
    {
      if p.NotANumber? || g.NotANumber? {
        return CalculationError;
      }
      var pBig, gBig := p.value, g.value;
      var supplierPublicKey := PowRem(gBig, supplier.privateKey, pBig);
      var millPublicKey := PowRem(gBig, mill.privateKey, pBig);
      if supplierPublicKey.RangeError? || millPublicKey.RangeError? {
        return CalculationError;
      }
      // Same exponents and modulus as above: these cannot throw.
      var supplierSharedSecret := PowRem(millPublicKey.value, supplier.privateKey, pBig);
      var millSharedSecret := PowRem(supplierPublicKey.value, mill.privateKey, pBig);
      supplier := supplier.(publicKey := supplierPublicKey.value);
      mill := mill.(publicKey := millPublicKey.value);
      sharedSecret := Some(supplierSharedSecret.value);
      DhAgreement(gBig, supplier.privateKey, mill.privateKey, pBig);
      outcome := if supplierSharedSecret == millSharedSecret then Completed else SecretsMismatch;
    }

    /** `handleGeneratePrivateKey`: a fresh prime private key for the chosen
        party; its public key is left as it was. */
    method HandleGeneratePrivateKey(isSupplier: bool, draws: seq<int>) returns (outcome: Outcome)
      requires ValidDraws(draws)
      modifies this
      ensures outcome == Completed || outcome == OutOfDraws
      ensures outcome == OutOfDraws <==> FirstPrime(draws).None?
      ensures outcome == OutOfDraws ==> unchanged(this)
      ensures p == old(p) && g == old(g) && sharedSecret == old(sharedSecret)
      ensures outcome == Completed ==>
        && IsPrime(FirstPrime(draws).value)
        && (if isSupplier
            then supplier == old(supplier).(privateKey := FirstPrime(draws).value) && mill == old(mill)
            else mill == old(mill).(privateKey := FirstPrime(draws).value) && supplier == old(supplier))
    {
      var newPrivateKey := GenerateMediumPrime(draws);
      if newPrivateKey.None? {
        return OutOfDraws;
      }
      if isSupplier {
        supplier := supplier.(privateKey := newPrivateKey.value);
      } else {
        mill := mill.(privateKey := newPrivateKey.value);
      }
      outcome := Completed;
    }

    /** `handleGChange(newG)`: g takes the typed value only when it is a
        primitive root modulo the current p. */
    method HandleGChange(newG: Numeric) returns (outcome: Outcome)
      modifies this
      ensures outcome == Completed || outcome == InvalidGenerator || outcome == Uncaught
      ensures outcome == Completed <==>
        newG.Num? && p.Num? && PrimitiveRootVerdict(newG.value, p.value) == Ok(true)
      ensures outcome == InvalidGenerator <==>
        newG.Num? && p.Num? && PrimitiveRootVerdict(newG.value, p.value) == Ok(false)
      ensures g == (if outcome == Completed then newG else old(g))
      ensures p == old(p) && supplier == old(supplier) && mill == old(mill)
      ensures sharedSecret == old(sharedSecret)
    {
      outcome := CheckGenerator(newG, p);
      if outcome == Completed {
        g := newG;
      }
    }

    /** `handleRotate`: a fresh prime modulus and its least primitive root. */
    method HandleRotate(draws: seq<int>) returns (outcome: Outcome)
      requires ValidDraws(draws)
      modifies this
      ensures outcome == Completed || outcome == Uncaught || outcome == OutOfDraws
      ensures outcome == Uncaught <==> old(p).NotANumber?
      ensures outcome == OutOfDraws <==> old(p).Num? && FirstPrime(draws).None?
      ensures outcome != Completed ==> unchanged(this)
      ensures outcome == Completed ==>
        && p == Num(FirstPrime(draws).value) && g.Num?
        && MinCandidate <= p.value < MaxCandidate && IsPrime(p.value)
        && IsFoundRoot(g.value, p.value)
      ensures supplier == old(supplier) && mill == old(mill) && sharedSecret == old(sharedSecret)
    {
      var newP, newG;
      outcome, newP, newG := RotateParameters(p, draws);
      if outcome == Completed {
        p := Num(newP);
        g := Num(newG);
      }
    }

    /** Typing into a private-key field: the text is parsed and stored; the
        public key beside it is not recomputed. */
    method EditPrivateKey(isSupplier: bool, text: Numeric) returns (outcome: Outcome)
      modifies this
      ensures outcome == (if text.Num? then Completed else Uncaught)
      ensures p == old(p) && g == old(g) && sharedSecret == old(sharedSecret)
      ensures supplier ==
        if isSupplier && text.Num? then old(supplier).(privateKey := text.value) else old(supplier)
      ensures mill ==
        if !isSupplier && text.Num? then old(mill).(privateKey := text.value) else old(mill)
    {
      if text.NotANumber? {
        return Uncaught;
      }
      if isSupplier {
        supplier := supplier.(privateKey := text.value);
      } else {
        mill := mill.(privateKey := text.value);
      }
      outcome := Completed;
    }

    /** Typing into the p field stores the text as it is: p need not be
        prime and g is not checked against it again. */
    method EditModulus(text: Numeric)
      modifies this
      ensures p == text
      ensures g == old(g) && supplier == old(supplier) && mill == old(mill)
      ensures sharedSecret == old(sharedSecret)
    {
      p := text;
    }
  }

  /** The initial public keys 8 and 19 are not 2^6 mod 13 = 12 and
      2^15 mod 13 = 8. */
  lemma InitialKeysNotDerived()
    ensures ReducedPow(2, 6, 13) == 12 && ReducedPow(2, 15, 13) == 8
    ensures !IsDerived(KeyPair(6, 8), 2, 13) && !IsDerived(KeyPair(15, 19), 2, 13)
  {
    SmallPowersOfTwo();
    PowAdd(2, 12, 3);
    assert Pow(2, 3) == 8;
    assert Pow(2, 15) == 32768;
  }
}
