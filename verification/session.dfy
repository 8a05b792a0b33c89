/** What the two demo components share above the engine: key pairs, the
    way an event handler ends, and the three steps both components' handlers
    are built from (fresh key material, the generator check and the
    parameter rotation). */
module Session {
  import opened JsArith
  import opened Kernel
  import opened Primality
  import opened PrimitiveRoot

  datatype KeyPair = KeyPair(privateKey: int, publicKey: int)

  /** How an event handler ends. An exception that escapes a handler leaves
      the component's state as it was, like one caught and alerted. */
  datatype Outcome =
    | Completed
    | InvalidGenerator  // alert: g must be a primitive root modulo p
    | CalculationError  // alert from the catch block of handleCalculate
    | SecretsMismatch   // alert: the two shared secrets differ
    | Uncaught          // an exception escaping the handler (BigInt parse, `% 0n`)
    | OutOfDraws        // the prime sampler had not returned when the draws ran out

  /** The key pair with private key priv over (g, p): public key g^priv mod p. */
  function DerivedKey(priv: int, g: int, p: int): (k: KeyPair)
    requires priv >= 0 && p != 0
    ensures k.privateKey == priv && Abs(k.publicKey) < Abs(p)
    ensures g >= 0 ==> 0 <= k.publicKey
  {
    JsRemProperties(Pow(g, priv), p);
    PowNonNegative(if g >= 0 then g else 0, priv);
    KeyPair(priv, ReducedPow(g, priv, p))
  }

  /** The public key of k is derived from its private key under (g, p). */
  predicate IsDerived(k: KeyPair, g: int, p: int) {
    p != 0 && k.privateKey >= 0 && k == DerivedKey(k.privateKey, g, p)
  }

  /** `generateMediumPrime()` followed by
      `calculatePublicKey(newPrivateKey, BigInt(g), BigInt(p))`. */
  method GenerateKeyPair(draws: seq<int>, g: Numeric, p: Numeric) returns (outcome: Outcome, key: KeyPair)
    requires ValidDraws(draws)
    ensures outcome == Completed || outcome == Uncaught || outcome == OutOfDraws
    ensures outcome == OutOfDraws <==> FirstPrime(draws).None?
    ensures outcome == Uncaught <==> FirstPrime(draws).Some? && !(g.Num? && p.Num? && p.value != 0)
    ensures outcome == Completed ==>
      && MinCandidate <= key.privateKey < MaxCandidate && IsPrime(key.privateKey)
      && key == DerivedKey(FirstPrime(draws).value, g.value, p.value)
  {
    key := KeyPair(0, 0);
    var priv := GenerateMediumPrime(draws);
    if priv.None? {
      return OutOfDraws, key;
    }
    if g.NotANumber? || p.NotANumber? {
      return Uncaught, key;
    }
    var pub := CalculatePublicKey(priv.value, g.value, p.value);
    if pub.RangeError? {
      return Uncaught, key;
    }
    key := KeyPair(priv.value, pub.value);
    outcome := Completed;
  }

  /** The decision of `handleGChange(newG)`: parse newG and p, then accept
      newG only if it passes the primitive-root test. */
  method CheckGenerator(newG: Numeric, p: Numeric) returns (outcome: Outcome)
    ensures outcome == Completed || outcome == InvalidGenerator || outcome == Uncaught
    ensures outcome == Completed <==>
      newG.Num? && p.Num? && PrimitiveRootVerdict(newG.value, p.value) == Ok(true)
    ensures outcome == InvalidGenerator <==>
      newG.Num? && p.Num? && PrimitiveRootVerdict(newG.value, p.value) == Ok(false)
  {
    if newG.NotANumber? || p.NotANumber? {
      return Uncaught;
    }
    var verdict := IsPrimitiveRoot(newG.value, p.value);
    outcome := match verdict
      case RangeError => Uncaught
      case Ok(true) => Completed
      case Ok(false) => InvalidGenerator;
  }

  /** The computation of `handleRotate`: parse the current p (the value is
      then ignored), draw a new prime and search its least primitive root. */
  method RotateParameters(p: Numeric, draws: seq<int>) returns (outcome: Outcome, newP: int, newG: int)
    requires ValidDraws(draws)
    ensures outcome == Completed || outcome == Uncaught || outcome == OutOfDraws
    ensures outcome == Uncaught <==> p.NotANumber?
    ensures outcome == OutOfDraws <==> p.Num? && FirstPrime(draws).None?
    ensures outcome == Completed ==>
      && newP == FirstPrime(draws).value
      && MinCandidate <= newP < MaxCandidate && IsPrime(newP)
      && IsFoundRoot(newG, newP)
  {
    newP, newG := 0, 0;
    if p.NotANumber? {
      return Uncaught, newP, newG;
    }
    var sampled := GenerateMediumPrime(draws);
    if sampled.None? {
      return OutOfDraws, newP, newG;
    }
    newP := sampled.value;
    newG := FindPrimitiveRoot(newP);
    outcome := Completed;
  }
}
