# Diffie-Hellman and X3DH key-exchange demo — Dafny model

The application is a teaching page with two interactive components. Both let
two parties, a *supplier* and a *mill*, agree on a shared secret over small
integer parameters.

- `Demo.tsx` runs basic Diffie-Hellman. Each party has one key pair.
- `X3DHDemo.tsx` runs the Extended Triple Diffie-Hellman handshake. Each
  party has a bundle of identity, signed pre-, one-time pre- and ephemeral
  keys.

Underneath both is one number-theory engine:

- square-and-multiply modular exponentiation;
- the Euclidean gcd;
- factorisation by trial division;
- the primitive-root test and the search for the least primitive root;
- a sampler that draws random five-digit primes.

On top of the engine, each component keeps its state (p, g, the keys and the
last shared secret) and updates it from event handlers.

The model has seven modules.

- `JsArith` gives JavaScript BigInt arithmetic exactly:
  - `%` truncates toward zero;
  - `**` with a negative exponent and `% 0n` throw a RangeError (`Eval`);
  - a text field is parsed by `BigInt(text)` into a number or an error
    (`Numeric`).
- `Kernel` has gcd, `modPow`, `calculatePublicKey` and `b ** e % m`.
- `Primality` has trial division and the prime sampler.
- `PrimitiveRoot` has `getPrimeFactors`, `isPrimitiveRoot` and
  `findPrimitiveRoot`.
- `Session` has the steps the handlers of both components share.
- `DhDemo` and `X3dhDemo` each hold the component's state as a class. Each
  handler is a method.

Randomness comes from an oracle. A sequence of draws in [0, 89999) stands for
the values of `Math.floor(Math.random() * range)`. A handler whose retry loop
has not found a prime when the draws run out ends with `OutOfDraws` and
changes nothing. Alerts and exceptions become `Outcome` values. Every
outcome except `Completed` leaves the state as it was.

The model follows what the code does where the page's own text or the
protocol suggests more:

- **One-time pre-key.** The tutorial presents the fourth term
  DH(EK_A, OPK_B) as optional, computed only if the mill has published
  one-time pre-keys (`Tutorial.tsx:37`). The code always reads
  `oneTimePreKeys[0]`, and every handler keeps exactly one one-time pre-key.
  The model makes this an invariant (`X3dhDemo.Demo.Valid`).
- **p and g.** The p field is labelled "Prime Number" and the g field says
  "g must be a primitive root modulo p" (`X3DHDemo.tsx:469`, `495`). Only a
  change of g is checked against p. Any text typed into the p field is
  stored as it is: its primality is not checked, and g is not checked
  against it again (`EditModulus`).
- **Both sides of the secret.** The basic component computes both parties'
  secrets and alerts if they differ. That alert can never fire
  (`DhDemo.Demo.HandleCalculate`, `Kernel.DhAgreement`). The X3DH component
  computes only the initiator's side. The responder's side, as section 3.3
  of the Signal "X3DH Key Agreement Protocol" specification defines it, is
  modelled as a reference. It is proved equal to the initiator's side for
  derived keys (`X3dhDemo.X3dhAgreement`).
- **Derived public keys.** "public key = g^priv mod p" is not a state
  invariant.
  - The initial public keys are not derived from the private keys.
  - Only some handlers derive the keys they write: the basic component's
    handleCalculate, and the X3DH component's generate and calculate
    handlers.
  - handleRotate re-derives no key in either component. The basic
    component's handleGeneratePrivateKey changes a private key but keeps its
    old public key. Typing a private key does not refresh its public key
    either. Each of these leaves public keys stale.

The engine appears twice in the source: the engine functions in `Demo.tsx:25-174` repeat those of
`X3DHDemo.tsx:52-201` as the same algorithm. It is modelled once, and the
table cites the X3DH copy.

## Model

| member | source | states |
|---|---|---|
| JsArith.JsRemProperties | src/components/X3DHDemo.tsx:126-132 | BigInt `x % m` is congruent to x modulo m, smaller than m in magnitude, and takes the sign of x |
| JsArith.JsRemPowOfJsRem | src/components/X3DHDemo.tsx:126 | reducing the base first (`base = base % mod`) does not change the reduced power |
| Kernel.GcdDivides | src/components/X3DHDemo.tsx:117-122 | the value the gcd loop returns divides both arguments |
| Kernel.GcdGreatest | src/components/X3DHDemo.tsx:117-122 | every common divisor of the arguments divides the returned value, so its magnitude is the greatest common divisor |
| Kernel.GcdNonNegative | src/components/X3DHDemo.tsx:117-122 | for non-negative arguments the result is non-negative, so `gcd(g, p) !== 1n` tests coprimality exactly |
| Kernel.Bezout | src/components/X3DHDemo.tsx:117-122 | for non-negative arguments the result is an integer combination of them |
| Kernel.Gcd | src/components/X3DHDemo.tsx:117-122 | the swap loop terminates and returns a common divisor that every common divisor divides, non-negative for non-negative arguments |
| Kernel.PowRem | src/components/X3DHDemo.tsx:48-50 | `pub ** priv % p` throws exactly when priv < 0 or p = 0; otherwise it is congruent to pub^priv, smaller than p in magnitude and of the same sign |
| Kernel.PowRemInRange | src/components/Demo.tsx:17-23 | for g, pub >= 0, priv >= 0 and p > 1, both one-line derivations return the ordinary remainder, in [0, p) |
| Kernel.ModPowStep | src/components/X3DHDemo.tsx:127-133 | one iteration keeps the reduced value of result * base^exp, the loop invariant of square-and-multiply |
| Kernel.ModPow | src/components/X3DHDemo.tsx:124-135 | `modPow` throws exactly when mod = 0; it returns 1 when exp <= 0, and otherwise the truncated remainder of base^exp |
| Kernel.CalculatePublicKey | src/components/X3DHDemo.tsx:32-46 | the X3DH key derivation is modPow with the arguments reordered; for p != 0 and a positive private key it is g^priv reduced mod p |
| Kernel.ModPowInRange | src/components/X3DHDemo.tsx:124-135 | for base >= 0, exp >= 0 and mod > 1 the result is base^exp % mod, in [0, mod) |
| Kernel.ModPowAgreesWithPowRem | src/components/X3DHDemo.tsx:48-50 | `pub ** priv % p` and `modPow(pub, priv, p)` agree for priv >= 0, except at exponent 0 with a modulus of magnitude 1 |
| Kernel.ModPowZeroExponentQuirk | src/components/X3DHDemo.tsx:124-135 | that exception is real: `modPow(b, 0n, 1n)` is 1 while `b ** 0n % 1n` is 0 |
| Kernel.ReducedPowCompose | src/components/Demo.tsx:203-204 | (g^b mod p)^a mod p equals g^(b*a) mod p |
| Kernel.DhAgreement | src/components/Demo.tsx:199-214 | the two independently computed shared secrets (g^b mod p)^a mod p and (g^a mod p)^b mod p are equal for every g, p != 0 and a, b >= 0 |
| Primality.PrimeBySquareRoot | src/components/X3DHDemo.tsx:190-196 | a candidate with no divisor i where 2 <= i and i*i <= candidate is prime |
| Primality.EuclidLemma | src/components/X3DHDemo.tsx:137-157 | a prime dividing a product of positive numbers divides one of the factors (used to show no prime factor is lost) |
| Primality.TrialDivision | src/components/X3DHDemo.tsx:188-196 | the flag is true iff no i with 2 <= i and i*i <= candidate divides the candidate, which for candidates >= 2 is primality |
| Primality.FirstPrime | src/components/X3DHDemo.tsx:178-201 | the sampler's answer on a sequence of draws: a prime in [10000, 99999), or none exactly when no draw gives a prime |
| Primality.GenerateMediumPrime | src/components/X3DHDemo.tsx:178-201 | the retry loop returns the first prime candidate `10000 + offset`, which is prime and in [10000, 99999); `rotateP` (lines 52-75) is the same loop and ignores its argument |
| PrimitiveRoot.Leftover | src/components/X3DHDemo.tsx:149-152 | once d*d exceeds the remaining n > 1 and no smaller divisor is left, n is a prime factor to emit |
| PrimitiveRoot.GetPrimeFactors | src/components/X3DHDemo.tsx:137-157 | for n >= 1 the result holds exactly the distinct primes dividing n, strictly increasing, and is empty for n <= 1 |
| PrimitiveRoot.IsPrimitiveRoot | src/components/X3DHDemo.tsx:91-115 | the result is false if gcd(g, p) != 1, else false if g^(p-1) mod p != 1, else true iff g^((p-1)/f) mod p != 1 for every prime f dividing p-1; it throws only for g = 1, p = 0 |
| PrimitiveRoot.FindPrimitiveRoot | src/components/X3DHDemo.tsx:77-89 | the result is the least g in [2, p) that passes the test, or 2 when none does |
| PrimitiveRoot.DefaultGeneratorAccepted | src/components/Demo.tsx:11-12 | the default parameters pass: 2 is accepted as a primitive root modulo 13 |
| PrimitiveRoot.FourRejectedModThirteen | src/components/Demo.tsx:64-88 | 4 is rejected modulo 13 because 4^6 mod 13 = 1 |
| Session.DerivedKey | src/components/X3DHDemo.tsx:205-206 | a key pair derived from a non-negative private key has a public key smaller than p in magnitude, and non-negative for g >= 0 |
| Session.GenerateKeyPair | src/components/X3DHDemo.tsx:205-206 | a fresh prime private key in [10000, 99999) with the public key g^priv mod p; throws when p or g does not parse or p = 0; does not return when no draw is prime |
| Session.CheckGenerator | src/components/X3DHDemo.tsx:167-176 | newG is accepted iff both texts parse and it passes the primitive-root test, rejected iff the test says false; otherwise the handler throws |
| Session.RotateParameters | src/components/X3DHDemo.tsx:159-165 | throws iff p does not parse; otherwise the new p is the first prime drawn and the new g is its least primitive root (or 2) |
| DhDemo.Demo.constructor | src/components/Demo.tsx:11-15 | the initial state: p = 13, g = 2, supplier (6, 8), mill (15, 19), no secret |
| DhDemo.Demo.HandleCalculate | src/components/Demo.tsx:193-218 | completes iff p and g parse, p != 0 and both private keys are non-negative; then both public keys become g^priv mod p, private keys stay, and the secret is the supplier's value, equal to the mill's; the mismatch alert is unreachable; on error nothing changes |
| DhDemo.Demo.HandleGeneratePrivateKey | src/components/Demo.tsx:176-191 | only the chosen party's private key changes, to the sampled prime; its public key, the other party, p, g and the secret stay |
| DhDemo.Demo.HandleGChange | src/components/Demo.tsx:140-149 | g becomes the typed value iff it passes the primitive-root test against p; nothing else changes |
| DhDemo.Demo.HandleRotate | src/components/Demo.tsx:132-138 | p becomes a prime in [10000, 99999) and g its least primitive root; keys and secret stay |
| DhDemo.Demo.EditPrivateKey | src/components/Demo.tsx:241 | a parsed value replaces only that private key; the public key is not recomputed; unparsable text changes nothing |
| DhDemo.Demo.EditModulus | src/components/Demo.tsx:276 | the p field takes any text; g and the keys are not rechecked |
| DhDemo.InitialKeysNotDerived | src/components/Demo.tsx:13-14 | the initial public keys 8 and 19 are not 2^6 mod 13 = 12 and 2^15 mod 13 = 8 |
| X3dhDemo.InitiatorSecret | src/components/X3DHDemo.tsx:284-314 | the four terms DH(IK_A, SPK_B), DH(EK_A, IK_B), DH(EK_A, SPK_B), DH(EK_A, OPK_B) multiplied mod p; throws iff p = 0 or the supplier's identity or ephemeral private key is negative; the result is smaller than p in magnitude |
| X3dhDemo.ResponderSecret | src/components/X3DHDemo.tsx:284-314 | the mill's side of the same four terms (not computed by the component), with its own error condition and range |
| X3dhDemo.X3dhAgreement | src/components/X3DHDemo.tsx:284-314 | when every key the terms use is derived under (g, p), the supplier's secret is defined and equals the mill's |
| X3dhDemo.FreshKeysWellFormed | src/components/X3DHDemo.tsx:317-337 | the ephemeral and one-time pre-keys that handleCalculate installs are derived, so with derived long-term keys the next secret agrees on both sides |
| X3dhDemo.Demo.constructor | src/components/X3DHDemo.tsx:16-30 | the initial state: p = 10007, g = 2, the two fixed bundles each with one one-time pre-key, no secret |
| X3dhDemo.Demo.HandleCalculate | src/components/X3DHDemo.tsx:279-341 | errors iff p or g does not parse, p = 0, or a used supplier private key is negative; otherwise it stores the initiator's secret and replaces only the supplier's ephemeral key and the mill's one-time pre-keys, by one fresh derived pair each; identity and signed pre-keys stay |
| X3dhDemo.Demo.HandleGenerateIdentityKey | src/components/X3DHDemo.tsx:203-225 | only the chosen party's identity key changes, to a fresh derived pair; throws (no change) when p or g does not parse or p = 0 |
| X3dhDemo.Demo.HandleGenerateSignedPreKey | src/components/X3DHDemo.tsx:227-249 | only the chosen party's signed pre-key changes, to a fresh derived pair |
| X3dhDemo.Demo.HandleGenerateEphemeralKey | src/components/X3DHDemo.tsx:251-263 | only the supplier's ephemeral key changes, to a fresh derived pair |
| X3dhDemo.Demo.HandleGenerateOneTimePreKey | src/components/X3DHDemo.tsx:265-277 | the mill's one-time pre-keys become exactly one fresh derived pair; nothing else changes |
| X3dhDemo.Demo.HandleGChange | src/components/X3DHDemo.tsx:167-176 | g becomes the typed value iff it passes the primitive-root test against p; p and both bundles stay |
| X3dhDemo.Demo.HandleRotate | src/components/X3DHDemo.tsx:159-165 | p becomes a prime in [10000, 99999) and g its least primitive root; the bundles are not re-derived |
| X3dhDemo.Demo.EditPrivateKey | src/components/X3DHDemo.tsx:365-368 | a parsed value replaces the supplier's identity or ephemeral private key, the two editable fields (the other private-key inputs are disabled); its public key is not recomputed and the mill's bundle is untouched |
| X3dhDemo.Demo.EditModulus | src/components/X3DHDemo.tsx:475 | the p field takes any text; g and the bundles are not rechecked |
| X3dhDemo.InitialKeysNotDerived | src/components/X3DHDemo.tsx:19-28 | 2^6 mod 10007 is 64, so the supplier's initial identity public key 8 is not derived |

## Left out

- Rendering is not modelled: JSX, MathJax and the display-only
  recomputations of the four terms (`X3DHDemo.tsx:508-513`).
- `alert` calls are not modelled as dialogs. Each one becomes an `Outcome`
  value.
- `Math.random` is replaced by the draws oracle. How likely a run is to find
  a prime within some number of draws is not modelled.
- A retry loop that never returns is modelled as `OutOfDraws`, with no state
  change. In the browser the page hangs.
- The X3DH `handleCalculate` calls `setSharedSecret` before it samples the
  two fresh keys. React commits the batched updates only when the handler
  returns, so the model applies them together at the end.
- The engine's BigInt size limit is not modelled. V8 throws a RangeError
  once a result exceeds about 2^30 bits, and `pub ** priv` can exceed that
  when large values are typed into the fields. The model's integers are
  unbounded.
- The float bound `Math.floor(Math.sqrt(candidate))` is modelled exactly as
  `i * i <= candidate`. That is exact for five-digit candidates.
- Text fields are abstracted to the number `BigInt` parses from them, or a
  parse error. `handleGChange` stores the typed text itself, so two texts
  for the same number (for example with surrounding spaces) are one value in
  the model.
- An exception that escapes a handler ends the model with `Uncaught` and no
  change. React's own error handling after that is not modelled. These are
  the exceptions:
  - `BigInt` of an unparsable g or p in `handleGChange`, in `handleRotate`
    and in the X3DH generate handlers;
  - `g % p` with p = 0 in the X3DH `calculatePublicKey`
    (`X3DHDemo.tsx:35`), reached from the generate handlers
    (`X3DHDemo.tsx:206`, `230`, `254`, `268`);
  - `base % mod` with g = 1 and p = 0 in `isPrimitiveRoot`
    (`X3DHDemo.tsx:126`), reached from `handleGChange`.
- Some bad input throws during render rather than in a handler. `App.tsx`
  has no error boundary, so the page ends at its next render, whichever of
  the two components is showing. There are two cases:
  - Unparsable text in a private-key field. `BigInt` runs inside the state
    updater (`Demo.tsx:241`, `X3DHDemo.tsx:367`), so it throws at the next
    render. The model's `EditPrivateKey` returns `Uncaught` and changes
    nothing.
  - The X3DH formula display (`X3DHDemo.tsx:508-513`). It throws during
    render for a non-numeric p, for p = 0, or for a negative supplier
    identity or ephemeral private key. This is not modelled:
    `X3dhDemo.Demo.EditModulus` and `X3dhDemo.Demo.EditPrivateKey` complete
    on such input, and later handlers run from that state, which the program
    cannot do. For example, from p = 0 the model's `HandleCalculate` returns
    `CalculationError` and `HandleRotate` completes.
  - As a result, on the live page every input that reaches the catch block
    of the X3DH `handleCalculate` (`X3DHDemo.tsx:339-341`) has already
    ended the page, so the catch is unreachable there. g cannot be
    unparsable, because `handleGChange` stores it only after parsing it. The
    model keeps the catch as the `CalculationError` outcome.
- PrimitiveRoot.IsPrimitiveRoot: the model proves the test it performs, not
  what the test means. It does not prove that a passing g has
  multiplicative order p-1.
- PrimitiveRoot.FindPrimitiveRoot: the model does not prove that a prime
  always has a primitive root. So the round trip "for every prime p,
  `isPrimitiveRoot(findPrimitiveRoot(p), p)` holds" is not proved, and
  neither is the fact that the fallback 2 is unreachable for prime p.
- The X3DH combiner is modelled as the code writes it, a product mod p. The
  protocol's KDF over the concatenated terms is not modelled.
- The X3DH key bundle has no path where the one-time pre-key is omitted.
  The code has none either.
- The engine copy in `Demo.tsx:25-174` is modelled once, through the
  `X3DHDemo.tsx` copy.
- Everything outside the two components is not part of this model: the
  tutorial, the security page, routing and the shared display components.
