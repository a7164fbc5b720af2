# Dafny models of the UBL messenger, policy, quota, token and canonicalization code

Each module restates one part of the system and proves what that part is for. Code that computes a
value is a function, code that works by changing things is a method or a class proved against a
function, and the theorems quantify over every input, every run or every interleaving. Section
numbers refer to RFC 8032 where they are given.

## What is modelled

**Ed25519 in the messenger client.** `ModularArithmetic`, `PrimeField`, `EdwardsCurve`,
`EdwardsGroup`, `ExtendedPoints`, `LittleEndian` and `Ed25519` work over any odd prime field in which
-1 is a square and d is not. From these hypotheses alone they derive Fermat's little theorem, the
completeness of the addition law, the whole group law with associativity, the projective formulas,
double-and-add, the encoding and finally that every signature verifies. The hash is an arbitrary
function to byte strings. `Ed25519Constants` applies this to the literals in the source and finds that
the source's base point is not on the curve: its x coordinate is not the one of the standard. Signing
is therefore described for any constants, and verification for a base point on the curve: it holds for
the standard one, and `SoundSettingExists` shows that its demands can be met. Being on the curve is also
necessary: with the source's own point a signature with nonce 2 verifies under no key.

**Signing strings.** `KeyOrder`, `Json` and `JsonText` model JSON values with ordered entries, sorting
of keys by code points and by UTF-16 code units, and the compact text. `JsonReader` is a parser of such
texts written from the grammar alone, which reads every printed value back. `LinkSigning` proves exactly
which values, and which links, share a signing string, and what a reader finds in it.

**The atomic canonicalizer.** `AtomicCanonical` is the Rust code over serde_json's map with and
without preserved insertion order. The crate's manifest enables no feature of serde_json, whose default
map sorts its keys: the canonical form is then deterministic and lossless but not in the fixed order that the
code's comment and its test state. Both readings are proved, and exactly when they agree.
`AtomicScript` is the TypeScript code, whose output object enumerates integer-like keys first and
swallows `__proto__`. For each of the two maps the values on which the versions agree are described
exactly; with the default map they differ on every Atomic. `AtomicText` reads an Atomic back from its
canonical bytes.

**The policy engine and proxy.** `PolicyEngine` and `PolicyDecision` model wires, trace and first-match
outputs, `ShippedPolicies` two of the YAML policies, and `PolicyProxy` the handlers as interleaved
steps over separately locked cells. `ProxyLocks` says over which runs the maximum time, compared and
written under different locks, keeps its meaning, and `BreakGlass` when the reason for break-glass
outlives it.

**The quota durable object.** `Quota` keeps storage apart from the copy a call works on. Quantities are
any integers and the clock does not go back in the results over runs; a meter needs both rate and burst,
without which it accepts no positive quantity.

**Refresh-token rotation.** `TokenTables` has the auth-worker's endpoints as transitions of its tables.
`TokenRotation` interleaves the single statements of logins, refreshes, revocations and validations,
and `RotationRuns` has what such runs can and cannot reach.

**Background jobs.** `Jobs` has the adapter's operations, events and the subscriber's reducer as
functions, `JobsAdapter` the mutable objects.

**ULIDs.** `Ulid` has the base-32 encoding of timestamps.

## What turned out not to hold

- The base point literal of the messenger client is off the curve (`SourceBasePointOffCurve`), and a
  signature it gives with nonce 2 verifies under no key (`SourceSignatureFails`). With any base
  point off the curve there are such signatures, with one on it there are none (`AlwaysVerifiesIff`). Only the abscissa of
  the standard and its negation fit the ordinate (`BasePointOnCurveIff`); with the former every
  signature verifies (`StandardSettingIsSound`).
- Version 3 of the core policy denies every request (`CoreV3DeniesEverything`), and version 1 ignores
  panic mode (`CoreV1IgnoresPanicMode`).
- The fixed key order of the Rust canonicalizer is lost in a sorting map (`FixedOrderLost`,
  `AtomicOrders`), exactly on the values of `FixedOrderKeptIff`. The TypeScript version drops
  `__proto__` (`ScriptLosslessIff`); it agrees with the Rust one exactly on the values of
  `VersionsAgreeIff`, and with the default map on no Atomic (`VersionsDifferOnAtomics`).
- A token can validate twice and leave two tokens behind (`ValidatesTwice`); it cannot exactly if no two
  requests mark its row after both selected it (`ValidatesAtMostOnceIff`). A lineage holds more than one
  token or refresh exactly if a token no longer stored unused is marked while it holds one
  (`OneHeldIff`).
- A refresh or login in flight outlives the revocation of its session (`FlightRevives`), and nothing else
  does but the session id that access tokens share (`RevivedIff`).
- The mint reads every successful answer to its revocation query as a revocation, so it issues nothing
  while the auth-worker answers (`NothingIssuedWhenAnswered`).
- A completed job that is started again never completes (`RestartedNeverCompletes`).
- A meter with only a daily cap accepts no positive quantity (`UnconfiguredNeverAccepts`), and negative
  quantities let a window take more than its capacity (`RefundsExceed`), exactly by a request for more
  than the tokens it finds less what was given back (`TakenBeyondCapacityIff`).
- The proxy's maximum evaluation time can drop (`MaximumLost`), exactly by a stale write
  (`MaxLoweredIff`, `MaximumRightIff`).
- With no call under way break-glass can be off with a reason: by expiry (`ReasonOutlivesExpiry`) and by a clear overtaken by a
  call that sets it (`ReasonLeftBehind`), and in no other way (`ReasonLeftIff`).

## Model

| member | source | states |
|---|---|---|
| ModularArithmetic.ModSpec | apps/messenger/messenger/frontend/src/services/crypto.ts:93-95 | mod(a, m) is the residue of a in [0, m) for every sign of a, although `%` keeps the sign of the dividend |
| ModularArithmetic.ModPow | apps/messenger/messenger/frontend/src/services/crypto.ts:97-108 | the square-and-multiply loop returns base^exp reduced into [0, m) for every integer base and positive exponent, and 1 for a non-positive exponent |
| PrimeField.FermatLittleTheorem | apps/messenger/messenger/frontend/src/services/crypto.ts:110-112 | a^(p-1) is 1 modulo a prime p not dividing a, the fact modInverse rests on |
| PrimeField.InverseSpec | apps/messenger/messenger/frontend/src/services/crypto.ts:110-112 | modInverse(a, p) * a is 1 modulo p, with the result in [0, p), for every a that p does not divide |
| EdwardsCurve.CrossIsNotUnit | apps/messenger/messenger/frontend/src/services/crypto.ts:119-137 | for any two curve points d x1 x2 y1 y2 is neither 1 nor -1 when -1 is a square and d is not: the reason the formulas are complete |
| EdwardsCurve.DenominatorsNonZero | apps/messenger/messenger/frontend/src/services/crypto.ts:119-137 | both denominators of the Edwards sum are nonzero for every pair of curve points |
| EdwardsCurve.AddOnCurve | apps/messenger/messenger/frontend/src/services/crypto.ts:119-137 | the affine sum of two curve points is a curve point |
| EdwardsCurve.SumUnique | apps/messenger/messenger/frontend/src/services/crypto.ts:119-137 | the sum is the only reduced point that satisfies the multiplied-out addition law |
| EdwardsGroup.AddCommutes | apps/messenger/messenger/frontend/src/services/crypto.ts:119-137 | addition of curve points commutes |
| EdwardsGroup.AddAssociates | apps/messenger/messenger/frontend/src/services/crypto.ts:119-137 | addition of curve points is associative, proved from the curve equation over any prime field with -1 a square and d a non-square |
| EdwardsGroup.AddNeutral | apps/messenger/messenger/frontend/src/services/crypto.ts:117-117 | (0, 1) is neutral |
| EdwardsGroup.AddNegation | apps/messenger/messenger/frontend/src/services/crypto.ts:119-137 | (-x, y) is the inverse of (x, y) |
| ExtendedPoints.ValidRepresents | apps/messenger/messenger/frontend/src/services/crypto.ts:114-115 | a quadruple with Z nonzero, XY = ZT and the projective equation represents exactly the curve point (X/Z, Y/Z), with T = xyZ |
| ExtendedPoints.RepresentsValid | apps/messenger/messenger/frontend/src/services/crypto.ts:114-115 | conversely, whatever represents a curve point is valid and divides back to that point |
| ExtendedPoints.PointAddCorrect | apps/messenger/messenger/frontend/src/services/crypto.ts:119-137 | pointAdd of any two valid quadruples is valid, so Z3 is nonzero, and its affine point is the Edwards sum (section 5.1.4 of RFC 8032) |
| ExtendedPoints.PointDoubleCorrect | apps/messenger/messenger/frontend/src/services/crypto.ts:139-154 | pointDouble of a valid quadruple is valid and its affine point is the sum of the point with itself |
| ExtendedPoints.DoubleVersusAdd | apps/messenger/messenger/frontend/src/services/crypto.ts:119-154 | every coordinate of pointAdd(q, q) is -4 times that of pointDouble(q) modulo P |
| ExtendedPoints.ScalarMult | apps/messenger/messenger/frontend/src/services/crypto.ts:156-169 | the double-and-add loop terminates for every integer and any quadruple; for a valid one the result is valid and its affine point is the s-fold sum, the neutral point for s <= 0 |
| ExtendedPoints.DoubleAndAddCorrect | apps/messenger/messenger/frontend/src/services/crypto.ts:156-169 | at every turn of the loop the collected point plus the remaining multiple of the addend is the same |
| ExtendedPoints.MultipleAdd | apps/messenger/messenger/frontend/src/services/crypto.ts:156-169 | (m + n) a = m a + n a |
| ExtendedPoints.MultipleMul | apps/messenger/messenger/frontend/src/services/crypto.ts:156-169 | (m n) a = m (n a) |
| LittleEndian.BytesToBigInt | apps/messenger/messenger/frontend/src/services/crypto.ts:216-222 | the loop reads the bytes as little-endian base-256 digits |
| LittleEndian.BigIntToBytes | apps/messenger/messenger/frontend/src/services/crypto.ts:224-231 | the loop writes the lowest base-256 digits of the number, for a negative one those of its two's complement |
| LittleEndian.ValueOfBytes | apps/messenger/messenger/frontend/src/services/crypto.ts:216-231 | reading back what was written gives the number whenever it fits the length |
| LittleEndian.BytesOfValue | apps/messenger/messenger/frontend/src/services/crypto.ts:216-231 | writing back what was read gives the same bytes |
| Ed25519.PointToBytes | apps/messenger/messenger/frontend/src/services/crypto.ts:171-185 | the array written is the encoding of section 5.1.2 of RFC 8032 of the affine point: y in 255 bits and the low bit of x on top |
| Ed25519.EncodeInjective | apps/messenger/messenger/frontend/src/services/crypto.ts:171-185 | two different curve points never have the same 32 bytes |
| Ed25519.EncodingIgnoresScale | apps/messenger/messenger/frontend/src/services/crypto.ts:171-185 | scaling X, Y, Z and T by a nonzero factor leaves the 32 bytes as they are |
| Ed25519.ClampedValue | apps/messenger/messenger/frontend/src/services/crypto.ts:208-214 | clamp clears the three lowest bits and bit 255 and sets bit 254 of the first 32 bytes, so the scalar is a multiple of 8 between 2^254 and 2^255 |
| Ed25519.MultipleBytesCorrect | apps/messenger/messenger/frontend/src/services/crypto.ts:246-290 | with a base point on the curve the loop followed by the encoding gives the encoding of the n-fold sum of the base point |
| Ed25519.DerivePublicKey | apps/messenger/messenger/frontend/src/services/crypto.ts:246-261 | a 32-byte seed gives the encoded product of the clamped scalar and the base point, whatever the constants; with a sound setting that is the encoding of the multiple of a curve point; any other length is the error the source throws |
| Ed25519.MultipleModOrder | apps/messenger/messenger/frontend/src/services/crypto.ts:276-290 | multiples of the base point depend only on the scalar modulo its order |
| Ed25519.SignatureEquation | apps/messenger/messenger/frontend/src/services/crypto.ts:288-290 | S B = R + k A for S = (r + k s) mod L, as points (section 5.1.7 of RFC 8032) |
| Ed25519.Ed25519Sign | apps/messenger/messenger/frontend/src/services/crypto.ts:266-294 | what is returned for any constants, and with a sound setting: it satisfies the verification equation under the key derived from the same seed, with S below the order and read back from its 32 bytes, and its first half encodes the nonce times the base point |
| Ed25519.SignatureParts | apps/messenger/messenger/frontend/src/services/crypto.ts:208-294 | for every seed and message: the key is the multiple of the base point by the first half of the seed's digest, its three lowest bits and bit 255 cleared and bit 254 set; R is the multiple by the digest of the second half followed by the message; S is that digest plus challenge times scalar, reduced (section 5.1.6 of RFC 8032) |
| Ed25519.FirstHalfCommits | apps/messenger/messenger/frontend/src/services/crypto.ts:266-283 | under a digest that is 1 on the second half of the seed's digest followed by one message and 0 elsewhere, the first half of that message's signature is the base point and that of every other message the neutral point |
| Ed25519.OffCurveBaseFails | apps/messenger/messenger/frontend/src/services/crypto.ts:266-294 | with any complete curve and any base point off it there are, for every message and seed, a digest function with nonce 1 and a signature that verifies under no key |
| Ed25519.AlwaysVerifiesIff | apps/messenger/messenger/frontend/src/services/crypto.ts:266-294 | given that the order annihilates a base point on the curve, every signature verifies under the key of its seed, for every digest function, exactly if the base point is on the curve |
| Ed25519Constants.DValue | apps/messenger/messenger/frontend/src/services/crypto.ts:88-88 | D is a non-positive representative of -121665/121666 |
| Ed25519Constants.MinusOneIsSquare | apps/messenger/messenger/frontend/src/services/crypto.ts:91-91 | -1 is a square modulo P |
| Ed25519Constants.SourceBasePointOffCurve | apps/messenger/messenger/frontend/src/services/crypto.ts:82-85 | (Bx, By) as written in the source is not a curve point |
| Ed25519Constants.BasePointOnCurveIff | apps/messenger/messenger/frontend/src/services/crypto.ts:82-85 | with the source's By an abscissa gives a curve point exactly if it is the one of section 5.1 of RFC 8032 or its negation; Bx is neither |
| Ed25519Constants.StandardSettingIsSound | apps/messenger/messenger/frontend/src/services/crypto.ts:76-91 | with the standard base point, and given that P is prime, D is no square and L times the point is neutral, the signing theorem applies to the source's constants |
| Ed25519Constants.TwiceOffCurve | apps/messenger/messenger/frontend/src/services/crypto.ts:139-154 | the ordinate that pointDouble computes from the source's base point belongs to no point of the curve |
| Ed25519Constants.SourceSignatureFails | apps/messenger/messenger/frontend/src/services/crypto.ts:266-294 | with the source's constants every signature whose nonce is 2 fails the verification equation under every key, for every message and seed: its first half is the encoding of no curve point |
| Ed25519Constants.SourceSignaturesFail | apps/messenger/messenger/frontend/src/services/crypto.ts:266-294 | there is a digest function of 64-byte results under which no signature of the source's constants verifies |
| Ed25519Constants.SourceFailsAtNonceOne | apps/messenger/messenger/frontend/src/services/crypto.ts:266-294 | for every message, seed and key there is one under which the nonce is 1 and the signature does not verify either |
| Json.RearrangeLossless | apps/messenger/messenger/frontend/src/services/crypto.ts:419-423 | reordering the keys of every object by any rule that keeps them loses nothing at any depth |
| JsonText.PrintUnique | apps/messenger/messenger/frontend/src/services/crypto.ts:412-424 | a printed value is self-delimiting: two printed values followed by anything that may follow a value agree only if the values (undefined counting as null) and the continuations agree |
| JsonReader.ReadsBack | apps/messenger/messenger/frontend/src/services/crypto.ts:412-424 | a reader of the JSON grammar (RFC 8259), written without the printer, gets back from any printed value that value, undefined as null, and the text that follows it |
| KeyOrder.UnitsDecode | apps/messenger/messenger/frontend/src/services/crypto.ts:422-422 | the code units keys are compared by are those of section 2.2 of RFC 2781: a character of the basic plane is one, any other a surrogate pair that decodes to it |
| LinkSigning.SortedKeysCanonical | apps/messenger/messenger/frontend/src/services/crypto.ts:422-422 | sorting keys by UTF-16 code units keeps exactly the keys and depends on their set alone |
| LinkSigning.CanonicalizePrints | apps/messenger/messenger/frontend/src/services/crypto.ts:412-424 | printing with sorted keys at each level is the same as sorting the whole value and printing it compactly |
| LinkSigning.SigningStringIdentifies | apps/messenger/messenger/frontend/src/services/crypto.ts:412-424 | two values have the same signing string exactly when they are equal up to object key order at every depth and up to undefined standing for null |
| LinkSigning.CanonicalReads | apps/messenger/messenger/frontend/src/services/crypto.ts:412-424 | a reader of a signing string finds the value with its keys sorted at every depth |
| LinkSigning.SignatureCovers | apps/messenger/messenger/frontend/src/services/crypto.ts:436-448 | two links have the same signing string exactly when their seven scalar fields agree and their pacts are both one of null, undefined, false, zero and the empty string, or neither is and they agree up to key order; the atom itself is not covered |
| LinkSigning.SigningStringReads | apps/messenger/messenger/frontend/src/services/crypto.ts:436-448 | a reader of a link's signing string finds exactly the eight keys in sorted order, at each the field of that name, and at pact null or the pact up to key order |
| PolicyEngine.EvalWireRec | crates/policy-engine/src/lib.rs:170-193 | the recursive walk with its shared trace returns the value and appends the trace of the evaluation function |
| PolicyEngine.EvalMeaning | crates/policy-engine/src/lib.rs:170-193 | the value is the conjunction over the fully inlined wire; the trace is a prefix of its preorder, all of it when the value is true |
| PolicyEngine.WiresInParallelAreFalse | crates/policy-engine/src/lib.rs:184-191 | a wire name inside a parallel list is read as a bit and false: adding one changes no ANY and makes every ALL false |
| PolicyEngine.AcyclicTerminates | crates/policy-engine/src/lib.rs:170-193 | without reference cycles evaluation ends within a depth of the number of wires plus one |
| PolicyEngine.DepthBound | crates/policy-engine/src/lib.rs:170-193 | on every chip, cyclic or not, an evaluation that ends at all ends within that depth |
| PolicyEngine.EvalMonotone | crates/policy-engine/src/lib.rs:170-193 | allowing more depth never changes a finished evaluation |
| PolicyDecision.RunDecide | crates/policy-engine/src/lib.rs:195-211 | the nested loops over outputs and entries return what the decision function says |
| PolicyDecision.DecideFirstMatch | crates/policy-engine/src/lib.rs:195-211 | decide gives the first output, in list and key order, whose trigger holds of the inlined wires, and the default denial exactly when none does |
| PolicyDecision.TriggersMonotone | crates/policy-engine/src/lib.rs:185-204 | more true bits can only make positive triggers fire and only stop NOT triggers |
| PolicyDecision.UnrelatedWire | crates/policy-engine/src/lib.rs:118-120 | inserting a wire no trigger reaches, or a later duplicate of an id, changes no decision |
| PolicyDecision.DecideIgnoresBit | crates/policy-engine/src/lib.rs:123-211 | a bit that no wire reachable from a trigger lists has no influence on the decision |
| PolicyDecision.NestedNot | crates/policy-engine/src/lib.rs:199-201 | any number of NOT( prefixes is a single negation of the innermost name |
| PolicyDecision.NotOfMissingWireShadows | crates/policy-engine/src/lib.rs:172-201 | a NOT trigger that names no wire fires on every request, and nothing listed after it is ever chosen |
| ShippedPolicies.CoreV3DeniesEverything | policies/ubl_core_v3.yaml:33-96 | its first output negates a bit as if it were a wire, so every request is denied for its rate |
| ShippedPolicies.CoreV1IgnoresPanicMode | policies/ubl_core_v1.yaml:33-64 | switching panic mode on or off changes no decision: no output reaches the wire with the circuit breaker |
| ShippedPolicies.BitWires | crates/policy-engine/src/lib.rs:123-168 | what a wire of a single bit says of every request, in terms of its fields, for every bit name; a name not listed is false |
| ShippedPolicies.CoreV1Decides | policies/ubl_core_v1.yaml:9-64 | every decision of version 1 with its reason, trigger and trace: write for operators on a path starting with /admin/ and read for everyone else with TLS 1.3, a verified certificate of a listed issuer and a listed method on the domain, denial otherwise |
| ShippedPolicies.OverrideValue | policies/ubl_core_v1.yaml:42-46 | the emergency wire is true in panic mode alone, although it lists the standard wire as an alternative |
| ShippedPolicies.Defaults | crates/policy-engine/src/lib.rs:184-211 | an unknown aggregator makes its wire false, and a chip without outputs denies by default with an empty trace |
| PolicyProxy.ProxyIsRight | crates/policy-proxy/src/main.rs:178-212 | under every interleaving of single cell accesses eval_count is allow_total plus deny_total plus the requests between their count and their verdict, and each verdict is decide, in the context made of that request's own facts and the panic flag read for it, on one chip snapshot taken by it whose policy hash a valid signature covers |
| PolicyProxy.RunsAreRight | crates/policy-proxy/src/main.rs:195-212 | every step of every handler keeps the three counters equal to the numbers of requests that passed their updates, and every held chip accepted |
| PolicyProxy.LoadsIff | crates/policy-proxy/src/main.rs:78-115 | a policy loads exactly if pack.json names its hash and has a signature valid for the three lines of its id, its version and that hash, and the policy can be parsed |
| PolicyProxy.LoadedIsAccepted | crates/policy-proxy/src/main.rs:78-115 | what load_and_verify returns was parsed from a policy whose hash stands in the last of three lines with a valid signature |
| PolicyProxy.ReloadIsARun | crates/policy-proxy/src/main.rs:117-136 | a reload handled alone is a run that installs what load_and_verify returns, or that leaves everything when it returns an error |
| PolicyProxy.BreakGlassIsARun | crates/policy-proxy/src/main.rs:138-150 | setting or clearing handled alone is a run that writes both cells |
| PolicyProxy.ForwardIsARun | crates/policy-proxy/src/main.rs:178-212 | a request handled alone makes single steps whose joint effect on the cells is that of the handler |
| PolicyProxy.SharedState.Forward | crates/policy-proxy/src/main.rs:178-212 | the handler alone: the verdict of decide in the context of its arrival, and the new value of every cell |
| PolicyProxy.SharedState.Reload | crates/policy-proxy/src/main.rs:117-136 | a policy that does not load leaves the chip in place, one that does replaces it |
| PolicyProxy.SharedState.PanicOn | crates/policy-proxy/src/main.rs:138-144 | a non-positive duration or a blank reason changes nothing; otherwise both cells are set |
| PolicyProxy.CoreV3NeverAllows | crates/policy-proxy/src/main.rs:195-212 | with version 3 of the policy loaded and not replaced, allow_total stays 0 in every run |
| ProxyLocks.MaxLoweredIff | crates/policy-proxy/src/main.rs:201-201 | a step lowers the maximum exactly if it writes a time that was greater when compared and is smaller than the maximum by now |
| ProxyLocks.MaximumRightIff | crates/policy-proxy/src/main.rs:201-201 | from the start and over every run, the maximum is at all times the largest time written by the requests past their update exactly if the run has no such stale write |
| ProxyLocks.MaximumRightOneAtATime | crates/policy-proxy/src/main.rs:201-201 | it is so in every run in which no request compares while another is between its comparison and its write |
| ProxyLocks.MaximumLost | crates/policy-proxy/src/main.rs:201-201 | a run of two requests from the start ends with the maximum at the smaller of their times, although the larger one has been written |
| ProxyLocks.SumIsTotal | crates/policy-proxy/src/main.rs:195-200 | after every run eval_ms_sum is the sum of the times of the requests that have added theirs, each once |
| BreakGlass.ReasonLeftIff | crates/policy-proxy/src/main.rs:138-178 | after every run, with no call under way, break-glass is off (cleared or expired, as metrics and requests read it) with a reason exactly if the last call to switch it set it and its time has passed, its reason not overwritten by a clear that was under way, or cleared it while a call that sets it was between its writes and wrote its reason last |
| BreakGlass.SetRefusedIff | crates/policy-proxy/src/main.rs:138-142 | a call to set break-glass changes nothing exactly if its duration is not positive or its reason consists of Unicode white space |
| BreakGlass.RequestsSee | crates/policy-proxy/src/main.rs:178-202 | a request's context holds its own facts, and panic mode exactly if break-glass is not off at its arrival |
| BreakGlass.ActiveThrough | crates/policy-proxy/src/main.rs:138-178 | set for some seconds it is on for every request through the last of them and for none after, and clearing ends it at once |
| BreakGlass.UnexplainedIff | crates/policy-proxy/src/main.rs:138-178 | it is on without a reason exactly if the last call to switch it set it while a clear was between its writes and wrote its empty reason last, and its time has not passed |
| BreakGlass.LeftOnlyByExpiry | crates/policy-proxy/src/main.rs:138-178 | if no call switches while another is between its writes, a reason is left exactly by expiry of the last call, and never missing |
| BreakGlass.ReasonOutlivesExpiry | crates/policy-proxy/src/main.rs:138-158 | a single call from the start leaves its reason behind when its time has passed |
| BreakGlass.ClearCanLeaveReasonIff | crates/policy-proxy/src/main.rs:146-150 | some order of the writes still to come after a clear switches leaves a reason exactly if, at that moment, another call is about to write one |
| BreakGlass.ReasonLeftBehind | crates/policy-proxy/src/main.rs:138-150 | a run of two overlapping calls from the start ends with break-glass cleared and the reason of the call that set it |
| Quota.QuotaDO.CheckAndConsume | apps/quota-do/src/worker.ts:176-224 | reply, stored state and log of one call; a denied or cached call changes nothing stored, although tokens were already taken from the loaded copy, and a fully configured meter's counters keep agreeing with its log |
| Quota.AcceptRefines | apps/quota-do/src/worker.ts:195-218 | an accepted request of any quantity keeps the stored tokens equal to the capacity minus what the window accepted, the day's usage equal to what the day accepted, and both within their caps |
| Quota.OnlyAcceptanceSaves | apps/quota-do/src/worker.ts:176-224 | a call saves a state exactly if it is accepted |
| Quota.DefaultQuantity | apps/quota-do/src/worker.ts:177-177 | a request without a quantity is treated and charged as one for 1 |
| Quota.CalendarUnits | apps/quota-do/src/worker.ts:190-192 | a day of the day key is 24 hours and a second 1000 milliseconds, counted from the epoch |
| Quota.WindowStartIs | apps/quota-do/src/worker.ts:154-160 | a window start is the last multiple of the window that is not later |
| Quota.InheritedNamesAreCached | apps/quota-do/src/worker.ts:185-187 | on a new meter a key is answered from the cache exactly if it is the name of a property every JavaScript object inherits |
| Quota.RunWithinLimits | apps/quota-do/src/worker.ts:154-218 | over every run, whatever the quantities, what a window accepts sums to at most rate_per_min and at most burst, the tokens left and that sum make up the smaller of them, what a day accepts sums to at most daily_cap, and each op_key is charged at most once |
| Quota.RetryIsCached | apps/quota-do/src/worker.ts:185-187 | a retry under the key of an accepted request is answered from the cache and saves nothing, at any later time, quantity and configuration |
| Quota.BackpressureWait | apps/quota-do/src/worker.ts:195-201 | the wait lies in (0, window] and ends exactly at the next window start, where a lone retry for at most rate_per_min and burst is not refused for tokens |
| Quota.FirstRequestAcceptedIff | apps/quota-do/src/worker.ts:193-218 | exactly when the first request of a request-bound meter is accepted, for any quantity and configuration: rate_per_min, burst and daily_cap each admit it |
| Quota.UnconfiguredNeverAccepts | apps/quota-do/src/worker.ts:154-201 | a meter with a daily cap but no rate and burst answers every positive request with BACKPRESSURE for ever |
| Quota.AcceptedBeyondIff | apps/quota-do/src/worker.ts:177-218 | an accepted request takes its window beyond the capacity, counting what is taken and not what is given back, exactly if its quantity is positive and exceeds the tokens it finds less what was given back in the window so far |
| Quota.TakenBeyondCapacityIff | apps/quota-do/src/worker.ts:177-218 | over every run a window takes more than its capacity exactly if some call is accepted in it under that condition, and never without a negative quantity |
| Quota.RefundsExceed | apps/quota-do/src/worker.ts:177-203 | for every positive capacity a run of three requests, with -1 in the middle, takes one unit more than the capacity in one window while the sum stays within it |
| Quota.FirstWindowForgets | apps/quota-do/src/worker.ts:195-201 | in the window that starts at 0 the stored window start counts as unset, so the tokens are refilled at every call and only the single quantity is limited |
| AtomicCanonical.Canonicalize | apps/core-api/src/atomic/mod.rs:8-38 | the recursive walk with its insertions into the output map yields the value rearranged by the map's order, with and without preserved insertion order |
| AtomicCanonical.AtomicOrderSorted | apps/core-api/src/atomic/mod.rs:12-30 | the order of insertion is the strict order by rank and then by name, of exactly the object's keys |
| AtomicCanonical.CanonicalForm | apps/core-api/src/atomic/mod.rs:1-38 | with insertion order preserved the result is the one value equal to the input up to key order in which every object, at every depth, is ordered by rank and then name |
| AtomicCanonical.CanonicalFormByName | apps/core-api/src/atomic/mod.rs:8-38 | with serde_json's default map the result is the one in which every object is ordered by name alone |
| AtomicCanonical.CanonicalBytesIdentify | apps/core-api/src/atomic/mod.rs:73-77 | in both cases two values have the same canonical bytes exactly when they are equal up to key order |
| AtomicCanonical.CanonicalIdempotent | apps/core-api/src/atomic/mod.rs:8-38 | canonicalizing twice is canonicalizing once |
| AtomicCanonical.FixedOrderKeptIff | apps/core-api/src/atomic/mod.rs:12-30 | the default map keeps the fixed order exactly on the values in which rank and name order every pair of an object's keys alike |
| AtomicCanonical.FixedOrderLost | apps/core-api/src/atomic/mod.rs:110-114 | it loses the order of every object with the keys ts and kind, which the repository's own test expects in that order |
| AtomicCanonical.AtomicOrders | apps/core-api/src/atomic/mod.rs:41-77 | every Atomic has its nine keys in the fixed order under the insertion-ordered map and in alphabetical order under the default map |
| AtomicText.CanonicalBytesRead | apps/core-api/src/atomic/mod.rs:73-77 | a reader of canonical bytes finds the canonical value, with either map |
| AtomicText.AtomicReads | apps/core-api/src/atomic/mod.rs:41-77 | a reader of the canonical bytes of an Atomic finds, in the order of the map, each field at its own name, absent scope fields without a key and an absent signature as null |
| AtomicScript.CanonicalizeScript | schemas/cli/atomic_canonicalize.ts:4-13 | the recursive walk with its assignments into the output object yields the value rearranged by the enumeration order of that object |
| AtomicScript.ScriptOrderSorted | schemas/cli/atomic_canonicalize.ts:7-11 | the output's keys are the input's without __proto__: integer-like ones first by value, then by rank and code units |
| AtomicScript.IntegerLikeIff | schemas/cli/atomic_canonicalize.ts:10-11 | the keys an object enumerates first are the decimal texts of the numbers below 2^32 - 1 |
| AtomicScript.ScriptLosslessIff | schemas/cli/atomic_canonicalize.ts:10-11 | the script keeps every key and value at every depth exactly when no object has the key __proto__ |
| AtomicScript.VersionsAgreeIff | schemas/cli/atomic_canonicalize.ts:4-13 | for either map, the TypeScript and the Rust form agree on a value exactly when no object has the key __proto__ and the two orders agree on every pair of an object's keys |
| AtomicScript.VersionsAgreeOnPlainKeys | schemas/cli/atomic_canonicalize.ts:4-13 | on values whose keys are ASCII, not integer-like and not __proto__, the script agrees with the insertion-ordered map always, and with the default map exactly when rank and name order each object's keys alike |
| AtomicScript.VersionsDifferOnTsAndKind | schemas/cli/atomic_canonicalize.ts:4-13 | with the default map, the one the manifest asks for, they differ on every object with the keys ts and kind |
| AtomicScript.VersionsDifferOnAtomics | apps/core-api/src/atomic/mod.rs:41-77 | so they differ on every Atomic |
| AtomicScript.VersionsDifferOnIndex | schemas/cli/atomic_canonicalize.ts:10-11 | with the insertion-ordered map they differ on every object with a key of the fixed order and an integer-like one |
| AtomicScript.VersionsDifferOnNumbers | schemas/cli/atomic_canonicalize.ts:10-11 | with either map they differ on every object with two integer-like keys whose text and value are ordered differently |
| AtomicScript.VersionsDifferOnUnits | schemas/cli/atomic_canonicalize.ts:9-9 | with either map they differ on every object with two other keys that code points and code units order differently; UnitsDiffer gives such keys |
| TokenTables.AuthWorker.CreateRefreshToken | workers/auth-worker/src/internal.ts:84-96 | appends an unused row, or fails on a taken row id and changes nothing |
| TokenTables.AuthWorker.ValidateRefreshToken | workers/auth-worker/src/internal.ts:99-128 | returns the owner of a live, unused row with the hash and marks that row used; otherwise changes nothing |
| TokenTables.AuthWorker.RevokeToken | workers/auth-worker/src/internal.ts:131-148 | records the access-token id once and deletes the session with all its refresh tokens, each part only if given |
| TokenTables.AuthWorker.GetSession | workers/auth-worker/src/internal.ts:20-81 | the owner is returned exactly if the session is not reported as revoked |
| TokenTables.RefreshToken | apps/core-api/src/tokens/refresh.rs:22-83 | the handler's calls in sequence and its reply for each failure, with a request that is not sent, an answer that is lost and an answer that cannot be read for both calls |
| TokenTables.RevocationRecorded | workers/auth-worker/src/internal.ts:131-138 | a revocation records a given access-token id at its first time, no other id, and nothing without one |
| TokenTables.SessionTerm | workers/auth-worker/src/internal.ts:20-81 | a stored session speaks for its user until it expires and is reported as revoked from then on |
| TokenTables.ValidationMarks | workers/auth-worker/src/internal.ts:99-128 | a validation marks the row of the first unused and unexpired row with the hash as used now, and changes nothing else, or nothing at all |
| TokenTables.RefreshSpends | apps/core-api/src/tokens/refresh.rs:40-83 | a refresh whose validation reaches the auth-worker spends the presented token whatever its outcome, a lost answer and a failed mint or creation included; one that does not reach it changes nothing |
| TokenTables.RefreshReplies | apps/core-api/src/tokens/refresh.rs:22-83 | each of the six replies, and exactly when it is given |
| TokenTables.RefreshHandsOver | apps/core-api/src/tokens/refresh.rs:40-83 | after a refresh that succeeds the new token speaks for the old one's owner until it expires, and nothing else has changed but the old row's mark |
| TokenTables.RevocationScope | workers/auth-worker/src/internal.ts:67-148 | a revocation leaves the session reported as revoked and without owner or tokens at any later time, and changes neither the report nor the tokens of any other session |
| TokenRotation.RunSound | workers/auth-worker/src/internal.ts:84-148 | every run of single statements of logins, refreshes, failures, revocations and clock ticks, however interleaved, keeps the rotation invariant |
| TokenRotation.ValidatesAtMostOnceIff | workers/auth-worker/src/internal.ts:99-128 | over every such run a token validates at most once exactly if no two requests mark its row after both selected it unused |
| TokenRotation.PendingTogetherDecides | workers/auth-worker/src/internal.ts:99-128 | that is so if no two selects of it are ever pending together, and only then in the runs in which every request that selected goes on to its mark |
| TokenRotation.OneHeldIff | apps/core-api/src/tokens/refresh.rs:36-83 | over every run and for every rotation lineage, its unused tokens and refreshes in flight are at most one in every state exactly if no request marks a token of it that is no longer stored unused while it holds another or a refresh |
| TokenRotation.OneHeldIffNoRevalidation | apps/core-api/src/tokens/refresh.rs:36-83 | in runs without a revocation that is exactly if no token of it already validated is marked again while it holds a token or refresh |
| TokenRotation.OneTokenPerLineage | apps/core-api/src/tokens/refresh.rs:36-83 | so it is for every lineage none of whose own tokens is marked by overlapping requests, whatever happens to other lineages |
| RotationRuns.ValidatesTwice | workers/auth-worker/src/internal.ts:99-128 | a run from the empty state, its revocation queries unanswered, in which one token validates twice and its lineage is crowded and ends with two unused tokens |
| RotationRuns.RevokedTokenCrowds | apps/core-api/src/tokens/refresh.rs:36-83 | with a revocation a run from the empty state marks no token already validated while the lineage holds anything, and yet ends with two refreshes of it in flight |
| RotationRuns.QuietStays | workers/auth-worker/src/internal.ts:131-148 | a session with no stored token and no refresh or login in flight validates nothing from then on |
| RotationRuns.RevivedIff | workers/auth-worker/src/internal.ts:131-148 | once the statements of a revocation are done, a token of the session can validate again exactly if a refresh or login of it was in flight, or it is the id that all access tokens share |
| RotationRuns.FlightRevives | apps/core-api/src/tokens/refresh.rs:77-77 | from every reachable state such a refresh can store a token that validates while the session is still reported as revoked |
| RotationRuns.NothingIssuedWhenAnswered | apps/core-api/src/tokens/mint.rs:263-275 | the mint takes any successful answer to its revocation query as revoked, so no token is ever issued in a run in which all these queries are answered |
| Jobs.ReplicaFollows | apps/messenger/src/hooks/useJobs.ts:13-25 | one operation: the reducer's items follow the job list in every field but updatedAt |
| Jobs.OthersKept | apps/messenger/src/services/jobsAdapter.ts:61-102 | every operation but a tick leaves all jobs with another id as they are and in order |
| Jobs.OwnJob | apps/messenger/src/services/jobsAdapter.ts:61-102 | the job itself: first, with the given fields, queued and at 0 when enqueued; gone when removed; in its place with the new status and time otherwise, its error cleared by starting only, and nothing else changed |
| Jobs.SubscriberFollows | apps/messenger/src/services/jobsAdapter.ts:103-108 | after any run, the initial snapshot and all events give the subscriber the adapter's list in every field but updatedAt |
| Jobs.StartFollowedIff | apps/messenger/src/services/jobsAdapter.ts:78-83 | without unique ids starting a job is followed exactly if every other job with the id is running without error already |
| Jobs.StepProgress | apps/messenger/src/services/jobsAdapter.ts:34-53 | no operation takes a progress out of 0..100 or lowers one |
| Jobs.ProgressOverRun | apps/messenger/src/services/jobsAdapter.ts:34-53 | nor does any run, for a job that stays listed |
| Jobs.CompletesIff | apps/messenger/src/services/jobsAdapter.ts:37-48 | over every run, pauses and restarts included, a listed job ends completed exactly if its last change of status is a tick that takes it to 100, or it began completed and was not switched; its progress is what it began with plus the steps drawn while running, at most 100 |
| Jobs.AtHundredNeverCompletes | apps/messenger/src/services/jobsAdapter.ts:37-48 | a job that stands at 100 without being completed completes in no run |
| Jobs.RestartedNeverCompletes | apps/messenger/src/services/jobsAdapter.ts:37-83 | a completed job that is started again never completes |
| JobsAdapter.MemoryJobsAdapter.Tick | apps/messenger/src/services/jobsAdapter.ts:34-53 | the loop that changes the job objects in place and publishes their patches is the tick of the model |
| JobsAdapter.MemoryJobsAdapter.Enqueue | apps/messenger/src/services/jobsAdapter.ts:61-77 | a new job comes first and a full snapshot is published |
| JobsAdapter.MemoryJobsAdapter.Remove | apps/messenger/src/services/jobsAdapter.ts:96-102 | the first job with the id is taken out and a full snapshot is published; an unknown id changes nothing |
| JobsAdapter.MemoryJobsAdapter.Start | apps/messenger/src/services/jobsAdapter.ts:78-83 | the first job with the id is changed in place, a patch is published, and the live object is returned |
| JobsAdapter.MemoryJobsAdapter.Pause | apps/messenger/src/services/jobsAdapter.ts:84-89 | likewise for pausing |
| JobsAdapter.MemoryJobsAdapter.Cancel | apps/messenger/src/services/jobsAdapter.ts:90-95 | likewise for canceling |
| JobsAdapter.MemoryJobsAdapter.List | apps/messenger/src/services/jobsAdapter.ts:57-59 | the snapshot is the list of the jobs' values |
| Ulid.EncodeTime | workers/office-api-worker/src/core/ulid.ts:23-31 | the loop writes the lowest base-32 digits of the timestamp |
| Ulid.DecodeUlid | workers/office-api-worker/src/core/ulid.ts:47-59 | the loop reads ten digits, -1 for every other or missing character, and splits off the random part |
| Ulid.IsValidUlid | workers/office-api-worker/src/core/ulid.ts:64-72 | true exactly for 26 characters that are all digits of the alphabet |
| Ulid.TimeRoundTripIff | workers/office-api-worker/src/core/ulid.ts:19-59 | decoding a generated ULID gives the timestamp back exactly when it is below 32^10 |
| Ulid.ReencodeIff | workers/office-api-worker/src/core/ulid.ts:23-59 | re-encoding a decoded timestamp gives the first ten characters back exactly when they are all digits |
| Ulid.GeneratedIsValid | workers/office-api-worker/src/core/ulid.ts:11-72 | every generated ULID is valid |
| Ulid.ValidIff | workers/office-api-worker/src/core/ulid.ts:64-72 | valid texts are those of 26 decimal digits and capital letters other than I, L, O and U |
| Ulid.RandomDigits | workers/office-api-worker/src/core/ulid.ts:33-42 | each of the sixteen random characters reads as the low five bits of its byte |
| Ulid.EncodeOrder | workers/office-api-worker/src/core/ulid.ts:23-31 | lexicographic order of encodings is numeric order of timestamps below 32^n |
| Ulid.UlidsSortByTime | workers/office-api-worker/src/core/ulid.ts:2-21 | ULIDs of different timestamps sort by time, whatever their random parts |

## Left out

- Ed25519Constants.StandardSettingIsSound: takes the primality of P, that D is no square and that L times the base point is neutral as hypotheses; these are facts about three fixed numbers, not about the code.
- Ed25519Constants.SourceSignatureFails: takes the first two of these facts as its hypothesis, and is about the nonce 2; for other nonces there is SourceFailsAtNonceOne, and otherwise nothing is said of the source's base point under a given digest function.
- TokenTables.RefreshSpends: assumes that no other row holds the presented hash; tokens are random UUIDs and the table has no uniqueness constraint.
- TokenTables.AuthWorker.GetSession: takes the user of a session to exist; the join with the users table is not modelled.
- Foreign keys between sessions and refresh tokens: not enforced in the model, so deleting a session before its tokens succeeds.
- PolicyProxy.ProxyIsRight: counters are unbounded; the wrap-around of 64-bit counters is not modelled.
- Evaluation times are real numbers, so the rounding of the sum of milliseconds is not modelled.
- The request context the proxy builds lacks the rate, webhook and legacy_jwt fields of the engine's type; the model takes any context and sets the panic flag as the handler does.
- Upstream forwarding, the ledger file, metrics text and the header parsing of the proxy: input and output only.
- Quota.RunWithinLimits: assumes a clock that does not go back, a current time of at least one window and a fixed configuration; plan lookup and overrides are the configuration parameter. FirstWindowForgets shows what happens before.
- Quota quantities, rates and caps are integers; the day key is the number of the UTC day instead of its yyyymmdd text.
- Batch-bound meters always accept; only their idempotency keys are modelled.
- Json: strings are sequences of Unicode scalar values, so lone surrogates are not values of the model; functions, symbols, big integers and NaN are not either.
- Whether another crate of the same build turns on serde_json's preserve_order is not decided by the manifest; both maps are modelled.
- JSON numbers are their printed text over the number alphabet; how a number is printed is library code.
- The bitwise or of disjoint bits in bytesToBigInt is an addition; the single-bit and byte masks of BigInt values are remainders.
- SHA-512 is an arbitrary function with 64-byte results, and signature checks, hashing and YAML parsing in the proxy are arbitrary functions.
- Async functions are sequential; awaits matter only where the model has separate steps.
- PolicyEngine: the minimum TLS version is compared as a real number instead of a 32-bit float.
- Recursion of the policy engine on a cyclic chip that does not end: the model says when an evaluation ends, not how the process fails.
- Login stores the session and asks for the first token; the credentials, the access token and the ABAC policy of mint.rs are not modelled.
- Jobs: progress and random steps are integers, an operation reads the clock once, and the defaults of payload and meta are filled in by the caller.
- Callers that change the live job object returned by start, get or enqueue bypass the events; the model has no such callers.
- The event bus is one topic with one adapter; a second adapter would share the topic.
- Ulid: timestamps are non-negative integers; negative or fractional ones index outside the alphabet.
- The random part of a ULID, job ids, row ids and tokens are parameters, with uniqueness assumed where it is stated.
- React components, RTC and media session handling, ABAC evaluators and HTTP routing: shallow state or input and output.
- Duplicates of modelled files (the quota skeleton, schemas/atomic/v1) and schemas/scripts/canonicalize.js, which reorders only the top level.
