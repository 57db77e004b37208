# smolcert trust validation, modelled in Dafny

smolcert is a compact, CBOR-encoded analogue of X.509 certificates. This
project models its trust-validation engine (`certificates.go`) and proves
properties of that model:

- the certificate data model (`Certificate`, `Validity`, `Extension`, `Time`)
  and the deep copy `Copy`;
- single-certificate validation `validateCertificate`: the time window,
  followed by the Ed25519 signature check over the CBOR encoding of a copy
  whose signature has been cleared;
- the trust pool: `NewCertPool`, `CertPool.Validate` (look up the issuer,
  re-check the root against its own key, check the certificate against the
  root's key) and `CertPool.ValidateBundle` (rebuild leaf -> intermediates ->
  chain-top from an unordered bundle with two last-write-wins indexes,
  check every link and anchor the chain-top in the pool).

Layout, one module per file:

- `wrappers.dfy` (`Wrappers`): `Option`, `Outcome` and `Result`.
- `certificates.dfy` (`Certificates`): the data model. Go slices are
  `Slice<T> = Nil | Of(seq<T>)`, so a nil slice and an empty one stay
  distinct. `Copy` turns a nil slice into an empty one, and the encoder can
  see that difference. `*Time` and `*Validity` are `Option`s. Also here:
  `IsZero`, `PublicKey`, `Copy` and `SigningView`, the value handed to the
  encoder.
- `validation.dfy` (`Validation`): the error kinds and `Context`. A
  `Context` carries the three things validation takes from outside the
  package: the clock `now` in seconds, the CBOR encoder `encode` and Ed25519
  `verify`, all uninterpreted. Also here: the specification function
  `Verdict` and the method `ValidateCertificate`.
- `pool.dfy` (`Pool`): the last-write-wins index `Index` and its meaning
  (`LastWith`, `IndexLastWrite`). A `CertPool` is a
  `map<string, Certificate>`. Also here: `NewCertPool` and `Validate`.
- `bundle.dfy` (`Bundle`): the reference function `BundleVerdict`, the
  method `ValidateBundle`, which runs its three loops through
  `BuildIndexes`, `Classify` and `CheckIntermediates`, and the lemmas on leaf
  selection, the pool fallback and the chain path.

Three points of the code's behaviour shape the model:

- Absent validity. An absent `Validity` is not treated as unconstrained:
  `Copy` dereferences `c.Validity` (certificates.go:179), so validating such
  a certificate panics. The model turns that panic into the outcome
  `NilValidityPanic`, which every caller passes on unwrapped, the way a
  panic unwinds.
- Ambiguous bundles. A bundle with several leaf or chain-top candidates is
  not rejected: the last candidate wins for the leaf (certificates.go:79)
  and for the chain-top (certificates.go:107), and both indexes are
  last-write-wins (certificates.go:69-70). The model does the same.
- Time overflow. A bound is turned into an instant by `time.Unix`, which
  adds 62135596800 seconds in int64 arithmetic. A bound above
  `MaxInt64 - 62135596800` wraps into the far past, so a `NotAfter` of
  `MaxInt64` means "already expired", and a `NotBefore` that large never
  delays a certificate. `StdTime` models that wrap.

## Model

| member | source | states |
|---|---|---|
| `Certificates.IsZero` | certificates.go:216-219 | a time is zero exactly when the pointer is nil or the value is 0 |
| `Certificates.WrapInt64` | certificates.go:211-214 | Go's int64 addition: a value in range is unchanged, and a value up to twice `MaxInt64` loses 2^64 |
| `Certificates.StdTime` | certificates.go:211-214 | the Unix second of `time.Unix(t, 0)`: equal to `t` when `t + 62135596800` fits in an int64, `t` minus 2^64 otherwise, and never above `MaxInt64 - 62135596800` |
| `Certificates.PublicKey` | certificates.go:164-168 | the certificate's own key slice, with the same bytes and the same nil-ness |
| `Certificates.Clone` | certificates.go:174-186 | `append([]T{}, s...)` gives a non-nil slice with the same elements as `s`, nil or not |
| `Certificates.Copy` | certificates.go:170-189 | requires the original's validity, because it is dereferenced. The copy has the same serial number, issuer, subject and validity, which is always present, and the same elements in its key, extensions and signature; those three slices are always non-nil |
| `Certificates.SigningView` | certificates.go:121-139 | the value handed to the encoder has a nil signature and the certificate's own validity |
| `Certificates.SigningViewFields` | certificates.go:121-139 | the value that is encoded has a nil signature; apart from that it is the certificate with its key and extension slices made non-nil |
| `Certificates.CopyOfNonNilIsIdentity` | certificates.go:172-189 | copying changes nothing in a certificate whose slices are non-nil and that carries a validity |
| `Certificates.SigningViewDeterminesFields` | certificates.go:150-162 | two certificates with the same signing view agree on serial number, issuer, validity, subject, key bytes and extensions, so the signature covers every field but itself |
| `Certificates.NilAndEmptyExtensionsSignAlike` | certificates.go:185 | nil extensions and empty extensions give the same encoded value, because `Copy` rebuilds the slice |
| `Validation.Wrap` | certificates.go:55 | a panic passes through a wrapping call unchanged; any other error is replaced by the wrapping error |
| `Validation.Verdict` | certificates.go:120-148 | validation passes exactly when the validity is present, `now` lies inside every non-zero bound, and the original signature verifies under the key over the encoding of the signature-cleared copy; a failure is one of the five kinds `validateCertificate` can produce |
| `Validation.ValidateCertificate` | certificates.go:120-148 | the in-place steps (copy, check bounds, detach the signature, clear it, encode, verify) give exactly `Verdict`; on success `verify(key, encode(copy with nil signature), original signature)` holds |
| `Validation.WithinWindow` | certificates.go:122-134 | with both bounds nil or 0, every `now` is inside the window. A non-zero `notBefore` later than `now`, when it is small enough for `time.Unix` not to overflow, puts `now` outside. So does a non-zero `notAfter` earlier than `now`, whatever its value |
| `Validation.SignedBy` | certificates.go:135-146 | holds exactly when the certificate with its signature set to nil, and its key and extension slices made non-nil, encodes, and `verify` accepts the original signature over those bytes under the key |
| `Validation.NotYetValidRejected` | certificates.go:122-127 | a non-zero `notBefore` later than `now` gives the not-yet-valid error, for any `notBefore` that `time.Unix` represents without overflow |
| `Validation.ExpiredRejected` | certificates.go:129-134 | a non-zero `notAfter` earlier than `now` gives the expired error, unless the certificate was already rejected as not yet valid |
| `Validation.OverflowingNotAfterExpires` | certificates.go:129-134 | a `notAfter` above `MaxInt64 - 62135596800`, `MaxInt64` included, wraps into the far past, so a certificate with no `notBefore` constraint is rejected as expired |
| `Validation.OverflowingNotBeforeNeverRejects` | certificates.go:122-127 | a `notBefore` above `MaxInt64 - 62135596800` wraps into the far past and never gives the not-yet-valid error |
| `Validation.ZeroBoundsNeverReject` | certificates.go:216-219 | when both bounds are nil or 0 (`IsZero`), there is never a time error, and the outcome is decided by the signature alone |
| `Validation.ZeroBoundIgnored` | certificates.go:122-134 | each bound on its own: a nil or 0 `notBefore` never gives the not-yet-valid error, and a nil or 0 `notAfter` never gives the expired error, whatever the other bound is |
| `Validation.SignatureDecides` | certificates.go:135-147 | inside its window, an encoder failure gives the encode error; otherwise the certificate passes exactly when `verify` accepts, and fails with the bad-signature error when it does not |
| `Validation.VerifiesDetachedSignature` | certificates.go:135-146 | an accepted certificate carried a validity and encoded without error; the encoder saw a nil signature, and `verify` accepted the original signature |
| `Pool.Index` | certificates.go:38-40 | after the puts, the last certificate is stored under its own key, whatever earlier certificates had that key; the full meaning is `IndexLastWrite` |
| `Pool.LastWith` | certificates.go:38-40 | the position returned carries the key, and no later certificate does; -1 means that no certificate carries the key |
| `Pool.IndexLastWrite` | certificates.go:68-71 | a key is in the index exactly when some certificate carries it, and it maps to the last such certificate |
| `Pool.IndexKeys` | certificates.go:68-71 | the index's keys are exactly the keys the certificates carry |
| `Pool.NewCertPool` | certificates.go:35-42 | the pool's keys are exactly the subjects of the roots, and each maps to the last root given with that subject |
| `Pool.Validate` | certificates.go:44-59 | an issuer that is not in the pool gives the unknown-issuer error; the call passes exactly when the issuer's root passes against its own key and the certificate passes against the root's key |
| `Pool.ValidateErrors` | certificates.go:48-58 | `Validate` fails only with the unknown-issuer error, a single-certificate error, or a root error wrapped as an invalid issuer |
| `Pool.RootSelfCheckFailure` | certificates.go:53-56 | a root that fails its self-check makes `Validate` fail with the root's error wrapped, even when the certificate itself is fine |
| `Pool.CorruptedRootRejected` | certificates.go:53-56 | a root whose own signature does not verify is rejected as an invalid issuer, although it is trusted |
| `Pool.ValidateUsesLastRoot` | certificates.go:36-58 | against a pool built from a list of roots, validation uses the last root whose subject is the issuer |
| `Bundle.LastOutside` | certificates.go:74-81 | the position returned is outside the key set, and every later certificate is inside it; -1 means that none is outside |
| `Bundle.Intermediates` | certificates.go:73-77 | keeps exactly the certificates whose subject is an issuer key, and never more certificates than it is given |
| `Bundle.LinkOutcome` | certificates.go:102-105 | an intermediate whose issuer is not a bundle subject passes. Otherwise it passes exactly when it validates against that subject's key. A failure is the broken-chain error or a panic |
| `Bundle.ChainOutcome` | certificates.go:99-105 | passes exactly when every link passes; fails only with the broken-chain error or a panic |
| `Bundle.ChainOutcomeExtends` | certificates.go:101-105 | the first broken link decides the outcome: a failure in a prefix is the failure of the whole chain |
| `Bundle.BuildIndexes` | certificates.go:66-71 | the two loop-built maps are the last-write-wins indexes by issuer and by subject |
| `Bundle.Classify` | certificates.go:73-81 | the loop collects the intermediates in bundle order and leaves the client certificate as the last non-intermediate, or nil |
| `Bundle.CheckIntermediates` | certificates.go:99-109 | the loop fails exactly when a link fails, with that link's error; otherwise it returns the last intermediate whose issuer is not a bundle subject, or nil |
| `Bundle.BundleVerdict` | certificates.go:61-118 | the no-leaf error is returned exactly when there is no leaf. A certificate that is returned is the bundle's leaf |
| `Bundle.ValidateBundle` | certificates.go:61-118 | the result is the bundle outcome `BundleVerdict`; a returned certificate is a bundle member and not an intermediate |
| `Bundle.LeafIndex` | certificates.go:74-81 | the leaf's position is -1 or a bundle position whose subject is not a key of the issuer index |
| `Bundle.BundleIntermediates` | certificates.go:73-77 | the intermediates are no more than the bundle's certificates, each a bundle member whose subject is a key of the issuer index |
| `Bundle.ChainTopIndex` | certificates.go:99-109 | the chain-top's position is -1 or a position among the intermediates whose issuer is not a key of the subject index |
| `Bundle.BundleIssuerKey` | certificates.go:87-88 | when some bundle certificate has `c`'s issuer as subject, that issuer is in the subject index, and the key returned is the key of the certificate stored there |
| `Bundle.LeafSelection` | certificates.go:73-81 | the leaf is the last certificate in bundle order whose subject is no bundle certificate's issuer; -1 means that there is none |
| `Bundle.ChainTopSelection` | certificates.go:99-109 | the chain-top is the last intermediate whose issuer is no bundle certificate's subject; -1 means that there is none |
| `Bundle.IntermediatesAreIssuers` | certificates.go:74-77 | a certificate is an intermediate exactly when it is in the bundle and its subject is the issuer of some bundle certificate |
| `Bundle.ClientIsLastLeaf` | certificates.go:73-85 | on success, the certificate returned is the bundle's last leaf; it issued nothing in the bundle and is not an intermediate |
| `Bundle.NoLeafExactly` | certificates.go:83-85 | the no-leaf error is returned exactly when every bundle certificate issued another one, including when the bundle is empty |
| `Bundle.PoolFallback` | certificates.go:87-97 | when no bundle certificate is the leaf's issuer, the outcome is the leaf if the pool accepts it, and otherwise the pool's error wrapped |
| `Bundle.ChainOutcomeIsLinksHold` | certificates.go:101-105 | the map-based link check is the check against the last bundle certificate whose subject is each intermediate's issuer |
| `Bundle.ChainPath` | certificates.go:87-117 | when the leaf's issuer is in the bundle, the bundle passes exactly when four things hold: the leaf passes against the last certificate with that subject; every in-bundle link passes; a chain-top exists; the chain-top passes `Validate`. The certificate returned is then the leaf |
| `Bundle.SelfSignedChainRejected` | certificates.go:111-113 | when the leaf and every link pass but every intermediate's issuer is inside the bundle, the bundle is rejected as a self-signed chain |
| `Bundle.LeafErrorPassesThrough` | certificates.go:87-90 | when the leaf's issuer is in the bundle and the leaf fails against that issuer's key, the result is the leaf's own error, unwrapped |
| `Bundle.BrokenLinkRejected` | certificates.go:99-105 | when the leaf passes but some intermediate fails against its in-bundle issuer, the bundle is rejected with the broken-chain error or the panic |
| `Bundle.ChainTopErrorPassesThrough` | certificates.go:114-116 | when the leaf and every link pass and the pool rejects the chain-top, the result is the pool's error, unwrapped |
| `Bundle.BundleErrors` | certificates.go:61-118 | every rejection is the no-leaf, broken-chain or self-signed-chain error, an error `Validate` can give (a single-certificate error included), or a `Validate` error on the leaf wrapped as an unfound client issuer |
| `Bundle.ThreeLevelChainAccepted` | certificates.go:61-118 | take a pool root R, an intermediate I issued by R and a leaf L issued by I. When all three signatures check, the bundle [I, L] yields L |
| `Bundle.DirectTrust` | certificates.go:91-95 | a lone leaf that is not self-issued is accepted exactly when the pool accepts it, and the leaf is what is returned |
| `Bundle.MissingAnchorRejected` | certificates.go:99-116 | a leaf issued by a fabricated intermediate, whose issuer is neither in the bundle nor in the pool, gives the unknown-issuer error |

## Left out

- CBOR wire format (`Parse`, `Serialize`, `Bytes` and the codec handle configuration): the encoding is done by the foreign ugorji codec. `encode` is an uninterpreted `Context` field (`None` when it fails), so no round-trip or canonical-form property is stated.
- Ed25519 (`ed25519.Verify`): a foreign primitive, modelled as the uninterpreted `Context` field `verify`. The library panics on a public key that is not 32 bytes long; that panic is not modelled.
- Signature sensitivity (a change to a field defeats the signature) depends on the encoder being injective, and the encoder is uninterpreted. `SigningViewDeterminesFields` states the part the model decides.
- Wall clock (`time.Now`, `NewTime`): replaced by the integer `now` of the `Context`, one reading for a whole call. The Go code reads the clock at each comparison, with sub-second precision, so Go rejects a `now` half a second after `notAfter` and the model accepts it. `StdTime` is modelled, its int64 overflow included.
- `OverflowingNotAfterExpires` and `OverflowingNotBeforeNeverRejects` assume that `now` is at least `MinInt64`, as any reading of a real clock is.
- Nil certificate pointers (in a bundle, in the root list, or as an argument) and nil pool entries (the check at certificates.go:50): certificates are values. A pool built by `NewCertPool` never holds a nil entry, because a nil root makes Go panic at `c.Subject` before it is stored.
- Pointer identity of the returned client certificate: the model returns the certificate value, which is the bundle element at `LeafIndex`.
- Critical-extension enforcement and capability checks: the source does not implement them (the FIXME at certificates.go:65).
- Error message text: errors are kinds; a wrapped message carries its cause as a field.
- smolcert-rust/src/errors.rs holds only error declarations and conversions, and is not part of this model.
