/** Single-certificate validation, `validateCertificate`
    (certificates.go:120-148): the time window, then the signature over the
    encoding of a signature-cleared copy. */
module Validation {
  import opened Wrappers
  import opened Certificates

  /** The errors of the trust engine, one per message the Go code returns.
      `NilValidityPanic` is not a returned error: it stands for the run-time
      panic of `Copy` on a certificate without validity, and every caller
      passes it on unchanged, as a panic unwinds. */
  datatype Error =
    | UnknownIssuer                       // not signed by a known issuer
    | IssuerInvalid(cause: Error)         // the pool's root failed its self-check
    | NotYetValid
    | Expired
    | EncodeFailed                        // the certificate could not be serialized
    | BadSignature
    | NoLeaf                              // no non-intermediate certificate in the bundle
    | ClientIssuerNotFound(cause: Error)  // leaf issuer neither in the bundle nor trusted
    | BrokenChain                         // an intermediate failed against its issuer
    | SelfSignedChain                     // no intermediate reaches outside the bundle
    | NilValidityPanic

  /** `errors.New(msg + inner.Error())`, except that a panic is never wrapped. */
  function Wrap(inner: Error, outer: Error): (e: Error)
    ensures inner == NilValidityPanic ==> e == NilValidityPanic
    ensures inner != NilValidityPanic ==> e == outer
  {
    if inner == NilValidityPanic then inner else outer
  }

  /** The errors `validateCertificate` can end with. */
  predicate IsCertificateError(e: Error) {
    e in {NilValidityPanic, NotYetValid, Expired, EncodeFailed, BadSignature}
  }

  /** What validation reads from outside the package: the wall clock in
      Unix seconds (a reading of a real clock, so far from int64 overflow),
      the CBOR encoder (`None` when serialization fails) and Ed25519
      verification of (public key, message, signature). */
  datatype Context = Context(
    now: int,
    encode: Certificate -> Option<seq<Byte>>,
    verify: (seq<Byte>, seq<Byte>, seq<Byte>) -> bool)

  /** `now` lies in the window: every bound that is not zero is respected,
      as the instant `StdTime` turns it into. */
  predicate WithinWindow(now: int, v: Validity): (b: bool)
    ensures IsZero(v.notBefore) && IsZero(v.notAfter) ==> b
    ensures (v.notBefore.Some? && v.notBefore.value != 0 && v.notBefore.value <= MaxInt64 - UnixToInternal
             && now < v.notBefore.value) ==> !b
    ensures v.notAfter.Some? && v.notAfter.value != 0 && now > v.notAfter.value ==> !b
  {
    && (IsZero(v.notBefore) || StdTime(v.notBefore.value) <= now)
    && (IsZero(v.notAfter) || now <= StdTime(v.notAfter.value))
  }

  /** The certificate's own signature verifies under `key` over the encoding
      of its signing view. */
  predicate SignedBy(ctx: Context, c: Certificate, key: Slice<Byte>): (b: bool)
    requires c.validity.Some?
    ensures var view := c.(signature := Nil, pubKey := Clone(c.pubKey), extensions := Clone(c.extensions));
      b <==> ctx.encode(view).Some? && ctx.verify(key.Items(), ctx.encode(view).value, c.signature.Items())
  {
    SigningViewFields(c);
    var bytes := ctx.encode(SigningView(c));
    bytes.Some? && ctx.verify(key.Items(), bytes.value, c.signature.Items())
  }

  /** The outcome of `validateCertificate(c, key)` at time `ctx.now`. */
  function Verdict(ctx: Context, c: Certificate, key: Slice<Byte>): (r: Outcome<Error>)
    ensures r.Pass? <==> c.validity.Some? && WithinWindow(ctx.now, c.validity.value) && SignedBy(ctx, c, key)
    ensures r.Fail? ==> IsCertificateError(r.error)
  {
    if c.validity.None? then Fail(NilValidityPanic)
    else
      var v := c.validity.value;
      if !IsZero(v.notBefore) && ctx.now < StdTime(v.notBefore.value) then Fail(NotYetValid)
      else if !IsZero(v.notAfter) && ctx.now > StdTime(v.notAfter.value) then Fail(Expired)
      else
        match ctx.encode(SigningView(c))
        case None => Fail(EncodeFailed)
        case Some(bytes) =>
          if ctx.verify(key.Items(), bytes, c.signature.Items()) then Pass else Fail(BadSignature)
  }

  /** `validateCertificate`: works on a copy, checks the window, clears the
      copy's signature, encodes it and verifies the detached signature. The
      caller's certificate is a value and stays as it was. */
  method ValidateCertificate(ctx: Context, origCert: Certificate, pubKey: Slice<Byte>) returns (r: Outcome<Error>)
    ensures r == Verdict(ctx, origCert, pubKey)
    ensures r.Pass? ==> ctx.verify(pubKey.Items(), ctx.encode(SigningView(origCert)).value, origCert.signature.Items())
  {
    if origCert.validity.None? {
      // Copy dereferences the nil Validity
      return Fail(NilValidityPanic);
    }
    var cert := Copy(origCert);
    if !IsZero(cert.validity.value.notBefore) {
      var notBefore := StdTime(cert.validity.value.notBefore.value);
      if ctx.now < notBefore {
        return Fail(NotYetValid);
      }
    }
    if !IsZero(cert.validity.value.notAfter) {
      var notAfter := StdTime(cert.validity.value.notAfter.value);
      if ctx.now > notAfter {
        return Fail(Expired);
      }
    }
    var sig := cert.signature;
    cert := cert.(signature := Nil);
    var certBytes := ctx.encode(cert);
    if certBytes.None? {
      return Fail(EncodeFailed);
    }
    if !ctx.verify(pubKey.Items(), certBytes.value, sig.Items()) {
      return Fail(BadSignature);
    }
    return Pass;
  }

  /** A non-zero `notBefore` later than now rejects the certificate as not
      yet valid, for every bound `time.Unix` represents without overflow. */
  lemma NotYetValidRejected(ctx: Context, c: Certificate, key: Slice<Byte>)
    requires c.validity.Some? && !IsZero(c.validity.value.notBefore)
    requires c.validity.value.notBefore.value <= MaxInt64 - UnixToInternal
    requires ctx.now < c.validity.value.notBefore.value
    ensures Verdict(ctx, c, key) == Fail(NotYetValid)
  {
  }

  /** A non-zero `notAfter` earlier than now rejects the certificate as expired,
      unless it is already rejected as not yet valid. */
  lemma ExpiredRejected(ctx: Context, c: Certificate, key: Slice<Byte>)
    requires c.validity.Some? && !IsZero(c.validity.value.notAfter)
    requires ctx.now > c.validity.value.notAfter.value
    ensures Verdict(ctx, c, key) in {Fail(NotYetValid), Fail(Expired)}
    ensures IsZero(c.validity.value.notBefore) || StdTime(c.validity.value.notBefore.value) <= ctx.now
      ==> Verdict(ctx, c, key) == Fail(Expired)
  {
  }

  /** A `notAfter` so large that `time.Unix` overflows, `MaxInt64` ("never
      expires") among them, lies in the far past: the certificate is
      rejected as expired at any real clock reading. */
  lemma OverflowingNotAfterExpires(ctx: Context, c: Certificate, key: Slice<Byte>)
    requires c.validity.Some? && c.validity.value.notAfter.Some?
    requires c.validity.value.notAfter.value > MaxInt64 - UnixToInternal
    requires IsZero(c.validity.value.notBefore)
    requires ctx.now >= -0x8000_0000_0000_0000
    ensures Verdict(ctx, c, key) == Fail(Expired)
  {
  }

  /** A `notBefore` so large that `time.Unix` overflows lies in the far past:
      it never rejects the certificate as not yet valid. */
  lemma OverflowingNotBeforeNeverRejects(ctx: Context, c: Certificate, key: Slice<Byte>)
    requires c.validity.Some? && c.validity.value.notBefore.Some?
    requires c.validity.value.notBefore.value > MaxInt64 - UnixToInternal
    requires ctx.now >= -0x8000_0000_0000_0000
    ensures Verdict(ctx, c, key) != Fail(NotYetValid)
  {
  }

  /** Nil or zero bounds never cause a time rejection: the outcome is decided
      by the signature alone. */
  lemma ZeroBoundsNeverReject(ctx: Context, c: Certificate, key: Slice<Byte>)
    requires c.validity.Some? && IsZero(c.validity.value.notBefore) && IsZero(c.validity.value.notAfter)
    ensures Verdict(ctx, c, key).Pass? <==> SignedBy(ctx, c, key)
    ensures Verdict(ctx, c, key) !in {Fail(NotYetValid), Fail(Expired)}
  {
  }

  /** Each bound on its own: a nil or zero `notBefore` never gives the
      not-yet-valid error and a nil or zero `notAfter` never gives the
      expired error, whatever the other bound is. */
  lemma ZeroBoundIgnored(ctx: Context, c: Certificate, key: Slice<Byte>)
    requires c.validity.Some?
    ensures IsZero(c.validity.value.notBefore) ==> Verdict(ctx, c, key) != Fail(NotYetValid)
    ensures IsZero(c.validity.value.notAfter) ==> Verdict(ctx, c, key) != Fail(Expired)
  {
  }

  /** Inside its window, a certificate is accepted exactly when the
      detached signature verifies over the signature-cleared encoding; an
      encoder failure and a bad signature are told apart. */
  lemma SignatureDecides(ctx: Context, c: Certificate, key: Slice<Byte>)
    requires c.validity.Some? && WithinWindow(ctx.now, c.validity.value)
    ensures ctx.encode(SigningView(c)).None? ==> Verdict(ctx, c, key) == Fail(EncodeFailed)
    ensures ctx.encode(SigningView(c)).Some? ==>
      (Verdict(ctx, c, key) == if ctx.verify(key.Items(), ctx.encode(SigningView(c)).value, c.signature.Items())
                               then Pass else Fail(BadSignature))
  {
  }

  /** The original signature, not the cleared one, is what is verified, and
      the encoder sees the certificate with a nil signature. */
  lemma VerifiesDetachedSignature(ctx: Context, c: Certificate, key: Slice<Byte>)
    requires Verdict(ctx, c, key).Pass?
    ensures c.validity.Some?
    ensures ctx.encode(SigningView(c)).Some?
    ensures SigningView(c).signature == Nil
    ensures ctx.verify(key.Items(), ctx.encode(SigningView(c)).value, c.signature.Items())
  {
  }
}
