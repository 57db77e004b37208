/** The trust pool (certificates.go:32-59): a map from subject to root
    certificate, and validation of one certificate against it. Also the
    last-write-wins index that both `NewCertPool` and `ValidateBundle` build. */
module Pool {
  import opened Wrappers
  import opened Certificates
  import opened Validation

  /** Which field of a certificate keys an index. */
  datatype Role = BySubject | ByIssuer

  function KeyOf(c: Certificate, role: Role): (k: string)
    ensures role == BySubject ==> k == c.subject
    ensures role == ByIssuer ==> k == c.issuer
  {
    match role
    case BySubject => c.subject
    case ByIssuer => c.issuer
  }

  /** The map that `m[KeyOf(c)] = c` over `certs` in order leaves behind: a
      later certificate overwrites an earlier one with the same key. */
  function Index(certs: seq<Certificate>, role: Role): (r: map<string, Certificate>)
    ensures certs != [] ==> KeyOf(certs[|certs| - 1], role) in r && r[KeyOf(certs[|certs| - 1], role)] == certs[|certs| - 1]
    decreases |certs|
  {
    if certs == [] then map[]
    else
      var last := certs[|certs| - 1];
      Index(certs[..|certs| - 1], role)[KeyOf(last, role) := last]
  }

  /** The position of the last certificate in `certs` whose key is `k`, or -1. */
  function LastWith(certs: seq<Certificate>, role: Role, k: string): (j: int)
    ensures -1 <= j < |certs|
    ensures j >= 0 ==> KeyOf(certs[j], role) == k
    ensures forall i :: j < i < |certs| ==> KeyOf(certs[i], role) != k
    decreases |certs|
  {
    if certs == [] then -1
    else if KeyOf(certs[|certs| - 1], role) == k then |certs| - 1
    else LastWith(certs[..|certs| - 1], role, k)
  }

  /** The index holds exactly the keys that occur, each bound to the last
      certificate carrying it. */
  lemma {:induction false} IndexLastWrite(certs: seq<Certificate>, role: Role, k: string)
    ensures k in Index(certs, role) <==> LastWith(certs, role, k) >= 0
    ensures k in Index(certs, role) ==> Index(certs, role)[k] == certs[LastWith(certs, role, k)]
    decreases |certs|
  {
    if certs != [] {
      var init := certs[..|certs| - 1];
      IndexLastWrite(init, role, k);
      if KeyOf(certs[|certs| - 1], role) != k {
        assert LastWith(certs, role, k) == LastWith(init, role, k);
      }
    }
  }

  /** A key occurs in the index exactly when some certificate carries it. */
  lemma IndexKeys(certs: seq<Certificate>, role: Role, k: string)
    ensures k in Index(certs, role) <==> exists i :: 0 <= i < |certs| && KeyOf(certs[i], role) == k
  {
    IndexLastWrite(certs, role, k);
  }

  /** A pool of trusted root certificates, keyed by subject. */
  type CertPool = map<string, Certificate>

  /** `NewCertPool`: every root is stored under its subject, a later root
      replacing an earlier one with the same subject. */
  method NewCertPool(rootCerts: seq<Certificate>) returns (p: CertPool)
    ensures p == Index(rootCerts, BySubject)
    ensures forall s :: s in p <==> exists i :: 0 <= i < |rootCerts| && rootCerts[i].subject == s
    ensures forall s :: s in p ==> p[s] == rootCerts[LastWith(rootCerts, BySubject, s)]
  {
    p := map[];
    var i := 0;
    while i < |rootCerts|
      invariant 0 <= i <= |rootCerts|
      invariant p == Index(rootCerts[..i], BySubject)
    {
      var c := rootCerts[i];
      assert rootCerts[..i + 1][..i] == rootCerts[..i];
      p := p[c.subject := c];
      i := i + 1;
    }
    assert rootCerts[..i] == rootCerts;
    forall s ensures s in p <==> exists i :: 0 <= i < |rootCerts| && rootCerts[i].subject == s {
      IndexKeys(rootCerts, BySubject, s);
    }
    forall s | s in p ensures p[s] == rootCerts[LastWith(rootCerts, BySubject, s)] {
      IndexLastWrite(rootCerts, BySubject, s);
    }
  }

  /** `CertPool.Validate`: look the issuer up, re-check the root against its
      own key, then check `cert` against the root's key. */
  function Validate(ctx: Context, pool: CertPool, cert: Certificate): (r: Outcome<Error>)
    ensures cert.issuer !in pool ==> r == Fail(UnknownIssuer)
    ensures r.Pass? <==>
      && cert.issuer in pool
      && Verdict(ctx, pool[cert.issuer], PublicKey(pool[cert.issuer])).Pass?
      && Verdict(ctx, cert, PublicKey(pool[cert.issuer])).Pass?
  {
    if cert.issuer !in pool then Fail(UnknownIssuer)
    else
      var issuerCert := pool[cert.issuer];
      match Verdict(ctx, issuerCert, PublicKey(issuerCert))
      case Fail(e) => Fail(Wrap(e, IssuerInvalid(e)))
      case Pass => Verdict(ctx, cert, PublicKey(issuerCert))
  }

  /** The errors `Validate` can end with. */
  predicate IsPoolError(e: Error) {
    || e == UnknownIssuer
    || IsCertificateError(e)
    || (e.IssuerInvalid? && IsCertificateError(e.cause))
  }

  lemma ValidateErrors(ctx: Context, pool: CertPool, cert: Certificate)
    ensures Validate(ctx, pool, cert).Fail? ==> IsPoolError(Validate(ctx, pool, cert).error)
  {
  }

  /** A root that fails its own check makes `Validate` fail, with the root's
      error wrapped, whatever the certificate presented. */
  lemma RootSelfCheckFailure(ctx: Context, pool: CertPool, cert: Certificate)
    requires cert.issuer in pool
    requires Verdict(ctx, pool[cert.issuer], pool[cert.issuer].pubKey).Fail?
    ensures Validate(ctx, pool, cert).Fail?
    ensures Validate(ctx, pool, cert).error
         == Wrap(Verdict(ctx, pool[cert.issuer], pool[cert.issuer].pubKey).error,
                 IssuerInvalid(Verdict(ctx, pool[cert.issuer], pool[cert.issuer].pubKey).error))
  {
  }

  /** A trusted root whose own signature no longer verifies is rejected, even
      though it is in the pool and the presented certificate is valid. */
  lemma CorruptedRootRejected(ctx: Context, pool: CertPool, cert: Certificate)
    requires cert.issuer in pool
    requires pool[cert.issuer].validity.Some?
    requires !SignedBy(ctx, pool[cert.issuer], pool[cert.issuer].pubKey)
    ensures Validate(ctx, pool, cert).Fail?
    ensures Validate(ctx, pool, cert).error.IssuerInvalid?
  {
  }

  /** Validating against a pool built from `roots` looks at the last root
      whose subject is the certificate's issuer. */
  lemma ValidateUsesLastRoot(ctx: Context, roots: seq<Certificate>, cert: Certificate)
    requires LastWith(roots, BySubject, cert.issuer) >= 0
    ensures var root := roots[LastWith(roots, BySubject, cert.issuer)];
      Validate(ctx, Index(roots, BySubject), cert).Pass? <==>
        Verdict(ctx, root, root.pubKey).Pass? && Verdict(ctx, cert, root.pubKey).Pass?
  {
    IndexLastWrite(roots, BySubject, cert.issuer);
  }
}
