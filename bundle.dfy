/** `CertPool.ValidateBundle` (certificates.go:61-118): rebuild the chain
    leaf -> intermediates -> chain-top from an unordered bundle with two
    last-write-wins indexes, check every link, and anchor the chain-top in
    the pool. */
module Bundle {
  import opened Wrappers
  import opened Certificates
  import opened Validation
  import opened Pool

  /** The position of the last certificate of `certs` whose key is not in
      `keys`, or -1: the certificate a loop that overwrites a variable on
      every such certificate ends up holding. */
  function LastOutside(certs: seq<Certificate>, role: Role, keys: set<string>): (j: int)
    ensures -1 <= j < |certs|
    ensures j >= 0 ==> KeyOf(certs[j], role) !in keys
    ensures forall i :: j < i < |certs| ==> KeyOf(certs[i], role) in keys
    decreases |certs|
  {
    if certs == [] then -1
    else if KeyOf(certs[|certs| - 1], role) !in keys then |certs| - 1
    else LastOutside(certs[..|certs| - 1], role, keys)
  }

  /** The element at `j`, or nil when there is none. */
  function At(certs: seq<Certificate>, j: int): (o: Option<Certificate>)
    ensures o.Some? <==> 0 <= j < |certs|
    ensures o.Some? ==> o.value == certs[j] && o.value in certs
  {
    if 0 <= j < |certs| then Some(certs[j]) else None
  }

  /** The certificates of `certs` whose subject is in `issuers`. The filter
      keeps bundle order and keeps duplicates: a certificate listed twice in
      the bundle is an intermediate twice. */
  function Intermediates(certs: seq<Certificate>, issuers: set<string>): (r: seq<Certificate>)
    ensures forall c :: c in r <==> c in certs && c.subject in issuers
    ensures |r| <= |certs|
    decreases |certs|
  {
    if certs == [] then []
    else
      var last := certs[|certs| - 1];
      Intermediates(certs[..|certs| - 1], issuers) + (if last.subject in issuers then [last] else [])
  }

  /** Checking one intermediate against the issuer the bundle names for it. */
  function LinkOutcome(ctx: Context, c: Certificate, subjects: map<string, Certificate>): (r: Outcome<Error>)
    ensures c.issuer !in subjects ==> r.Pass?
    ensures c.issuer in subjects ==> (r.Pass? <==> Verdict(ctx, c, subjects[c.issuer].pubKey).Pass?)
    ensures r.Fail? ==> r.error in {BrokenChain, NilValidityPanic}
  {
    if c.issuer in subjects then
      match Verdict(ctx, c, PublicKey(subjects[c.issuer]))
      case Fail(e) => Fail(Wrap(e, BrokenChain))
      case Pass => Pass
    else Pass
  }

  /** Checking the intermediates in order, stopping at the first broken link. */
  function ChainOutcome(ctx: Context, inters: seq<Certificate>, subjects: map<string, Certificate>): (r: Outcome<Error>)
    ensures r.Pass? <==> forall i :: 0 <= i < |inters| ==> LinkOutcome(ctx, inters[i], subjects).Pass?
    ensures r.Fail? ==> r.error in {BrokenChain, NilValidityPanic}
    decreases |inters|
  {
    if inters == [] then Pass
    else
      match ChainOutcome(ctx, inters[..|inters| - 1], subjects)
      case Fail(e) => Fail(e)
      case Pass => LinkOutcome(ctx, inters[|inters| - 1], subjects)
  }

  /** A broken link in a prefix decides the outcome of the whole chain. */
  lemma {:induction false} ChainOutcomeExtends(ctx: Context, inters: seq<Certificate>, subjects: map<string, Certificate>, n: nat)
    requires n <= |inters|
    requires ChainOutcome(ctx, inters[..n], subjects).Fail?
    ensures ChainOutcome(ctx, inters, subjects) == ChainOutcome(ctx, inters[..n], subjects)
    decreases |inters| - n
  {
    if n < |inters| {
      var init := inters[..|inters| - 1];
      assert init[..n] == inters[..n];
      ChainOutcomeExtends(ctx, init, subjects, n);
    } else {
      assert inters[..n] == inters;
    }
  }

  /** The leaf's position: the last certificate whose subject issued nothing in the bundle. */
  function LeafIndex(bundle: seq<Certificate>): (i: int)
    ensures -1 <= i < |bundle|
    ensures i >= 0 ==> bundle[i].subject !in Index(bundle, ByIssuer)
  {
    LastOutside(bundle, BySubject, Index(bundle, ByIssuer).Keys)
  }

  /** The intermediates: the certificates whose subject issued something in the bundle. */
  function BundleIntermediates(bundle: seq<Certificate>): (r: seq<Certificate>)
    ensures |r| <= |bundle|
    ensures forall c :: c in r ==> c in bundle && c.subject in Index(bundle, ByIssuer)
  {
    Intermediates(bundle, Index(bundle, ByIssuer).Keys)
  }

  /** The chain-top's position among the intermediates: the last one whose
      issuer is no subject in the bundle. */
  function ChainTopIndex(bundle: seq<Certificate>): (t: int)
    ensures -1 <= t < |BundleIntermediates(bundle)|
    ensures t >= 0 ==> BundleIntermediates(bundle)[t].issuer !in Index(bundle, BySubject)
  {
    LastOutside(BundleIntermediates(bundle), ByIssuer, Index(bundle, BySubject).Keys)
  }

  /** The outcome of `ValidateBundle(bundle)` against `pool` at time `ctx.now`. */
  function BundleVerdict(ctx: Context, pool: CertPool, bundle: seq<Certificate>): (r: Result<Certificate, Error>)
    ensures r == Err(NoLeaf) <==> LeafIndex(bundle) < 0
    ensures r.Ok? ==> LeafIndex(bundle) >= 0 && r.value == bundle[LeafIndex(bundle)]
  {
    var subjectMap := Index(bundle, BySubject);
    var leaf := LeafIndex(bundle);
    if leaf < 0 then Err(NoLeaf)
    else
      var client := bundle[leaf];
      if client.issuer !in subjectMap then
        ValidateErrors(ctx, pool, client);
        match Validate(ctx, pool, client)
        case Pass => Ok(client)
        case Fail(e) => Err(Wrap(e, ClientIssuerNotFound(e)))
      else
        match Verdict(ctx, client, PublicKey(subjectMap[client.issuer]))
        case Fail(e) => Err(e)
        case Pass =>
          var inters := BundleIntermediates(bundle);
          match ChainOutcome(ctx, inters, subjectMap)
          case Fail(e) => Err(e)
          case Pass =>
            var top := ChainTopIndex(bundle);
            if top < 0 then Err(SelfSignedChain)
            else
              ValidateErrors(ctx, pool, inters[top]);
              match Validate(ctx, pool, inters[top])
              case Fail(e) => Err(e)
              case Pass => Ok(client)
  }

  /** The first loop of `ValidateBundle`: index the bundle by issuer and by
      subject, a later certificate overwriting an earlier one. */
  method BuildIndexes(certBundle: seq<Certificate>)
    returns (issuerMap: map<string, Certificate>, subjectMap: map<string, Certificate>)
    ensures issuerMap == Index(certBundle, ByIssuer)
    ensures subjectMap == Index(certBundle, BySubject)
  {
    issuerMap, subjectMap := map[], map[];
    var i := 0;
    while i < |certBundle|
      invariant 0 <= i <= |certBundle|
      invariant issuerMap == Index(certBundle[..i], ByIssuer)
      invariant subjectMap == Index(certBundle[..i], BySubject)
    {
      var cert := certBundle[i];
      assert certBundle[..i + 1][..i] == certBundle[..i];
      issuerMap := issuerMap[cert.issuer := cert];
      subjectMap := subjectMap[cert.subject := cert];
      i := i + 1;
    }
    assert certBundle[..i] == certBundle;
  }

  /** The second loop of `ValidateBundle`: a certificate whose subject is
      an issuer key is an intermediate, any other one overwrites the client
      certificate, so the last non-intermediate wins. */
  method Classify(certBundle: seq<Certificate>, issuerMap: map<string, Certificate>)
    returns (intermediateCerts: seq<Certificate>, clientCert: Option<Certificate>)
    ensures intermediateCerts == Intermediates(certBundle, issuerMap.Keys)
    ensures clientCert == At(certBundle, LastOutside(certBundle, BySubject, issuerMap.Keys))
  {
    intermediateCerts, clientCert := [], None;
    var i := 0;
    while i < |certBundle|
      invariant 0 <= i <= |certBundle|
      invariant intermediateCerts == Intermediates(certBundle[..i], issuerMap.Keys)
      invariant clientCert == At(certBundle[..i], LastOutside(certBundle[..i], BySubject, issuerMap.Keys))
    {
      var cert := certBundle[i];
      assert certBundle[..i + 1][..i] == certBundle[..i];
      if cert.subject in issuerMap {
        intermediateCerts := intermediateCerts + [cert];
      } else {
        clientCert := Some(cert);
      }
      i := i + 1;
    }
    assert certBundle[..i] == certBundle;
  }

  /** The third loop of `ValidateBundle`: check every intermediate whose
      issuer is in the bundle, stopping at the first failure, and keep the
      last intermediate whose issuer is not as the chain-top. */
  method CheckIntermediates(ctx: Context, intermediateCerts: seq<Certificate>, subjectMap: map<string, Certificate>)
    returns (r: Result<Option<Certificate>, Error>)
    ensures r.Err? <==> ChainOutcome(ctx, intermediateCerts, subjectMap).Fail?
    ensures r.Err? ==> r.error == ChainOutcome(ctx, intermediateCerts, subjectMap).error
    ensures r.Ok? ==> r.value == At(intermediateCerts, LastOutside(intermediateCerts, ByIssuer, subjectMap.Keys))
  {
    var chainTopCert: Option<Certificate> := None;
    var i := 0;
    while i < |intermediateCerts|
      invariant 0 <= i <= |intermediateCerts|
      invariant ChainOutcome(ctx, intermediateCerts[..i], subjectMap) == Pass
      invariant chainTopCert == At(intermediateCerts[..i], LastOutside(intermediateCerts[..i], ByIssuer, subjectMap.Keys))
    {
      var cert := intermediateCerts[i];
      assert intermediateCerts[..i + 1][..i] == intermediateCerts[..i];
      if cert.issuer in subjectMap {
        var e := ValidateCertificate(ctx, cert, PublicKey(subjectMap[cert.issuer]));
        if e.Fail? {
          ChainOutcomeExtends(ctx, intermediateCerts, subjectMap, i + 1);
          return Err(Wrap(e.error, BrokenChain));
        }
      } else {
        chainTopCert := Some(cert);
      }
      i := i + 1;
    }
    assert intermediateCerts[..i] == intermediateCerts;
    return Ok(chainTopCert);
  }

  /** `CertPool.ValidateBundle`. */
  method ValidateBundle(ctx: Context, pool: CertPool, certBundle: seq<Certificate>) returns (r: Result<Certificate, Error>)
    ensures r == BundleVerdict(ctx, pool, certBundle)
    ensures r.Ok? ==> r.value in certBundle && r.value !in BundleIntermediates(certBundle)
  {
    var issuerMap, subjectMap := BuildIndexes(certBundle);
    var intermediateCerts, clientCert := Classify(certBundle, issuerMap);

    if clientCert.None? {
      return Err(NoLeaf);
    }
    var client := clientCert.value;
    if client.issuer in subjectMap {
      var e := ValidateCertificate(ctx, client, PublicKey(subjectMap[client.issuer]));
      if e.Fail? {
        return Err(e.error);
      }
    } else {
      // the certificate may already be trusted through the pool
      var e := Validate(ctx, pool, client);
      if e.Pass? {
        return Ok(client);
      }
      return Err(Wrap(e.error, ClientIssuerNotFound(e.error)));
    }

    var chain := CheckIntermediates(ctx, intermediateCerts, subjectMap);
    if chain.Err? {
      return Err(chain.error);
    }
    var chainTopCert := chain.value;
    if chainTopCert.None? {
      return Err(SelfSignedChain);
    }
    var e := Validate(ctx, pool, chainTopCert.value);
    if e.Fail? {
      return Err(e.error);
    }
    return Ok(client);
  }

  /** No certificate of the bundle names `s` as its issuer. */
  predicate IssuesNothing(bundle: seq<Certificate>, s: string) {
    forall k :: 0 <= k < |bundle| ==> bundle[k].issuer != s
  }

  /** No certificate of the bundle has `s` as its subject. */
  predicate NoSubject(bundle: seq<Certificate>, s: string) {
    forall k :: 0 <= k < |bundle| ==> bundle[k].subject != s
  }

  /** The leaf is the last certificate in bundle order whose subject is no
      one's issuer in the bundle; when there is none, the index is -1. */
  lemma LeafSelection(bundle: seq<Certificate>)
    ensures -1 <= LeafIndex(bundle) < |bundle|
    ensures LeafIndex(bundle) >= 0 ==> IssuesNothing(bundle, bundle[LeafIndex(bundle)].subject)
    ensures forall j :: LeafIndex(bundle) < j < |bundle| ==> !IssuesNothing(bundle, bundle[j].subject)
  {
    forall j | 0 <= j < |bundle| ensures bundle[j].subject in Index(bundle, ByIssuer) <==> !IssuesNothing(bundle, bundle[j].subject) {
      IndexKeys(bundle, ByIssuer, bundle[j].subject);
    }
  }

  /** The chain-top is the last intermediate whose issuer is no subject in
      the bundle; when there is none, the index is -1. */
  lemma ChainTopSelection(bundle: seq<Certificate>)
    ensures -1 <= ChainTopIndex(bundle) < |BundleIntermediates(bundle)|
    ensures ChainTopIndex(bundle) >= 0 ==> NoSubject(bundle, BundleIntermediates(bundle)[ChainTopIndex(bundle)].issuer)
    ensures forall j :: ChainTopIndex(bundle) < j < |BundleIntermediates(bundle)| ==> !NoSubject(bundle, BundleIntermediates(bundle)[j].issuer)
  {
    var inters := BundleIntermediates(bundle);
    forall j | 0 <= j < |inters| ensures inters[j].issuer in Index(bundle, BySubject) <==> !NoSubject(bundle, inters[j].issuer) {
      IndexKeys(bundle, BySubject, inters[j].issuer);
    }
  }

  /** The intermediates are exactly the bundle members whose subject is some
      bundle certificate's issuer. */
  lemma IntermediatesAreIssuers(bundle: seq<Certificate>, c: Certificate)
    ensures c in BundleIntermediates(bundle) <==> c in bundle && !IssuesNothing(bundle, c.subject)
  {
    IndexKeys(bundle, ByIssuer, c.subject);
  }

  /** A returned client certificate is the leaf: a bundle member that issued
      nothing in the bundle, the last such in bundle order, and not an
      intermediate. */
  lemma ClientIsLastLeaf(ctx: Context, pool: CertPool, bundle: seq<Certificate>)
    requires BundleVerdict(ctx, pool, bundle).Ok?
    ensures LeafIndex(bundle) >= 0 && BundleVerdict(ctx, pool, bundle).value == bundle[LeafIndex(bundle)]
    ensures IssuesNothing(bundle, BundleVerdict(ctx, pool, bundle).value.subject)
    ensures forall j :: LeafIndex(bundle) < j < |bundle| ==> !IssuesNothing(bundle, bundle[j].subject)
    ensures BundleVerdict(ctx, pool, bundle).value !in BundleIntermediates(bundle)
  {
    LeafSelection(bundle);
    IntermediatesAreIssuers(bundle, bundle[LeafIndex(bundle)]);
  }

  /** `NoLeaf` is returned exactly when every certificate issued another one
      in the bundle (an empty bundle included). */
  lemma NoLeafExactly(ctx: Context, pool: CertPool, bundle: seq<Certificate>)
    ensures BundleVerdict(ctx, pool, bundle) == Err(NoLeaf) <==>
      forall j :: 0 <= j < |bundle| ==> !IssuesNothing(bundle, bundle[j].subject)
  {
    LeafSelection(bundle);
    var leaf := LeafIndex(bundle);
    if leaf >= 0 {
      assert IssuesNothing(bundle, bundle[leaf].subject);
    }
  }

  /** When no bundle certificate is the leaf's issuer, the outcome is that of
      validating the leaf directly against the pool. */
  lemma PoolFallback(ctx: Context, pool: CertPool, bundle: seq<Certificate>)
    requires LeafIndex(bundle) >= 0
    requires NoSubject(bundle, bundle[LeafIndex(bundle)].issuer)
    ensures var leaf := bundle[LeafIndex(bundle)];
      BundleVerdict(ctx, pool, bundle)
        == match Validate(ctx, pool, leaf)
           case Pass => Ok(leaf)
           case Fail(e) => Err(Wrap(e, ClientIssuerNotFound(e)))
  {
    IndexKeys(bundle, BySubject, bundle[LeafIndex(bundle)].issuer);
  }

  /** The key the bundle supplies for certificate `c`: that of the last
      bundle certificate whose subject is `c`'s issuer. */
  function BundleIssuerKey(bundle: seq<Certificate>, c: Certificate): (k: Slice<Byte>)
    requires LastWith(bundle, BySubject, c.issuer) >= 0
    ensures c.issuer in Index(bundle, BySubject) && k == Index(bundle, BySubject)[c.issuer].pubKey
  {
    IndexLastWrite(bundle, BySubject, c.issuer);
    bundle[LastWith(bundle, BySubject, c.issuer)].pubKey
  }

  /** Every intermediate whose issuer is in the bundle validates against that
      issuer's key. */
  predicate LinksHold(ctx: Context, bundle: seq<Certificate>) {
    var inters := BundleIntermediates(bundle);
    forall m :: 0 <= m < |inters| && LastWith(bundle, BySubject, inters[m].issuer) >= 0 ==>
      Verdict(ctx, inters[m], BundleIssuerKey(bundle, inters[m])).Pass?
  }

  /** The links of the index-based chain check are those against the last
      bundle certificate with the issuer's subject. */
  lemma ChainOutcomeIsLinksHold(ctx: Context, bundle: seq<Certificate>)
    ensures ChainOutcome(ctx, BundleIntermediates(bundle), Index(bundle, BySubject)).Pass? <==> LinksHold(ctx, bundle)
  {
    var inters := BundleIntermediates(bundle);
    forall m | 0 <= m < |inters|
      ensures LinkOutcome(ctx, inters[m], Index(bundle, BySubject)).Pass? <==>
        (LastWith(bundle, BySubject, inters[m].issuer) >= 0 ==> Verdict(ctx, inters[m], BundleIssuerKey(bundle, inters[m])).Pass?)
    {
      IndexLastWrite(bundle, BySubject, inters[m].issuer);
    }
  }

  /** When the leaf's issuer is in the bundle, the bundle is accepted exactly
      when the leaf validates against the last certificate with that subject,
      every in-bundle link holds, a chain-top exists and it passes the pool;
      the certificate returned is then the leaf. */
  lemma ChainPath(ctx: Context, pool: CertPool, bundle: seq<Certificate>)
    requires LeafIndex(bundle) >= 0
    requires LastWith(bundle, BySubject, bundle[LeafIndex(bundle)].issuer) >= 0
    ensures var leaf := bundle[LeafIndex(bundle)];
      BundleVerdict(ctx, pool, bundle).Ok? <==>
        && Verdict(ctx, leaf, BundleIssuerKey(bundle, leaf)).Pass?
        && LinksHold(ctx, bundle)
        && ChainTopIndex(bundle) >= 0
        && Validate(ctx, pool, BundleIntermediates(bundle)[ChainTopIndex(bundle)]).Pass?
    ensures BundleVerdict(ctx, pool, bundle).Ok? ==> BundleVerdict(ctx, pool, bundle).value == bundle[LeafIndex(bundle)]
  {
    IndexLastWrite(bundle, BySubject, bundle[LeafIndex(bundle)].issuer);
    ChainOutcomeIsLinksHold(ctx, bundle);
  }

  /** A chain whose every intermediate's issuer is inside the bundle has no
      anchor: once the leaf and the links hold, it is rejected. */
  lemma SelfSignedChainRejected(ctx: Context, pool: CertPool, bundle: seq<Certificate>)
    requires LeafIndex(bundle) >= 0
    requires LastWith(bundle, BySubject, bundle[LeafIndex(bundle)].issuer) >= 0
    requires Verdict(ctx, bundle[LeafIndex(bundle)], BundleIssuerKey(bundle, bundle[LeafIndex(bundle)])).Pass?
    requires LinksHold(ctx, bundle)
    requires forall m :: 0 <= m < |BundleIntermediates(bundle)| ==> !NoSubject(bundle, BundleIntermediates(bundle)[m].issuer)
    ensures BundleVerdict(ctx, pool, bundle) == Err(SelfSignedChain)
  {
    IndexLastWrite(bundle, BySubject, bundle[LeafIndex(bundle)].issuer);
    ChainOutcomeIsLinksHold(ctx, bundle);
    ChainTopSelection(bundle);
  }

  /** On the chain path, a leaf that fails against its in-bundle issuer's
      key ends the validation with its own error, unwrapped. */
  lemma LeafErrorPassesThrough(ctx: Context, pool: CertPool, bundle: seq<Certificate>)
    requires LeafIndex(bundle) >= 0
    requires LastWith(bundle, BySubject, bundle[LeafIndex(bundle)].issuer) >= 0
    requires Verdict(ctx, bundle[LeafIndex(bundle)], BundleIssuerKey(bundle, bundle[LeafIndex(bundle)])).Fail?
    ensures BundleVerdict(ctx, pool, bundle)
      == Err(Verdict(ctx, bundle[LeafIndex(bundle)], BundleIssuerKey(bundle, bundle[LeafIndex(bundle)])).error)
  {
    IndexLastWrite(bundle, BySubject, bundle[LeafIndex(bundle)].issuer);
  }

  /** On the chain path, once the leaf passes, a link that fails against its
      in-bundle issuer rejects the bundle as a broken chain, or with the
      panic of a certificate without validity. */
  lemma BrokenLinkRejected(ctx: Context, pool: CertPool, bundle: seq<Certificate>)
    requires LeafIndex(bundle) >= 0
    requires LastWith(bundle, BySubject, bundle[LeafIndex(bundle)].issuer) >= 0
    requires Verdict(ctx, bundle[LeafIndex(bundle)], BundleIssuerKey(bundle, bundle[LeafIndex(bundle)])).Pass?
    requires !LinksHold(ctx, bundle)
    ensures BundleVerdict(ctx, pool, bundle).Err?
    ensures BundleVerdict(ctx, pool, bundle).error in {BrokenChain, NilValidityPanic}
  {
    IndexLastWrite(bundle, BySubject, bundle[LeafIndex(bundle)].issuer);
    ChainOutcomeIsLinksHold(ctx, bundle);
  }

  /** On the chain path, once the leaf and every link pass, a chain-top that
      the pool rejects ends the validation with the pool's error, unwrapped. */
  lemma ChainTopErrorPassesThrough(ctx: Context, pool: CertPool, bundle: seq<Certificate>)
    requires LeafIndex(bundle) >= 0
    requires LastWith(bundle, BySubject, bundle[LeafIndex(bundle)].issuer) >= 0
    requires Verdict(ctx, bundle[LeafIndex(bundle)], BundleIssuerKey(bundle, bundle[LeafIndex(bundle)])).Pass?
    requires LinksHold(ctx, bundle)
    requires ChainTopIndex(bundle) >= 0
    requires Validate(ctx, pool, BundleIntermediates(bundle)[ChainTopIndex(bundle)]).Fail?
    ensures BundleVerdict(ctx, pool, bundle)
      == Err(Validate(ctx, pool, BundleIntermediates(bundle)[ChainTopIndex(bundle)]).error)
  {
    IndexLastWrite(bundle, BySubject, bundle[LeafIndex(bundle)].issuer);
    ChainOutcomeIsLinksHold(ctx, bundle);
  }

  /** The errors `ValidateBundle` can end with. */
  predicate IsBundleError(e: Error) {
    || e in {NoLeaf, BrokenChain, SelfSignedChain}
    || IsPoolError(e)
    || (e.ClientIssuerNotFound? && IsPoolError(e.cause))
  }

  /** Every rejection of a bundle is one of the errors above: the missing
      leaf, a broken link, a chain without anchor, an error of the leaf or of
      the pool returned as it is, or a pool error on the leaf wrapped as an
      unfound client issuer. */
  lemma BundleErrors(ctx: Context, pool: CertPool, bundle: seq<Certificate>)
    ensures BundleVerdict(ctx, pool, bundle).Err? ==> IsBundleError(BundleVerdict(ctx, pool, bundle).error)
  {
    var leaf := LeafIndex(bundle);
    if leaf >= 0 {
      ValidateErrors(ctx, pool, bundle[leaf]);
      var top := ChainTopIndex(bundle);
      if top >= 0 {
        ValidateErrors(ctx, pool, BundleIntermediates(bundle)[top]);
      }
    }
  }

  /** The indexes and the intermediates of a bundle of two certificates. */
  lemma PairShape(a: Certificate, b: Certificate)
    ensures Index([a, b], ByIssuer) == map[a.issuer := a][b.issuer := b]
    ensures Index([a, b], BySubject) == map[a.subject := a][b.subject := b]
    ensures b.subject !in {a.issuer, b.issuer} && a.subject in {a.issuer, b.issuer} ==>
      BundleIntermediates([a, b]) == [a] && LeafIndex([a, b]) == 1
  {
    assert [a, b][..1] == [a];
    assert [a][..0] == [];
    assert Index([a], ByIssuer) == map[a.issuer := a];
    assert Index([a], BySubject) == map[a.subject := a];
    var keys := Index([a, b], ByIssuer).Keys;
    assert Intermediates([a, b], keys) == Intermediates([a], keys) + (if b.subject in keys then [b] else []);
    assert Intermediates([a], keys) == Intermediates([], keys) + (if a.subject in keys then [a] else []);
  }

  /** Root R in the pool, intermediate I issued by R, leaf L issued by I:
      the bundle [I, L] yields L once the three signatures check. */
  lemma ThreeLevelChainAccepted(ctx: Context, root: Certificate, inter: Certificate, leaf: Certificate)
    requires inter.issuer == root.subject && leaf.issuer == inter.subject
    requires root.subject != inter.subject && leaf.subject != root.subject && leaf.subject != inter.subject
    requires Verdict(ctx, root, root.pubKey).Pass?
    requires Verdict(ctx, inter, root.pubKey).Pass?
    requires Verdict(ctx, leaf, inter.pubKey).Pass?
    ensures BundleVerdict(ctx, Index([root], BySubject), [inter, leaf]) == Ok(leaf)
  {
    assert [root][..0] == [];
    PairShape(inter, leaf);
    assert [inter][..0] == [];
    assert ChainTopIndex([inter, leaf]) == 0;
  }

  /** A lone leaf whose issuer is a pool root is accepted through the pool
      fallback exactly when the pool accepts it. */
  lemma DirectTrust(ctx: Context, pool: CertPool, leaf: Certificate)
    requires leaf.subject != leaf.issuer
    ensures BundleVerdict(ctx, pool, [leaf]).Ok? <==> Validate(ctx, pool, leaf).Pass?
    ensures BundleVerdict(ctx, pool, [leaf]).Ok? ==> BundleVerdict(ctx, pool, [leaf]).value == leaf
  {
    assert [leaf][..0] == [];
    assert Index([leaf], ByIssuer) == map[leaf.issuer := leaf];
    assert Index([leaf], BySubject) == map[leaf.subject := leaf];
    assert LeafIndex([leaf]) == 0;
  }

  /** A leaf issued by a fabricated intermediate whose issuer is neither in
      the bundle nor in the pool is rejected, against the pool, as issued by
      an unknown issuer. */
  lemma MissingAnchorRejected(ctx: Context, pool: CertPool, fake: Certificate, leaf: Certificate)
    requires leaf.issuer == fake.subject
    requires fake.issuer != fake.subject && fake.issuer != leaf.subject && fake.issuer !in pool
    requires leaf.subject != fake.subject && leaf.subject != fake.issuer
    requires Verdict(ctx, leaf, fake.pubKey).Pass?
    ensures BundleVerdict(ctx, pool, [fake, leaf]) == Err(UnknownIssuer)
  {
    PairShape(fake, leaf);
    assert [fake][..0] == [];
    assert ChainTopIndex([fake, leaf]) == 0;
  }
}
