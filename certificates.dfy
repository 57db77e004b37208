/** The smolcert certificate data model (certificates.go:150-237) and the
    deep copy used to obtain the bytes a signature covers. */
module Certificates {
  import opened Wrappers

  type Byte = b: int | 0 <= b < 0x100
  type Uint64 = n: int | 0 <= n < 0x1_0000_0000_0000_0000
  type Int64 = n: int | -0x8000_0000_0000_0000 <= n < 0x8000_0000_0000_0000

  /** Seconds since the Unix epoch (Go's `Time int64`). */
  type Time = Int64

  /** A Go slice as far as its value is concerned: `nil` is distinct from an
      empty, non-nil slice, which matters once the certificate is encoded. */
  datatype Slice<T> = Nil | Of(elems: seq<T>) {
    /** The elements; a nil slice has none. */
    function Items(): seq<T> {
      match this
      case Nil => []
      case Of(s) => s
    }
  }

  /** `append([]T{}, s...)`: a fresh, non-nil slice with the same elements. */
  function Clone<T>(s: Slice<T>): (r: Slice<T>)
    ensures r.Of? && r.Items() == s.Items()
  {
    Of(s.Items())
  }

  /** The time window of a certificate; a nil or zero bound is ignored. */
  datatype Validity = Validity(notBefore: Option<Time>, notAfter: Option<Time>)

  /** An X.509-like extension: an OID, a criticality flag and an opaque value. */
  datatype Extension = Extension(oid: Uint64, critical: bool, value: Slice<Byte>)

  datatype Certificate = Certificate(
    serialNumber: Uint64,
    issuer: string,
    validity: Option<Validity>,
    subject: string,
    pubKey: Slice<Byte>,
    extensions: Slice<Extension>,
    signature: Slice<Byte>)

  /** `Time.IsZero`: a nil pointer or the value 0 means "no constraint". */
  predicate IsZero(t: Option<Time>): (z: bool)
    ensures z <==> t == None || t == Some(0)
  {
    t.None? || t.value == 0
  }

  const MaxInt64: int := 0x7FFF_FFFF_FFFF_FFFF

  /** Seconds from the start of year 1 to the Unix epoch, which Go's
      `time.Unix` adds to its argument to get the internal representation. */
  const UnixToInternal: int := 62135596800

  /** Two's-complement 64-bit wrap-around of Go's int64 addition. */
  function WrapInt64(x: int): (r: Int64)
    ensures -0x8000_0000_0000_0000 <= x <= MaxInt64 ==> r == x
    ensures MaxInt64 < x <= 2 * MaxInt64 + 1 ==> r == x - 0x1_0000_0000_0000_0000
  {
    (x + 0x8000_0000_0000_0000) % 0x1_0000_0000_0000_0000 - 0x8000_0000_0000_0000
  }

  /** `Time.StdTime`: the Unix second of the instant `time.Unix(t, 0)`
      builds. Go adds `UnixToInternal` in int64 arithmetic, so a time above
      `MaxInt64 - UnixToInternal` overflows into the far past. */
  function StdTime(t: Time): (s: int)
    ensures t <= MaxInt64 - UnixToInternal ==> s == t
    ensures t > MaxInt64 - UnixToInternal ==> s == t - 0x1_0000_0000_0000_0000
    ensures s <= MaxInt64 - UnixToInternal
  {
    WrapInt64(t + UnixToInternal) - UnixToInternal
  }

  /** `Certificate.PublicKey`: the raw public key bytes, the very slice the
      certificate holds. */
  function PublicKey(c: Certificate): (k: Slice<Byte>)
    ensures k.Items() == c.pubKey.Items() && (k.Nil? <==> c.pubKey.Nil?)
  {
    c.pubKey
  }

  /** `Certificate.Copy`. The Go code dereferences `c.Validity`, so the
      original must carry one; the copy's slices are fresh and non-nil, the
      extension values themselves are copied as they are. */
  function Copy(c: Certificate): (r: Certificate)
    requires c.validity.Some?
    ensures r.serialNumber == c.serialNumber && r.issuer == c.issuer && r.subject == c.subject
    ensures r.validity.Some? && r.validity == c.validity
    ensures r.pubKey.Of? && r.pubKey.Items() == c.pubKey.Items()
    ensures r.extensions.Of? && r.extensions.Items() == c.extensions.Items()
    ensures r.signature.Of? && r.signature.Items() == c.signature.Items()
  {
    Certificate(
      c.serialNumber,
      c.issuer,
      Some(Validity(c.validity.value.notBefore, c.validity.value.notAfter)),
      c.subject,
      Clone(c.pubKey),
      Clone(c.extensions),
      Clone(c.signature))
  }

  /** What `validateCertificate` hands to the encoder: a copy whose
      signature has been set to nil. */
  function SigningView(c: Certificate): (v: Certificate)
    requires c.validity.Some?
    ensures v.signature == Nil && v.validity == c.validity
  {
    Copy(c).(signature := Nil)
  }

  /** The signing view differs from the certificate only in its signature
      and in the nil-ness of its key and extension slices. */
  lemma SigningViewFields(c: Certificate)
    requires c.validity.Some?
    ensures SigningView(c).signature == Nil
    ensures SigningView(c) == c.(signature := Nil, pubKey := Clone(c.pubKey), extensions := Clone(c.extensions))
  {
  }

  /** Copying is the identity on certificates whose slices are already non-nil. */
  lemma CopyOfNonNilIsIdentity(c: Certificate)
    requires c.validity.Some? && c.pubKey.Of? && c.extensions.Of? && c.signature.Of?
    ensures Copy(c) == c
  {
  }

  /** Two certificates with the same signing view agree on every field
      except the signature, up to nil versus empty slices: the signature
      covers all of them. */
  lemma SigningViewDeterminesFields(a: Certificate, b: Certificate)
    requires a.validity.Some? && b.validity.Some?
    requires SigningView(a) == SigningView(b)
    ensures a.serialNumber == b.serialNumber && a.issuer == b.issuer && a.subject == b.subject
    ensures a.validity == b.validity
    ensures a.pubKey.Items() == b.pubKey.Items() && a.extensions.Items() == b.extensions.Items()
  {
    assert Copy(a).pubKey == SigningView(a).pubKey;
    assert Copy(a).extensions == SigningView(a).extensions;
  }

  /** A certificate whose extensions are nil and one whose extensions are an
      empty slice have the same signing view. */
  lemma NilAndEmptyExtensionsSignAlike(c: Certificate)
    requires c.validity.Some?
    ensures SigningView(c.(extensions := Nil)) == SigningView(c.(extensions := Of([])))
  {
  }
}
