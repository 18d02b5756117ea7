/**
 * The certificate branch of the scanner: an X509 candidate's subject name
 * becomes a file name, and its to-be-signed body, signature algorithm OID
 * and signature are written back as one DER certificate
 *   SEQUENCE { tbsCertificate, AlgorithmIdentifier { OID, NULL }, BIT STRING }
 * (section 4.1 of RFC 5280), with the outer and BIT STRING lengths in the
 * two-octet long form of section 8.1.3.5 of ITU-T X.690 and a zero
 * unused-bits octet (section 8.6.2).
 */
module Certificates {
  import opened Wrappers
  import opened Memory
  import opened Structs

  const Slash: Byte := 0x2f
  const Underscore: Byte := 0x5f

  /** ".der" */
  const DerSuffix: seq<Byte> := [0x2e, 0x64, 0x65, 0x72]

  /** sizeof(namebuf) */
  const NameBufSize: nat := 64

  /** strncpy copies at most sizeof(namebuf) - 5 bytes of the subject name. */
  const NameCopyLimit: nat := 59

  /** isalnum in the C locale. */
  predicate IsAlnum(b: Byte) {
    0x30 <= b <= 0x39 || 0x41 <= b <= 0x5a || 0x61 <= b <= 0x7a
  }

  /** What the sanitising loop leaves in place of a byte. */
  function SafeByte(b: Byte): Byte {
    if IsAlnum(b) then b else Underscore
  }

  /** Every byte of a name, made safe. */
  function Sanitize(s: seq<Byte>): seq<Byte> {
    seq(|s|, k requires 0 <= k < |s| => SafeByte(s[k]))
  }

  /**
   * A sanitised name keeps its length and its letters and digits and holds
   * nothing but letters, digits and '_': no '/' and no NUL, so the file it
   * names is created in the current directory.
   */
  lemma SanitizedNameIsLocal(s: seq<Byte>)
    ensures |Sanitize(s)| == |s|
    ensures forall k :: 0 <= k < |s| ==> (IsAlnum(s[k]) ==> Sanitize(s)[k] == s[k])
    ensures forall k :: 0 <= k < |s| ==> (!IsAlnum(s[k]) ==> Sanitize(s)[k] == Underscore)
    ensures forall k :: 0 <= k < |s| ==> Sanitize(s)[k] != Slash && Sanitize(s)[k] != 0
  {
  }

  /** Sanitising twice changes nothing more. */
  lemma SanitizeIdempotent(s: seq<Byte>)
    ensures Sanitize(Sanitize(s)) == Sanitize(s)
  {
  }

  /** The first NUL at index `from` or later and below `limit`, within `s`. */
  function NulIndex(s: seq<Byte>, from: nat, limit: nat): (r: Option<nat>)
    ensures r.Some? ==>
      && from <= r.value < limit && r.value < |s| && s[r.value] == 0
      && forall k :: from <= k < r.value ==> s[k] != 0
    ensures r.None? ==> forall k :: from <= k < limit && k < |s| ==> s[k] != 0
    decreases limit - from
  {
    if from >= limit || from >= |s| then None
    else if s[from] == 0 then Some(from)
    else NulIndex(s, from + 1, limit)
  }

  /** Where a NUL is, the search finds it, from any earlier starting point on. */
  lemma {:induction false} NulIndexAt(s: seq<Byte>, from: nat, limit: nat, n: nat)
    requires from <= n < limit && n < |s| && s[n] == 0
    requires forall k :: from <= k < n ==> s[k] != 0
    ensures NulIndex(s, from, limit) == Some(n)
    decreases n - from
  {
    if from < n {
      NulIndexAt(s, from + 1, limit, n);
    }
  }

  /**
   * The sanitising loop of the source: every byte before the first NUL of
   * the buffer that is not a letter or digit becomes '_'; the NUL and
   * what follows it are untouched.
   */
  method SanitizeInPlace(a: array<Byte>)
    requires NulIndex(a[..], 0, a.Length).Some?
    modifies a
    ensures var n := NulIndex(old(a[..]), 0, a.Length).value;
      && (forall k :: 0 <= k < n ==> a[k] == SafeByte(old(a[k])))
      && (forall k :: n <= k < a.Length ==> a[k] == old(a[k]))
  {
    ghost var n := NulIndex(a[..], 0, a.Length).value;
    var i := 0;
    while a[i] != 0
      invariant 0 <= i <= n
      invariant forall k :: 0 <= k < i ==> a[k] == SafeByte(old(a[k]))
      invariant forall k :: i <= k < a.Length ==> a[k] == old(a[k])
      decreases n - i
    {
      assert a[i] == old(a[..])[i];
      if !IsAlnum(a[i]) {
        a[i] := Underscore;
      }
      i := i + 1;
    }
    assert a[i] == old(a[..])[i];
  }

  /** The name of the file a subject name of `n` bytes (before its NUL) is written to. */
  function CertFileName(name: seq<Byte>, n: nat): (f: seq<Byte>)
    requires n <= |name|
    ensures |f| == n + |DerSuffix|
  {
    Sanitize(name[..n]) + DerSuffix
  }

  /**
   * strncpy(namebuf, name, 59) for a name whose NUL is at `n` < 59: the
   * first n bytes are copied and the rest of the 59 are NUL.
   */
  method CopyName(namebuf: array<Byte>, name: seq<Byte>, ghost n: nat)
    requires namebuf.Length == NameBufSize && n < NameCopyLimit && n < |name| && name[n] == 0
    requires forall k :: 0 <= k < n ==> name[k] != 0
    modifies namebuf
    ensures forall k :: 0 <= k < n ==> namebuf[k] == name[k]
    ensures forall k :: n <= k < NameCopyLimit ==> namebuf[k] == 0
    ensures forall k :: NameCopyLimit <= k < NameBufSize ==> namebuf[k] == old(namebuf[k])
  {
    var i := 0;
    while i < NameCopyLimit && name[i] != 0
      invariant 0 <= i <= n
      invariant forall k :: 0 <= k < i ==> namebuf[k] == name[k]
      invariant forall k :: NameCopyLimit <= k < NameBufSize ==> namebuf[k] == old(namebuf[k])
      decreases n - i
    {
      namebuf[i] := name[i];
      i := i + 1;
    }
    while i < NameCopyLimit
      invariant n <= i <= NameCopyLimit
      invariant forall k :: 0 <= k < n ==> namebuf[k] == name[k]
      invariant forall k :: n <= k < i ==> namebuf[k] == 0
      invariant forall k :: NameCopyLimit <= k < NameBufSize ==> namebuf[k] == old(namebuf[k])
    {
      namebuf[i] := 0;
      i := i + 1;
    }
  }

  /**
   * strcat(namebuf, ".der") for a buffer whose first NUL is at `n`; the
   * file name is what precedes the new terminator.
   */
  method AppendDer(namebuf: array<Byte>, ghost n: nat) returns (file: seq<Byte>)
    requires namebuf.Length == NameBufSize && n + |DerSuffix| < NameBufSize && namebuf[n] == 0
    requires forall k :: 0 <= k < n ==> namebuf[k] != 0
    modifies namebuf
    ensures file == old(namebuf[..n]) + DerSuffix
    ensures namebuf[..n + |DerSuffix|] == file && namebuf[n + |DerSuffix|] == 0
    ensures forall k :: n + |DerSuffix| < k < NameBufSize ==> namebuf[k] == old(namebuf[k])
  {
    var j := 0;
    while namebuf[j] != 0
      invariant 0 <= j <= n
      decreases n - j
    {
      j := j + 1;
    }
    namebuf[j] := 0x2e;
    namebuf[j + 1] := 0x64;
    namebuf[j + 2] := 0x65;
    namebuf[j + 3] := 0x72;
    namebuf[j + 4] := 0;
    file := namebuf[..j + 4];
    assert file[..n] == old(namebuf[..n]);
    assert file == file[..n] + DerSuffix;
  }

  /**
   * The file name of the certificate branch: strncpy of at most 59 bytes of
   * the subject name into the 64-byte namebuf, a NUL at index 60, the
   * sanitising loop, and strcat of ".der".  Defined only when the subject
   * name ends (has its NUL) within the 59 copied bytes: otherwise the loop
   * reads the uninitialised namebuf[59].  The allocation zeroes the bytes
   * the source leaves uninitialised, which are never read in this case.
   */
  method SubjectFileName(name: seq<Byte>) returns (file: seq<Byte>)
    requires NulIndex(name, 0, NameCopyLimit).Some?
    ensures file == CertFileName(name, NulIndex(name, 0, NameCopyLimit).value)
  {
    ghost var n := NulIndex(name, 0, NameCopyLimit).value;
    var namebuf := new Byte[NameBufSize](_ => 0);
    CopyName(namebuf, name, n);
    namebuf[NameBufSize - 4] := 0;
    NulIndexAt(namebuf[..], 0, namebuf.Length, n);
    SanitizeInPlace(namebuf);
    ghost var sanitized := namebuf[..n];
    assert sanitized == Sanitize(name[..n]);
    file := AppendDer(namebuf, n);
  }

  /** The 16 low bits of a length as the two big-endian octets htons leaves in memory. */
  function Be16(v: int): (r: seq<Byte>)
    ensures |r| == 2
  {
    var w := v % 0x1_0000;
    [w / 0x100, w % 0x100]
  }

  /** The value of two big-endian length octets. */
  function Be16Value(hi: Byte, lo: Byte): nat {
    (hi as nat) * 0x100 + (lo as nat)
  }

  /** Two length octets read back as the length modulo 2^16, and no other pair does. */
  lemma Be16Inverse(v: int, hi: Byte, lo: Byte)
    ensures Be16Value(Be16(v)[0], Be16(v)[1]) == v % 0x1_0000
    ensures Be16Value(hi, lo) == v % 0x1_0000 ==> Be16(v) == [hi, lo]
  {
  }

  /** The AlgorithmIdentifier as written: fixed length 13, the low byte of the OID length, the OID, NULL. */
  function AlgorithmImage(oid: seq<Byte>): seq<Byte> {
    [0x30, 0x0d, 0x06, |oid| % 0x100] + oid + [0x05, 0x00]
  }

  /** The BIT STRING as written: fixed length 257, no unused bits, the signature. */
  function BitStringImage(sig: seq<Byte>): seq<Byte> {
    [0x03, 0x82, 0x01, 0x01, 0x00] + sig
  }

  /**
   * The bytes the branch writes: the outer SEQUENCE header whose length
   * octets hold the sum of the lengths written after them, modulo 2^16, then
   * the body, the AlgorithmIdentifier and the BIT STRING.
   */
  function DerImage(body: seq<Byte>, oid: seq<Byte>, sig: seq<Byte>): seq<Byte> {
    [0x30, 0x82] + Be16(|body| + 3 + 1 + |oid| + 2 + 2 + 2 + 1 + |sig|) + body
    + AlgorithmImage(oid) + BitStringImage(sig)
  }

  /** The big-endian length octets count, modulo 2^16, exactly the bytes after the first four. */
  lemma DerLengthField(body: seq<Byte>, oid: seq<Byte>, sig: seq<Byte>)
    ensures var out := DerImage(body, oid, sig);
      |out| >= 4 && Be16Value(out[2], out[3]) == (|out| - 4) % 0x1_0000
  {
    var out := DerImage(body, oid, sig);
    var sz := |body| + 3 + 1 + |oid| + 2 + 2 + 2 + 1 + |sig|;
    assert out[2..4] == Be16(sz);
    Be16Inverse(sz, 0, 0);
  }

  /**
   * The emission of the branch: successive fwrites of fixed headers and
   * the three fragments, the outer length computed as a `short` and
   * byte-swapped.
   */
  method EmitDer(body: seq<Byte>, oid: seq<Byte>, sig: seq<Byte>) returns (out: seq<Byte>)
    ensures out == DerImage(body, oid, sig)
  {
    out := [0x30, 0x82];
    var sz := |body| + 3 + 1 + |oid| + 2 + 2 + 2 + 1 + |sig|;
    out := out + Be16(sz);
    out := out + body;
    out := out + [0x30, 0x0d, 0x06];
    out := out + [|oid| % 0x100];
    out := out + oid;
    out := out + [0x05, 0x00];
    out := out + [0x03, 0x82];
    out := out + [0x01, 0x01];
    out := out + [0x00];
    out := out + sig;
  }

  /** A certificate as X.509 structures it: body, signature algorithm OID, signature bits. */
  datatype Certificate = Certificate(tbs: seq<Byte>, oid: seq<Byte>, signature: seq<Byte>)

  /**
   * The length of the DER element (identifier, length octets, contents) at
   * the start of `s`, for a definite length in the short form or in the
   * long form with one or two octets (section 8.1.3 of ITU-T X.690).
   */
  function TlvLength(s: seq<Byte>): (r: Option<nat>)
    ensures r.Some? ==> r.value <= |s|
  {
    if |s| < 2 then None
    else if s[1] < 0x80 then (if 2 + s[1] as nat <= |s| then Some(2 + s[1] as nat) else None)
    else if s[1] == 0x81 && |s| >= 3 && 3 + s[2] as nat <= |s| then Some(3 + s[2] as nat)
    else if s[1] == 0x82 && |s| >= 4 && 4 + Be16Value(s[2], s[3]) <= |s| then Some(4 + Be16Value(s[2], s[3]))
    else None
  }

  /** An element's length is read from its own header, whatever follows it. */
  lemma TlvLengthPrefix(a: seq<Byte>, b: seq<Byte>)
    requires TlvLength(a) == Some(|a|)
    ensures TlvLength(a + b) == Some(|a|)
  {
    assert (a + b)[..|a|] == a;
  }

  /** The contents of a SEQUENCE with two length octets that spans `s`. */
  function ParseOuter(s: seq<Byte>): Option<seq<Byte>> {
    if |s| >= 4 && s[0] == 0x30 && s[1] == 0x82 && Be16Value(s[2], s[3]) == |s| - 4 then Some(s[4..]) else None
  }

  /** An AlgorithmIdentifier holding an OID and a NULL at the start of `t`: the OID and what follows. */
  function ParseAlgorithm(t: seq<Byte>): Option<(seq<Byte>, seq<Byte>)> {
    if |t| >= 4 && t[0] == 0x30 && t[1] < 0x80 && t[2] == 0x06 && t[3] < 0x80
       && t[1] as nat == t[3] as nat + 4 && |t| >= 6 + t[3] as nat
       && t[4 + t[3] as nat] == 0x05 && t[5 + t[3] as nat] == 0x00
    then Some((t[4..4 + t[3] as nat], t[6 + t[3] as nat..]))
    else None
  }

  /** A BIT STRING with two length octets and no unused bits that spans `u`: the signature bits. */
  function ParseBitString(u: seq<Byte>): Option<seq<Byte>> {
    if |u| >= 5 && u[0] == 0x03 && u[1] == 0x82 && Be16Value(u[2], u[3]) == |u| - 4 && u[4] == 0x00
    then Some(u[5..]) else None
  }

  /**
   * A reader for the certificate shape: a SEQUENCE with two length octets
   * that spans the input, whose contents are one element (the body), an
   * AlgorithmIdentifier, and a BIT STRING ending the input.
   */
  function ParseCertificate(s: seq<Byte>): Option<Certificate> {
    match ParseOuter(s)
    case None => None
    case Some(c) =>
      match TlvLength(c)
      case None => None
      case Some(e) =>
        match ParseAlgorithm(c[e..])
        case None => None
        case Some((oid, u)) =>
          match ParseBitString(u)
          case None => None
          case Some(sig) => Some(Certificate(c[..e], oid, sig))
  }

  /** The outer header as written reads back exactly when the length fits its 16 bits. */
  lemma OuterRoundTrip(c: seq<Byte>)
    ensures ParseOuter([0x30, 0x82] + Be16(|c|) + c) == (if |c| < 0x1_0000 then Some(c) else None)
  {
    var s := [0x30, 0x82] + Be16(|c|) + c;
    assert s[2..4] == Be16(|c|);
    Be16Inverse(|c|, 0, 0);
    assert s[4..] == c;
  }

  /** The AlgorithmIdentifier as written holds the OID it was built from exactly when the OID has 9 bytes. */
  lemma AlgorithmRoundTrip(oid: seq<Byte>, rest: seq<Byte>)
    ensures |oid| == 9 ==> ParseAlgorithm(AlgorithmImage(oid) + rest) == Some((oid, rest))
    ensures ParseAlgorithm(AlgorithmImage(oid) + rest).Some? && ParseAlgorithm(AlgorithmImage(oid) + rest).value.0 == oid
      ==> |oid| == 9
  {
    var t := AlgorithmImage(oid) + rest;
    assert t[4..4 + |oid|] == oid;
    assert t[4 + |oid|] == 0x05 && t[5 + |oid|] == 0x00;
    assert t[6 + |oid|..] == rest;
  }

  /** The BIT STRING as written holds the signature it was built from exactly when it has 256 bytes. */
  lemma BitStringRoundTrip(sig: seq<Byte>)
    ensures ParseBitString(BitStringImage(sig)) == (if |sig| == 256 then Some(sig) else None)
  {
    assert BitStringImage(sig)[5..] == sig;
  }

  /**
   * What the branch writes reads back as the body, OID and signature it
   * was built from exactly when the fixed inner lengths are right (a 9-byte
   * OID and a 256-byte signature) and the total length fits the 16-bit
   * length field.
   */
  lemma DerImageRoundTrip(body: seq<Byte>, oid: seq<Byte>, sig: seq<Byte>)
    requires TlvLength(body) == Some(|body|)
    ensures ParseCertificate(DerImage(body, oid, sig)) == Some(Certificate(body, oid, sig)) <==>
      |oid| == 9 && |sig| == 256 && |body| + 276 < 0x1_0000
  {
    var tail := AlgorithmImage(oid) + BitStringImage(sig);
    var c := body + tail;
    assert |c| == |body| + 3 + 1 + |oid| + 2 + 2 + 2 + 1 + |sig|;
    assert DerImage(body, oid, sig) == [0x30, 0x82] + Be16(|c|) + c;
    OuterRoundTrip(c);
    TlvLengthPrefix(body, tail);
    assert c[..|body|] == body && c[|body|..] == tail;
    AlgorithmRoundTrip(oid, BitStringImage(sig));
    BitStringRoundTrip(sig);
  }

  /** The outer header read back is the header written for its contents. */
  lemma OuterParsed(s: seq<Byte>)
    requires ParseOuter(s).Some?
    ensures s == [0x30, 0x82] + Be16(|ParseOuter(s).value|) + ParseOuter(s).value
  {
    var c := ParseOuter(s).value;
    Be16Inverse(|c|, s[2], s[3]);
    assert s == s[..2] + s[2..4] + c;
  }

  /** An AlgorithmIdentifier read back with a 9-byte OID is the one written for it. */
  lemma AlgorithmParsed(t: seq<Byte>)
    requires ParseAlgorithm(t).Some? && |ParseAlgorithm(t).value.0| == 9
    ensures t == AlgorithmImage(ParseAlgorithm(t).value.0) + ParseAlgorithm(t).value.1
  {
    var oid := ParseAlgorithm(t).value.0;
    assert t == t[..4] + t[4..13] + t[13..15] + t[15..];
  }

  /** A BIT STRING read back with 256 signature bytes is the one written for it. */
  lemma BitStringParsed(u: seq<Byte>)
    requires ParseBitString(u).Some? && |ParseBitString(u).value| == 256
    ensures u == BitStringImage(ParseBitString(u).value)
  {
    assert u == u[..5] + u[5..];
  }

  /** Every certificate of the shape the branch writes is exactly what it writes from its parts. */
  lemma ParsedCertificateIsDerImage(s: seq<Byte>)
    requires ParseCertificate(s).Some?
    requires |ParseCertificate(s).value.oid| == 9 && |ParseCertificate(s).value.signature| == 256
    ensures var c := ParseCertificate(s).value; s == DerImage(c.tbs, c.oid, c.signature)
  {
    var c := ParseOuter(s).value;
    var e := TlvLength(c).value;
    var oid, u := ParseAlgorithm(c[e..]).value.0, ParseAlgorithm(c[e..]).value.1;
    var sig := ParseBitString(u).value;
    assert ParseCertificate(s).value == Certificate(c[..e], oid, sig);
    OuterParsed(s);
    ContentsParsed(c, e);
    DerImageSplit(c[..e], oid, sig);
  }

  /** The contents after the body, read back with a 9-byte OID and a 256-byte signature, are the images written for them. */
  lemma ContentsParsed(c: seq<Byte>, e: nat)
    requires e <= |c| && ParseAlgorithm(c[e..]).Some? && |ParseAlgorithm(c[e..]).value.0| == 9
    requires ParseBitString(ParseAlgorithm(c[e..]).value.1).Some?
    requires |ParseBitString(ParseAlgorithm(c[e..]).value.1).value| == 256
    ensures c == c[..e] + (AlgorithmImage(ParseAlgorithm(c[e..]).value.0)
                           + BitStringImage(ParseBitString(ParseAlgorithm(c[e..]).value.1).value))
  {
    var u := ParseAlgorithm(c[e..]).value.1;
    AlgorithmParsed(c[e..]);
    BitStringParsed(u);
    assert c == c[..e] + c[e..];
  }

  /** The write sequence is the header for the whole content, then the content. */
  lemma DerImageSplit(body: seq<Byte>, oid: seq<Byte>, sig: seq<Byte>)
    ensures var content := body + (AlgorithmImage(oid) + BitStringImage(sig));
      DerImage(body, oid, sig) == [0x30, 0x82] + Be16(|content|) + content
  {
    var a, b := AlgorithmImage(oid), BitStringImage(sig);
    assert |body + (a + b)| == |body| + 3 + 1 + |oid| + 2 + 2 + 2 + 1 + |sig|;
    var h := [0x30, 0x82] + Be16(|body + (a + b)|);
    assert h + body + a + b == h + (body + (a + b));
  }

  /** What the certificate branch does for one X509 candidate. */
  datatype CertOutcome =
    | NoCert                                          // no subject name, no leading '/', or no cert_info
    | CertUndefined                                   // the source's behaviour is undefined
    | EmptyCert(fileName: seq<Byte>)                  // the file is created, but a fragment is missing
    | CertFile(fileName: seq<Byte>, der: seq<Byte>)   // the file is created and the certificate written

  /** The ASN1_OBJECT of the signature algorithm, when sig_alg and its algorithm pointer both resolve. */
  function AlgorithmObject(maps: seq<Mapping>, abi: Abi, x: X509Fields): Option<Asn1Data> {
    match ExtractFromMem(maps, x.sigAlg)
    case None => None
    case Some(al) =>
      match ExtractFromMem(maps, abi.algorAt(maps[al.index].data.value, al.offset))
      case None => None
      case Some(ol) => Some(abi.objectAt(maps[ol.index].data.value, ol.offset))
  }

  /** The ASN1_BIT_STRING of the signature, when its pointer resolves. */
  function SignatureObject(maps: seq<Mapping>, abi: Abi, x: X509Fields): Option<Asn1Data> {
    match ExtractFromMem(maps, x.signature)
    case None => None
    case Some(sl) => Some(abi.bitStringAt(maps[sl.index].data.value, sl.offset))
  }

  /** Where the data of an ASN1 string is, looked up only for a non-zero length. */
  function DataOf(maps: seq<Mapping>, obj: Option<Asn1Data>): Option<Location> {
    if obj.Some? && obj.value.length != 0 then ExtractFromMem(maps, obj.value.data) else None
  }

  /**
   * The fragments once the file is open: the body's DER (enc), the
   * algorithm OID (algname) and the signature bits (sigdata).  A missing
   * body, algorithm object or signature data leaves the file empty; a
   * negative length or one that runs past the snapshot, or a missing OID of
   * non-zero length, is undefined.
   */
  function Fragments(maps: seq<Mapping>, enc: Encoding, alg: Option<Asn1Data>, sig: Option<Asn1Data>,
                     fileName: seq<Byte>): CertOutcome
  {
    var encptr := ExtractFromMem(maps, enc.enc);
    var algname := DataOf(maps, alg);
    var sigdata := DataOf(maps, sig);
    if encptr.None? || alg.None? || sigdata.None? then EmptyCert(fileName)
    else
      var body := Span(maps, encptr.value, enc.len);
      var oid := if alg.value.length == 0 then Some([])
                 else if algname.None? then None
                 else Span(maps, algname.value, alg.value.length);
      var bits := Span(maps, sigdata.value, sig.value.length);
      if body.None? || oid.None? || bits.None? then CertUndefined
      else CertFile(fileName, DerImage(body.value, oid.value, bits.value))
  }

  /** The certificate branch for one X509 candidate, as a value. */
  function CertOutcomeOf(maps: seq<Mapping>, abi: Abi, x: X509Fields): CertOutcome {
    match ExtractFromMem(maps, x.name)
    case None => NoCert
    case Some(nl) =>
      var name := BytesAt(maps, nl);
      if name[0] != Slash then NoCert
      else match NulIndex(name, 0, NameCopyLimit)
        case None => CertUndefined
        case Some(n) =>
          match ExtractFromMem(maps, x.certInfo)
          case None => NoCert
          case Some(cl) =>
            Fragments(maps, abi.cinfAt(maps[cl.index].data.value, cl.offset),
                      AlgorithmObject(maps, abi, x), SignatureObject(maps, abi, x), CertFileName(name, n))
  }

  /** The subject name of a candidate, when it resolves, starts with '/' and ends within the copied bytes. */
  ghost predicate NameUsable(maps: seq<Mapping>, x: X509Fields) {
    && ExtractFromMem(maps, x.name).Some?
    && var name := BytesAt(maps, ExtractFromMem(maps, x.name).value);
       name[0] == Slash && NulIndex(name, 0, NameCopyLimit).Some?
  }

  /**
   * A file is created only for a usable subject name and a cert_info that
   * resolves; it holds a certificate only when the body, the algorithm
   * object and the signature data were all found, and it is left empty
   * exactly when one of them was not.
   */
  lemma CertOutcomeCases(maps: seq<Mapping>, abi: Abi, x: X509Fields)
    ensures (CertOutcomeOf(maps, abi, x).EmptyCert? || CertOutcomeOf(maps, abi, x).CertFile?) ==>
      NameUsable(maps, x) && ExtractFromMem(maps, x.certInfo).Some?
    ensures CertOutcomeOf(maps, abi, x).CertFile? ==>
      && (var cl := ExtractFromMem(maps, x.certInfo).value;
          ExtractFromMem(maps, abi.cinfAt(maps[cl.index].data.value, cl.offset).enc).Some?)
      && AlgorithmObject(maps, abi, x).Some?
      && DataOf(maps, SignatureObject(maps, abi, x)).Some?
    ensures NameUsable(maps, x) && ExtractFromMem(maps, x.certInfo).Some? ==>
      var cl := ExtractFromMem(maps, x.certInfo).value;
      (CertOutcomeOf(maps, abi, x).EmptyCert? <==>
        || ExtractFromMem(maps, abi.cinfAt(maps[cl.index].data.value, cl.offset).enc).None?
        || AlgorithmObject(maps, abi, x).None?
        || DataOf(maps, SignatureObject(maps, abi, x)).None?)
  {
  }

  /**
   * The file a certificate goes to is the sanitised subject name (at most
   * 58 bytes, its leading '/' made '_') followed by ".der", and names a file
   * in the current directory.
   */
  lemma CertFileNameShape(maps: seq<Mapping>, abi: Abi, x: X509Fields)
    requires CertOutcomeOf(maps, abi, x).EmptyCert? || CertOutcomeOf(maps, abi, x).CertFile?
    ensures var f := CertOutcomeOf(maps, abi, x).fileName;
      && 5 <= |f| <= NameCopyLimit - 1 + |DerSuffix|
      && f[0] == Underscore
      && f[|f| - 4..] == DerSuffix
      && forall k :: 0 <= k < |f| ==> f[k] != Slash && f[k] != 0
  {
    var name := BytesAt(maps, ExtractFromMem(maps, x.name).value);
    var n := NulIndex(name, 0, NameCopyLimit).value;
    SanitizedNameIsLocal(name[..n]);
  }

  /**
   * The certificate branch of find_keys: resolve the subject name, build
   * the file name, resolve cert_info, open the file, resolve the fragments
   * and, when all are there, write the certificate.
   */
  method ReconstructCertificate(maps: seq<Mapping>, abi: Abi, x: X509Fields) returns (outcome: CertOutcome)
    ensures outcome == CertOutcomeOf(maps, abi, x)
  {
    var nameLoc := ExtractFromMem(maps, x.name);
    if nameLoc.None? {
      return NoCert;
    }
    var name := BytesAt(maps, nameLoc.value);
    if name[0] != Slash {
      return NoCert;
    }
    if NulIndex(name, 0, NameCopyLimit).None? {
      return CertUndefined;
    }
    var fileName := SubjectFileName(name);
    var xbuf := ExtractFromMem(maps, x.certInfo);
    if xbuf.None? {
      return NoCert;
    }
    var enc := abi.cinfAt(maps[xbuf.value.index].data.value, xbuf.value.offset);
    outcome := WriteFragments(maps, enc, AlgorithmObject(maps, abi, x), SignatureObject(maps, abi, x), fileName);
  }

  /**
   * The branch once the file is open: resolve the body's DER, the OID data
   * (for a non-zero OID length) and the signature data (for a non-zero
   * signature length); write the certificate when the body, the algorithm
   * object and the signature data are there.
   */
  method WriteFragments(maps: seq<Mapping>, enc: Encoding, algorithm: Option<Asn1Data>, signature: Option<Asn1Data>,
                        fileName: seq<Byte>) returns (outcome: CertOutcome)
    ensures outcome == Fragments(maps, enc, algorithm, signature, fileName)
  {
    var encptr := ExtractFromMem(maps, enc.enc);
    var algname := DataOf(maps, algorithm);
    var sigdata := DataOf(maps, signature);
    if encptr.None? || algorithm.None? || sigdata.None? {
      return EmptyCert(fileName);
    }
    var body := Span(maps, encptr.value, enc.len);
    var oid: Option<seq<Byte>> := Some([]);
    if algorithm.value.length != 0 {
      if algname.None? {
        return CertUndefined;
      }
      oid := Span(maps, algname.value, algorithm.value.length);
    }
    var bits := Span(maps, sigdata.value, signature.value.length);
    if body.None? || oid.None? || bits.None? {
      return CertUndefined;
    }
    var der := EmitDer(body.value, oid.value, bits.value);
    return CertFile(fileName, der);
  }
}
