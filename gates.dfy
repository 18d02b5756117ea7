/**
 * The heuristic gates that decide whether a byte window may be a structure
 * of a given type.  Each returns 0 to admit, as the source does, and admits
 * only when every scalar check and every pointer check passes.
 */
module Gates {
  import opened Memory
  import opened Structs

  /** might_be_RSA */
  function MightBeRsa(rsa: RsaFields, maps: seq<Mapping>): (r: int)
    ensures r == 0 || r == 1
    ensures r == 0 <==>
      && rsa.pad == 0 && rsa.version == 0 && 0 <= rsa.references <= 0xff
      && Plausible(maps, rsa.n) && Plausible(maps, rsa.e) && Plausible(maps, rsa.d)
      && Plausible(maps, rsa.p) && Plausible(maps, rsa.q) && Plausible(maps, rsa.dmp1)
      && Plausible(maps, rsa.dmq1) && Plausible(maps, rsa.iqmp)
  {
    if || rsa.pad != 0 || rsa.version != 0
       || rsa.references < 0 || rsa.references > 0xff
       || IsValidAddress(maps, rsa.n) != 0
       || IsValidAddress(maps, rsa.e) != 0
       || IsValidAddress(maps, rsa.d) != 0
       || IsValidAddress(maps, rsa.p) != 0
       || IsValidAddress(maps, rsa.q) != 0
       || IsValidAddress(maps, rsa.dmp1) != 0
       || IsValidAddress(maps, rsa.dmq1) != 0
       || IsValidAddress(maps, rsa.iqmp) != 0
    then 1 else 0
  }

  /** might_be_DSA: the precomputed kinv and r may be NULL */
  function MightBeDsa(dsa: DsaFields, maps: seq<Mapping>): (r: int)
    ensures r == 0 || r == 1
    ensures r == 0 <==>
      && dsa.pad == 0 && dsa.version == 0 && 0 <= dsa.references <= 0xff
      && Plausible(maps, dsa.p) && Plausible(maps, dsa.q) && Plausible(maps, dsa.g)
      && Plausible(maps, dsa.privKey) && Plausible(maps, dsa.pubKey)
      && (dsa.kinv == 0 || Plausible(maps, dsa.kinv))
      && (dsa.r == 0 || Plausible(maps, dsa.r))
  {
    if || dsa.pad != 0 || dsa.version != 0
       || dsa.references < 0 || dsa.references > 0xff
       || IsValidAddress(maps, dsa.p) != 0
       || IsValidAddress(maps, dsa.q) != 0
       || IsValidAddress(maps, dsa.g) != 0
       || IsValidAddress(maps, dsa.privKey) != 0
       || IsValidAddress(maps, dsa.pubKey) != 0
       || (dsa.kinv != 0 && IsValidAddress(maps, dsa.kinv) != 0)
       || (dsa.r != 0 && IsValidAddress(maps, dsa.r) != 0)
    then 1 else 0
  }

  /** might_be_X509: the reference count must be positive */
  function MightBeX509(x509: X509Fields, maps: seq<Mapping>): (r: int)
    ensures r == 0 || r == 1
    ensures r == 0 <==>
      && x509.valid == 1 && 1 <= x509.references <= 0xff
      && Plausible(maps, x509.certInfo) && Plausible(maps, x509.sigAlg)
      && Plausible(maps, x509.signature) && Plausible(maps, x509.name)
  {
    if || x509.valid != 1
       || x509.references <= 0 || x509.references > 0xff
       || IsValidAddress(maps, x509.certInfo) != 0
       || IsValidAddress(maps, x509.sigAlg) != 0
       || IsValidAddress(maps, x509.signature) != 0
       || IsValidAddress(maps, x509.name) != 0
    then 1 else 0
  }

  /** might_be_ECDSA: version 1 and an uncompressed (4) or hybrid (6) point form */
  function MightBeEc(ec: EcFields, maps: seq<Mapping>): (r: int)
    ensures r == 0 || r == 1
    ensures r == 0 <==>
      && ec.version == 1 && (ec.convForm == 4 || ec.convForm == 6)
      && 0 <= ec.references <= 0xff
      && Plausible(maps, ec.group) && Plausible(maps, ec.pubKey) && Plausible(maps, ec.privKey)
  {
    if || ec.version != 1
       || !(ec.convForm == 4 || ec.convForm == 4 || ec.convForm == 6)
       || ec.references < 0 || ec.references > 0xff
       || IsValidAddress(maps, ec.group) != 0
       || IsValidAddress(maps, ec.pubKey) != 0
       || IsValidAddress(maps, ec.privKey) != 0
       || IsValidAddress(maps, ec.privKey) != 0
    then 1 else 0
  }
}
