/**
 * The structures the carver overlays on target memory, as records of their
 * already-decoded fields, and the ABI descriptor that decodes them.  Only the
 * fields the core reads or writes are kept.  Pointer fields hold the raw
 * target address (0 is NULL).
 */
module Structs {
  import opened Memory

  /** sizeof(RSA), sizeof(DSA) and sizeof(EC_KEY_) for OpenSSL 1.0.x on x86-64. */
  const RsaSize: nat := 168
  const DsaSize: nat := 136
  const EcKeySize: nat := 56

  /** struct rsa_st */
  datatype RsaFields = RsaFields(
    pad: int, version: int, references: int,
    meth: nat, n: nat, e: nat, d: nat, p: nat, q: nat, dmp1: nat, dmq1: nat, iqmp: nat,
    methodModN: nat, methodModP: nat, methodModQ: nat, bignumData: nat, blinding: nat)

  /** struct dsa_st */
  datatype DsaFields = DsaFields(
    pad: int, version: int, references: int,
    p: nat, q: nat, g: nat, pubKey: nat, privKey: nat, kinv: nat, r: nat,
    methodMontP: nat, meth: nat, engine: nat)

  /** EC_KEY_, the local copy of struct ec_key_st */
  datatype EcFields = EcFields(
    version: int, group: nat, pubKey: nat, privKey: nat, convForm: int, references: int)

  /** struct x509_st */
  datatype X509Fields = X509Fields(
    valid: int, references: int, certInfo: nat, sigAlg: nat, signature: nat, name: nat)

  /** struct bignum_st: limb pointer, used limbs, allocated limbs, sign, flags */
  datatype BnHeader = BnHeader(d: nat, top: int, dmax: int, neg: int, flags: int)

  /** ASN1_ENCODING inside X509_CINF: where the DER of the body is and how long it is */
  datatype Encoding = Encoding(enc: nat, len: int)

  /** ASN1_OBJECT and ASN1_BIT_STRING both carry a length and a data pointer */
  datatype Asn1Data = Asn1Data(length: int, data: nat)

  /**
   * How the targeted library version lays its structures out: each decoder
   * reads the fields of one structure laid out at an offset of a block of
   * snapshot bytes, and `limbs` gives the magnitude of `top` limbs starting
   * at an offset of a block.
   */
  datatype Abi = Abi(
    rsaAt: (seq<Byte>, nat) -> RsaFields,
    dsaAt: (seq<Byte>, nat) -> DsaFields,
    ecAt: (seq<Byte>, nat) -> EcFields,
    x509At: (seq<Byte>, nat) -> X509Fields,
    bnAt: (seq<Byte>, nat) -> BnHeader,
    cinfAt: (seq<Byte>, nat) -> Encoding,
    algorAt: (seq<Byte>, nat) -> nat,
    objectAt: (seq<Byte>, nat) -> Asn1Data,
    bitStringAt: (seq<Byte>, nat) -> Asn1Data,
    limbs: (seq<Byte>, nat, int) -> nat)
}
