/**
 * extract_ecdsa_key: only the private scalar of an EC candidate is
 * extracted; there is no algebraic check and nothing to roll back.
 */
module EcKeys {
  import opened Wrappers
  import opened Memory
  import opened Structs
  import opened Bignum

  /** What extract_ecdsa_key returns for a candidate whose priv_key pointer is `addr`. */
  function EcStatus(maps: seq<Mapping>, abi: Abi, addr: nat): (r: int)
    ensures r == 0 || r == -1
  {
    if ExtractBn(maps, abi, addr).Some? then 0 else -1
  }

  /**
   * The EC assembler succeeds exactly when the private key's header is
   * cached, passes the sanity check, and its limb array is cached: no
   * relation between the private and the public key is checked.
   */
  lemma EcStatusCases(maps: seq<Mapping>, abi: Abi, addr: nat)
    ensures EcStatus(maps, abi, addr) == 0 <==>
      && Cached(maps, addr)
      && ExtractFromMem(maps, addr).Some?
      && (var h := HeaderAt(maps, abi, ExtractFromMem(maps, addr).value);
          && 0 <= h.top <= h.dmax && (h.neg == 0 || h.neg == 1)
          && Cached(maps, h.d))
  {
    ExtractBnCases(maps, abi, addr);
  }

  /** The local EC_KEY_ structure of the scanner; the assembler updates its private key field. */
  class EcKey {
    var privKey: Slot

    /** The memcpy of a candidate window into the local structure. */
    constructor (f: EcFields)
      ensures privKey == Raw(f.privKey)
    {
      privKey := Raw(f.privKey);
    }

    /**
     * extract_ecdsa_key: the private key field is replaced by its copy, or
     * NULL on error; 0 is returned exactly when the copy was made.
     */
    method Extract(maps: seq<Mapping>, abi: Abi) returns (r: int)
      requires privKey.Raw?
      modifies this
      ensures r == EcStatus(maps, abi, old(privKey.addr))
      ensures privKey == SlotOf(ExtractBn(maps, abi, old(privKey.addr)))
    {
      var bn, error := BnExtractFromMem(maps, abi, privKey.addr);
      privKey := SlotOf(bn);
      if error != 0 {
        return -1;
      }
      return 0;
    }
  }
}
