/**
 * extract_dsa_key and free_dsa_key: the DSA candidate's five mandatory
 * integers are extracted in a fixed order with last-in first-out rollback;
 * kinv and r are extracted too but a failure only leaves them NULL.  The key
 * is accepted when y = g^x mod p (section 4.1 of FIPS 186-4), computed by the
 * library's modular exponentiation; its allocations and its failure are
 * parameters.
 */
module DsaKeys {
  import opened Wrappers
  import opened Memory
  import opened Structs
  import opened Bignum

  datatype DsaField = PrivKey | PubKey | P | Q | G | Kinv | R

  /** The order in which the mandatory integers are extracted. */
  const DsaOrder: seq<DsaField> := [PrivKey, PubKey, P, Q, G]

  /** The mandatory integer pointers of a candidate, in extraction order. */
  function DsaAddrs(f: DsaFields): (s: seq<nat>)
    ensures |s| == 5
  {
    [f.privKey, f.pubKey, f.p, f.q, f.g]
  }

  /** x to the power n, over the integers. */
  function Pow(x: int, n: nat): int
    decreases n
  {
    if n == 0 then 1 else x * Pow(x, n - 1)
  }

  /**
   * What the library calls of the check do that the model cannot see:
   * whether BN_new and BN_CTX_new allocate, and whether the allocations
   * inside BN_mod_exp succeed.
   */
  datatype DsaLibrary = DsaLibrary(resAllocated: bool, ctxAllocated: bool, modExpSucceeds: bool)

  /** How extract_dsa_key ends: it returns a code, or err() ends the process. */
  datatype DsaResult = Returned(code: int) | Exited

  /** The value of a BIGNUM copy: its magnitude, negated when `neg` is set. */
  function Value(maps: seq<Mapping>, abi: Abi, bn: Bn): int
    requires Readable(maps, bn.d)
  {
    if bn.neg != 0 then -(Magnitude(maps, abi, bn) as int) else Magnitude(maps, abi, bn)
  }

  /** BN_FLG_CONSTTIME (0x04) is set in the flags the copy keeps from the target. */
  predicate ConstTime(bn: Bn) {
    (bn.flags % 8) / 4 == 1
  }

  /** What BN_mod_exp does: it fails (returns 0), or it reports success with r holding a value. */
  datatype ModExpResult = ModExpFailed | ModExpValue(v: nat)

  /**
   * BN_mod_exp(r, g, x, p) as OpenSSL 1.0.x computes it.  An odd modulus
   * goes to the Montgomery routines, an even one (zero included) to the
   * reciprocal routine, which refuses an exponent flagged constant-time by
   * returning -1: the caller takes that for success, and r keeps the zero
   * BN_new gave it.  Otherwise a zero exponent gives 1 before the modulus is
   * used, a zero modulus fails (division by zero), and any other case gives
   * g, with its sign, raised to |x| and reduced into 0 .. |p|-1 (the
   * non-negative remainder BN_nnmod computes).
   */
  function ModExp(maps: seq<Mapping>, abi: Abi, lib: DsaLibrary, g: Bn, x: Bn, p: Bn): (r: ModExpResult)
    requires Readable(maps, g.d) && Readable(maps, x.d) && Readable(maps, p.d)
    ensures r.ModExpValue? && Magnitude(maps, abi, p) > 1 ==> r.v < Magnitude(maps, abi, p)
  {
    var m := Magnitude(maps, abi, p);
    if m % 2 == 0 && ConstTime(x) then ModExpValue(0)
    else if !lib.modExpSucceeds then ModExpFailed
    else if Magnitude(maps, abi, x) == 0 then ModExpValue(1)
    else if m == 0 then ModExpFailed
    else ModExpValue(Pow(Value(maps, abi, g), Magnitude(maps, abi, x)) % m)
  }

  /**
   * On the keys section 4.1 of FIPS 186-4 describes (non-negative g, a
   * non-zero x and p), and unless the exponent carries the constant-time
   * flag with an even p, the library computes y = g^x mod p.
   */
  lemma ModExpIsModularPower(maps: seq<Mapping>, abi: Abi, lib: DsaLibrary, g: Bn, x: Bn, p: Bn)
    requires Readable(maps, g.d) && Readable(maps, x.d) && Readable(maps, p.d)
    requires lib.modExpSucceeds && g.neg == 0
    requires Magnitude(maps, abi, x) > 0 && Magnitude(maps, abi, p) > 0
    requires Magnitude(maps, abi, p) % 2 == 1 || !ConstTime(x)
    ensures ModExp(maps, abi, lib, g, x, p).ModExpValue?
    ensures ModExp(maps, abi, lib, g, x, p).v == Pow(Magnitude(maps, abi, g), Magnitude(maps, abi, x)) % Magnitude(maps, abi, p)
    ensures ModExp(maps, abi, lib, g, x, p).v < Magnitude(maps, abi, p)
  {
  }

  /** The number of 64-bit limbs of a normalised BIGNUM holding v: its `top`. */
  function LimbCount(v: nat): nat
    decreases v
  {
    if v == 0 then 0 else 1 + LimbCount(v / Word)
  }

  /**
   * BN_cmp(res, y) == 0 for a result holding v: BN_cmp compares the signs,
   * then `top`, then the limbs, and the result is non-negative and
   * normalised.
   */
  predicate SameBn(maps: seq<Mapping>, abi: Abi, v: nat, y: Bn)
    requires Readable(maps, y.d)
  {
    y.neg == 0 && y.top == LimbCount(v) && Magnitude(maps, abi, y) == v
  }

  /**
   * The check of an assembled key: the process ends when BN_new fails; -1
   * when BN_CTX_new or BN_mod_exp fails or the result differs from the
   * public key; 0 otherwise.
   */
  function KeyCheck(maps: seq<Mapping>, abi: Abi, lib: DsaLibrary, priv: Bn, pub: Bn, p: Bn, g: Bn): DsaResult
    requires Readable(maps, priv.d) && Readable(maps, pub.d) && Readable(maps, p.d) && Readable(maps, g.d)
  {
    if !lib.resAllocated then Exited
    else if !lib.ctxAllocated then Returned(-1)
    else match ModExp(maps, abi, lib, g, priv, p)
      case ModExpFailed => Returned(-1)
      case ModExpValue(v) => if SameBn(maps, abi, v, pub) then Returned(0) else Returned(-1)
  }

  /** The copy of the i-th mandatory integer, when all of them extract. */
  function Copy(maps: seq<Mapping>, abi: Abi, addrs: seq<nat>, i: nat): (bn: Bn)
    requires |addrs| == 5 && ExtractedCount(maps, abi, addrs) == 5 && i < 5
    ensures Readable(maps, bn.d) && Some(bn) == ExtractBn(maps, abi, addrs[i])
  {
    ExtractedCountIsFirstFailure(maps, abi, addrs);
    ExtractBn(maps, abi, addrs[i]).value
  }

  /** What extract_dsa_key does, as a value: -1 when a mandatory integer does not extract, else the check. */
  function DsaStatus(maps: seq<Mapping>, abi: Abi, lib: DsaLibrary, addrs: seq<nat>): DsaResult
    requires |addrs| == 5
  {
    if ExtractedCount(maps, abi, addrs) < 5 then Returned(-1)
    else KeyCheck(maps, abi, lib, Copy(maps, abi, addrs, 0), Copy(maps, abi, addrs, 1),
                  Copy(maps, abi, addrs, 2), Copy(maps, abi, addrs, 4))
  }

  /**
   * The assembler returns 0 exactly when all five mandatory integers
   * extract, BN_new and BN_CTX_new allocate, BN_mod_exp reports success and
   * its result compares equal to y; it ends the process exactly when all
   * five extract and BN_new fails; otherwise it returns -1.
   */
  lemma DsaStatusCases(maps: seq<Mapping>, abi: Abi, lib: DsaLibrary, addrs: seq<nat>)
    requires |addrs| == 5
    ensures DsaStatus(maps, abi, lib, addrs) == Returned(0) <==>
      && (forall i :: 0 <= i < 5 ==> ExtractBn(maps, abi, addrs[i]).Some?)
      && lib.resAllocated && lib.ctxAllocated
      && (var priv, pub, p, g := ExtractBn(maps, abi, addrs[0]).value, ExtractBn(maps, abi, addrs[1]).value,
                                 ExtractBn(maps, abi, addrs[2]).value, ExtractBn(maps, abi, addrs[4]).value;
          && ModExp(maps, abi, lib, g, priv, p).ModExpValue?
          && SameBn(maps, abi, ModExp(maps, abi, lib, g, priv, p).v, pub))
    ensures DsaStatus(maps, abi, lib, addrs) == Exited <==>
      (forall i :: 0 <= i < 5 ==> ExtractBn(maps, abi, addrs[i]).Some?) && !lib.resAllocated
    ensures DsaStatus(maps, abi, lib, addrs) in {Returned(0), Returned(-1), Exited}
  {
    ExtractedCountIsFirstFailure(maps, abi, addrs);
  }

  /** The seven BIGNUM pointer fields of the structure. */
  datatype DsaInts = DsaInts(privKey: Slot, pubKey: Slot, p: Slot, q: Slot, g: Slot, kinv: Slot, r: Slot)
  {
    /** The field that holds a given integer. */
    function Field(x: DsaField): Slot {
      match x
      case PrivKey => privKey
      case PubKey => pubKey
      case P => p
      case Q => q
      case G => g
      case Kinv => kinv
      case R => r
    }

    /**
     * The fields a rejection frees, in order, when k mandatory integers
     * extracted: the goto chain entered at the label of the last of them,
     * or, once all five are in, r and kinv when non-NULL followed by g, q,
     * p, pub_key and priv_key.
     */
    function Rollback(k: nat): seq<DsaField>
      requires k <= 5
    {
      if k < 5 then FreeChain(DsaOrder, k)
      else (if r.Null? then [] else [R]) + (if kinv.Null? then [] else [Kinv]) + FreeChain(DsaOrder, 5)
    }
  }

  /** The pointers the assembler nulls once the mandatory integers are in. */
  datatype DsaCaches = DsaCaches(methodMontP: nat, meth: nat, engine: nat)

  /**
   * The integer fields after extract_dsa_key: the mandatory ones as the
   * in-order extraction leaves them; kinv and r, reached only when all five
   * are in, hold their copy or NULL.
   */
  function DsaAfter(maps: seq<Mapping>, abi: Abi, addrs: seq<nat>, kinv: nat, r: nat): DsaInts
    requires |addrs| == 5
  {
    var all := ExtractedCount(maps, abi, addrs) == 5;
    DsaInts(SlotAfter(maps, abi, addrs, 0), SlotAfter(maps, abi, addrs, 1), SlotAfter(maps, abi, addrs, 2),
            SlotAfter(maps, abi, addrs, 3), SlotAfter(maps, abi, addrs, 4),
            if all then SlotOf(ExtractBn(maps, abi, kinv)) else Raw(kinv),
            if all then SlotOf(ExtractBn(maps, abi, r)) else Raw(r))
  }

  /**
   * The rollback after k mandatory extractions frees exactly the fields
   * holding a copy, whenever the mandatory fields holding one are the first
   * k, and kinv and r hold a copy or NULL once all five are in and no copy
   * before.
   */
  lemma RollbackFreesOwned(after: DsaInts, k: nat, x: DsaField)
    requires k <= 5
    requires forall i :: 0 <= i < 5 ==> (after.Field(DsaOrder[i]).Owned? <==> i < k)
    requires k < 5 ==> !after.kinv.Owned? && !after.r.Owned?
    requires k == 5 ==> !after.kinv.Raw? && !after.r.Raw?
    ensures x in after.Rollback(k) <==> after.Field(x).Owned?
  {
    FreeChainFreesPrefix(DsaOrder, k, x);
    assert DsaOrder[..k] == seq(k, i requires 0 <= i < k => DsaOrder[i]);
    match x
    case PrivKey => assert after.Field(DsaOrder[0]).Owned? <==> 0 < k;
    case PubKey => assert after.Field(DsaOrder[1]).Owned? <==> 1 < k;
    case P => assert after.Field(DsaOrder[2]).Owned? <==> 2 < k;
    case Q => assert after.Field(DsaOrder[3]).Owned? <==> 3 < k;
    case G => assert after.Field(DsaOrder[4]).Owned? <==> 4 < k;
    case Kinv =>
    case R =>
  }

  /** The rollback frees no field twice. */
  lemma RollbackNoDuplicates(after: DsaInts, k: nat)
    requires k <= 5
    ensures NoDuplicates(after.Rollback(k))
  {
    FreeChainNoDuplicates(DsaOrder, k);
    if k == 5 {
      FreeChainIsLifo(DsaOrder, 5);
      assert FreeChain(DsaOrder, 5) == [G, Q, P, PubKey, PrivKey];
    }
  }

  /** A rejection frees exactly the fields that hold an extracted copy: nothing leaks, nothing is freed twice. */
  lemma DsaReleasesOwned(maps: seq<Mapping>, abi: Abi, addrs: seq<nat>, kinv: nat, r: nat, x: DsaField)
    requires |addrs| == 5
    ensures var after := DsaAfter(maps, abi, addrs, kinv, r);
      x in after.Rollback(ExtractedCount(maps, abi, addrs)) <==> after.Field(x).Owned?
    ensures NoDuplicates(DsaAfter(maps, abi, addrs, kinv, r).Rollback(ExtractedCount(maps, abi, addrs)))
  {
    RollbackNoDuplicates(DsaAfter(maps, abi, addrs, kinv, r), ExtractedCount(maps, abi, addrs));
    var after := DsaAfter(maps, abi, addrs, kinv, r);
    var k := ExtractedCount(maps, abi, addrs);
    SlotAfterCopy(maps, abi, addrs, 0);
    SlotAfterCopy(maps, abi, addrs, 1);
    SlotAfterCopy(maps, abi, addrs, 2);
    SlotAfterCopy(maps, abi, addrs, 3);
    SlotAfterCopy(maps, abi, addrs, 4);
    assert forall i :: 0 <= i < 5 ==> (after.Field(DsaOrder[i]).Owned? <==> i < k) by {
      forall i | 0 <= i < 5
        ensures after.Field(DsaOrder[i]).Owned? <==> i < k
      {
        assert after.Field(DsaOrder[i]) == SlotAfter(maps, abi, addrs, i);
      }
    }
    RollbackFreesOwned(after, k, x);
  }

  /**
   * The check of extract_dsa_key: allocate the result (err() ends the
   * process when that fails) and the context, g^x mod p, compare with y.
   */
  method CheckKey(maps: seq<Mapping>, abi: Abi, lib: DsaLibrary, priv: Bn, pub: Bn, p: Bn, g: Bn) returns (r: DsaResult)
    requires Readable(maps, priv.d) && Readable(maps, pub.d) && Readable(maps, p.d) && Readable(maps, g.d)
    ensures r == KeyCheck(maps, abi, lib, priv, pub, p, g)
  {
    if !lib.resAllocated {
      return Exited;
    }
    if !lib.ctxAllocated {
      return Returned(-1);
    }
    var res := ModExp(maps, abi, lib, g, priv, p);
    if res.ModExpFailed? {
      return Returned(-1);
    }
    if !SameBn(maps, abi, res.v, pub) {
      return Returned(-1);
    }
    return Returned(0);
  }

  /** The local DSA structure of the scanner, updated in place by the assembler. */
  class DsaKey {
    var ints: DsaInts
    var caches: DsaCaches
    /** The integer fields freed so far, in the order they were freed. */
    ghost var released: seq<DsaField>

    /** The memcpy of a candidate window into the local structure. */
    constructor (f: DsaFields)
      ensures Unextracted() && Addrs() == DsaAddrs(f) && ints.kinv == Raw(f.kinv) && ints.r == Raw(f.r)
      ensures caches == DsaCaches(f.methodMontP, f.meth, f.engine) && released == []
    {
      ints := DsaInts(Raw(f.privKey), Raw(f.pubKey), Raw(f.p), Raw(f.q), Raw(f.g), Raw(f.kinv), Raw(f.r));
      caches := DsaCaches(f.methodMontP, f.meth, f.engine);
      released := [];
    }

    /** Every integer field still holds the raw target pointer read from the window. */
    predicate Unextracted()
      reads this`ints
    {
      ints.privKey.Raw? && ints.pubKey.Raw? && ints.p.Raw? && ints.q.Raw? && ints.g.Raw?
      && ints.kinv.Raw? && ints.r.Raw?
    }

    /** The raw target pointers of the mandatory integer fields, in extraction order. */
    function Addrs(): (s: seq<nat>)
      reads this`ints
      requires Unextracted()
      ensures |s| == 5
    {
      [ints.privKey.addr, ints.pubKey.addr, ints.p.addr, ints.q.addr, ints.g.addr]
    }

    /**
     * The mandatory part of extract_dsa_key: priv_key, pub_key, p, q and g
     * in turn are replaced by the result of BN_extract_from_mem, stopping at
     * the first error; `k` is the number that extracted.
     */
    method ExtractMandatory(maps: seq<Mapping>, abi: Abi) returns (k: nat)
      requires Unextracted()
      modifies this`ints
      ensures k == FirstFailure(maps, abi, old(Addrs()), 0)
      ensures ints == DsaAfter(maps, abi, old(Addrs()), old(ints.kinv.addr), old(ints.r.addr)).(
        kinv := old(ints.kinv), r := old(ints.r))
    {
      var addrs := Addrs();
      var bn, error := BnExtractFromMem(maps, abi, addrs[0]);
      ints := ints.(privKey := SlotOf(bn));
      if error != 0 { assert FirstFailure(maps, abi, addrs, 0) == 0; return 0; }
      assert FirstFailure(maps, abi, addrs, 0) == FirstFailure(maps, abi, addrs, 1);
      bn, error := BnExtractFromMem(maps, abi, addrs[1]);
      ints := ints.(pubKey := SlotOf(bn));
      if error != 0 { assert FirstFailure(maps, abi, addrs, 1) == 1; return 1; }
      assert FirstFailure(maps, abi, addrs, 1) == FirstFailure(maps, abi, addrs, 2);
      bn, error := BnExtractFromMem(maps, abi, addrs[2]);
      ints := ints.(p := SlotOf(bn));
      if error != 0 { assert FirstFailure(maps, abi, addrs, 2) == 2; return 2; }
      assert FirstFailure(maps, abi, addrs, 2) == FirstFailure(maps, abi, addrs, 3);
      bn, error := BnExtractFromMem(maps, abi, addrs[3]);
      ints := ints.(q := SlotOf(bn));
      if error != 0 { assert FirstFailure(maps, abi, addrs, 3) == 3; return 3; }
      assert FirstFailure(maps, abi, addrs, 3) == FirstFailure(maps, abi, addrs, 4);
      bn, error := BnExtractFromMem(maps, abi, addrs[4]);
      ints := ints.(g := SlotOf(bn));
      if error != 0 { assert FirstFailure(maps, abi, addrs, 4) == 4; return 4; }
      assert FirstFailure(maps, abi, addrs, 4) == FirstFailure(maps, abi, addrs, 5);
      assert FirstFailure(maps, abi, addrs, 5) == 5;
      return 5;
    }

    /** kinv and r: each is replaced by its copy, or NULL when it does not extract. */
    method ExtractOptional(maps: seq<Mapping>, abi: Abi)
      requires ints.kinv.Raw? && ints.r.Raw?
      modifies this`ints
      ensures ints == old(ints).(kinv := SlotOf(ExtractBn(maps, abi, old(ints.kinv.addr))),
                                 r := SlotOf(ExtractBn(maps, abi, old(ints.r.addr))))
    {
      var bn, error := BnExtractFromMem(maps, abi, ints.kinv.addr);
      ints := ints.(kinv := SlotOf(bn));
      if error != 0 { ints := ints.(kinv := Null); }
      bn, error := BnExtractFromMem(maps, abi, ints.r.addr);
      ints := ints.(r := SlotOf(bn));
      if error != 0 { ints := ints.(r := Null); }
    }

    /**
     * The part of extract_dsa_key after the five mandatory integers are in:
     * kinv and r are copied or NULLed, the non-portable pointers nulled, the
     * key checked, and on a rejection every field holding a copy freed.
     */
    method Complete(maps: seq<Mapping>, abi: Abi, lib: DsaLibrary, ghost addrs: seq<nat>) returns (r: DsaResult)
      requires |addrs| == 5 && ExtractedCount(maps, abi, addrs) == 5
      requires ints.privKey == Owned(Copy(maps, abi, addrs, 0)) && ints.pubKey == Owned(Copy(maps, abi, addrs, 1))
      requires ints.p == Owned(Copy(maps, abi, addrs, 2)) && ints.g == Owned(Copy(maps, abi, addrs, 4))
      requires ints.kinv.Raw? && ints.r.Raw?
      modifies this
      ensures r == KeyCheck(maps, abi, lib, Copy(maps, abi, addrs, 0), Copy(maps, abi, addrs, 1),
                            Copy(maps, abi, addrs, 2), Copy(maps, abi, addrs, 4))
      ensures ints == old(ints).(kinv := SlotOf(ExtractBn(maps, abi, old(ints.kinv.addr))),
                                 r := SlotOf(ExtractBn(maps, abi, old(ints.r.addr))))
      ensures caches == DsaCaches(0, 0, 0)
      ensures released == old(released) + (if r == Returned(-1) then ints.Rollback(5) else [])
    {
      ExtractOptional(maps, abi);
      caches := DsaCaches(0, 0, 0);

      r := CheckKey(maps, abi, lib, ints.privKey.bn, ints.pubKey.bn, ints.p.bn, ints.g.bn);
      if r == Returned(-1) {
        released := released + ints.Rollback(5);
      }
    }

    /**
     * extract_dsa_key.  With k the number of mandatory integers that
     * extract in order: a failure frees exactly those k, last first; once
     * all five are in, kinv and r are copied or NULLed, the non-portable
     * pointers are nulled, and the key is checked; a failed BN_new ends the
     * process with nothing freed; any other rejection frees every field that
     * holds a copy; acceptance (0) frees nothing.
     */
    method Extract(maps: seq<Mapping>, abi: Abi, lib: DsaLibrary) returns (r: DsaResult)
      requires Unextracted()
      modifies this
      ensures r == DsaStatus(maps, abi, lib, old(Addrs()))
      ensures ints == DsaAfter(maps, abi, old(Addrs()), old(ints.kinv.addr), old(ints.r.addr))
      ensures caches == (if ExtractedCount(maps, abi, old(Addrs())) == 5 then DsaCaches(0, 0, 0) else old(caches))
      ensures released == old(released) +
        (if r == Returned(-1) then ints.Rollback(ExtractedCount(maps, abi, old(Addrs()))) else [])
    {
      ghost var addrs := Addrs();
      var k := ExtractMandatory(maps, abi);
      if k < 5 {
        released := released + ints.Rollback(k);
        return Returned(-1);
      }
      assert ExtractBn(maps, abi, addrs[0]) == Some(Copy(maps, abi, addrs, 0));
      assert ExtractBn(maps, abi, addrs[1]) == Some(Copy(maps, abi, addrs, 1));
      assert ExtractBn(maps, abi, addrs[2]) == Some(Copy(maps, abi, addrs, 2));
      assert ExtractBn(maps, abi, addrs[4]) == Some(Copy(maps, abi, addrs, 4));
      r := Complete(maps, abi, lib, addrs);
    }

    /** free_dsa_key: frees r and kinv when non-NULL, then the five mandatory integers, last first. */
    ghost method Free()
      modifies this`released
      ensures released == old(released) + ints.Rollback(5)
    {
      released := released + ints.Rollback(5);
    }
  }
}
