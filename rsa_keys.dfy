/**
 * extract_rsa_key and free_rsa_key: the RSA candidate's eight integer
 * pointers are replaced, in a fixed order, by extracted copies; on the first
 * failure the ones already extracted are released last-in first-out.  The
 * library's consistency check is an oracle; any answer but 1 releases all
 * eight and rejects the key.
 */
module RsaKeys {
  import opened Wrappers
  import opened Memory
  import opened Structs
  import opened Bignum

  datatype RsaField = N | E | D | P | Q | Dmp1 | Dmq1 | Iqmp

  /** The order in which the integers are extracted. */
  const RsaOrder: seq<RsaField> := [N, E, D, P, Q, Dmp1, Dmq1, Iqmp]

  /** The eight integers of an assembled key, as RSA_check_key sees them. */
  datatype RsaValue = RsaValue(n: Bn, e: Bn, d: Bn, p: Bn, q: Bn, dmp1: Bn, dmq1: Bn, iqmp: Bn)

  /** The integer pointers of a candidate, in extraction order. */
  function RsaAddrs(f: RsaFields): (s: seq<nat>)
    ensures |s| == 8
  {
    [f.n, f.e, f.d, f.p, f.q, f.dmp1, f.dmq1, f.iqmp]
  }

  /** The assembled integers, when every one of them extracts. */
  function RsaIntegers(maps: seq<Mapping>, abi: Abi, addrs: seq<nat>): Option<RsaValue>
    requires |addrs| == 8
  {
    ExtractedCountIsFirstFailure(maps, abi, addrs);
    if ExtractedCount(maps, abi, addrs) < 8 then None
    else Some(RsaValue(
      ExtractBn(maps, abi, addrs[0]).value, ExtractBn(maps, abi, addrs[1]).value,
      ExtractBn(maps, abi, addrs[2]).value, ExtractBn(maps, abi, addrs[3]).value,
      ExtractBn(maps, abi, addrs[4]).value, ExtractBn(maps, abi, addrs[5]).value,
      ExtractBn(maps, abi, addrs[6]).value, ExtractBn(maps, abi, addrs[7]).value))
  }

  /** The key is assembled exactly when all eight integers extract, and then from their copies. */
  lemma RsaIntegersCases(maps: seq<Mapping>, abi: Abi, addrs: seq<nat>)
    requires |addrs| == 8
    ensures RsaIntegers(maps, abi, addrs).Some? <==> forall i :: 0 <= i < 8 ==> ExtractBn(maps, abi, addrs[i]).Some?
    ensures RsaIntegers(maps, abi, addrs).Some? ==> RsaIntegers(maps, abi, addrs).value == RsaValue(
      ExtractBn(maps, abi, addrs[0]).value, ExtractBn(maps, abi, addrs[1]).value,
      ExtractBn(maps, abi, addrs[2]).value, ExtractBn(maps, abi, addrs[3]).value,
      ExtractBn(maps, abi, addrs[4]).value, ExtractBn(maps, abi, addrs[5]).value,
      ExtractBn(maps, abi, addrs[6]).value, ExtractBn(maps, abi, addrs[7]).value)
  {
    ExtractedCountIsFirstFailure(maps, abi, addrs);
  }

  /**
   * What extract_rsa_key returns: 0 exactly when all eight integers extract
   * and the consistency check answers 1, otherwise -1.
   */
  function RsaStatus(maps: seq<Mapping>, abi: Abi, check: RsaValue -> int, addrs: seq<nat>): (r: int)
    requires |addrs| == 8
    ensures r == 0 || r == -1
  {
    match RsaIntegers(maps, abi, addrs)
    case None => -1
    case Some(v) => if check(v) == 1 then 0 else -1
  }

  /** The assembler succeeds exactly when every integer extracts and the check answers 1. */
  lemma RsaStatusCases(maps: seq<Mapping>, abi: Abi, check: RsaValue -> int, addrs: seq<nat>)
    requires |addrs| == 8
    ensures RsaStatus(maps, abi, check, addrs) == 0 <==>
      && (forall i :: 0 <= i < 8 ==> ExtractBn(maps, abi, addrs[i]).Some?)
      && RsaIntegers(maps, abi, addrs).Some?
      && check(RsaIntegers(maps, abi, addrs).value) == 1
  {
    RsaIntegersCases(maps, abi, addrs);
  }

  /** The eight BIGNUM pointer fields of the structure, in declaration order. */
  datatype RsaInts = RsaInts(n: Slot, e: Slot, d: Slot, p: Slot, q: Slot, dmp1: Slot, dmq1: Slot, iqmp: Slot)
  {
    /** The field that holds a given integer. */
    function Field(x: RsaField): Slot {
      match x
      case N => n
      case E => e
      case D => d
      case P => p
      case Q => q
      case Dmp1 => dmp1
      case Dmq1 => dmq1
      case Iqmp => iqmp
    }
  }

  /** The pointers the assembler nulls once all eight integers are in (they point into the target). */
  datatype RsaCaches = RsaCaches(meth: nat, methodModN: nat, methodModP: nat, methodModQ: nat,
                                 bignumData: nat, blinding: nat)

  /** The integer fields after extract_rsa_key, field by field. */
  function RsaAfter(maps: seq<Mapping>, abi: Abi, addrs: seq<nat>): RsaInts
    requires |addrs| == 8
  {
    RsaInts(SlotAfter(maps, abi, addrs, 0), SlotAfter(maps, abi, addrs, 1), SlotAfter(maps, abi, addrs, 2),
            SlotAfter(maps, abi, addrs, 3), SlotAfter(maps, abi, addrs, 4), SlotAfter(maps, abi, addrs, 5),
            SlotAfter(maps, abi, addrs, 6), SlotAfter(maps, abi, addrs, 7))
  }

  /** The position of an integer in the extraction order. */
  function Position(x: RsaField): (i: nat)
    ensures i < 8 && RsaOrder[i] == x
  {
    match x
    case N => 0
    case E => 1
    case D => 2
    case P => 3
    case Q => 4
    case Dmp1 => 5
    case Dmq1 => 6
    case Iqmp => 7
  }

  /** Position undoes indexing into the extraction order. */
  lemma PositionInverse(j: nat)
    requires j < 8
    ensures Position(RsaOrder[j]) == j
  {
  }

  /** The free chain entered at the label of the k-th integer frees an integer exactly when it comes before k. */
  lemma FreedIffBefore(k: nat, x: RsaField)
    requires k <= 8
    ensures x in FreeChain(RsaOrder, k) <==> Position(x) < k
  {
    FreeChainFreesPrefix(RsaOrder, k, x);
    if x in RsaOrder[..k] {
      var j :| 0 <= j < k && RsaOrder[..k][j] == x;
      PositionInverse(j);
    }
    assert Position(x) < k ==> RsaOrder[..k][Position(x)] == x;
  }

  /**
   * A rejection frees exactly the integer fields that hold an extracted
   * copy: nothing leaks and nothing is freed twice.
   */
  lemma RsaReleasesOwned(maps: seq<Mapping>, abi: Abi, addrs: seq<nat>, x: RsaField)
    requires |addrs| == 8
    ensures x in FreeChain(RsaOrder, ExtractedCount(maps, abi, addrs)) <==> RsaAfter(maps, abi, addrs).Field(x).Owned?
    ensures NoDuplicates(FreeChain(RsaOrder, ExtractedCount(maps, abi, addrs)))
  {
    FreeChainNoDuplicates(RsaOrder, ExtractedCount(maps, abi, addrs));
    FreedIffBefore(ExtractedCount(maps, abi, addrs), x);
    SlotAfterCopy(maps, abi, addrs, Position(x));
    assert RsaAfter(maps, abi, addrs).Field(x) == SlotAfter(maps, abi, addrs, Position(x));
  }

  /** The local RSA structure of the scanner, updated in place by the assembler. */
  class RsaKey {
    var ints: RsaInts
    var caches: RsaCaches
    /** The integer fields freed so far, in the order they were freed. */
    ghost var released: seq<RsaField>

    /** The memcpy of a candidate window into the local structure. */
    constructor (f: RsaFields)
      ensures Unextracted() && Addrs() == RsaAddrs(f) && released == []
      ensures caches == RsaCaches(f.meth, f.methodModN, f.methodModP, f.methodModQ, f.bignumData, f.blinding)
    {
      ints := RsaInts(Raw(f.n), Raw(f.e), Raw(f.d), Raw(f.p), Raw(f.q), Raw(f.dmp1), Raw(f.dmq1), Raw(f.iqmp));
      caches := RsaCaches(f.meth, f.methodModN, f.methodModP, f.methodModQ, f.bignumData, f.blinding);
      released := [];
    }

    /** Every integer field still holds the raw target pointer read from the window. */
    predicate Unextracted()
      reads this`ints
    {
      ints.n.Raw? && ints.e.Raw? && ints.d.Raw? && ints.p.Raw? && ints.q.Raw?
      && ints.dmp1.Raw? && ints.dmq1.Raw? && ints.iqmp.Raw?
    }

    /** The raw target pointers of the integer fields, in extraction order. */
    function Addrs(): (s: seq<nat>)
      reads this`ints
      requires Unextracted()
      ensures |s| == 8
    {
      [ints.n.addr, ints.e.addr, ints.d.addr, ints.p.addr, ints.q.addr, ints.dmp1.addr, ints.dmq1.addr, ints.iqmp.addr]
    }

    /** Every integer field holds an extracted copy. */
    predicate Assembled()
      reads this`ints
    {
      ints.n.Owned? && ints.e.Owned? && ints.d.Owned? && ints.p.Owned? && ints.q.Owned?
      && ints.dmp1.Owned? && ints.dmq1.Owned? && ints.iqmp.Owned?
    }

    /** The key RSA_check_key is given. */
    function Value(): RsaValue
      reads this`ints
      requires Assembled()
    {
      RsaValue(ints.n.bn, ints.e.bn, ints.d.bn, ints.p.bn, ints.q.bn, ints.dmp1.bn, ints.dmq1.bn, ints.iqmp.bn)
    }

    /**
     * The extraction sequence of extract_rsa_key: each integer field in turn
     * is replaced by the result of BN_extract_from_mem, stopping at the first
     * error.  `k` is the number that extracted, so that the field at `k` (if
     * any) is NULL and the later ones are untouched.
     */
    method ExtractIntegers(maps: seq<Mapping>, abi: Abi) returns (k: nat)
      requires Unextracted()
      modifies this`ints
      ensures k == FirstFailure(maps, abi, old(Addrs()), 0)
      ensures ints == RsaAfter(maps, abi, old(Addrs()))
    {
      var addrs := Addrs();
      var bn, error := BnExtractFromMem(maps, abi, addrs[0]);
      ints := ints.(n := SlotOf(bn));
      if error != 0 { assert FirstFailure(maps, abi, addrs, 0) == 0; return 0; }
      assert FirstFailure(maps, abi, addrs, 0) == FirstFailure(maps, abi, addrs, 1);
      bn, error := BnExtractFromMem(maps, abi, addrs[1]);
      ints := ints.(e := SlotOf(bn));
      if error != 0 { assert FirstFailure(maps, abi, addrs, 1) == 1; return 1; }
      assert FirstFailure(maps, abi, addrs, 1) == FirstFailure(maps, abi, addrs, 2);
      bn, error := BnExtractFromMem(maps, abi, addrs[2]);
      ints := ints.(d := SlotOf(bn));
      if error != 0 { assert FirstFailure(maps, abi, addrs, 2) == 2; return 2; }
      assert FirstFailure(maps, abi, addrs, 2) == FirstFailure(maps, abi, addrs, 3);
      bn, error := BnExtractFromMem(maps, abi, addrs[3]);
      ints := ints.(p := SlotOf(bn));
      if error != 0 { assert FirstFailure(maps, abi, addrs, 3) == 3; return 3; }
      assert FirstFailure(maps, abi, addrs, 3) == FirstFailure(maps, abi, addrs, 4);
      bn, error := BnExtractFromMem(maps, abi, addrs[4]);
      ints := ints.(q := SlotOf(bn));
      if error != 0 { assert FirstFailure(maps, abi, addrs, 4) == 4; return 4; }
      assert FirstFailure(maps, abi, addrs, 4) == FirstFailure(maps, abi, addrs, 5);
      bn, error := BnExtractFromMem(maps, abi, addrs[5]);
      ints := ints.(dmp1 := SlotOf(bn));
      if error != 0 { assert FirstFailure(maps, abi, addrs, 5) == 5; return 5; }
      assert FirstFailure(maps, abi, addrs, 5) == FirstFailure(maps, abi, addrs, 6);
      bn, error := BnExtractFromMem(maps, abi, addrs[6]);
      ints := ints.(dmq1 := SlotOf(bn));
      if error != 0 { assert FirstFailure(maps, abi, addrs, 6) == 6; return 6; }
      assert FirstFailure(maps, abi, addrs, 6) == FirstFailure(maps, abi, addrs, 7);
      bn, error := BnExtractFromMem(maps, abi, addrs[7]);
      ints := ints.(iqmp := SlotOf(bn));
      if error != 0 { assert FirstFailure(maps, abi, addrs, 7) == 7; return 7; }
      assert FirstFailure(maps, abi, addrs, 7) == FirstFailure(maps, abi, addrs, 8);
      assert FirstFailure(maps, abi, addrs, 8) == 8;
      return 8;
    }

    /**
     * extract_rsa_key.  With k the number of integers that extract in order:
     * the first k fields hold their copies, a failing field is NULL and the
     * later ones are untouched; a failure frees exactly the k extracted
     * fields, last first (the goto chain entered at the label of the last
     * one); the non-portable pointers are nulled once all eight are in; and
     * 0 is returned only when the check answers 1, in which case nothing is
     * freed.
     */
    method Extract(maps: seq<Mapping>, abi: Abi, check: RsaValue -> int) returns (r: int)
      requires Unextracted()
      modifies this
      ensures r == RsaStatus(maps, abi, check, old(Addrs()))
      ensures released == old(released) +
        (if r == 0 then [] else FreeChain(RsaOrder, ExtractedCount(maps, abi, old(Addrs()))))
      ensures ints == RsaAfter(maps, abi, old(Addrs()))
      ensures caches == (if ExtractedCount(maps, abi, old(Addrs())) == 8 then RsaCaches(0, 0, 0, 0, 0, 0) else old(caches))
      ensures r == 0 ==> Assembled() && Some(Value()) == RsaIntegers(maps, abi, old(Addrs()))
    {
      var k := ExtractIntegers(maps, abi);
      if k < 8 {
        released := released + FreeChain(RsaOrder, k);
        return -1;
      }

      caches := RsaCaches(0, 0, 0, 0, 0, 0);

      var status := check(Value());
      if status == 1 {
        return 0;
      }
      released := released + FreeChain(RsaOrder, 8);
      return -1;
    }

    /** free_rsa_key: frees all eight integers of a found key, last first. */
    ghost method Free()
      modifies this`released
      ensures released == old(released) + FreeChain(RsaOrder, 8)
    {
      released := released + FreeChain(RsaOrder, 8);
    }
  }
}
