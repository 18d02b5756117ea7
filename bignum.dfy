/**
 * The integer extractor: copying a BIGNUM out of the target.  The header is
 * looked up and copied, sanity-checked, and its limb pointer is resolved to
 * a location in the snapshot (the copy's `d` then points into the cached
 * snapshot, as in the source; the limbs themselves are not copied).
 */
module Bignum {
  import opened Wrappers
  import opened Memory
  import opened Structs

  /** A locally owned BIGNUM whose limb array lives in the snapshot at `d`. */
  datatype Bn = Bn(d: Location, top: int, dmax: int, neg: int, flags: int)

  /** is_valid_BN: -1 unless 0 <= top <= dmax and neg is 0 or 1. */
  function IsValidBn(h: BnHeader): (r: int)
    ensures r == 0 || r == -1
    ensures r == 0 <==> 0 <= h.top <= h.dmax && (h.neg == 0 || h.neg == 1)
  {
    if h.dmax < 0 || h.top < 0 || h.dmax < h.top then -1
    else if !(h.neg == 1 || h.neg == 0) then -1
    else 0
  }

  /** The header the source copies (memcpy of sizeof(BIGNUM) bytes) from a location. */
  function HeaderAt(maps: seq<Mapping>, abi: Abi, l: Location): BnHeader
    requires Readable(maps, l)
  {
    abi.bnAt(maps[l.index].data.value, l.offset)
  }

  /** A mapping covers `addr` and that mapping is cached. */
  ghost predicate Cached(maps: seq<Mapping>, addr: nat) {
    exists i :: 0 <= i < |maps| && Contains(maps[i], addr) && maps[i].data.Some?
        && forall k :: 0 <= k < i ==> !Contains(maps[k], addr)
  }

  lemma CachedIffExtracted(maps: seq<Mapping>, addr: nat)
    ensures Cached(maps, addr) <==> ExtractFromMem(maps, addr).Some?
  {
    LookupFindsFirst(maps, addr);
    var l := Lookup(maps, addr);
    if l.Some? {
      if Cached(maps, addr) {
        var i :| 0 <= i < |maps| && Contains(maps[i], addr) && maps[i].data.Some?
          && forall k :: 0 <= k < i ==> !Contains(maps[k], addr);
        assert i == l.value.index by {
          if i < l.value.index {
            assert false;
          } else if i > l.value.index {
            assert false;
          }
        }
      }
    }
  }

  /**
   * BN_extract_from_mem, as a value: None (error set) exactly when the header
   * address is unmapped or uncached, the header fails the sanity check, or
   * the limb array address is unmapped or uncached; otherwise a copy with the
   * header's top, dmax, neg and flags whose limb pointer is the snapshot
   * location of the header's `d`.
   */
  function ExtractBn(maps: seq<Mapping>, abi: Abi, addr: nat): (r: Option<Bn>)
    ensures r.Some? ==> 0 <= r.value.top <= r.value.dmax && Readable(maps, r.value.d)
  {
    match ExtractFromMem(maps, addr)
    case None => None
    case Some(l) =>
      var h := HeaderAt(maps, abi, l);
      if IsValidBn(h) != 0 then None
      else
        match ExtractFromMem(maps, h.d)
        case None => None
        case Some(d) => Some(Bn(d, h.top, h.dmax, h.neg, h.flags))
  }

  /**
   * BN_extract_from_mem fails (error set, NULL returned) in exactly these
   * cases: the header address is unmapped or its mapping uncached; dmax < 0,
   * top < 0 or dmax < top; neg is neither 0 nor 1; the limb array address is
   * unmapped or uncached.  Otherwise the copy keeps the header's top, dmax,
   * neg and flags, and its limb pointer is the snapshot location of `d`.
   */
  lemma ExtractBnCases(maps: seq<Mapping>, abi: Abi, addr: nat)
    ensures ExtractFromMem(maps, addr).Some? <==> Cached(maps, addr)
    ensures ExtractBn(maps, abi, addr).None? <==>
      || ExtractFromMem(maps, addr).None?
      || (var h := HeaderAt(maps, abi, ExtractFromMem(maps, addr).value);
          || h.dmax < 0 || h.top < 0 || h.dmax < h.top
          || (h.neg != 0 && h.neg != 1)
          || !Cached(maps, h.d))
    ensures ExtractBn(maps, abi, addr).Some? ==>
      var bn := ExtractBn(maps, abi, addr).value;
      var h := HeaderAt(maps, abi, ExtractFromMem(maps, addr).value);
      && bn.top == h.top && bn.dmax == h.dmax && bn.neg == h.neg && bn.flags == h.flags
      && Readable(maps, bn.d)
      && Contains(maps[bn.d.index], h.d)
      && bn.d.offset == (h.d - maps[bn.d.index].address) % Word32
  {
    CachedIffExtracted(maps, addr);
    if ExtractFromMem(maps, addr).Some? {
      CachedIffExtracted(maps, HeaderAt(maps, abi, ExtractFromMem(maps, addr).value).d);
    }
  }

  /**
   * BN_extract_from_mem: copy the header, check it, then overwrite the
   * copy's limb pointer with the resolved location.  `error` is 1 exactly
   * when no integer is returned.
   */
  method BnExtractFromMem(maps: seq<Mapping>, abi: Abi, bnAddr: nat) returns (bn: Option<Bn>, error: int)
    ensures bn == ExtractBn(maps, abi, bnAddr)
    ensures error == (if bn.None? then 1 else 0)
  {
    error := 0;
    var tmp := ExtractFromMem(maps, bnAddr);
    if tmp.None? {
      error := 1;
      return None, error;
    }
    var copy := HeaderAt(maps, abi, tmp.value);
    if IsValidBn(copy) == -1 {
      error := 1;
      return None, error;
    }
    var d := ExtractFromMem(maps, copy.d);
    if d.None? {
      error := 1;
      return None, error;
    }
    bn := Some(Bn(d.value, copy.top, copy.dmax, copy.neg, copy.flags));
  }

  /** The value the limbs of `bn` denote, read from the snapshot through its limb pointer. */
  function Magnitude(maps: seq<Mapping>, abi: Abi, bn: Bn): nat
    requires Readable(maps, bn.d)
  {
    abi.limbs(maps[bn.d.index].data.value, bn.d.offset, bn.top)
  }

  /** A BIGNUM pointer field of a candidate structure, before and after extraction. */
  datatype Slot = Raw(addr: nat) | Owned(bn: Bn) | Null

  /** What the source stores in a field after BN_extract_from_mem (NULL on error). */
  function SlotOf(bn: Option<Bn>): (s: Slot)
    ensures bn.None? ==> s == Null
    ensures bn.Some? ==> s == Owned(bn.value)
  {
    match bn
    case None => Null
    case Some(b) => Owned(b)
  }

  /** The position of the first integer, at `from` or later, that fails to extract (|addrs| when none does). */
  function FirstFailure(maps: seq<Mapping>, abi: Abi, addrs: seq<nat>, from: nat): (k: nat)
    requires from <= |addrs|
    ensures from <= k <= |addrs|
    decreases |addrs| - from
  {
    if from == |addrs| || ExtractBn(maps, abi, addrs[from]).None? then from
    else FirstFailure(maps, abi, addrs, from + 1)
  }

  /** How many integers, extracted in the given order, succeed before the first one that fails. */
  function ExtractedCount(maps: seq<Mapping>, abi: Abi, addrs: seq<nat>): (k: nat)
    ensures k <= |addrs|
  {
    FirstFailure(maps, abi, addrs, 0)
  }

  lemma {:induction false} FirstFailureFacts(maps: seq<Mapping>, abi: Abi, addrs: seq<nat>, from: nat)
    requires from <= |addrs|
    ensures forall i :: from <= i < FirstFailure(maps, abi, addrs, from) ==> ExtractBn(maps, abi, addrs[i]).Some?
    ensures FirstFailure(maps, abi, addrs, from) < |addrs| ==>
      ExtractBn(maps, abi, addrs[FirstFailure(maps, abi, addrs, from)]).None?
    decreases |addrs| - from
  {
    if from < |addrs| && ExtractBn(maps, abi, addrs[from]).Some? {
      FirstFailureFacts(maps, abi, addrs, from + 1);
    }
  }

  /** Every integer before the count extracts, and the one at the count (if any) does not. */
  lemma ExtractedCountIsFirstFailure(maps: seq<Mapping>, abi: Abi, addrs: seq<nat>)
    ensures forall i :: 0 <= i < ExtractedCount(maps, abi, addrs) ==> ExtractBn(maps, abi, addrs[i]).Some?
    ensures ExtractedCount(maps, abi, addrs) < |addrs| ==>
      ExtractBn(maps, abi, addrs[ExtractedCount(maps, abi, addrs)]).None?
  {
    FirstFailureFacts(maps, abi, addrs, 0);
  }

  /**
   * One integer field after an in-order extraction that stops at the first
   * failure: a copy for those that extracted, NULL for the first that
   * failed, the raw pointer for the rest.
   */
  function SlotAfter(maps: seq<Mapping>, abi: Abi, addrs: seq<nat>, i: nat): Slot
    requires i < |addrs|
  {
    ExtractedCountIsFirstFailure(maps, abi, addrs);
    var k := ExtractedCount(maps, abi, addrs);
    if i < k then Owned(ExtractBn(maps, abi, addrs[i]).value)
    else if i == k then Null
    else Raw(addrs[i])
  }

  /** A field holds a copy, of its own integer, exactly when it comes before the first failure. */
  lemma SlotAfterCopy(maps: seq<Mapping>, abi: Abi, addrs: seq<nat>, i: nat)
    requires i < |addrs|
    ensures SlotAfter(maps, abi, addrs, i).Owned? <==> i < ExtractedCount(maps, abi, addrs)
    ensures SlotAfter(maps, abi, addrs, i).Owned? ==> Some(SlotAfter(maps, abi, addrs, i).bn) == ExtractBn(maps, abi, addrs[i])
  {
    ExtractedCountIsFirstFailure(maps, abi, addrs);
  }

  /**
   * After an in-order extraction that stops at the first failure, a field
   * holds a copy exactly when it and every field before it extract, and
   * then the copy of its own integer; it is NULL exactly when it is the
   * first that fails; it keeps its raw pointer exactly when an earlier one
   * failed.
   */
  lemma SlotAfterOwned(maps: seq<Mapping>, abi: Abi, addrs: seq<nat>, i: nat)
    requires i < |addrs|
    ensures SlotAfter(maps, abi, addrs, i).Owned? <==> forall j :: 0 <= j <= i ==> ExtractBn(maps, abi, addrs[j]).Some?
    ensures SlotAfter(maps, abi, addrs, i).Owned? ==> Some(SlotAfter(maps, abi, addrs, i).bn) == ExtractBn(maps, abi, addrs[i])
    ensures SlotAfter(maps, abi, addrs, i).Null? <==>
      (forall j :: 0 <= j < i ==> ExtractBn(maps, abi, addrs[j]).Some?) && ExtractBn(maps, abi, addrs[i]).None?
    ensures SlotAfter(maps, abi, addrs, i) == Raw(addrs[i]) <==> exists j :: 0 <= j < i && ExtractBn(maps, abi, addrs[j]).None?
  {
    ExtractedCountIsFirstFailure(maps, abi, addrs);
    var k := ExtractedCount(maps, abi, addrs);
    if k < i {
      assert ExtractBn(maps, abi, addrs[k]).None?;
    }
  }

  /**
   * A goto free-chain entered at the label of the k-th field: it frees that
   * field and falls through the labels of all earlier ones.
   */
  function FreeChain<T>(order: seq<T>, k: nat): (r: seq<T>)
    requires k <= |order|
    ensures |r| == k
  {
    if k == 0 then [] else [order[k - 1]] + FreeChain(order, k - 1)
  }

  /** The sequence in reverse. */
  function Reverse<T>(s: seq<T>): (r: seq<T>)
    ensures |r| == |s|
    ensures forall i :: 0 <= i < |s| ==> r[i] == s[|s| - 1 - i]
  {
    seq(|s|, i requires 0 <= i < |s| => s[|s| - 1 - i])
  }

  /** The chain frees exactly the first k fields, last-in first-out. */
  lemma {:induction false} FreeChainIsLifo<T>(order: seq<T>, k: nat)
    requires k <= |order|
    ensures FreeChain(order, k) == Reverse(order[..k])
  {
    if k > 0 {
      FreeChainIsLifo(order, k - 1);
      assert order[..k - 1] == order[..k][..k - 1];
    }
  }

  /** No element occurs twice. */
  predicate NoDuplicates<T(==)>(s: seq<T>) {
    forall i, j :: 0 <= i < j < |s| ==> s[i] != s[j]
  }

  /** A chain over an order without repetitions frees no field twice. */
  lemma FreeChainNoDuplicates<T>(order: seq<T>, k: nat)
    requires k <= |order| && NoDuplicates(order)
    ensures NoDuplicates(FreeChain(order, k))
  {
    FreeChainIsLifo(order, k);
  }

  /** The chain frees each of the first k fields, and nothing else. */
  lemma {:induction false} FreeChainFreesPrefix<T>(order: seq<T>, k: nat, x: T)
    requires k <= |order|
    ensures x in FreeChain(order, k) <==> x in order[..k]
  {
    if k > 0 {
      FreeChainFreesPrefix(order, k - 1, x);
      assert order[..k] == order[..k - 1] + [order[k - 1]];
    }
  }
}
