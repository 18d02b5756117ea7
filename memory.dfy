/**
 * The captured memory map of the target process, as the carving core sees it:
 * a sequence of mappings, each with a base address, a size and, once cached,
 * a frozen snapshot of its bytes.  Attaching, listing and caching are done
 * before the core runs; only their result is modelled.
 */
module Memory {
  import opened Wrappers

  /** One octet of the target's memory. */
  type Byte = b: int | 0 <= b < 256

  /** sizeof(char *) on the targeted x86-64 ABI. */
  const PointerSize: nat := 8

  /** 2^64: addresses, `unsigned long` and `size_t` are 64 bits wide. */
  const Word: nat := 0x1_0000_0000_0000_0000

  datatype RawMapping = RawMapping(address: nat, size: nat, data: Option<seq<Byte>>)

  /** A mapping of the target; a cached snapshot is a copy of exactly `size` bytes. */
  type Mapping = m: RawMapping | m.data.None? || |m.data.value| == m.size
    witness RawMapping(0, 0, None)

  /** A position inside the snapshot: mapping index and offset from its base. */
  datatype Location = Location(index: nat, offset: nat)

  predicate Contains(m: Mapping, addr: nat) {
    m.address <= addr < m.address + m.size
  }

  /** Some mapping of the process covers `addr`. */
  ghost predicate Mapped(maps: seq<Mapping>, addr: nat) {
    exists i :: 0 <= i < |maps| && Contains(maps[i], addr)
  }

  /** The first mapping at index `from` or later that covers `addr`, with the offset of `addr` in it. */
  function LookupFrom(maps: seq<Mapping>, addr: nat, from: nat): (r: Option<Location>)
    ensures r.Some? ==>
      && from <= r.value.index < |maps|
      && Contains(maps[r.value.index], addr)
      && maps[r.value.index].address + r.value.offset == addr
    decreases |maps| - from
  {
    if from >= |maps| then None
    else if Contains(maps[from], addr) then Some(Location(from, addr - maps[from].address))
    else LookupFrom(maps, addr, from + 1)
  }

  /**
   * dbg_map_lookup_by_address: the mapping that covers `addr` and the offset
   * of `addr` inside it.  Mappings of one process do not overlap; the model
   * takes the first one that covers the address.
   */
  function Lookup(maps: seq<Mapping>, addr: nat): (r: Option<Location>)
    ensures r.Some? ==>
      && r.value.index < |maps|
      && Contains(maps[r.value.index], addr)
      && maps[r.value.index].address + r.value.offset == addr
  {
    LookupFrom(maps, addr, 0)
  }

  /** From `from` on, the search fails exactly when no later mapping covers `addr`, and skips none that does. */
  lemma {:induction false} LookupFromFindsFirst(maps: seq<Mapping>, addr: nat, from: nat)
    ensures LookupFrom(maps, addr, from).None? <==>
      forall i :: from <= i < |maps| ==> !Contains(maps[i], addr)
    ensures LookupFrom(maps, addr, from).Some? ==>
      forall i :: from <= i < LookupFrom(maps, addr, from).value.index ==> !Contains(maps[i], addr)
    decreases |maps| - from
  {
    if from < |maps| && !Contains(maps[from], addr) {
      LookupFromFindsFirst(maps, addr, from + 1);
    }
  }

  /** The lookup fails exactly for unmapped addresses, and finds the first covering mapping. */
  lemma LookupFindsFirst(maps: seq<Mapping>, addr: nat)
    ensures Lookup(maps, addr).None? <==> !Mapped(maps, addr)
    ensures Lookup(maps, addr).Some? ==>
      forall i :: 0 <= i < Lookup(maps, addr).value.index ==> !Contains(maps[i], addr)
  {
    LookupFromFindsFirst(maps, addr, 0);
  }

  /**
   * is_valid_address: -1 for an address that is not pointer-aligned (the map
   * is not consulted), otherwise 0 when some mapping covers it and 1 when none does.
   */
  function IsValidAddress(maps: seq<Mapping>, addr: nat): (r: int)
    ensures addr % PointerSize != 0 ==> r == -1
    ensures addr % PointerSize == 0 ==> (r == 0 <==> Mapped(maps, addr))
    ensures addr % PointerSize == 0 && !Mapped(maps, addr) ==> r == 1
  {
    LookupFindsFirst(maps, addr);
    if addr % PointerSize != 0 then -1
    else if Lookup(maps, addr).Some? then 0 else 1
  }

  /** What the pointer gates demand of a pointer field: aligned and mapped. */
  ghost predicate Plausible(maps: seq<Mapping>, addr: nat) {
    addr % PointerSize == 0 && Mapped(maps, addr)
  }

  /** A location whose mapping is cached and whose offset lies inside the snapshot. */
  predicate Readable(maps: seq<Mapping>, l: Location) {
    l.index < |maps| && maps[l.index].data.Some? && l.offset < |maps[l.index].data.value|
  }

  /** 2^32: extract_from_mem receives the offset into an `unsigned int`. */
  const Word32: nat := 0x1_0000_0000

  /**
   * extract_from_mem: a pointer into the cached snapshot at `addr`, or NULL
   * when no mapping covers `addr` or the covering mapping is not cached.
   * The offset of `addr` in its mapping is stored in an `unsigned int`, so
   * it is taken modulo 2^32.  The size argument of the source is ignored
   * there, so it is not a parameter.
   */
  function ExtractFromMem(maps: seq<Mapping>, addr: nat): (r: Option<Location>)
    ensures r.Some? ==>
      && Readable(maps, r.value)
      && Contains(maps[r.value.index], addr)
      && r.value.offset == (addr - maps[r.value.index].address) % Word32
  {
    match Lookup(maps, addr)
    case None => None
    case Some(l) => if maps[l.index].data.None? then None else Some(Location(l.index, l.offset % Word32))
  }

  /**
   * extract_from_mem returns NULL exactly when no mapping covers the
   * address, or the first mapping that covers it has no snapshot.
   */
  lemma ExtractFromMemFails(maps: seq<Mapping>, addr: nat)
    ensures ExtractFromMem(maps, addr).None? <==>
      || !Mapped(maps, addr)
      || exists i :: && 0 <= i < |maps| && Contains(maps[i], addr) && maps[i].data.None?
                     && forall k :: 0 <= k < i ==> !Contains(maps[k], addr)
  {
    LookupFindsFirst(maps, addr);
    var l := Lookup(maps, addr);
    if l.Some? {
      var i := l.value.index;
      if maps[i].data.None? {
        assert forall k :: 0 <= k < i ==> !Contains(maps[k], addr);
      } else {
        forall n | 0 <= n < |maps| && Contains(maps[n], addr) && forall k :: 0 <= k < n ==> !Contains(maps[k], addr)
          ensures maps[n].data.Some?
        {
          if n != i {
            assert false;
          }
        }
      }
    }
  }

  /** The snapshot bytes from a location to the end of its mapping (empty if unreadable). */
  function BytesAt(maps: seq<Mapping>, l: Location): (s: seq<Byte>)
    ensures Readable(maps, l) ==> |s| > 0
  {
    if Readable(maps, l) then maps[l.index].data.value[l.offset..] else []
  }

  /**
   * The `len` bytes at a location, as an fwrite of that many bytes reads them;
   * None when `len` is negative or the span runs past the end of the snapshot,
   * reads that are undefined behaviour in the source.
   */
  function Span(maps: seq<Mapping>, l: Location, len: int): (r: Option<seq<Byte>>)
    ensures r.None? <==>
      len < 0 || (if Readable(maps, l) then l.offset + len > maps[l.index].size else len > 0)
    ensures r.Some? ==> |r.value| == len
    ensures r.Some? && len > 0 ==>
      Readable(maps, l) && r.value == maps[l.index].data.value[l.offset..l.offset + len]
  {
    var s := BytesAt(maps, l);
    if 0 <= len <= |s| then Some(s[..len]) else None
  }
}
