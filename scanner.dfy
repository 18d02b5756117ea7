/**
 * find_keys: the scan of one mapping's snapshot, one pointer-aligned
 * offset at a time, trying RSA, then X509, then DSA, then EC at each offset.
 * What the scan finds is recorded as a sequence of events; the PEM and DER
 * files it writes are I/O and stay outside the model.
 */
module Scanner {
  import opened Wrappers
  import opened Memory
  import opened Structs
  import opened Gates
  import opened Bignum
  import opened RsaKeys
  import opened DsaKeys
  import opened EcKeys
  import opened Certificates

  /** `j <= map->size - sizeof(T)`: the subtraction is done on size_t and wraps. */
  predicate Fits(j: nat, size: nat, s: nat) {
    j <= (size - s) % Word
  }

  /**
   * What the wrapping fit check admits: for a mapping smaller than the
   * record, every value of the 32-bit counter passes; otherwise exactly
   * the offsets at which the whole record lies inside the mapping.
   */
  lemma FitsReading(j: nat, size: nat, s: nat)
    ensures size < s <= Word - Word32 && j < Word32 ==> Fits(j, size, s)
    ensures s <= size < Word ==> (Fits(j, size, s) <==> j + s <= size)
  {
    if size < s <= Word - Word32 && j < Word32 {
      assert (size - s) % Word == Word + size - s;
    }
  }

  /**
   * The loop counter j is an unsigned int.  The largest value it reaches,
   * starting from off, before `j += 8` would wrap; the loop terminates only
   * when end is below it.
   */
  function LastBeforeWrap(off: nat): (l: nat)
    requires off < Word32
    ensures off <= l < Word32 && (l - off) % PointerSize == 0 && Word32 <= l + PointerSize
  {
    off + PointerSize * ((Word32 - 1 - off) / PointerSize)
  }

  /** The behaviour of the library calls the scan cannot see. */
  datatype Oracles = Oracles(
    rsaCheck: RsaValue -> int,        // RSA_check_key on the assembled key
    dsaLibrary: nat -> DsaLibrary)    // the allocations and BN_mod_exp of the DSA check at an offset

  /** What the scan reports; `at` is the offset j in the mapping. */
  datatype Event =
    | RsaFound(at: nat, key: RsaValue)
    | X509Found(at: nat, outcome: CertOutcome)
    | DsaFound(at: nat)
    | EcFound(at: nat, privKey: Bn)
    | Exit(at: nat)                   // err() in the DSA check ends the process

  /** The events of one offset, and whether the scan ends there. */
  datatype Step = Step(events: seq<Event>, stop: bool)

  /** The try order at one offset: RSA, X509, DSA, EC. */
  function Rank(e: Event): nat {
    match e
    case RsaFound(_, _) => 0
    case X509Found(_, _) => 1
    case DsaFound(_) => 2
    case Exit(_) => 2
    case EcFound(_, _) => 3
  }

  /** The assembled key, if the RSA gate admits the window and extract_rsa_key returns 0. */
  function RsaHit(maps: seq<Mapping>, abi: Abi, check: RsaValue -> int, f: RsaFields): Option<RsaValue> {
    if MightBeRsa(f, maps) == 0 && RsaStatus(maps, abi, check, RsaAddrs(f)) == 0
    then RsaIntegers(maps, abi, RsaAddrs(f))
    else None
  }

  /** The outcome of the certificate branch, if the X509 gate admits the window. */
  function CertHit(maps: seq<Mapping>, abi: Abi, x: X509Fields): Option<CertOutcome> {
    if MightBeX509(x, maps) == 0 then Some(CertOutcomeOf(maps, abi, x)) else None
  }

  /** What extract_dsa_key does, if the DSA gate admits the window. */
  function DsaHit(maps: seq<Mapping>, abi: Abi, lib: DsaLibrary, f: DsaFields): Option<DsaResult> {
    if MightBeDsa(f, maps) == 0 then Some(DsaStatus(maps, abi, lib, DsaAddrs(f))) else None
  }

  /** The private key, if the EC gate admits the window and extract_ecdsa_key returns 0. */
  function EcHit(maps: seq<Mapping>, abi: Abi, f: EcFields): Option<Bn> {
    if MightBeEc(f, maps) == 0 && EcStatus(maps, abi, f.privKey) == 0 then ExtractBn(maps, abi, f.privKey) else None
  }

  /**
   * One iteration of the loop.  A found RSA, DSA or EC key ends the
   * iteration (`continue`); an X509 hit does not.  The X509 window is tried
   * under the RSA fit check.  The scan ends after undefined behaviour in
   * the certificate branch, and when the DSA check calls err().
   */
  function StepAt(region: Mapping, maps: seq<Mapping>, abi: Abi, o: Oracles, j: nat): Step
    requires region.data.Some?
  {
    var data := region.data.value;
    var rsaFits := Fits(j, region.size, RsaSize);
    Combine(j,
      if rsaFits then RsaHit(maps, abi, o.rsaCheck, abi.rsaAt(data, j)) else None,
      if rsaFits then CertHit(maps, abi, abi.x509At(data, j)) else None,
      if Fits(j, region.size, DsaSize) then DsaHit(maps, abi, o.dsaLibrary(j), abi.dsaAt(data, j)) else None,
      if Fits(j, region.size, EcKeySize) then EcHit(maps, abi, abi.ecAt(data, j)) else None)
  }

  /** The control flow of one iteration, given what each of the four tries yields. */
  function Combine(j: nat, rsa: Option<RsaValue>, cert: Option<CertOutcome>, dsa: Option<DsaResult>, ec: Option<Bn>): Step {
    if rsa.Some? then Step([RsaFound(j, rsa.value)], false)
    else
      var certEvents := if cert.Some? then [X509Found(j, cert.value)] else [];
      if cert == Some(CertUndefined) then Step(certEvents, true)
      else if dsa == Some(Returned(0)) then Step(certEvents + [DsaFound(j)], false)
      else if dsa == Some(Exited) then Step(certEvents + [Exit(j)], true)
      else Step(certEvents + (if ec.Some? then [EcFound(j, ec.value)] else []), false)
  }

  /** The iterations of the loop over one snapshot, as a function of the offset. */
  function StepsOf(region: Mapping, maps: seq<Mapping>, abi: Abi, o: Oracles): nat -> Step
    requires region.data.Some?
  {
    (t: nat) => StepAt(region, maps, abi, o, t)
  }

  /** The events of the iterations at j, j+8, ... up to end, cut at the first one that ends the scan. */
  function Scan(steps: nat -> Step, j: nat, end: nat): seq<Event>
    decreases if j <= end then end - j + 1 else 0
  {
    if j > end then []
    else if steps(j).stop then steps(j).events
    else steps(j).events + Scan(steps, j + PointerSize, end)
  }

  /** What find_keys(map, j, end) reports. */
  function ScanFrom(region: Mapping, maps: seq<Mapping>, abi: Abi, o: Oracles, j: nat, end: nat): seq<Event>
    requires region.data.Some?
  {
    Scan(StepsOf(region, maps, abi, o), j, end)
  }

  /**
   * Which events one iteration reports, both ways: an RSA key skips every
   * other type; X509 shares the RSA fit check and does not skip; DSA is
   * tried unless the certificate branch was undefined; EC is tried unless
   * a DSA key was found or the DSA check exited.
   */
  lemma CombineEvents(j: nat, rsa: Option<RsaValue>, cert: Option<CertOutcome>, dsa: Option<DsaResult>, ec: Option<Bn>)
    ensures forall key :: RsaFound(j, key) in Combine(j, rsa, cert, dsa, ec).events <==> rsa == Some(key)
    ensures forall oc :: X509Found(j, oc) in Combine(j, rsa, cert, dsa, ec).events <==> rsa.None? && cert == Some(oc)
    ensures DsaFound(j) in Combine(j, rsa, cert, dsa, ec).events <==>
      rsa.None? && cert != Some(CertUndefined) && dsa == Some(Returned(0))
    ensures Exit(j) in Combine(j, rsa, cert, dsa, ec).events <==>
      rsa.None? && cert != Some(CertUndefined) && dsa == Some(Exited)
    ensures forall b :: EcFound(j, b) in Combine(j, rsa, cert, dsa, ec).events <==>
      rsa.None? && cert != Some(CertUndefined) && dsa != Some(Returned(0)) && dsa != Some(Exited) && ec == Some(b)
    ensures Combine(j, rsa, cert, dsa, ec).stop <==>
      rsa.None? && (cert == Some(CertUndefined) || dsa == Some(Exited))
  {
  }

  /**
   * Which fit check each event of one iteration needs: RSA keys and
   * certificates are reported only under the RSA fit, DSA keys and the
   * DSA check's err() only under the DSA fit, EC keys only under the EC fit.
   */
  lemma StepFits(region: Mapping, maps: seq<Mapping>, abi: Abi, o: Oracles, j: nat)
    requires region.data.Some?
    ensures forall key :: RsaFound(j, key) in StepAt(region, maps, abi, o, j).events <==>
      Fits(j, region.size, RsaSize) && RsaHit(maps, abi, o.rsaCheck, abi.rsaAt(region.data.value, j)) == Some(key)
    ensures forall oc :: X509Found(j, oc) in StepAt(region, maps, abi, o, j).events <==>
      && Fits(j, region.size, RsaSize)
      && RsaHit(maps, abi, o.rsaCheck, abi.rsaAt(region.data.value, j)).None?
      && CertHit(maps, abi, abi.x509At(region.data.value, j)) == Some(oc)
    ensures DsaFound(j) in StepAt(region, maps, abi, o, j).events ==>
      Fits(j, region.size, DsaSize) && DsaHit(maps, abi, o.dsaLibrary(j), abi.dsaAt(region.data.value, j)) == Some(Returned(0))
    ensures Exit(j) in StepAt(region, maps, abi, o, j).events ==>
      Fits(j, region.size, DsaSize) && DsaHit(maps, abi, o.dsaLibrary(j), abi.dsaAt(region.data.value, j)) == Some(Exited)
    ensures forall b :: EcFound(j, b) in StepAt(region, maps, abi, o, j).events ==>
      Fits(j, region.size, EcKeySize) && EcHit(maps, abi, abi.ecAt(region.data.value, j)) == Some(b)
  {
    var data := region.data.value;
    var rsaFits := Fits(j, region.size, RsaSize);
    CombineEvents(j,
      if rsaFits then RsaHit(maps, abi, o.rsaCheck, abi.rsaAt(data, j)) else None,
      if rsaFits then CertHit(maps, abi, abi.x509At(data, j)) else None,
      if Fits(j, region.size, DsaSize) then DsaHit(maps, abi, o.dsaLibrary(j), abi.dsaAt(data, j)) else None,
      if Fits(j, region.size, EcKeySize) then EcHit(maps, abi, abi.ecAt(data, j)) else None);
  }

  /** The events after which the scan does not go on. */
  predicate Stops(e: Event) {
    e.Exit? || e == X509Found(e.at, CertUndefined)
  }

  /**
   * The shape of one iteration's events: all at its offset, in the try
   * order, and an event that stops the scan comes last, exactly when the
   * iteration stops it.
   */
  predicate Shaped(st: Step, j: nat) {
    && (forall k :: 0 <= k < |st.events| ==> st.events[k].at == j)
    && (forall a, b :: 0 <= a < b < |st.events| ==> Rank(st.events[a]) < Rank(st.events[b]))
    && (st.stop ==> |st.events| > 0)
    && (forall k :: 0 <= k < |st.events| ==> (Stops(st.events[k]) <==> st.stop && k == |st.events| - 1))
  }

  /** Every iteration has that shape and reports at most an X509 hit and one key. */
  lemma CombineShape(j: nat, rsa: Option<RsaValue>, cert: Option<CertOutcome>, dsa: Option<DsaResult>, ec: Option<Bn>)
    ensures Shaped(Combine(j, rsa, cert, dsa, ec), j)
    ensures |Combine(j, rsa, cert, dsa, ec).events| <= 2
  {
  }

  lemma StepShape(region: Mapping, maps: seq<Mapping>, abi: Abi, o: Oracles, j: nat)
    requires region.data.Some?
    ensures Shaped(StepAt(region, maps, abi, o, j), j)
    ensures |StepAt(region, maps, abi, o, j).events| <= 2
  {
    var data := region.data.value;
    var rsaFits := Fits(j, region.size, RsaSize);
    CombineShape(j,
      if rsaFits then RsaHit(maps, abi, o.rsaCheck, abi.rsaAt(data, j)) else None,
      if rsaFits then CertHit(maps, abi, abi.x509At(data, j)) else None,
      if Fits(j, region.size, DsaSize) then DsaHit(maps, abi, o.dsaLibrary(j), abi.dsaAt(data, j)) else None,
      if Fits(j, region.size, EcKeySize) then EcHit(maps, abi, abi.ecAt(data, j)) else None);
  }

  /** Each iteration's events are at its own offset. */
  ghost predicate AllAtOffset(steps: nat -> Step) {
    forall t, k :: 0 <= k < |steps(t).events| ==> steps(t).events[k].at == t
  }

  /** Each iteration's events come in the try order. */
  ghost predicate AllRanked(steps: nat -> Step) {
    forall t, a, b :: 0 <= a < b < |steps(t).events| ==> Rank(steps(t).events[a]) < Rank(steps(t).events[b])
  }

  /** In each iteration, an event that ends the scan is its last event, exactly when the iteration ends the scan. */
  ghost predicate AllStopLast(steps: nat -> Step) {
    forall t, k :: 0 <= k < |steps(t).events| ==>
      (Stops(steps(t).events[k]) <==> steps(t).stop && k == |steps(t).events| - 1)
  }

  lemma StepsAtOffset(region: Mapping, maps: seq<Mapping>, abi: Abi, o: Oracles)
    requires region.data.Some?
    ensures AllAtOffset(StepsOf(region, maps, abi, o))
  {
    forall t, k | 0 <= k < |StepsOf(region, maps, abi, o)(t).events|
      ensures StepsOf(region, maps, abi, o)(t).events[k].at == t
    {
      StepShape(region, maps, abi, o, t);
    }
  }

  lemma StepsRanked(region: Mapping, maps: seq<Mapping>, abi: Abi, o: Oracles)
    requires region.data.Some?
    ensures AllRanked(StepsOf(region, maps, abi, o))
  {
    forall t, a, b | 0 <= a < b < |StepsOf(region, maps, abi, o)(t).events|
      ensures Rank(StepsOf(region, maps, abi, o)(t).events[a]) < Rank(StepsOf(region, maps, abi, o)(t).events[b])
    {
      StepShape(region, maps, abi, o, t);
    }
  }

  lemma StepsStopLast(region: Mapping, maps: seq<Mapping>, abi: Abi, o: Oracles)
    requires region.data.Some?
    ensures AllStopLast(StepsOf(region, maps, abi, o))
  {
    forall t, k | 0 <= k < |StepsOf(region, maps, abi, o)(t).events|
      ensures Stops(StepsOf(region, maps, abi, o)(t).events[k]) <==>
        StepsOf(region, maps, abi, o)(t).stop && k == |StepsOf(region, maps, abi, o)(t).events| - 1
    {
      StepShape(region, maps, abi, o, t);
    }
  }

  /** The scan visits only the offsets j, j+8, ... up to end. */
  lemma {:induction false} ScanBounds(steps: nat -> Step, j: nat, end: nat)
    requires AllAtOffset(steps)
    ensures forall k :: 0 <= k < |Scan(steps, j, end)| ==>
      j <= Scan(steps, j, end)[k].at <= end && (Scan(steps, j, end)[k].at - j) % PointerSize == 0
    decreases if j <= end then end - j + 1 else 0
  {
    if j <= end && !steps(j).stop {
      ScanBounds(steps, j + PointerSize, end);
      var st, rest := steps(j).events, Scan(steps, j + PointerSize, end);
      var evs := st + rest;
      assert Scan(steps, j, end) == evs;
      forall k | 0 <= k < |evs|
        ensures j <= evs[k].at <= end && (evs[k].at - j) % PointerSize == 0
      {
        if k >= |st| {
          var at := rest[k - |st|].at;
          assert evs[k] == rest[k - |st|];
          assert at - j == (at - (j + PointerSize)) + PointerSize;
        } else {
          assert evs[k] == st[k];
        }
      }
    }
  }

  /** Events come by increasing offset, and at one offset in the try order. */
  predicate Ordered(a: Event, b: Event) {
    a.at < b.at || (a.at == b.at && Rank(a) < Rank(b))
  }

  lemma {:induction false} ScanSorted(steps: nat -> Step, j: nat, end: nat)
    requires AllAtOffset(steps) && AllRanked(steps)
    ensures forall a, b :: 0 <= a < b < |Scan(steps, j, end)| ==> Ordered(Scan(steps, j, end)[a], Scan(steps, j, end)[b])
    decreases if j <= end then end - j + 1 else 0
  {
    if j <= end && !steps(j).stop {
      ScanSorted(steps, j + PointerSize, end);
      ScanBounds(steps, j + PointerSize, end);
      var st, rest := steps(j).events, Scan(steps, j + PointerSize, end);
      var evs := st + rest;
      assert Scan(steps, j, end) == evs;
      forall a, b | 0 <= a < b < |evs|
        ensures Ordered(evs[a], evs[b])
      {
        if a >= |st| {
          assert evs[a] == rest[a - |st|] && evs[b] == rest[b - |st|];
        } else if b >= |st| {
          assert evs[a] == st[a] && evs[b] == rest[b - |st|];
        } else {
          assert evs[a] == st[a] && evs[b] == st[b];
        }
      }
    }
  }

  /** The scan ends with the first event that stops it: nothing follows such an event. */
  lemma {:induction false} ScanStopsLast(steps: nat -> Step, j: nat, end: nat)
    requires AllStopLast(steps)
    ensures forall k :: 0 <= k < |Scan(steps, j, end)| - 1 ==> !Stops(Scan(steps, j, end)[k])
    decreases if j <= end then end - j + 1 else 0
  {
    if j <= end && !steps(j).stop {
      ScanStopsLast(steps, j + PointerSize, end);
      var st, rest := steps(j).events, Scan(steps, j + PointerSize, end);
      var evs := st + rest;
      assert Scan(steps, j, end) == evs;
      forall k | 0 <= k < |evs| - 1
        ensures !Stops(evs[k])
      {
        if k >= |st| {
          assert evs[k] == rest[k - |st|];
        } else {
          assert evs[k] == st[k];
        }
      }
    }
  }

  /** The iterations from j up to, not including, i all let the scan go on. */
  ghost predicate GoesOnBefore(steps: nat -> Step, j: nat, i: nat) {
    forall t :: j <= t < i && (t - j) % PointerSize == 0 ==> !steps(t).stop
  }

  /** Reaching i from j is going on at j and reaching i from j + 8. */
  lemma GoesOnBeforeShift(steps: nat -> Step, j: nat, i: nat)
    requires j + PointerSize <= i && (i - j) % PointerSize == 0
    ensures GoesOnBefore(steps, j, i) <==> !steps(j).stop && GoesOnBefore(steps, j + PointerSize, i)
  {
    if !steps(j).stop && GoesOnBefore(steps, j + PointerSize, i) {
      forall t | j <= t < i && (t - j) % PointerSize == 0
        ensures !steps(t).stop
      {
        if t > j {
          assert (t - (j + PointerSize)) % PointerSize == 0;
        }
      }
    }
    if GoesOnBefore(steps, j, i) {
      forall t | j + PointerSize <= t < i && (t - (j + PointerSize)) % PointerSize == 0
        ensures !steps(t).stop
      {
        assert (t - j) % PointerSize == 0;
      }
    }
  }

  /** Every event of an iteration the loop reaches is reported: nothing found is lost. */
  lemma {:induction false} ScanComplete(steps: nat -> Step, j: nat, end: nat, i: nat, e: Event)
    requires j <= i <= end && (i - j) % PointerSize == 0
    requires GoesOnBefore(steps, j, i)
    requires e in steps(i).events
    ensures e in Scan(steps, j, end)
    decreases i - j
  {
    if i > j {
      GoesOnBeforeShift(steps, j, i);
      ScanComplete(steps, j + PointerSize, end, i, e);
      assert Scan(steps, j, end) == steps(j).events + Scan(steps, j + PointerSize, end);
    }
  }

  /** Every reported event comes from an iteration the loop reached, and is one of its events. */
  lemma {:induction false} ScanSound(steps: nat -> Step, j: nat, end: nat, e: Event)
    requires AllAtOffset(steps)
    requires e in Scan(steps, j, end)
    ensures j <= e.at <= end && (e.at - j) % PointerSize == 0
    ensures e in steps(e.at).events
    decreases if j <= end then end - j + 1 else 0
  {
    assert j <= end;
    var st := steps(j);
    if e !in st.events {
      var rest := Scan(steps, j + PointerSize, end);
      assert Scan(steps, j, end) == st.events + rest;
      ScanSound(steps, j + PointerSize, end, e);
      assert e.at - j == (e.at - (j + PointerSize)) + PointerSize;
    }
  }

  /** No iteration before the one that reported an event stopped the scan. */
  lemma {:induction false} ScanReached(steps: nat -> Step, j: nat, end: nat, e: Event)
    requires AllAtOffset(steps)
    requires e in Scan(steps, j, end)
    ensures GoesOnBefore(steps, j, e.at)
    decreases if j <= end then end - j + 1 else 0
  {
    assert j <= end;
    var st := steps(j);
    if e !in st.events {
      var rest := Scan(steps, j + PointerSize, end);
      assert Scan(steps, j, end) == st.events + rest;
      ScanReached(steps, j + PointerSize, end, e);
      ScanSound(steps, j + PointerSize, end, e);
      assert (e.at - j) % PointerSize == 0 by {
        assert e.at - j == (e.at - (j + PointerSize)) + PointerSize;
      }
      GoesOnBeforeShift(steps, j, e.at);
    }
  }

  /** An event a scan of off..end reports: found at an offset the loop reaches, by that iteration. */
  ghost predicate Reported(steps: nat -> Step, off: nat, end: nat, e: Event) {
    && off <= e.at <= end && (e.at - off) % PointerSize == 0
    && GoesOnBefore(steps, off, e.at)
    && e in steps(e.at).events
  }

  lemma ScanReports(steps: nat -> Step, off: nat, end: nat)
    requires AllAtOffset(steps)
    ensures forall e :: e in Scan(steps, off, end) <==> Reported(steps, off, end, e)
  {
    forall e
      ensures e in Scan(steps, off, end) <==> Reported(steps, off, end, e)
    {
      if e in Scan(steps, off, end) {
        ScanSound(steps, off, end, e);
        ScanReached(steps, off, end, e);
      }
      if Reported(steps, off, end, e) {
        ScanComplete(steps, off, end, e.at, e);
      }
    }
  }

  /** find_keys reports exactly the events of the offsets off, off+8, ... up to end that its loop reaches. */
  lemma ScanFromReports(region: Mapping, maps: seq<Mapping>, abi: Abi, o: Oracles, off: nat, end: nat)
    requires region.data.Some?
    ensures forall e :: e in ScanFrom(region, maps, abi, o, off, end) <==> Reported(StepsOf(region, maps, abi, o), off, end, e)
  {
    StepsAtOffset(region, maps, abi, o);
    ScanReports(StepsOf(region, maps, abi, o), off, end);
  }

  /** find_keys looks only at the offsets off, off+8, ... up to end. */
  lemma ScanFromBounds(region: Mapping, maps: seq<Mapping>, abi: Abi, o: Oracles, off: nat, end: nat)
    requires region.data.Some?
    ensures forall k :: 0 <= k < |ScanFrom(region, maps, abi, o, off, end)| ==>
      && off <= ScanFrom(region, maps, abi, o, off, end)[k].at <= end
      && (ScanFrom(region, maps, abi, o, off, end)[k].at - off) % PointerSize == 0
  {
    StepsAtOffset(region, maps, abi, o);
    ScanBounds(StepsOf(region, maps, abi, o), off, end);
  }

  /** The report of find_keys is by increasing offset and, at one offset, in the try order RSA, X509, DSA, EC. */
  lemma ScanFromSorted(region: Mapping, maps: seq<Mapping>, abi: Abi, o: Oracles, off: nat, end: nat)
    requires region.data.Some?
    ensures forall a, b :: 0 <= a < b < |ScanFrom(region, maps, abi, o, off, end)| ==>
      Ordered(ScanFrom(region, maps, abi, o, off, end)[a], ScanFrom(region, maps, abi, o, off, end)[b])
  {
    StepsAtOffset(region, maps, abi, o);
    StepsRanked(region, maps, abi, o);
    ScanSorted(StepsOf(region, maps, abi, o), off, end);
  }

  /**
   * An event that ends the scan (err() in the DSA check, undefined
   * behaviour in the certificate branch) is the last one reported.
   */
  lemma ScanFromStopsLast(region: Mapping, maps: seq<Mapping>, abi: Abi, o: Oracles, off: nat, end: nat)
    requires region.data.Some?
    ensures forall k :: 0 <= k < |ScanFrom(region, maps, abi, o, off, end)| - 1 ==>
      !Stops(ScanFrom(region, maps, abi, o, off, end)[k])
  {
    StepsStopLast(region, maps, abi, o);
    ScanStopsLast(StepsOf(region, maps, abi, o), off, end);
  }

  /** The fields released are exactly those of the local RSA copy that hold an extracted integer. */
  ghost predicate RsaFreesOwned(after: RsaInts, freed: seq<RsaField>) {
    forall x :: x in freed <==> after.Field(x).Owned?
  }

  /** The fields released are exactly those of the local DSA copy that hold an extracted integer. */
  ghost predicate DsaFreesOwned(after: DsaInts, freed: seq<DsaField>) {
    forall x :: x in freed <==> after.Field(x).Owned?
  }

  /**
   * Tries the RSA layout on a window: the local copy is assembled and,
   * after a hit, freed with free_rsa_key.  `freed` lists the integer fields
   * released, in order: none when the gate refuses the window, otherwise
   * exactly the fields that held an extracted copy, none of them twice.
   */
  method TryRsa(maps: seq<Mapping>, abi: Abi, check: RsaValue -> int, f: RsaFields)
    returns (key: Option<RsaValue>, ghost freed: seq<RsaField>)
    ensures key == RsaHit(maps, abi, check, f)
    ensures NoDuplicates(freed)
    ensures MightBeRsa(f, maps) != 0 ==> freed == []
    ensures MightBeRsa(f, maps) == 0 ==> RsaFreesOwned(RsaAfter(maps, abi, RsaAddrs(f)), freed)
    ensures key.Some? ==> freed == FreeChain(RsaOrder, 8)
  {
    var rsa := new RsaKey(f);
    if MightBeRsa(f, maps) != 0 {
      return None, [];
    }
    var r := rsa.Extract(maps, abi, check);
    if r != 0 {
      key := None;
    } else {
      key := Some(rsa.Value());
      rsa.Free();
    }
    freed := rsa.released;
    assert freed == FreeChain(RsaOrder, ExtractedCount(maps, abi, RsaAddrs(f)));
    forall x
      ensures x in freed <==> RsaAfter(maps, abi, RsaAddrs(f)).Field(x).Owned?
    {
      RsaReleasesOwned(maps, abi, RsaAddrs(f), x);
    }
    RsaReleasesOwned(maps, abi, RsaAddrs(f), N);
  }

  /** Tries the X509 layout on a window and, if the gate admits it, runs the certificate branch. */
  method TryCert(maps: seq<Mapping>, abi: Abi, x: X509Fields) returns (outcome: Option<CertOutcome>)
    ensures outcome == CertHit(maps, abi, x)
  {
    if MightBeX509(x, maps) != 0 {
      return None;
    }
    var oc := ReconstructCertificate(maps, abi, x);
    return Some(oc);
  }

  /**
   * Tries the DSA layout on a window: the local copy is assembled and
   * checked and, after a hit, freed with free_dsa_key.  `freed` lists the
   * integer fields released, in order: none when the gate refuses the
   * window or err() ends the process, otherwise exactly the fields that
   * held an extracted copy, none of them twice.
   */
  method TryDsa(maps: seq<Mapping>, abi: Abi, lib: DsaLibrary, f: DsaFields)
    returns (result: Option<DsaResult>, ghost freed: seq<DsaField>)
    ensures result == DsaHit(maps, abi, lib, f)
    ensures NoDuplicates(freed)
    ensures result.None? || result == Some(Exited) ==> freed == []
    ensures result.Some? && result != Some(Exited) ==> DsaFreesOwned(DsaAfter(maps, abi, DsaAddrs(f), f.kinv, f.r), freed)
  {
    var dsa := new DsaKey(f);
    if MightBeDsa(f, maps) != 0 {
      return None, [];
    }
    var r := dsa.Extract(maps, abi, lib);
    if r == Returned(0) {
      dsa.Free();
    }
    freed := dsa.released;
    result := Some(r);
    DsaStatusCases(maps, abi, lib, DsaAddrs(f));
    if r != Exited {
      assert freed == DsaAfter(maps, abi, DsaAddrs(f), f.kinv, f.r).Rollback(ExtractedCount(maps, abi, DsaAddrs(f)));
      forall x
        ensures x in freed <==> DsaAfter(maps, abi, DsaAddrs(f), f.kinv, f.r).Field(x).Owned?
      {
        DsaReleasesOwned(maps, abi, DsaAddrs(f), f.kinv, f.r, x);
      }
      DsaReleasesOwned(maps, abi, DsaAddrs(f), f.kinv, f.r, PrivKey);
    }
  }

  /** Tries the EC layout on a window: the local copy's private key is extracted. */
  method TryEc(maps: seq<Mapping>, abi: Abi, f: EcFields) returns (privKey: Option<Bn>)
    ensures privKey == EcHit(maps, abi, f)
  {
    var ec := new EcKey(f);
    if MightBeEc(f, maps) != 0 {
      return None;
    }
    var r := ec.Extract(maps, abi);
    if r != 0 {
      return None;
    }
    return Some(ec.privKey.bn);
  }

  /** The body of the loop of find_keys at offset j. */
  method ScanOffset(region: Mapping, maps: seq<Mapping>, abi: Abi, o: Oracles, j: nat) returns (events: seq<Event>, stop: bool)
    requires region.data.Some?
    ensures Step(events, stop) == StepAt(region, maps, abi, o, j)
  {
    var data := region.data.value;
    ghost var rsaHit := if Fits(j, region.size, RsaSize) then RsaHit(maps, abi, o.rsaCheck, abi.rsaAt(data, j)) else None;
    ghost var certHit := if Fits(j, region.size, RsaSize) then CertHit(maps, abi, abi.x509At(data, j)) else None;
    ghost var dsaHit := if Fits(j, region.size, DsaSize) then DsaHit(maps, abi, o.dsaLibrary(j), abi.dsaAt(data, j)) else None;
    ghost var ecHit := if Fits(j, region.size, EcKeySize) then EcHit(maps, abi, abi.ecAt(data, j)) else None;
    assert StepAt(region, maps, abi, o, j) == Combine(j, rsaHit, certHit, dsaHit, ecHit);
    events, stop := [], false;
    if Fits(j, region.size, RsaSize) {
      var key;
      ghost var rsaFreed;
      key, rsaFreed := TryRsa(maps, abi, o.rsaCheck, abi.rsaAt(data, j));
      if key.Some? {
        return [RsaFound(j, key.value)], false;
      }
      var cert := TryCert(maps, abi, abi.x509At(data, j));
      if cert.Some? {
        events := [X509Found(j, cert.value)];
        if cert.value == CertUndefined {
          return events, true;
        }
      }
    }
    if Fits(j, region.size, DsaSize) {
      var result;
      ghost var dsaFreed;
      result, dsaFreed := TryDsa(maps, abi, o.dsaLibrary(j), abi.dsaAt(data, j));
      if result == Some(Returned(0)) {
        return events + [DsaFound(j)], false;
      }
      if result == Some(Exited) {
        return events + [Exit(j)], true;
      }
    }
    if Fits(j, region.size, EcKeySize) {
      var privKey := TryEc(maps, abi, abi.ecAt(data, j));
      if privKey.Some? {
        events := events + [EcFound(j, privKey.value)];
      }
    }
  }

  /**
   * find_keys(map, off, end): the loop over j = off, off+8, ... while
   * j <= end, with j an unsigned int.  The loop ends only if end lies
   * below the last value j takes before wrapping.
   */
  method FindKeys(region: Mapping, maps: seq<Mapping>, abi: Abi, o: Oracles, off: nat, end: nat) returns (events: seq<Event>)
    requires region.data.Some?
    requires off < Word32 && end < LastBeforeWrap(off)
    ensures events == ScanFrom(region, maps, abi, o, off, end)
  {
    var j := off;
    ghost var n := 0;
    ghost var last := (Word32 - 1 - off) / PointerSize;
    events := [];
    while j <= end
      invariant j == off + PointerSize * n && n <= last
      invariant events + ScanFrom(region, maps, abi, o, j, end) == ScanFrom(region, maps, abi, o, off, end)
      decreases last - n
    {
      var evs, stop := ScanOffset(region, maps, abi, o, j);
      ghost var rest := ScanFrom(region, maps, abi, o, j + PointerSize, end);
      ScanFromUnfold(region, maps, abi, o, j, end);
      assert ScanFrom(region, maps, abi, o, j, end) == if stop then evs else evs + rest;
      AppendAssoc(events, evs, rest);
      events := events + evs;
      if stop {
        return;
      }
      j, n := j + PointerSize, n + 1;
    }
  }

  lemma AppendAssoc<T>(a: seq<T>, b: seq<T>, c: seq<T>)
    ensures a + (b + c) == (a + b) + c
  {
  }

  /** One iteration of the scan, stated on find_keys' own terms. */
  lemma ScanFromUnfold(region: Mapping, maps: seq<Mapping>, abi: Abi, o: Oracles, j: nat, end: nat)
    requires region.data.Some? && j <= end
    ensures ScanFrom(region, maps, abi, o, j, end) ==
      if StepAt(region, maps, abi, o, j).stop then StepAt(region, maps, abi, o, j).events
      else StepAt(region, maps, abi, o, j).events + ScanFrom(region, maps, abi, o, j + PointerSize, end)
  {
  }
}
