/** The memory-mapped bus: a device list that every registration sorts again, and
    a cache of lookups that no registration clears. */
module Bus {
  import opened Words

  // ----- Regions as numbers

  /** The last address, computed in 64 bits; the region is closed. */
  function EndOf(base: U64, size: U64): U64 {
    (base + size) % TWO_64
  }

  predicate InRegion(base: U64, size: U64, addr: U64) {
    base <= addr <= EndOf(base, size)
  }

  /** The test of the source: does region 1 hold an end point of region 2? */
  predicate RegionsConflict(base1: U64, size1: U64, base2: U64, size2: U64) {
    (base1 <= base2 && base2 <= EndOf(base1, size1)) ||
    (base1 <= EndOf(base2, size2) && EndOf(base2, size2) <= EndOf(base1, size1))
  }

  predicate Overlap(base1: U64, size1: U64, base2: U64, size2: U64) {
    exists addr: U64 :: InRegion(base1, size1, addr) && InRegion(base2, size2, addr)
  }

  /** The test misses exactly one kind of overlap: a new region strictly inside an
      old one. */
  lemma ConflictTestIsExact(base1: U64, size1: U64, base2: U64, size2: U64)
    requires base1 + size1 < TWO_64 && base2 + size2 < TWO_64
    ensures !RegionsConflict(base1, size1, base2, size2) <==>
              !Overlap(base1, size1, base2, size2) || (base2 < base1 && EndOf(base1, size1) < EndOf(base2, size2))
  {
    if Overlap(base1, size1, base2, size2) {
      var addr: U64 :| InRegion(base1, size1, addr) && InRegion(base2, size2, addr);
    } else if RegionsConflict(base1, size1, base2, size2) {
      if base1 <= base2 <= EndOf(base1, size1) {
        assert InRegion(base2, size2, base2);
        assert InRegion(base1, size1, base2);
      } else {
        assert InRegion(base2, size2, EndOf(base2, size2));
        assert InRegion(base1, size1, EndOf(base2, size2));
      }
      assert false;
    }
  }

  /** Sixteen bytes inside an old region of 64K are let through. */
  lemma InnerRegionMissed()
    ensures !RegionsConflict(0x1000, 0x10, 0, 0x1_0000) && Overlap(0x1000, 0x10, 0, 0x1_0000)
  {
    assert InRegion(0x1000, 0x10, 0x1000) && InRegion(0, 0x1_0000, 0x1000);
  }

  /** Whatever the test lets through, an address that the new region shares with
      an old one lies in an old region that starts lower. */
  lemma SharedStartsLower(base1: U64, size1: U64, base2: U64, size2: U64, addr: U64)
    requires !RegionsConflict(base1, size1, base2, size2)
    requires InRegion(base1, size1, addr) && InRegion(base2, size2, addr)
    ensures base2 < base1
  {
  }

  // ----- Devices

  class MMIODev {
    var devBaseAddr: U64
    const addrRegionSize: U64

    constructor (base: U64, size: U64)
      ensures devBaseAddr == base && addrRegionSize == size
    {
      devBaseAddr, addrRegionSize := base, size;
    }

    method SetDevBaseAddr(base: U64)
      modifies this
      ensures devBaseAddr == base
    {
      devBaseAddr := base;
    }

    predicate IsAddrInRange(addr: U64)
      reads this
    {
      InRegion(devBaseAddr, addrRegionSize, addr)
    }

    predicate IsAddrRegionConflict(dev: MMIODev)
      reads this, dev
    {
      RegionsConflict(devBaseAddr, addrRegionSize, dev.devBaseAddr, dev.addrRegionSize)
    }
  }

  predicate SortedByBase(devs: seq<MMIODev>)
    reads devs
  {
    forall i, j :: 0 <= i < j < |devs| ==> devs[i].devBaseAddr <= devs[j].devBaseAddr
  }

  /** Devices that start at the same place hold no common address. */
  predicate Apart(x: MMIODev, y: MMIODev)
    reads x, y
  {
    x.devBaseAddr == y.devBaseAddr ==> forall addr: U64 :: !(x.IsAddrInRange(addr) && y.IsAddrInRange(addr))
  }

  predicate StartsDiffer(devs: seq<MMIODev>)
    reads devs
  {
    forall x, y :: x in devs && y in devs && x != y ==> Apart(x, y)
  }

  /** The scan of the list, from its front. */
  function Scan(devs: seq<MMIODev>, addr: U64): Option<MMIODev>
    reads devs
  {
    if devs == [] then None
    else if devs[0].IsAddrInRange(addr) then Some(devs[0])
    else Scan(devs[1..], addr)
  }

  /** d holds addr and no device of the list that does so starts lower. */
  predicate Lowest(devs: seq<MMIODev>, addr: U64, d: MMIODev)
    reads devs, d
  {
    d in devs && d.IsAddrInRange(addr) &&
    forall x :: x in devs && x.IsAddrInRange(addr) ==> d.devBaseAddr <= x.devBaseAddr
  }

  lemma {:induction false} ScanFindsLowest(devs: seq<MMIODev>, addr: U64)
    requires SortedByBase(devs)
    ensures Scan(devs, addr).Some? ==> Lowest(devs, addr, Scan(devs, addr).value)
    ensures Scan(devs, addr).None? ==> forall x :: x in devs ==> !x.IsAddrInRange(addr)
  {
    if devs != [] && !devs[0].IsAddrInRange(addr) {
      ScanFindsLowest(devs[1..], addr);
    }
  }

  /** So the answer does not depend on how the sort orders equal bases. */
  lemma LowestIsScan(devs: seq<MMIODev>, addr: U64, d: MMIODev)
    requires SortedByBase(devs) && StartsDiffer(devs) && Lowest(devs, addr, d)
    ensures Scan(devs, addr) == Some(d)
  {
    ScanFindsLowest(devs, addr);
  }

  /** Every cached answer is the lowest device of the list. */
  predicate Coherent(devs: seq<MMIODev>, cache: map<U64, MMIODev>)
    reads devs
  {
    forall addr :: addr in cache ==> cache[addr] in devs && Lowest(devs, addr, cache[addr])
  }

  lemma CachedIsScan(devs: seq<MMIODev>, cache: map<U64, MMIODev>, addr: U64)
    requires SortedByBase(devs) && StartsDiffer(devs) && Coherent(devs, cache) && addr in cache
    ensures Scan(devs, addr) == Some(cache[addr])
  {
    LowestIsScan(devs, addr, cache[addr]);
  }

  lemma ScanMayBeCached(devs: seq<MMIODev>, cache: map<U64, MMIODev>, addr: U64)
    requires SortedByBase(devs) && Coherent(devs, cache) && Scan(devs, addr).Some?
    ensures Coherent(devs, cache[addr := Scan(devs, addr).value])
  {
    ScanFindsLowest(devs, addr);
  }

  /** One step of the scan. */
  lemma ScanStep(devs: seq<MMIODev>, i: nat, addr: U64)
    requires i < |devs|
    ensures Scan(devs[i..], addr) == if devs[i].IsAddrInRange(addr) then Some(devs[i]) else Scan(devs[i + 1..], addr)
  {
    assert devs[i..][1..] == devs[i + 1..];
  }

  /** The list with one device put before the first that starts no lower. */
  function Inserted(devs: seq<MMIODev>, dev: MMIODev): (r: seq<MMIODev>)
    reads devs, dev
    ensures multiset(r) == multiset(devs) + multiset{dev}
  {
    if devs == [] then [dev]
    else if dev.devBaseAddr <= devs[0].devBaseAddr then [dev] + devs
    else
      assert devs == [devs[0]] + devs[1..];
      [devs[0]] + Inserted(devs[1..], dev)
  }

  lemma {:induction false} InsertedSorted(devs: seq<MMIODev>, dev: MMIODev)
    requires SortedByBase(devs)
    ensures SortedByBase(Inserted(devs, dev))
  {
    if devs != [] && dev.devBaseAddr > devs[0].devBaseAddr {
      InsertedSorted(devs[1..], dev);
      var rest := Inserted(devs[1..], dev);
      forall j | 0 <= j < |rest| ensures devs[0].devBaseAddr <= rest[j].devBaseAddr {
        assert rest[j] in multiset(devs[1..]) + multiset{dev};
      }
    }
  }

  lemma SameMembers(a: seq<MMIODev>, b: seq<MMIODev>)
    requires multiset(a) == multiset(b)
    ensures forall x :: x in a <==> x in b
  {
    forall x ensures x in a <==> x in b {
      assert x in a <==> x in multiset(a);
      assert x in b <==> x in multiset(b);
    }
  }

  /** Some sorted permutation, as the library's unstable sort returns. */
  method SortDevices(devs: seq<MMIODev>) returns (sorted: seq<MMIODev>)
    ensures SortedByBase(sorted) && multiset(sorted) == multiset(devs)
  {
    sorted := [];
    for i := 0 to |devs|
      invariant SortedByBase(sorted) && multiset(sorted) == multiset(devs[..i])
    {
      InsertedSorted(sorted, devs[i]);
      sorted := Inserted(sorted, devs[i]);
      assert devs[..i + 1] == devs[..i] + [devs[i]];
    }
    assert devs[..|devs|] == devs;
  }

  lemma AddedKeepsLowest(was: seq<MMIODev>, dev: MMIODev, now: seq<MMIODev>, addr: U64, d: MMIODev)
    requires forall x :: x in now <==> x in was || x == dev
    requires forall x :: x in was ==> !dev.IsAddrRegionConflict(x)
    requires Lowest(was, addr, d)
    ensures Lowest(now, addr, d)
  {
    if dev.IsAddrInRange(addr) {
      SharedStartsLower(dev.devBaseAddr, dev.addrRegionSize, d.devBaseAddr, d.addrRegionSize, addr);
    }
  }

  lemma AddedIsApart(x: MMIODev, dev: MMIODev)
    requires !dev.IsAddrRegionConflict(x)
    ensures Apart(x, dev) && Apart(dev, x)
  {
    forall addr: U64 ensures x.devBaseAddr == dev.devBaseAddr ==> !(x.IsAddrInRange(addr) && dev.IsAddrInRange(addr)) {
      if x.IsAddrInRange(addr) && dev.IsAddrInRange(addr) {
        SharedStartsLower(dev.devBaseAddr, dev.addrRegionSize, x.devBaseAddr, x.addrRegionSize, addr);
      }
    }
  }

  lemma AddedKeepsStarts(was: seq<MMIODev>, dev: MMIODev, now: seq<MMIODev>)
    requires forall x :: x in now <==> x in was || x == dev
    requires forall x :: x in was ==> !dev.IsAddrRegionConflict(x)
    requires StartsDiffer(was)
    ensures StartsDiffer(now)
  {
    forall x | x in was ensures Apart(x, dev) && Apart(dev, x) {
      AddedIsApart(x, dev);
    }
  }

  /** A registration keeps the cache right without clearing it. */
  lemma Registered(was: seq<MMIODev>, dev: MMIODev, now: seq<MMIODev>, cache: map<U64, MMIODev>)
    requires multiset(now) == multiset(was + [dev])
    requires forall x :: x in was ==> !dev.IsAddrRegionConflict(x)
    requires StartsDiffer(was) && Coherent(was, cache)
    ensures StartsDiffer(now) && Coherent(now, cache)
  {
    SameMembers(now, was + [dev]);
    assert forall x :: x in now <==> x in was || x == dev;
    AddedKeepsStarts(was, dev, now);
    forall addr | addr in cache ensures Lowest(now, addr, cache[addr]) {
      AddedKeepsLowest(was, dev, now, addr, cache[addr]);
    }
  }

  // ----- The bus

  class MMIOBus {
    var mmioDevs: seq<MMIODev>
    var devFindCache: map<U64, MMIODev>

    /** The list is sorted, and every cached answer is the lowest device. */
    ghost predicate Valid()
      reads this, mmioDevs
    {
      SortedByBase(mmioDevs) && StartsDiffer(mmioDevs) && Coherent(mmioDevs, devFindCache)
    }

    constructor ()
      ensures Valid() && mmioDevs == [] && devFindCache == map[]
    {
      mmioDevs, devFindCache := [], map[];
    }

    /** A first registration that passes the source's assertion.  The cache keeps
        its entries; the invariant says that they stay right. */
    method RegisterMMIODev(dev: MMIODev, base: U64)
      requires Valid() && dev !in mmioDevs
      requires forall d :: d in mmioDevs ==>
        !RegionsConflict(base, dev.addrRegionSize, d.devBaseAddr, d.addrRegionSize)
      modifies this, dev
      ensures Valid() && dev.devBaseAddr == base
      ensures multiset(mmioDevs) == multiset(old(mmioDevs)) + multiset{dev}
      ensures devFindCache == old(devFindCache)
    {
      dev.SetDevBaseAddr(base);
      assert StartsDiffer(mmioDevs);
      assert Coherent(mmioDevs, devFindCache);
      assert forall d :: d in mmioDevs ==> !dev.IsAddrRegionConflict(d);
      var sorted := SortDevices(mmioDevs + [dev]);
      Registered(mmioDevs, dev, sorted, devFindCache);
      mmioDevs := sorted;
    }

    method ScanDevices(addr: U64) returns (found: Option<MMIODev>)
      ensures found == Scan(mmioDevs, addr)
    {
      for i := 0 to |mmioDevs|
        invariant Scan(mmioDevs, addr) == Scan(mmioDevs[i..], addr)
      {
        ScanStep(mmioDevs, i, addr);
        if mmioDevs[i].IsAddrInRange(addr) {
          return Some(mmioDevs[i]);
        }
      }
      found := None;
    }

    /** `findDevAccordingToAddr`: the answer is that of a fresh scan, whether or
        not the cache gives it. */
    method FindDevAccordingToAddr(addr: U64) returns (found: Option<MMIODev>)
      requires Valid()
      modifies `devFindCache
      ensures Valid() && found == Scan(mmioDevs, addr)
      ensures forall a :: a in devFindCache <==> a in old(devFindCache) || (a == addr && found.Some?)
    {
      if addr in devFindCache {
        CachedIsScan(mmioDevs, devFindCache, addr);
        return Some(devFindCache[addr]);
      }
      found := ScanDevices(addr);
      if found.Some? {
        ScanMayBeCached(mmioDevs, devFindCache, addr);
        devFindCache := devFindCache[addr := found.value];
      }
    }

    /** Where a read or write of the bus goes: the device and the offset in it. */
    method Route(addr: U64) returns (target: Option<(MMIODev, U64)>)
      requires Valid()
      modifies `devFindCache
      ensures Valid()
      ensures target.None? <==> forall d :: d in mmioDevs ==> !d.IsAddrInRange(addr)
      ensures target.Some? ==>
        Scan(mmioDevs, addr) == Some(target.value.0) &&
        target.value.0.devBaseAddr + target.value.1 == addr &&
        target.value.1 <= target.value.0.addrRegionSize
    {
      var found := FindDevAccordingToAddr(addr);
      ScanFindsLowest(mmioDevs, addr);
      if found.None? {
        return None;
      }
      target := Some((found.value, addr - found.value.devBaseAddr));
    }
  }
}
