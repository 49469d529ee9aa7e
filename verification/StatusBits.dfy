/** The two bit-field layouts over the one `status` word: mstatus and its
    supervisor view sstatus. */
module StatusBits {
  /** The mstatus layout, bit 0 first. */
  datatype MStatus = MStatus(
    blank0: bv1, sie: bv1, blank1: bv1, mie: bv1, blank2: bv1, spie: bv1, ube: bv1, mpie: bv1,
    spp: bv1, vs: bv2, mpp: bv2, fs: bv2, xs: bv2,
    mprv: bv1, sum: bv1, mxr: bv1, tvm: bv1, tw: bv1, tsr: bv1,
    blank3: bv9, uxl: bv2, sxl: bv2, sbe: bv1, mbe: bv1, blank4: bv25, sd: bv1)

  /** The sstatus layout over the same word. */
  datatype SStatus = SStatus(
    blank0: bv1, sie: bv1, blank1: bv3, spie: bv1, ube: bv1, blank2: bv1,
    spp: bv1, vs: bv2, blank3: bv2, fs: bv2, xs: bv2,
    blank4: bv1, sum: bv1, mxr: bv1, blank5: bv12, uxl: bv2, blank6: bv29, sd: bv1)

  function PackM(s: MStatus): bv64 {
    (s.blank0 as bv64) | (s.sie as bv64 << 1) | (s.blank1 as bv64 << 2) | (s.mie as bv64 << 3) |
    (s.blank2 as bv64 << 4) | (s.spie as bv64 << 5) | (s.ube as bv64 << 6) | (s.mpie as bv64 << 7) |
    (s.spp as bv64 << 8) | (s.vs as bv64 << 9) | (s.mpp as bv64 << 11) | (s.fs as bv64 << 13) |
    (s.xs as bv64 << 15) | (s.mprv as bv64 << 17) | (s.sum as bv64 << 18) | (s.mxr as bv64 << 19) |
    (s.tvm as bv64 << 20) | (s.tw as bv64 << 21) | (s.tsr as bv64 << 22) | (s.blank3 as bv64 << 23) |
    (s.uxl as bv64 << 32) | (s.sxl as bv64 << 34) | (s.sbe as bv64 << 36) | (s.mbe as bv64 << 37) |
    (s.blank4 as bv64 << 38) | (s.sd as bv64 << 63)
  }

  function UnpackM(w: bv64): MStatus {
    MStatus(
      (w & 1) as bv1, ((w >> 1) & 1) as bv1, ((w >> 2) & 1) as bv1, ((w >> 3) & 1) as bv1,
      ((w >> 4) & 1) as bv1, ((w >> 5) & 1) as bv1, ((w >> 6) & 1) as bv1, ((w >> 7) & 1) as bv1,
      ((w >> 8) & 1) as bv1, ((w >> 9) & 3) as bv2, ((w >> 11) & 3) as bv2, ((w >> 13) & 3) as bv2,
      ((w >> 15) & 3) as bv2, ((w >> 17) & 1) as bv1, ((w >> 18) & 1) as bv1, ((w >> 19) & 1) as bv1,
      ((w >> 20) & 1) as bv1, ((w >> 21) & 1) as bv1, ((w >> 22) & 1) as bv1, ((w >> 23) & 0x1ff) as bv9,
      ((w >> 32) & 3) as bv2, ((w >> 34) & 3) as bv2, ((w >> 36) & 1) as bv1, ((w >> 37) & 1) as bv1,
      ((w >> 38) & 0x1ff_ffff) as bv25, ((w >> 63) & 1) as bv1)
  }

  function PackS(s: SStatus): bv64 {
    (s.blank0 as bv64) | (s.sie as bv64 << 1) | (s.blank1 as bv64 << 2) | (s.spie as bv64 << 5) |
    (s.ube as bv64 << 6) | (s.blank2 as bv64 << 7) | (s.spp as bv64 << 8) | (s.vs as bv64 << 9) |
    (s.blank3 as bv64 << 11) | (s.fs as bv64 << 13) | (s.xs as bv64 << 15) | (s.blank4 as bv64 << 17) |
    (s.sum as bv64 << 18) | (s.mxr as bv64 << 19) | (s.blank5 as bv64 << 20) | (s.uxl as bv64 << 32) |
    (s.blank6 as bv64 << 34) | (s.sd as bv64 << 63)
  }

  function UnpackS(w: bv64): SStatus {
    SStatus(
      (w & 1) as bv1, ((w >> 1) & 1) as bv1, ((w >> 2) & 7) as bv3, ((w >> 5) & 1) as bv1,
      ((w >> 6) & 1) as bv1, ((w >> 7) & 1) as bv1, ((w >> 8) & 1) as bv1, ((w >> 9) & 3) as bv2,
      ((w >> 11) & 3) as bv2, ((w >> 13) & 3) as bv2, ((w >> 15) & 3) as bv2, ((w >> 17) & 1) as bv1,
      ((w >> 18) & 1) as bv1, ((w >> 19) & 1) as bv1, ((w >> 20) & 0xfff) as bv12, ((w >> 32) & 3) as bv2,
      ((w >> 34) & 0x1fff_ffff) as bv29, ((w >> 63) & 1) as bv1)
  }

  lemma UnpackOfPackM(s: MStatus)
    ensures UnpackM(PackM(s)) == s
  {
  }

  lemma PackOfUnpackM(w: bv64)
    ensures PackM(UnpackM(w)) == w
  {
  }

  lemma UnpackOfPackS(s: SStatus)
    ensures UnpackS(PackS(s)) == s
  {
  }

  // ----- The two layouts alias one word

  /** The status word seen through the sstatus layout. */
  function SView(m: MStatus): SStatus {
    UnpackS(PackM(m))
  }

  /** The status word after a store through the sstatus layout. */
  function FromS(s: SStatus): MStatus {
    UnpackM(PackS(s))
  }

  /** The supervisor view shows the homonymous fields of mstatus. */
  lemma SViewFields(m: MStatus)
    ensures
      var s := SView(m);
      s.sie == m.sie && s.spie == m.spie && s.ube == m.ube && s.spp == m.spp && s.vs == m.vs &&
      s.fs == m.fs && s.xs == m.xs && s.sum == m.sum && s.mxr == m.mxr && s.uxl == m.uxl && s.sd == m.sd
  {
  }

  /** The word with the five writable supervisor fields replaced. */
  function WithSFields(w: bv64, sie: bv1, spie: bv1, spp: bv1, sum: bv1, mxr: bv1): bv64 {
    (w & 0xffff_ffff_fff3_fedd) | (sie as bv64 << 1) | (spie as bv64 << 5) | (spp as bv64 << 8) |
    (sum as bv64 << 18) | (mxr as bv64 << 19)
  }

  lemma SStoreWord(w: bv64, sie: bv1, spie: bv1, spp: bv1, sum: bv1, mxr: bv1)
    ensures PackS(UnpackS(w).(sie := sie, spie := spie, spp := spp, sum := sum, mxr := mxr))
         == WithSFields(w, sie, spie, spp, sum, mxr)
  {
  }

  lemma MStoreWord(w: bv64, sie: bv1, spie: bv1, spp: bv1, sum: bv1, mxr: bv1)
    ensures PackM(UnpackM(w).(sie := sie, spie := spie, spp := spp, sum := sum, mxr := mxr))
         == WithSFields(w, sie, spie, spp, sum, mxr)
  {
  }

  /** Storing fields through the supervisor layout changes exactly the
      homonymous fields of mstatus. */
  lemma SStoreIsMStore(m: MStatus, sie: bv1, spie: bv1, spp: bv1, sum: bv1, mxr: bv1)
    ensures FromS(SView(m).(sie := sie, spie := spie, spp := spp, sum := sum, mxr := mxr))
         == m.(sie := sie, spie := spie, spp := spp, sum := sum, mxr := mxr)
  {
    SStoreWord(PackM(m), sie, spie, spp, sum, mxr);
    MStoreWord(PackM(m), sie, spie, spp, sum, mxr);
    UnpackOfPackM(m);
    UnpackOfPackM(m.(sie := sie, spie := spie, spp := spp, sum := sum, mxr := mxr));
  }

  /** The bits that a read of sstatus shows. */
  const SSTATUS_MASK: bv64 := 0x8000_0003_000d_e762

  /** The fields that a read of sstatus copies out of the status word. */
  function SStatusRead(m: MStatus): SStatus {
    SStatus(0, m.sie, 0, m.spie, m.ube, 0, m.spp, m.vs, 0, m.fs, m.xs, 0, m.sum, m.mxr, 0, m.uxl, 0, m.sd)
  }

  /** A read of sstatus is the masked mstatus word. */
  lemma SStatusReadIsMasked(m: MStatus)
    ensures PackS(SStatusRead(m)) == PackM(m) & SSTATUS_MASK
  {
  }
}
