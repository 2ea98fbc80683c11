/** Address segments: a physical (file-relative) base, a virtual (run-time)
    base and a size.  Declared segments come from the traced process's load
    layout and carry no bytes; scanned segments come from executable section
    headers and carry a copy of the section bytes for the instruction
    verifier.
 */
module Segments {
  import opened Words

  datatype Segment = Segment(data: seq<byte>, paddr: u64, vaddr: u64, size: u64)

  /** `addressIsWithinSegment`.  The end bound `paddr + size` is computed in
      `uint64_t`, so it wraps when the segment reaches the top of the
      address space. */
  predicate Contains(s: Segment, addr: u64)
  {
    s.paddr <= addr < Wrap64(s.paddr + s.size)
  }

  /** For a segment whose end does not overflow, containment is the
      half-open interval [paddr, paddr + size). */
  lemma ContainsIffInRange(s: Segment, addr: u64)
    requires s.paddr + s.size < U64_LIMIT
    ensures Contains(s, addr) <==> s.paddr <= addr < s.paddr + s.size
  {
  }

  /** A segment whose end reaches 2^64 wraps its bound below its base and
      so contains no address at all. */
  lemma WrappingSegmentContainsNothing(s: Segment, addr: u64)
    requires s.paddr + s.size >= U64_LIMIT
    ensures !Contains(s, addr)
  {
  }

  /** `adjustAddress`: an address inside the segment keeps its offset but
      moves from the physical to the virtual base; others pass through. */
  function AdjustAddress(s: Segment, addr: u64): (r: u64)
    ensures Contains(s, addr) ==> Wrap64(r - s.vaddr) == addr - s.paddr
    ensures !Contains(s, addr) ==> r == addr
  {
    if Contains(s, addr) then Wrap64(addr - s.paddr + s.vaddr) else addr
  }

  /** The inverse translation, from the virtual back to the physical base. */
  function UnadjustAddress(s: Segment, vaddr: u64): u64
  {
    Wrap64(vaddr - s.vaddr + s.paddr)
  }

  /** Translation into a segment is undone by the inverse translation, so
      two distinct addresses of one segment never collide. */
  lemma AdjustRoundTrip(s: Segment, addr: u64)
    requires Contains(s, addr)
    ensures UnadjustAddress(s, AdjustAddress(s, addr)) == addr
  {
  }

  lemma AdjustInjective(s: Segment, a: u64, b: u64)
    requires Contains(s, a) && Contains(s, b) && a != b
    ensures AdjustAddress(s, a) != AdjustAddress(s, b)
  {
    AdjustRoundTrip(s, a);
    AdjustRoundTrip(s, b);
  }

  predicate NoneContains(segs: seq<Segment>, addr: u64)
  {
    forall j :: 0 <= j < |segs| ==> !Contains(segs[j], addr)
  }

  /** Segment `i` is the first one, in list order, that contains `addr`. */
  predicate IsFirstContaining(segs: seq<Segment>, addr: u64, i: int)
  {
    && 0 <= i < |segs|
    && Contains(segs[i], addr)
    && forall j :: 0 <= j < i ==> !Contains(segs[j], addr)
  }

  lemma FirstContainingUnique(segs: seq<Segment>, addr: u64, i: int, k: int)
    requires IsFirstContaining(segs, addr, i) && IsFirstContaining(segs, addr, k)
    ensures i == k
  {
  }

  /** Index of the first segment containing `addr`, searching from `from`. */
  function FirstContainingFrom(segs: seq<Segment>, addr: u64, from: nat): (r: Option<nat>)
    requires from <= |segs|
    requires forall j :: 0 <= j < from ==> !Contains(segs[j], addr)
    decreases |segs| - from
    ensures r.None? <==> NoneContains(segs, addr)
    ensures r.Some? ==> IsFirstContaining(segs, addr, r.value)
  {
    if from == |segs| then None
    else if Contains(segs[from], addr) then Some(from)
    else FirstContainingFrom(segs, addr, from + 1)
  }

  function FirstContaining(segs: seq<Segment>, addr: u64): (r: Option<nat>)
    ensures r.None? <==> NoneContains(segs, addr)
    ensures r.Some? ==> IsFirstContaining(segs, addr, r.value)
  {
    FirstContainingFrom(segs, addr, 0)
  }

  /** `adjustAddressBySegment`: translate by the first declared segment that
      contains the address; with none, the address is unchanged. */
  function AdjustAddressBySegment(segs: seq<Segment>, addr: u64): (r: u64)
    ensures NoneContains(segs, addr) ==> r == addr
    ensures forall i :: IsFirstContaining(segs, addr, i) ==> r == AdjustAddress(segs[i], addr)
  {
    if |segs| == 0 then addr
    else if Contains(segs[0], addr) then AdjustAddress(segs[0], addr)
    else
      var r := AdjustAddressBySegment(segs[1..], addr);
      assert forall i :: IsFirstContaining(segs, addr, i) ==> IsFirstContaining(segs[1..], addr, i - 1) by {
        forall i | IsFirstContaining(segs, addr, i)
          ensures IsFirstContaining(segs[1..], addr, i - 1)
        {
          assert i != 0;
          forall j | 0 <= j < i - 1 ensures !Contains(segs[1..][j], addr) {
            assert segs[1..][j] == segs[j + 1];
          }
        }
      }
      assert NoneContains(segs, addr) ==> NoneContains(segs[1..], addr);
      r
  }

  /** When the segments do not overlap, list order does not matter: any
      segment containing the address determines its translation. */
  lemma AdjustBySegmentDisjoint(segs: seq<Segment>, addr: u64, i: nat)
    requires i < |segs| && Contains(segs[i], addr)
    requires forall j, k :: 0 <= j < k < |segs| ==> !(Contains(segs[j], addr) && Contains(segs[k], addr))
    ensures AdjustAddressBySegment(segs, addr) == AdjustAddress(segs[i], addr)
  {
    assert IsFirstContaining(segs, addr, i);
  }
}
