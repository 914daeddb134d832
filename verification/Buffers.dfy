/** The bump allocator for host and device buffers, and the tag that tells device
  * addresses apart. */
module Buffers {
  import opened Basics
  import opened Arith
  import opened Words

  const HARDWARE_PAGE_SIZE := 4096
  const HARDWARE_PAGE_SIZE_ADDRESS_MASK := 0xfff
  const HARDWARE_PAGE_SIZE_ALIGNMENT_MASK := 0xffff_ffff_ffff_f000
  const DEVICE_MEM_OFFSET := 0xa350_0000_0000_0000
  const DEVICE_MEM_MASK := 0xfff0_0000_0000_0000
  const DEVICE_MEM_SIZE := 0x1_0000_0000
  const DEVICE_MEMORY_ADDRESS_MASK := 0x1f_ffff_ffff

  // -------- placing one buffer --------

  function NextPage(off: nat): nat {
    And((off + HARDWARE_PAGE_SIZE) % WORD64, HARDWARE_PAGE_SIZE_ALIGNMENT_MASK)
  }

  /** Where a buffer starts, given the offset left by the one before it. */
  function Place(off: nat, size: nat): nat {
    if size <= HARDWARE_PAGE_SIZE then
      if And(off, HARDWARE_PAGE_SIZE_ADDRESS_MASK) + size > HARDWARE_PAGE_SIZE then NextPage(off) else off
    else
      if And(off, HARDWARE_PAGE_SIZE_ADDRESS_MASK) != 0 then NextPage(off) else off
  }

  function Bump(off: nat, size: nat): nat {
    (Place(off, size) + size) % WORD64
  }

  lemma {:induction false} OffsetMask(off: nat)
    ensures And(off, HARDWARE_PAGE_SIZE_ADDRESS_MASK) == off % HARDWARE_PAGE_SIZE
  {
    hide And, Pow2, ShiftRight;
    Powers();
    AndOnes(off, 12);
  }

  lemma {:induction false} AlignmentMask(x: nat)
    requires x < WORD64
    ensures And(x, HARDWARE_PAGE_SIZE_ALIGNMENT_MASK) == x - x % HARDWARE_PAGE_SIZE
  {
    hide And, Pow2, ShiftRight;
    Powers();
    AndShifted(x, HARDWARE_PAGE_SIZE_ALIGNMENT_MASK, Pow2(52) - 1, 12);
    AndOnes(x / Pow2(12), 52);
    assert x / Pow2(12) < Pow2(52);
  }

  lemma {:induction false} NextPageIs(off: nat)
    requires off + HARDWARE_PAGE_SIZE < WORD64
    ensures NextPage(off) == off - off % HARDWARE_PAGE_SIZE + HARDWARE_PAGE_SIZE
  {
    hide And;
    AlignmentMask(off + HARDWARE_PAGE_SIZE);
    ModAddMultiple(off, 1, HARDWARE_PAGE_SIZE);
  }

  /** One placement: no page crossing for a buffer of at most a page, page alignment for a
    * larger one, and padding smaller than the buffer. */
  lemma {:induction false} PlaceFacts(off: nat, size: nat)
    requires off + HARDWARE_PAGE_SIZE < WORD64
    ensures var start := Place(off, size);
            && off <= start && (start == off || start - off < size)
            && start <= off + HARDWARE_PAGE_SIZE
            && (size <= HARDWARE_PAGE_SIZE ==> start % HARDWARE_PAGE_SIZE + size <= HARDWARE_PAGE_SIZE)
            && (size > HARDWARE_PAGE_SIZE ==> start % HARDWARE_PAGE_SIZE == 0)
  {
    hide And, NextPage;
    OffsetMask(off);
    NextPageIs(off);
    var p := off - off % HARDWARE_PAGE_SIZE + HARDWARE_PAGE_SIZE;
    assert p == (off / HARDWARE_PAGE_SIZE + 1) * HARDWARE_PAGE_SIZE + 0;
    DivModUnique(p, HARDWARE_PAGE_SIZE, off / HARDWARE_PAGE_SIZE + 1, 0);
  }

  // -------- a sequence of allocations --------

  function Starts(off: nat, sizes: seq<nat>): (s: seq<nat>)
    ensures |s| == |sizes|
    decreases |sizes|
  {
    if sizes == [] then [] else [Place(off, sizes[0])] + Starts(Bump(off, sizes[0]), sizes[1..])
  }

  function Final(off: nat, sizes: seq<nat>): nat
    decreases |sizes|
  {
    if sizes == [] then off else Final(Bump(off, sizes[0]), sizes[1..])
  }

  function Sum(sizes: seq<nat>): nat {
    if sizes == [] then 0 else sizes[0] + Sum(sizes[1..])
  }

  /** Where one allocation leaves the offset, as plain arithmetic. */
  lemma {:induction false} BumpFacts(off: nat, size: nat)
    requires off + 2 * size + HARDWARE_PAGE_SIZE < WORD64
    ensures Bump(off, size) == Place(off, size) + size <= off + 2 * size
    ensures off <= Place(off, size)
  {
    hide Place;
    PlaceFacts(off, size);
  }

  ghost predicate PageRule(start: nat, size: nat) {
    if size <= HARDWARE_PAGE_SIZE then start % HARDWARE_PAGE_SIZE + size <= HARDWARE_PAGE_SIZE
    else start % HARDWARE_PAGE_SIZE == 0
  }

  /** A buffer is moved to the next page boundary exactly when it would break the page rule
    * where it is. */
  lemma {:induction false} MovedExactlyWhenNeeded(off: nat, size: nat)
    requires off + HARDWARE_PAGE_SIZE < WORD64
    ensures Place(off, size) == off <==> PageRule(off, size)
    ensures !PageRule(off, size) ==> Place(off, size) == (off / HARDWARE_PAGE_SIZE + 1) * HARDWARE_PAGE_SIZE
  {
    hide And, NextPage;
    OffsetMask(off);
    NextPageIs(off);
  }

  /** The starts are in order, each after the end of the one before, from off to end. */
  ghost predicate LaidOut(s: seq<nat>, sizes: seq<nat>, off: nat, end: nat)
    requires |s| == |sizes|
  {
    && (forall i :: 0 <= i < |s| ==> off <= s[i] && s[i] + sizes[i] <= end && PageRule(s[i], sizes[i]))
    && (forall i, j :: 0 <= i < j < |s| ==> s[i] + sizes[i] <= s[j])
  }

  lemma {:induction false} LayFirst(first: nat, size: nat, s: seq<nat>, sizes: seq<nat>, off: nat, end: nat)
    requires |s| == |sizes| && LaidOut(s, sizes, first + size, end)
    requires off <= first && first + size <= end && PageRule(first, size)
    ensures LaidOut([first] + s, [size] + sizes, off, end)
  {
    hide PageRule;
    var t, u := [first] + s, [size] + sizes;
    forall i | 0 <= i < |t|
      ensures off <= t[i] && t[i] + u[i] <= end && PageRule(t[i], u[i])
    {
      if i > 0 {
        assert t[i] == s[i - 1] && u[i] == sizes[i - 1];
      }
    }
    forall i, j | 0 <= i < j < |t|
      ensures t[i] + u[i] <= t[j]
    {
      assert t[j] == s[j - 1];
      if i > 0 {
        assert t[i] == s[i - 1] && u[i] == sizes[i - 1];
      }
    }
  }

  lemma {:induction false} LayNone(off: nat)
    ensures LaidOut([], [], off, off)
  {
  }

  lemma {:induction false} PlacePages(off: nat, size: nat)
    requires off + HARDWARE_PAGE_SIZE < WORD64
    ensures PageRule(Place(off, size), size)
  {
    hide Place;
    PlaceFacts(off, size);
  }

  /** After any sequence of allocations that fits in the address space the buffers are in
    * order and disjoint, the page rule holds for each, and at most twice the bytes asked for
    * are consumed. */
  lemma {:induction false} AllocationsDisjoint(off: nat, sizes: seq<nat>)
    requires off + 2 * Sum(sizes) + HARDWARE_PAGE_SIZE < WORD64
    ensures off <= Final(off, sizes) <= off + 2 * Sum(sizes)
    ensures LaidOut(Starts(off, sizes), sizes, off, Final(off, sizes))
    decreases |sizes|
  {
    hide Place, Bump, PageRule, LaidOut;
    if sizes == [] {
      assert LaidOut([], [], off, off) by { LayNone(off); }
    } else {
      var size, rest := sizes[0], sizes[1..];
      PlacePages(off, size);
      BumpFacts(off, size);
      AllocationsDisjoint(Bump(off, size), rest);
      LayFirst(Place(off, size), size, Starts(Bump(off, size), rest), rest, off, Final(off, sizes));
      assert sizes == [size] + rest;
    }
  }

  // -------- device buffers --------

  datatype Buffer = Buffer(addr: nat, size: nat)

  /** Device allocation: the tag is put on the start, and the new offset is checked against
    * the memory size. None is the failed assertion. */
  function AllocateDevice(off: nat, size: nat): Option<(Buffer, nat)> {
    if Bump(off, size) > DEVICE_MEM_SIZE then None
    else Some((Buffer(Or(Place(off, size), DEVICE_MEM_OFFSET), size), Bump(off, size)))
  }

  /** Short of a wrap, a buffer is accepted exactly when it fits, and the buffer handed out is
    * of the size asked for, with the new offset behind it. */
  lemma {:induction false} AcceptedExactly(off: nat, size: nat)
    requires Place(off, size) + size < WORD64
    ensures AllocateDevice(off, size).Some? <==> Place(off, size) + size <= DEVICE_MEM_SIZE
    ensures AllocateDevice(off, size).Some? ==>
              && AllocateDevice(off, size).value.0.size == size
              && AllocateDevice(off, size).value.1 == Place(off, size) + size
  {
    hide Place, Or;
  }

  predicate IsDeviceAddress(addr: nat) {
    And(addr, DEVICE_MEM_MASK) == DEVICE_MEM_OFFSET
  }

  function DeviceOffset(addr: nat): nat {
    And(addr, DEVICE_MEMORY_ADDRESS_MASK)
  }

  /** A tagged offset is a device address, the 37-bit mask takes the tag off again, and the
    * low word is the offset's. */
  lemma {:induction false} TagRoundTrip(off: nat)
    requires off < Pow2(37)
    ensures Or(off, DEVICE_MEM_OFFSET) == DEVICE_MEM_OFFSET + off
    ensures IsDeviceAddress(DEVICE_MEM_OFFSET + off)
    ensures DeviceOffset(DEVICE_MEM_OFFSET + off) == off
    ensures (DEVICE_MEM_OFFSET + off) % WORD32 == off % WORD32
  {
    hide And, Or, Pow2, ShiftRight;
    Powers();
    var addr := DEVICE_MEM_OFFSET + off;
    OrDisjoint(off, DEVICE_MEM_OFFSET, 0xa35, 52);
    DivModUnique(addr, Pow2(52), 0xa35, off);
    AndShifted(addr, DEVICE_MEM_MASK, Pow2(12) - 1, 52);
    AndOnes(0xa35, 12);
    AndOnes(addr, 37);
    DivModUnique(addr, Pow2(37), 0x51a_8000, off);
    ModAddMultiple(off, 0xa350_0000, WORD32);
  }

  lemma {:induction false} AndZero(x: nat)
    ensures And(0, x) == 0
  {
  }

  /** An address below 2^52, as every host physical address is, is no device address. */
  lemma {:induction false} HostIsNotDevice(addr: nat)
    requires addr < Pow2(52)
    ensures !IsDeviceAddress(addr)
  {
    hide And, Pow2, ShiftRight;
    Powers();
    DivModUnique(addr, Pow2(52), 0, addr);
    AndShifted(addr, DEVICE_MEM_MASK, Pow2(12) - 1, 52);
    AndZero(Pow2(12) - 1);
  }

  /** Every byte of an accepted device buffer is inside the memory, classified as a device
    * address and recovered by the mask. */
  lemma {:induction false} DeviceBufferAddresses(off: nat, size: nat, k: nat)
    requires off <= DEVICE_MEM_SIZE && k < size && Place(off, size) + size < WORD64
    requires AllocateDevice(off, size).Some?
    ensures var b := AllocateDevice(off, size).value.0;
            && IsDeviceAddress(b.addr + k)
            && DeviceOffset(b.addr + k) == Place(off, size) + k < DEVICE_MEM_SIZE
            && b.addr % WORD32 == Place(off, size)
  {
    hide And, Or, Place, Pow2;
    Powers();
    PlaceFacts(off, size);
    TagRoundTrip(Place(off, size));
    TagRoundTrip(Place(off, size) + k);
  }

  /** The size check is made after a 64-bit addition: an accepted buffer lies inside the
    * device memory if and only if that addition does not wrap. */
  lemma {:induction false} DeviceCheckSoundExactly(off: nat, size: nat)
    requires off <= DEVICE_MEM_SIZE && size < WORD64 && AllocateDevice(off, size).Some?
    ensures Place(off, size) + size <= DEVICE_MEM_SIZE <==> Place(off, size) + size < WORD64
  {
    hide And, Or, Place;
    PlaceFacts(off, size);
  }

  /** The failing family is inhabited: one byte allocated before, and a size that wraps. */
  lemma {:induction false} WrappedSizeAccepted()
    ensures AllocateDevice(1, WORD64 - 1).Some?
    ensures Place(1, WORD64 - 1) + (WORD64 - 1) > DEVICE_MEM_SIZE
  {
    hide And;
    OffsetMask(1);
    NextPageIs(1);
    assert Place(1, WORD64 - 1) == HARDWARE_PAGE_SIZE;
    assert Bump(1, WORD64 - 1) == HARDWARE_PAGE_SIZE - 1;
  }

  /** The host pool and the device pool of one device, bumped in place. */
  class RnDev {
    const base: nat
    var bufferOffset: nat
    var devBufferOffset: nat

    constructor (base: nat)
      ensures this.base == base && bufferOffset == 0 && devBufferOffset == 0
    {
      this.base, bufferOffset, devBufferOffset := base, 0, 0;
    }

    method AllocateHost(size: nat) returns (b: Buffer)
      requires size < WORD64
      modifies this`bufferOffset
      ensures b == Buffer((base + Place(old(bufferOffset), size)) % WORD64, size)
      ensures bufferOffset == Bump(old(bufferOffset), size)
    {
      hide And, NextPage;
      if size <= HARDWARE_PAGE_SIZE {
        if And(bufferOffset, HARDWARE_PAGE_SIZE_ADDRESS_MASK) + size > HARDWARE_PAGE_SIZE {
          bufferOffset := NextPage(bufferOffset);
        }
      } else if And(bufferOffset, HARDWARE_PAGE_SIZE_ADDRESS_MASK) != 0 {
        bufferOffset := NextPage(bufferOffset);
      }
      b := Buffer((base + bufferOffset) % WORD64, size);
      bufferOffset := (bufferOffset + size) % WORD64;
    }

    method AllocateDev(size: nat) returns (b: Option<Buffer>)
      requires size < WORD64
      modifies this`devBufferOffset
      ensures devBufferOffset == Bump(old(devBufferOffset), size)
      ensures match AllocateDevice(old(devBufferOffset), size)
              case None => b == None
              case Some((buf, off)) => b == Some(buf) && devBufferOffset == off
    {
      hide And, Or, NextPage;
      if size <= HARDWARE_PAGE_SIZE {
        if And(devBufferOffset, HARDWARE_PAGE_SIZE_ADDRESS_MASK) + size > HARDWARE_PAGE_SIZE {
          devBufferOffset := NextPage(devBufferOffset);
        }
      } else if And(devBufferOffset, HARDWARE_PAGE_SIZE_ADDRESS_MASK) != 0 {
        devBufferOffset := NextPage(devBufferOffset);
      }
      var addr := Or(devBufferOffset, DEVICE_MEM_OFFSET);
      devBufferOffset := (devBufferOffset + size) % WORD64;
      b := if devBufferOffset <= DEVICE_MEM_SIZE then Some(Buffer(addr, size)) else None;
    }
  }
}
