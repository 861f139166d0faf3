/** The 32-bit page-table entries behind VmModel.Pte: every C expression that vm.c and
    pageswap.c use to build or change an entry does to the bits what the model's field
    updates say (sections 4.3 and 4.8 of the Intel SDM, volume 3A; PTE_SW is bit 3). */
module PteBits {

  const PTE_P: bv32 := 0x001
  const PTE_W: bv32 := 0x002
  const PTE_U: bv32 := 0x004
  const PTE_SW: bv32 := 0x008
  const PTE_A: bv32 := 0x020
  const FLAG_MASK: bv32 := 0xFFF
  const OTHER_MASK: bv32 := 0xFD0

  /** The fields of VmModel.Flags and VmModel.Pte, with numbers kept as bits. */
  datatype BitFlags = BitFlags(p: bool, w: bool, u: bool, sw: bool, a: bool, other: bv32)
  datatype BitPte = BitPte(frame: bv32, fl: BitFlags)

  function DecodeFlags(x: bv32): BitFlags {
    BitFlags(x & PTE_P != 0, x & PTE_W != 0, x & PTE_U != 0, x & PTE_SW != 0, x & PTE_A != 0, x & OTHER_MASK)
  }

  function Decode(x: bv32): BitPte {
    BitPte(x >> 12, DecodeFlags(x))
  }

  /** PTE_ADDR and PTE_FLAGS. */
  function Addr(x: bv32): bv32 { x & !FLAG_MASK }
  function FlagBits(x: bv32): bv32 { x & FLAG_MASK }

  /** *pte | PTE_W gives write permission and changes nothing else. */
  lemma GrantBits(x: bv32)
    ensures Decode(x | PTE_W) == Decode(x).(fl := Decode(x).fl.(w := true))
  {
  }

  /** *pte & ~PTE_W takes it away. */
  lemma RevokeBits(x: bv32)
    ensures Decode(x & !PTE_W) == Decode(x).(fl := Decode(x).fl.(w := false))
  {
  }

  /** *pte & ~PTE_A forgets the access. */
  lemma ForgetBits(x: bv32)
    ensures Decode(x & !PTE_A) == Decode(x).(fl := Decode(x).fl.(a := false))
  {
  }

  /** mappages(d, va, PGSIZE, pa, flags & ~PTE_W) in copyuvm_cow: the child's entry. */
  lemma ShareBits(x: bv32)
    requires x & PTE_P != 0
    ensures Decode(Addr(x) | (FlagBits(x) & !PTE_W) | PTE_P) == Decode(x).(fl := Decode(x).fl.(w := false))
  {
  }

  /** cow_page: the new frame with the old flags and PTE_W. */
  lemma CowBits(x: bv32, copy: bv32)
    requires FlagBits(copy) == 0
    ensures Decode(copy | FlagBits(x) | PTE_W) == BitPte(copy >> 12, Decode(x).fl.(w := true))
  {
  }

  /** swap_out: the old flags are gone from the entry, only the block number and PTE_SW
      are left. */
  lemma SwapOutBits(blockno: bv32)
    requires blockno < 0x10_0000
    ensures var y0 := blockno << 12;
            var y1 := y0 | FlagBits(y0);
            Decode((y1 | PTE_SW) & !PTE_P) == BitPte(blockno, BitFlags(false, false, false, true, false, 0))
  {
  }

  /** handle_page_fault: the new frame with exactly the flags kept in the slot. */
  lemma SwapInBits(pa: bv32, perm: bv32)
    requires perm & !FLAG_MASK == 0
    ensures Decode((Addr(pa) | perm) | PTE_P) == BitPte(pa >> 12, DecodeFlags(perm).(p := true))
  {
  }

  /** Swapping out and in again puts back the very same flag bits. */
  lemma SwapRoundTripBits(x: bv32, pa: bv32)
    requires x & PTE_P != 0
    ensures FlagBits((Addr(pa) | FlagBits(x)) | PTE_P) == FlagBits(x)
  {
  }
}
