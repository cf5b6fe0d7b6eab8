/** The R3000A fetch stage: the reset vector, the address-segment test of
    an instruction fetch, and the masking that maps an address onto the
    2 MB main RAM. Addresses are unsigned 32-bit values; a mask of the low
    `k` bits is the remainder modulo `2^k` and a right shift by `k` the
    quotient by `2^k`. */
module Cpu {
  import opened Common

  /** A physical memory address (Rust `u32`). */
  type Address = U32

  const PhysicalMemoryAddressMask: Address := 0x1FFF_FFFF
  const RamSize: nat := 0x20_0000
  const RamMask: Address := RamSize - 1
  const RamMirrorEnd: Address := 0x8000_0000
  const ResetVector: Address := 0xBFC0_0000

  /** The segment tag of an address, `address >> 29`: its top three bits. */
  function Tag(address: Address): (tag: nat)
    ensures tag < 8
    ensures tag * 0x2000_0000 <= address < (tag + 1) * 0x2000_0000
  {
    address / 0x2000_0000
  }

  /** The tags `fetch_instruction` reads from: 0 (the first 512 MB of
      KUSEG), 4 (KSEG0) and 5 (KSEG1); every other tag panics. */
  predicate Fetchable(address: Address) {
    Tag(address) == 0 || Tag(address) == 4 || Tag(address) == 5
  }

  /** The fetchable addresses are exactly those below 512 MB and those in
      the two kernel segments from 2 GB up to 3 GB. */
  lemma FetchableSegments(address: Address)
    ensures Fetchable(address) <==>
            address < 0x2000_0000 || 0x8000_0000 <= address < 0xC000_0000
  {
  }

  /** The reset vector lies in KSEG1, tag 5, so the first fetch succeeds. */
  lemma ResetVectorIsFetchable()
    ensures Tag(ResetVector) == 5 && Fetchable(ResetVector)
  {
  }

  /** `address & (modulus - 1)` for a power-of-two `modulus`. */
  function LowBits(address: Address, modulus: nat): (low: Address)
    requires modulus > 0
    ensures low < modulus && low <= address
  {
    address % modulus
  }

  /** The physical address, `address & PHYSICAL_MEMORY_ADDRESS_MASK`: the
      address with its segment tag cleared. It always lies below the end of
      the RAM mirror, so `do_instruction_read` always takes its RAM branch
      and never reaches the BIOS branch or the error. */
  function Physical(address: Address): (physical: Address)
    ensures physical == address - Tag(address) * 0x2000_0000
    ensures physical < RamMirrorEnd
  {
    LowBits(address, PhysicalMemoryAddressMask + 1)
  }

  /** The RAM index an address is read from: the physical address under the
      RAM mask. RAM is mirrored every 2 MB whatever the segment: the index
      is the address modulo the RAM size. */
  function RamIndex(address: Address): (index: nat)
    ensures index == address % RamSize && index < RamSize
  {
    ModuloOfModulo(address);
    LowBits(Physical(address), RamMask + 1)
  }

  /** Reducing modulo 512 MB and then modulo 2 MB is reducing modulo 2 MB. */
  lemma ModuloOfModulo(a: Address)
    ensures (a % 0x2000_0000) % RamSize == a % RamSize
  {
    var q, r := a / 0x2000_0000, a % 0x2000_0000;
    assert a == (q * 0x100) * RamSize + r;
  }

  /** `do_instruction_read`: the byte of RAM at the masked address, widened
      to a word. It always succeeds: the BIOS branch is left out, being
      unreachable, and the `Err` case kept for the address no branch accepts
      is reached by no address. */
  function DoInstructionRead(address: Address, ram: seq<Byte>): (r: Result<U32, Address>)
    requires |ram| == RamSize
    ensures r.Ok? && r.value == ram[address % RamSize]
  {
    var physical := Physical(address);
    if physical < RamMirrorEnd then
      Ok(ram[RamIndex(address)] as U32)
    else
      assert false; Err(physical)
  }

  /** Two addresses a multiple of 2 MB apart read the same RAM byte. */
  lemma RamIsMirrored(a: Address, b: Address, ram: seq<Byte>)
    requires |ram| == RamSize
    requires a % RamSize == b % RamSize
    ensures DoInstructionRead(a, ram) == DoInstructionRead(b, ram)
  {
  }

  /** The reset vector is read from the first byte of RAM: with the mirror
      ending at 2 GB, the BIOS at physical address 0x1FC00000 is not
      reached. */
  lemma ResetVectorReadsRamStart(ram: seq<Byte>)
    requires |ram| == RamSize
    ensures Physical(ResetVector) == 0x1FC0_0000
    ensures DoInstructionRead(ResetVector, ram) == Ok(ram[0] as U32)
  {
  }

  /** The CPU state: the `npc` register and the fetched instruction word. */
  class CPU {
    var npc: Address
    var nextInstruction: U32

    /** `CPU::new`: `Registers::new` puts `npc` at the reset vector and
        `Instruction::new` clears the instruction. */
    constructor ()
      ensures npc == ResetVector && nextInstruction == 0
    {
      npc := ResetVector;
      nextInstruction := 0;
    }

    /** `fetch_instruction`: reads the word at `npc` into the next
        instruction; it panics, so requires, on a tag other than 0, 4 or 5. */
    method FetchInstruction(ram: seq<Byte>)
      requires |ram| == RamSize && Fetchable(npc)
      modifies this
      ensures npc == old(npc)
      ensures Ok(nextInstruction) == DoInstructionRead(npc, ram)
    {
      var tag := Tag(npc);
      var read := DoInstructionRead(npc, ram);
      if tag == 0 || tag == 4 {
        nextInstruction := read.value;
      } else if tag == 5 {
        nextInstruction := read.value;
      }
    }

    /** `execute`: fetches, then advances `npc` by the four bytes of an
        instruction. A fetchable `npc` is below 3 GB, so the `u32` addition
        does not overflow. */
    method Execute(ram: seq<Byte>)
      requires |ram| == RamSize && Fetchable(npc)
      modifies this
      ensures Ok(nextInstruction) == DoInstructionRead(old(npc), ram)
      ensures npc == old(npc) + 4
    {
      FetchableSegments(npc);
      FetchInstruction(ram);
      npc := npc + 4;
    }
  }
}
