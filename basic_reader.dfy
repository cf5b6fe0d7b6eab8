/** The ROM reader: a ROM image is read as a sequence of big-endian
    32-bit words, and each word is listed with its primary opcode and the
    opcode's mnemonic. */
module BasicReader {
  import opened Common
  import opened CpuTypes

  /** `OPCODE_NAMES`: the mnemonic of each of the 64 primary opcodes,
      "NULL" where the table names none. */
  const OpcodeNames: seq<string> :=
    ["ALU_Op", "REGIMM", "J", "JAL", "BEQ", "BNE", "BLEZ", "BGTZ"] +
    ["ADDI", "ADDIU", "SLTI", "SLTIU", "ANDI", "ORI", "XORI", "LUI"] +
    ["COP0", "NULL", "COP2", "NULL", "NULL", "NULL", "NULL", "NULL"] +
    ["NULL", "NULL", "NULL", "NULL", "NULL", "NULL", "NULL", "NULL"] +
    ["LB", "LH", "LWL", "LW", "LBU", "LHU", "LWR", "NULL"] +
    ["SB", "SH", "SWL", "SW", "NULL", "NULL", "SWR", "NULL"] +
    ["NULL", "NULL", "LWC2", "NULL", "NULL", "NULL", "NULL", "NULL"] +
    ["NULL", "NULL", "SWC2", "HLE", "NULL", "NULL", "NULL", "NULL"]

  /** `program` holds the words of `bytes` taken four bytes at a time, each
      read big-endian. */
  ghost predicate Packs(bytes: seq<Byte>, program: seq<U32>) {
    && |bytes| == 4 * |program|
    && forall k :: 0 <= k < |program| ==> program[k] == FromBigEndian32(bytes[4 * k..4 * k + 4])
  }

  /** The words written back big-endian, one after the other. */
  function ToBytes(words: seq<U32>): (bytes: seq<Byte>)
    ensures |bytes| == 4 * |words|
  {
    if words == [] then [] else ToBigEndian32(words[0]) + ToBytes(words[1..])
  }

  /** The packing loop of `read_rom_file` over the file's bytes. A length
      that is not a multiple of four makes the last `chunk[3]` panic, so it
      is required away. */
  method ReadRomFile(bytes: seq<Byte>) returns (program: seq<U32>)
    requires |bytes| % 4 == 0
    ensures Packs(bytes, program)
  {
    program := [];
    var i := 0;
    while i < |bytes| / 4
      invariant 0 <= i <= |bytes| / 4 && |program| == i
      invariant forall k :: 0 <= k < i ==> program[k] == FromBigEndian32(bytes[4 * k..4 * k + 4])
    {
      var chunk := bytes[4 * i..4 * i + 4];
      program := program + [FromBigEndian32([chunk[0], chunk[1], chunk[2], chunk[3]])];
      i := i + 1;
    }
  }

  /** Packing is exactly the inverse of writing the words back: the
      program read from `bytes` re-serialises to `bytes`, and the bytes of
      any program read back to that program. */
  lemma {:induction false} PacksIsToBytes(bytes: seq<Byte>, program: seq<U32>)
    ensures Packs(bytes, program) <==> bytes == ToBytes(program)
  {
    if Packs(bytes, program) {
      PackedBytesRoundTrip(bytes, program);
    }
    if bytes == ToBytes(program) {
      ToBytesPacks(program);
    }
  }

  lemma {:induction false} PackedBytesRoundTrip(bytes: seq<Byte>, program: seq<U32>)
    requires Packs(bytes, program)
    ensures ToBytes(program) == bytes
    decreases |program|
  {
    if program != [] {
      var rest, tail := bytes[4..], program[1..];
      forall k | 0 <= k < |tail|
        ensures tail[k] == FromBigEndian32(rest[4 * k..4 * k + 4])
      {
        assert rest[4 * k..4 * k + 4] == bytes[4 * (k + 1)..4 * (k + 1) + 4];
      }
      PackedBytesRoundTrip(rest, tail);
      BigEndian32RoundTrip(bytes[..4], 0);
      assert bytes[0..4] == bytes[..4];
      assert bytes == bytes[..4] + rest;
    }
  }

  lemma {:induction false} ToBytesPacks(words: seq<U32>)
    ensures Packs(ToBytes(words), words)
    decreases |words|
  {
    if words != [] {
      var bytes, rest := ToBytes(words), ToBytes(words[1..]);
      ToBytesPacks(words[1..]);
      BigEndian32RoundTrip([0, 0, 0, 0], words[0]);
      forall k | 0 <= k < |words|
        ensures words[k] == FromBigEndian32(bytes[4 * k..4 * k + 4])
      {
        if k == 0 {
          assert bytes[0..4] == ToBigEndian32(words[0]);
        } else {
          assert bytes[4 * k..4 * k + 4] == rest[4 * (k - 1)..4 * (k - 1) + 4];
        }
      }
    }
  }

  /** The opcode of a word, `instruction >> 26`, and its mnemonic; the
      opcode is below 64, so the table lookup is always in bounds. */
  function Mnemonic(instruction: U32): (r: (Byte, string))
    ensures r.0 < |OpcodeNames| && r.1 == OpcodeNames[r.0]
    ensures r.0 * 0x400_0000 <= instruction < (r.0 + 1) * 0x400_0000
  {
    var opcode := OpCodeField(Instruction(instruction));
    (opcode, OpcodeNames[opcode])
  }

  /** The listing loop of `read`: each word's opcode and mnemonic, in
      program order. */
  method Disassemble(program: seq<U32>) returns (listing: seq<(Byte, string)>)
    ensures |listing| == |program|
    ensures forall i :: 0 <= i < |program| ==> listing[i] == Mnemonic(program[i])
  {
    listing := [];
    for i := 0 to |program|
      invariant |listing| == i
      invariant forall k :: 0 <= k < i ==> listing[k] == Mnemonic(program[k])
    {
      var instruction := program[i];
      var opcode := OpCodeField(Instruction(instruction));
      listing := listing + [(opcode, OpcodeNames[opcode])];
    }
  }

  /** Sample entries of the table. */
  lemma OpcodeNamesExamples()
    ensures Mnemonic(2 * 0x400_0000).1 == "J"
    ensures Mnemonic(15 * 0x400_0000 + 0xFFFF).1 == "LUI"
    ensures Mnemonic(35 * 0x400_0000 + 0x3FF_FFFF).1 == "LW"
  {
    assert Mnemonic(2 * 0x400_0000).0 == 2;
    assert Mnemonic(15 * 0x400_0000 + 0xFFFF).0 == 15;
    assert Mnemonic(35 * 0x400_0000 + 0x3FF_FFFF).0 == 35;
  }

  /** The table names only opcodes that `InstructionOp` decodes: every
      mnemonic other than "NULL" stands at a valid opcode. */
  lemma NamedOpcodesDecode(opcode: Byte)
    requires opcode < |OpcodeNames| && OpcodeNames[opcode] != "NULL"
    ensures IsOpCode(opcode)
  {
  }
}
