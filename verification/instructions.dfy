/**
 * The flash instruction catalogue of a Winbond W25Q-series SPI NOR flash, as consulted by the
 * access decoder: for every known opcode the length of its fixed frame (opcode plus address and
 * dummy bytes, without returned data) and whether the chip answers with data.
 * The human-readable instruction names only feed diagnostic counters and are kept as comments.
 */
module Instructions {

  datatype Instruction = Instruction(size: nat, expectsData: bool)

  const Winbond: map<int, Instruction> :=
    map[
      0x06 := Instruction(1, false),  // Write Enable
      0x50 := Instruction(1, false),  // Volatile SR Write Enable
      0x04 := Instruction(1, false),  // Write Disable
      0xAB := Instruction(4, true),  // Release Power-down / ID
      0x90 := Instruction(4, true),  // Manufacturer/Device ID
      0x9F := Instruction(1, true),  // JEDEC ID
      0x4B := Instruction(5, true),  // Manufacturer/Device ID
      0x03 := Instruction(4, true),  // Read Data
      0x0B := Instruction(5, true),  // Fast Read
      0x02 := Instruction(6, false),  // Page Program
      0x20 := Instruction(4, false),  // Sector Erase (4KB)
      0x52 := Instruction(4, false),  // Block Erase (32KB)
      0xD8 := Instruction(4, false),  // Block Erase (64KB)
      0xC7 := Instruction(1, false),  // Chip Erase (0xC7)
      0x60 := Instruction(1, false),  // Chip Erase (0x60)
      0x05 := Instruction(1, true),  // Read Status Register-1 (0x05)
      0x01 := Instruction(1, true),  // Read Status Register-1 (0x01)
      0x35 := Instruction(1, true),  // Read Status Register-2 (0x35)
      0x31 := Instruction(1, true),  // Read Status Register-2 (0x31)
      0x15 := Instruction(1, true),  // Read Status Register-3 (0x15)
      0x11 := Instruction(1, true),  // Read Status Register-3 (0x11
      0x5A := Instruction(5, true),  // Read SFDP Register
      0x44 := Instruction(4, false),  // Erase Security Register
      0x42 := Instruction(6, false),  // Program Security Register
      0x48 := Instruction(5, true),  // Read Security Register
      0x7E := Instruction(1, false),  // Global Block Lock
      0x98 := Instruction(1, false),  // Global Block Unlock
      0x3D := Instruction(4, true),  // Read Block Lock
      0x36 := Instruction(4, false),  // Individual Block Lock
      0x39 := Instruction(4, false),  // Individual Block Unlock
      0x75 := Instruction(1, false),  // Erase / Program Suspend
      0x7A := Instruction(1, false),  // Erase / Program Resume
      0xB9 := Instruction(1, false),  // Power-down
      0x66 := Instruction(1, false),  // Enable Reset
      0x99 := Instruction(1, false),  // Reset Device
      0xEB := Instruction(4, true),  // Fast Read Quad I/O
      0xE7 := Instruction(4, true),  // Word Read Quad I/O
      0xE3 := Instruction(4, true),  // Octal Word Read Quad I/O
      0x94 := Instruction(4, true)   // Mftr./Device ID Quad I/O
    ]

  /** The two opcodes the single-line decoder turns into read accesses. */
  const ReadData: int := 0x03
  const FastRead: int := 0x0B

  /** Largest frame of any catalogued instruction (Page Program, Program Security Register). */
  const MaxFrameSize: nat := 6

  predicate IsOpcode(b: int) {
    b in Winbond
  }

  predicate IsSpiRead(b: int) {
    b == ReadData || b == FastRead
  }

  /** Fixed frame length of a catalogued instruction. */
  function FrameSize(op: int): (n: nat)
    requires IsOpcode(op)
    ensures 1 <= n <= MaxFrameSize
    ensures IsSpiRead(op) ==> 4 <= n
  {
    Winbond[op].size
  }

  function ExpectsData(op: int): bool
    requires IsOpcode(op)
  {
    Winbond[op].expectsData
  }

  /** The frame length of a single-line read: opcode and three address bytes, plus one dummy byte
      for Fast Read. */
  function ReadFrame(op: int): nat
    requires IsSpiRead(op)
  {
    if op == FastRead then 5 else 4
  }

  /** Both single-line reads are catalogued with the frame length `ReadFrame` gives, and return data. */
  lemma ReadFrameCatalogued(op: int)
    requires IsSpiRead(op)
    ensures IsOpcode(op) && FrameSize(op) == ReadFrame(op) && ExpectsData(op)
  {
    CatalogueFacts();
  }

  /** The catalogue facts the decoders rely on: both single-line reads are catalogued, Read Data has a
      4-byte frame and Fast Read a 5-byte one (one dummy byte), both return data, and neither 0x13
      (4-byte-address Read) nor 0xEC (4-byte-address Fast Read Quad I/O) is catalogued. */
  lemma CatalogueFacts()
    ensures IsOpcode(ReadData) && FrameSize(ReadData) == 4 && ExpectsData(ReadData)
    ensures IsOpcode(FastRead) && FrameSize(FastRead) == 5 && ExpectsData(FastRead)
    ensures !IsOpcode(0x13) && !IsOpcode(0xEC)
  {
  }
}
