/** computeCrc of CyclicRedundancyCheck.cpp with its table and the flag that caches it. */
module CyclicRedundancyCheck {
  import opened Crc32

  /** What the table holds once it is computed: eight division steps for every byte. */
  ghost predicate IsCrcTable(table: seq<bv32>) {
    |table| == 256 && forall i :: 0 <= i < 256 ==> table[i] == Steps(i as bv32, 8)
  }

  /** The two static variables of computeCrc. */
  class CrcState {
    const crcTable: array<bv32>
    var crcTableComputed: bool

    ghost predicate Valid()
      reads this, crcTable
    {
      crcTable.Length == 256 && (crcTableComputed ==> IsCrcTable(crcTable[..]))
    }

    constructor ()
      ensures Valid() && !crcTableComputed && fresh(crcTable)
    {
      crcTable := new bv32[256];
      crcTableComputed := false;
    }

    /** computeCrc: the same value whether the table was cached by an earlier call or not. */
    method ComputeCrc(buffer: seq<Byte>) returns (crc: bv32)
      requires Valid()
      modifies this, crcTable
      ensures Valid() && crcTableComputed
      ensures crc == Crc(buffer)
    {
      if !crcTableComputed {
        MakeCrcTable(crcTable);
        crcTableComputed := true;
      }
      crc := FeedBuffer(crcTable, buffer);
    }
  }

  method MakeCrcTable(crcTable: array<bv32>)
    requires crcTable.Length == 256
    modifies crcTable
    ensures IsCrcTable(crcTable[..])
  {
    hide Steps;
    for i := 0 to 256
      invariant forall j :: 0 <= j < i ==> crcTable[j] == Steps(j as bv32, 8)
    {
      crcTable[i] := TableEntry(i as bv32);
    }
  }

  /** The inner loop of makeCrcTable. */
  method TableEntry(i: bv32) returns (c: bv32)
    ensures c == Steps(i, 8)
  {
    hide Step;
    c := i;
    for k := 0 to 8
      invariant Steps(c, 8 - k) == Steps(i, 8)
    {
      StepIs(c);
      if c & 1 != 0 {
        c := 0xedb8_8320 ^ ((c >> 1) & 0x7fff_ffff);
      } else {
        c := c >> 1;
      }
    }
  }

  lemma StepIs(c: bv32)
    ensures Step(c) == if c & 1 != 0 then 0xedb8_8320 ^ ((c >> 1) & 0x7fff_ffff) else c >> 1
  {
  }

  /** The loop over the buffer. */
  method FeedBuffer(crcTable: array<bv32>, buffer: seq<Byte>) returns (crc: bv32)
    requires IsCrcTable(crcTable[..])
    ensures crc == Crc(buffer)
  {
    hide IsCrcTable, Steps, FeedBits;
    crc := 0xffff_ffff;
    assert buffer[0..] == buffer;
    for i := 0 to |buffer|
      invariant Register(crc, buffer[i..]) == Register(0xffff_ffff, buffer)
    {
      crc := TableUpdate(crcTable, crc, buffer[i]);
      assert buffer[i..][1..] == buffer[i + 1..];
    }
    assert buffer[|buffer|..] == [];
    crc := crc ^ 0xffff_ffff;
  }

  method TableUpdate(crcTable: array<bv32>, crc: bv32, b: Byte) returns (next: bv32)
    requires IsCrcTable(crcTable[..])
    ensures next == FeedBits(crc, b as bv32, 8)
  {
    hide Steps, FeedBits, Xor, Low, IsCrcTable;
    FeedByteByTable(crc, b);
    var index := Low(Xor(crc, b as bv32));
    LowIndex(Xor(crc, b as bv32));
    TableAt(crcTable[..], index);
    LowHigh(crc);
    next := Xor(crcTable[index as int], (crc >> 8) & 0x00ff_ffff);
  }

  lemma LowIndex(r: bv32)
    ensures Low(r) <= 0xff && 0 <= Low(r) as int < 256 && (Low(r) as int) as bv32 == Low(r)
  {
  }

  lemma TableAt(table: seq<bv32>, index: bv32)
    requires IsCrcTable(table) && 0 <= index as int < 256 && (index as int) as bv32 == index
    ensures |table| == 256 && table[index as int] == Steps(index, 8)
  {
    hide Steps;
  }
}
