/**
 * The address walk of the diagnostic bus scanner (i2c_scan).
 *
 * The scanner visits every 7-bit address as a row prefix (0-7) and a column
 * suffix (0-15), skips the reserved addresses and attempts a one-byte read
 * at every other one. The bus read is a function parameter: it maps an
 * address to the value the read returns (negative when nothing answered).
 * The console output is modelled as the table of cells it prints.
 */
module BusScan {

  /** One cell of the printed scan table. */
  datatype Cell =
    | Skipped              // a reserved address, printed blank
    | Responded(addr: int) // the read returned >= 0, printed as the address
    | Silent               // the read returned < 0, printed as "--"

  /** The reserved ranges as the scanner tests them: 0x00-0x07 and 0x78 upwards. */
  predicate Reserved(addr: int)
    ensures 0 <= addr ==> (Reserved(addr) <==> !(0x08 <= addr < 0x78))
  {
    (addr >= 0x00 && addr <= 0x07) || addr >= 0x78
  }

  /** The address of row `prefix`, column `suffix`. */
  function Address(prefix: nat, suffix: nat): (addr: nat)
    ensures suffix < 16 ==> addr / 16 == prefix && addr % 16 == suffix
  {
    16 * prefix + suffix
  }

  /**
   * The scanner forms the address as `(addr_prefix << 4) | addr_suffix`;
   * for a row below 8 and a column below 16 that is Address, a 7-bit value.
   */
  lemma AddressIsBitOr(prefix: bv8, suffix: bv8)
    requires prefix < 8 && suffix < 16
    ensures ((prefix << 4) | suffix) as int == Address(prefix as int, suffix as int)
    ensures Address(prefix as int, suffix as int) < 0x80
  {
    assert (prefix << 4) | suffix == 16 * prefix + suffix;
  }

  /** What the scanner prints for one address, given the bus read. */
  function CellFor(addr: int, read: int -> int): (c: Cell)
    ensures c == Skipped <==> Reserved(addr)
    ensures c.Responded? <==> !Reserved(addr) && read(addr) >= 0
    ensures c.Responded? ==> c.addr == addr
    ensures c == Silent <==> !Reserved(addr) && read(addr) < 0
  {
    if Reserved(addr) then Skipped
    else if read(addr) >= 0 then Responded(addr)
    else Silent
  }

  /** How many addresses below `bound` the scanner reads. */
  function ProbedBelow(bound: int): nat
  {
    if bound <= 0x08 then 0 else if bound <= 0x78 then bound - 0x08 else 0x70
  }

  /** Moving past one address adds one read unless the address is reserved. */
  lemma ProbedBelowStep(addr: nat)
    requires addr < 0x80
    ensures ProbedBelow(addr + 1) == if Reserved(addr) then ProbedBelow(addr) else ProbedBelow(addr) + 1
  {
  }

  /** The k-th address read is 0x08 + k. */
  predicate ProbedFromFirst(probed: seq<int>)
  {
    forall k :: 0 <= k < |probed| ==> probed[k] == 0x08 + k
  }

  /** Reading 0x08, 0x09, ... 0x77 reads them in ascending order, each once, and no reserved address. */
  lemma ProbedAddresses(probed: seq<int>)
    requires |probed| == 0x70 && ProbedFromFirst(probed)
    ensures forall i, j :: 0 <= i < j < |probed| ==> probed[i] < probed[j]
    ensures forall addr :: addr in probed <==> 0 <= addr < 0x80 && !Reserved(addr)
  {
    forall addr | 0 <= addr < 0x80 && !Reserved(addr)
      ensures addr in probed
    {
      assert probed[addr - 0x08] == addr;
    }
  }

  /**
   * The inner loop of i2c_scan over one row: the 16 cells of row `prefix`,
   * and the addresses read so far extended by those of this row.
   */
  method ScanRow(prefix: nat, read: int -> int, probedBefore: seq<int>) returns (row: seq<Cell>, probed: seq<int>)
    requires prefix < 8
    requires |probedBefore| == ProbedBelow(16 * prefix) && ProbedFromFirst(probedBefore)
    ensures |row| == 16
    ensures forall s :: 0 <= s < 16 ==> row[s] == CellFor(16 * prefix + s, read)
    ensures |probed| == ProbedBelow(16 * prefix + 16) && ProbedFromFirst(probed)
  {
    row := [];
    probed := probedBefore;
    for suffix := 0 to 16
      invariant |row| == suffix
      invariant forall s :: 0 <= s < suffix ==> row[s] == CellFor(16 * prefix + s, read)
      invariant |probed| == ProbedBelow(16 * prefix + suffix)
      invariant ProbedFromFirst(probed)
    {
      var addr := Address(prefix, suffix);
      ProbedBelowStep(addr);
      if Reserved(addr) {
        row := row + [Skipped];
        continue;
      }
      var ret := read(addr);
      probed := probed + [addr];
      row := row + [if ret >= 0 then Responded(addr) else Silent];
    }
  }

  /**
   * i2c_scan: returns the addresses read, in the order they are read, and
   * the printed table. Exactly the addresses 0x08-0x77 are read, each once,
   * in ascending order; no reserved address is ever read.
   */
  method Scan(read: int -> int) returns (probed: seq<int>, table: seq<seq<Cell>>)
    ensures |probed| == 0x70 && ProbedFromFirst(probed)
    ensures forall i, j :: 0 <= i < j < |probed| ==> probed[i] < probed[j]
    ensures forall addr :: addr in probed <==> 0 <= addr < 0x80 && !Reserved(addr)
    ensures |table| == 8
    ensures forall p :: 0 <= p < 8 ==> |table[p]| == 16
    ensures forall p, s :: 0 <= p < 8 && 0 <= s < 16 ==> table[p][s] == CellFor(16 * p + s, read)
  {
    probed := [];
    table := [];
    for prefix := 0 to 8
      invariant |table| == prefix
      invariant forall p :: 0 <= p < prefix ==> |table[p]| == 16
      invariant forall p, s :: 0 <= p < prefix && 0 <= s < 16 ==> table[p][s] == CellFor(16 * p + s, read)
      invariant |probed| == ProbedBelow(16 * prefix) && ProbedFromFirst(probed)
    {
      var row;
      row, probed := ScanRow(prefix, read, probed);
      table := table + [row];
    }
    ProbedAddresses(probed);
  }
}
