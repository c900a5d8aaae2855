/** The fast dispatch table of src/core/cpu_code_cache.cpp:55-177: biased table pointers over one flat
    allocation of host code pointers, with 64-bit host pointers. Addresses are byte offsets from the
    start of the allocation, and may be negative while biased. */
module FastMap {
  import opened CodeCacheModel
  import opened Common

  const TABLE_COUNT: nat := 0x1_0000
  const TABLE_SIZE: nat := 0x4000
  const POINTER_SIZE: nat := 8
  const TABLE_BYTES: nat := 0x2_0000

  /** An entry of the unreachable table, or a target of the code cache. */
  datatype Entry = Invalid | To(target: Target)

  type Range = r: (nat, nat) | r.0 <= r.1 < 0x1_0000_0000 witness (0, 0)

  const RANGES: seq<Range> := [
    (0x0000_0000, 0x0080_0000), (0x1F00_0000, 0x1F80_0000), (0x1FC0_0000, 0x1FC8_0000),
    (0x8000_0000, 0x8080_0000), (0x9F00_0000, 0x9F80_0000), (0x9FC0_0000, 0x9FC8_0000),
    (0xA000_0000, 0xA080_0000), (0xBF00_0000, 0xBF80_0000), (0xBFC0_0000, 0xBFC8_0000)]

  function Slot(pc: nat): nat { pc / 0x1_0000 }

  function TableCount(r: Range): nat { Slot(r.1) - Slot(r.0) + 1 }

  /** Tables in use before range i, the unreachable one included. */
  function FirstTable(i: nat): nat
    requires i <= |RANGES|
  {
    if i == 0 then 1 else FirstTable(i - 1) + TableCount(RANGES[i - 1])
  }

  predicate InRange(slot: nat, i: nat)
    requires i < |RANGES|
  {
    Slot(RANGES[i].0) <= slot <= Slot(RANGES[i].1)
  }

  /** The table that a slot uses once the first n ranges are allocated; 0 is the unreachable one. */
  function TableOf(slot: nat, n: nat): nat
    requires n <= |RANGES|
  {
    if n == 0 then 0
    else if InRange(slot, n - 1) then FirstTable(n - 1) + slot - Slot(RANGES[n - 1].0)
    else TableOf(slot, n - 1)
  }

  predicate Allocated(pc: nat) {
    pc < 0x1_0000_0000 && TableOf(Slot(pc), |RANGES|) > 0
  }

  lemma TotalTables()
    ensures FirstTable(|RANGES|) == 802
  {
    assert FirstTable(1) == 130 && FirstTable(2) == 259 && FirstTable(3) == 268;
    assert FirstTable(4) == 397 && FirstTable(5) == 526 && FirstTable(6) == 535;
    assert FirstTable(7) == 664 && FirstTable(8) == 793;
  }

  /** Distinct slots of the ranges use distinct tables, inside the allocation. */
  lemma {:induction false} TablesDistinct(n: nat, a: nat, b: nat)
    requires n <= |RANGES|
    ensures TableOf(a, n) < FirstTable(n)
    ensures a != b && TableOf(a, n) > 0 ==> TableOf(a, n) != TableOf(b, n)
  {
    if n > 0 {
      TablesDistinct(n - 1, a, b);
      TablesDistinct(n - 1, b, a);
    }
  }

  lemma FirstTablePositive(n: nat)
    requires n <= |RANGES|
    ensures FirstTable(n) >= 1
  {
  }

  /** EncodeFastMapPointer, DecodeFastMapPointer and OffsetFastMapPointer. */
  function Encode(slot: nat, address: int): int { address - slot * TABLE_BYTES }

  function Decode(slot: nat, encoded: int): int { encoded + slot * TABLE_BYTES }

  function Offset(encoded: int, pc: nat): int { encoded + 2 * pc }

  /** The cell that holds the entry for pc. */
  function Cell(pc: nat): nat { TABLE_SIZE * TableOf(Slot(pc), |RANGES|) + pc % 0x1_0000 / 4 }

  /** Adding twice the pc to the biased pointer lands on that cell. */
  lemma OffsetIsCell(pc: nat)
    requires pc % 4 == 0
    ensures Offset(Encode(Slot(pc), TABLE_BYTES * TableOf(Slot(pc), |RANGES|)), pc) == POINTER_SIZE * Cell(pc)
  {
    LowAligned(pc);
  }

  /** No two aligned pcs share a cell, unless both are unreachable. */
  lemma CellsDistinct(a: nat, b: nat)
    requires a % 4 == 0 && b % 4 == 0 && Allocated(a)
    ensures TABLE_SIZE <= Cell(a) < TABLE_SIZE * FirstTable(|RANGES|)
    ensures a != b ==> Cell(a) != Cell(b)
  {
    TablesDistinct(|RANGES|, Slot(a), Slot(b));
    TablesDistinct(|RANGES|, Slot(b), Slot(a));
    var ta, tb := TableOf(Slot(a), |RANGES|), TableOf(Slot(b), |RANGES|);
    CellTable(a);
    CellTable(b);
    hide TableOf;
    if a != b && Slot(a) == Slot(b) {
      LowBits(a, b);
    }
  }

  lemma LowBits(a: nat, b: nat)
    requires a % 4 == 0 && b % 4 == 0 && a != b && Slot(a) == Slot(b)
    ensures a % 0x1_0000 / 4 != b % 0x1_0000 / 4
  {
    LowAligned(a);
    LowAligned(b);
    hide Slot;
  }

  lemma LowAligned(a: nat)
    requires a % 4 == 0
    ensures a == 0x1_0000 * Slot(a) + a % 0x1_0000 && a % 0x1_0000 == 4 * (a % 0x1_0000 / 4)
  {
    var r := a % 0x1_0000;
    assert r == 4 * (a / 4 - 0x4000 * Slot(a));
  }

  /** The cell determines the table. */
  lemma CellTable(pc: nat)
    ensures Cell(pc) / TABLE_SIZE == TableOf(Slot(pc), |RANGES|)
    ensures Cell(pc) == TABLE_SIZE * TableOf(Slot(pc), |RANGES|) + pc % 0x1_0000 / 4 && pc % 0x1_0000 / 4 < TABLE_SIZE
  {
    hide TableOf;
  }

  /** Wherever instructions can be fetched, the dispatch table has an entry of its own. */
  lemma ReadableIsAllocated(pc: nat)
    requires pc / 0x2000_0000 in {0, 4, 5} && Readable(Physical(pc))
    ensures Allocated(pc)
  {
    var slot, a := Slot(pc), Physical(pc);
    assert pc == 0x2000_0000 * (pc / 0x2000_0000) + a;
    assert slot == 0x2000 * (pc / 0x2000_0000) + Slot(a);
    var segment := if pc / 0x2000_0000 == 0 then 0 else if pc / 0x2000_0000 == 4 then 1 else 2;
    var i := 3 * segment + (if a < RAM_MIRROR_END then 0 else 2);
    assert InRange(slot, i);
    InRangeAllocates(slot, i, |RANGES|);
  }

  lemma {:induction false} InRangeAllocates(slot: nat, i: nat, n: nat)
    requires i < n <= |RANGES| && InRange(slot, i)
    ensures TableOf(slot, n) > 0
  {
    if !InRange(slot, n - 1) {
      InRangeAllocates(slot, i, n - 1);
    } else {
      FirstTablePositive(n - 1);
    }
  }

  class FastMap {
    const tables: array<int>
    const cells: array<Entry>

    /** Each slot holds the biased address of its table. */
    ghost predicate Allocation(n: nat)
      requires n <= |RANGES|
      reads tables
    {
      && tables.Length == TABLE_COUNT && cells.Length == TABLE_SIZE * FirstTable(|RANGES|)
      && (forall slot :: 0 <= slot < TABLE_COUNT ==> tables[slot] == Encode(slot, TABLE_BYTES * TableOf(slot, n)))
    }

    /** The table represents the map m from pcs to targets. */
    ghost predicate Represents(m: map<nat, Target>)
      reads tables, cells
    {
      && Allocation(|RANGES|)
      && (forall c :: 0 <= c < TABLE_SIZE && c < cells.Length ==> cells[c] == Invalid)
      && (forall pc: nat :: Cell(pc) < cells.Length && pc % 4 == 0 && Allocated(pc) ==>
            cells[Cell(pc)] == To(if pc in m then m[pc] else CompileStub))
    }

    /** What the dispatcher jumps to. */
    ghost function Dispatch(pc: nat): Entry
      requires Allocation(|RANGES|) && pc % 4 == 0 && pc < 0x1_0000_0000
      reads tables, cells
    {
      CellInBounds(pc);
      cells[Offset(tables[Slot(pc)], pc) / POINTER_SIZE]
    }

    lemma CellInBounds(pc: nat)
      requires Allocation(|RANGES|) && pc % 4 == 0 && pc < 0x1_0000_0000
      ensures Slot(pc) < TABLE_COUNT
      ensures Offset(tables[Slot(pc)], pc) == POINTER_SIZE * Cell(pc) && Cell(pc) < cells.Length
    {
      OffsetIsCell(pc);
      TablesDistinct(|RANGES|, Slot(pc), Slot(pc));
      CellTable(pc);
      hide TableOf, FirstTable;
    }

    /** AllocateFastMap. */
    constructor ()
      ensures Represents(map[]) && fresh(tables) && fresh(cells)
    {
      var numTables := 1;
      for i := 0 to |RANGES|
        invariant numTables == FirstTable(i)
      {
        numTables := numTables + TableCount(RANGES[i]);
      }
      cells := new Entry[TABLE_SIZE * numTables](c => if c < TABLE_SIZE then Invalid else To(CompileStub));
      tables := new int[TABLE_COUNT](slot requires 0 <= slot => Encode(slot, 0));
      new;
      var address := TABLE_BYTES;
      for i := 0 to |RANGES|
        invariant address == TABLE_BYTES * FirstTable(i) && Allocation(i)
        invariant forall c :: 0 <= c < cells.Length ==> cells[c] == if c < TABLE_SIZE then Invalid else To(CompileStub)
      {
        address := AllocateTables(i, address);
      }
      forall pc | pc % 4 == 0 && Allocated(pc)
        ensures TABLE_SIZE <= Cell(pc)
      {
        CellsDistinct(pc, pc);
      }
    }

    /** AllocateFastMapTables for range i. */
    method AllocateTables(i: nat, address: int) returns (next: int)
      requires i < |RANGES| && Allocation(i) && address == TABLE_BYTES * FirstTable(i)
      modifies tables
      ensures Allocation(i + 1) && next == TABLE_BYTES * FirstTable(i + 1)
    {
      hide FirstTable;
      var startSlot := Slot(RANGES[i].0);
      var count := TableCount(RANGES[i]);
      next := address;
      for k := 0 to count
        invariant next == address + TABLE_BYTES * k
        invariant forall slot :: 0 <= slot < TABLE_COUNT ==>
                    tables[slot] == if startSlot <= slot < startSlot + k
                                    then Encode(slot, address + TABLE_BYTES * (slot - startSlot))
                                    else Encode(slot, TABLE_BYTES * TableOf(slot, i))
      {
        var slot := startSlot + k;
        tables[slot] := Encode(slot, next);
        next := next + TABLE_BYTES;
      }
      NextTable(i);
    }

    /** SetFastMap: one entry changes, and no other. */
    method Set(pc: nat, target: Target, ghost m: map<nat, Target>)
      requires Represents(m) && pc % 4 == 0 && Allocated(pc)
      modifies cells
      ensures Represents(m[pc := target])
      ensures forall q: nat :: q % 4 == 0 && q < 0x1_0000_0000 ==>
                Dispatch(q) == if q == pc then To(target) else old(Dispatch(q))
    {
      hide TableOf, FirstTable, Cell, Allocated;
      AllocatedBound(pc);
      CellInBounds(pc);
      CellsDistinct(pc, pc);
      forall q: nat | q % 4 == 0 && q < 0x1_0000_0000
        ensures q != pc ==> Cell(q) != Cell(pc)
        ensures Slot(q) < TABLE_COUNT && Offset(tables[Slot(q)], q) == POINTER_SIZE * Cell(q) && Cell(q) < cells.Length
      {
        CellsDistinct(pc, q);
        CellInBounds(q);
      }
      forall q | Allocated(q)
        ensures q < 0x1_0000_0000
      {
        AllocatedBound(q);
      }
      var slot := Slot(pc);
      cells[Offset(tables[slot], pc) / POINTER_SIZE] := To(target);
    }

    /** ResetFastMap: every reachable entry goes back to the compiler. */
    method Reset(ghost m: map<nat, Target>)
      requires Represents(m)
      modifies cells
      ensures Represents(map[])
    {
      hide Cell, Allocated, TableOf, FirstTable;
      for i := 0 to TABLE_COUNT
        invariant forall c :: 0 <= c < TABLE_SIZE && c < cells.Length ==> cells[c] == Invalid
        invariant forall slot: nat, j: nat :: slot < i && j < TABLE_SIZE && TableOf(slot, |RANGES|) > 0 ==>
                    Filled(slot, j)
      {
        var ptr := Decode(i, tables[i]);
        TablesDistinct(|RANGES|, i, i);
        assert ptr == TABLE_BYTES * TableOf(i, |RANGES|);
        if ptr != 0 {
          label before:
          FillTable(i, ptr);
          forall slot: nat, j: nat | slot <= i && j < TABLE_SIZE && TableOf(slot, |RANGES|) > 0
            ensures Filled(slot, j)
          {
            TableInBounds(slot, j);
            assert slot < i ==> old@before(Filled(slot, j));
          }
        }
      }
      forall pc: nat | Cell(pc) < cells.Length && pc % 4 == 0 && Allocated(pc)
        ensures cells[Cell(pc)] == To(CompileStub)
      {
        CellTable(pc);
        AllocatedBound(pc);
        assert Filled(Slot(pc), pc % 0x1_0000 / 4);
      }
    }

    lemma TableInBounds(slot: nat, j: nat)
      requires Allocation(|RANGES|) && j < TABLE_SIZE
      ensures TABLE_SIZE * TableOf(slot, |RANGES|) + j < cells.Length
    {
      hide TableOf, FirstTable;
      TablesDistinct(|RANGES|, slot, slot);
    }

    ghost predicate Filled(slot: nat, j: nat)
      reads cells
    {
      var c := TABLE_SIZE * TableOf(slot, |RANGES|) + j;
      c < cells.Length && cells[c] == To(CompileStub)
    }

    /** The inner loop of ResetFastMap. */
    method FillTable(slot: nat, ptr: int)
      requires Allocation(|RANGES|) && slot < TABLE_COUNT && ptr == TABLE_BYTES * TableOf(slot, |RANGES|) && ptr > 0
      modifies cells
      ensures forall c :: 0 <= c < cells.Length ==>
                cells[c] == if ptr / POINTER_SIZE <= c < ptr / POINTER_SIZE + TABLE_SIZE then To(CompileStub) else old(cells[c])
    {
      hide TableOf, FirstTable;
      TablesDistinct(|RANGES|, slot, slot);
      var first := ptr / POINTER_SIZE;
      for j := 0 to TABLE_SIZE
        invariant forall c :: 0 <= c < cells.Length ==>
                    cells[c] == if first <= c < first + j then To(CompileStub) else old(cells[c])
      {
        cells[first + j] := To(CompileStub);
      }
    }

    /** With the code cache's own table represented here, the dispatcher reaches the code of the valid
        block at pc, or the compiler; where nothing can be fetched it reports invalid code. */
    lemma DispatchesBlocks(s: State, pc: nat)
      requires Inv(s) && Represents(s.fast) && pc % 4 == 0 && pc < 0x1_0000_0000
      ensures Allocated(pc) ==> Dispatch(pc) == To(FastExpected(s, pc))
      ensures !Allocated(pc) ==> Dispatch(pc) == Invalid
    {
      CellInBounds(pc);
      if Allocated(pc) {
        assert FastLookup(s, pc) == FastExpected(s, pc);
      } else {
        CellTable(pc);
      }
    }
  }

  lemma AllocatedBound(pc: nat)
    ensures Allocated(pc) ==> pc < 0x1_0000_0000 && Slot(pc) < TABLE_COUNT && TableOf(Slot(pc), |RANGES|) > 0
  {
  }

  lemma NextTable(i: nat)
    requires i < |RANGES|
    ensures FirstTable(i + 1) == FirstTable(i) + TableCount(RANGES[i])
  {
  }
}
