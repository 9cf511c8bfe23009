// The leak tracker of include/anv_leaks.h: six unsigned 32-bit counters and
// a singly linked list of live-allocation records whose newest record is at
// the head.  The list is a sequence (head first); block addresses are
// naturals, 0 standing for NULL; what the system allocator returns is a
// parameter of each operation.

module Leaks {
  import opened Bytes

  /** One anv_leaks__alloc_map node: a live block, its size, and where it was
      allocated. */
  datatype Record = Record(block: nat, size: nat, file: string, line: int)

  /** anv_leaks_stats. */
  datatype Stats = Stats(totalAllocated: nat, totalFreed: nat, mallocCount: nat,
                         freeCount: nat, callocCount: nat, reallocCount: nat)

  /** anv_leak_info, as handed out by anv_leaks_get_leaks. */
  datatype LeakInfo = LeakInfo(file: string, line: int, bytes: nat, address: nat)

  /** The whole tracker state. */
  datatype Ledger = Ledger(records: seq<Record>, stats: Stats)

  /** Unsigned 32-bit `x += y`. */
  function Add32(x: nat, y: int): nat
  {
    (x + y) % U32
  }

  /** The counters are unsigned 32-bit values. */
  predicate StatsOk(s: Stats)
  {
    s.totalAllocated < U32 && s.totalFreed < U32 && s.mallocCount < U32
    && s.freeCount < U32 && s.callocCount < U32 && s.reallocCount < U32
  }

  function SumSizes(rs: seq<Record>): nat
  {
    if rs == [] then 0 else rs[0].size + SumSizes(rs[1..])
  }

  /** The ledger's promise, in the counters' own unsigned arithmetic: there
      are malloc + calloc - free live records, and their sizes add up to
      allocated - freed. */
  predicate Balanced(l: Ledger)
  {
    |l.records| % U32 == (l.stats.mallocCount + l.stats.callocCount - l.stats.freeCount) % U32
    && SumSizes(l.records) % U32 == (l.stats.totalAllocated - l.stats.totalFreed) % U32
  }

  /** anv_leaks_init: no records and every counter zero. */
  function Empty(): (l: Ledger)
    ensures l.records == [] && Balanced(l) && StatsOk(l.stats)
  {
    Ledger([], Stats(0, 0, 0, 0, 0, 0))
  }

  /** The record list search: the first record of block `mem`. */
  function Find(rs: seq<Record>, mem: nat): (r: Option<nat>)
    ensures r.Some? ==> r.value < |rs| && rs[r.value].block == mem
                        && forall j :: 0 <= j < r.value ==> rs[j].block != mem
    ensures r.None? ==> forall j :: 0 <= j < |rs| ==> rs[j].block != mem
  {
    if rs == [] then None
    else if rs[0].block == mem then Some(0)
    else match Find(rs[1..], mem)
      case None => None
      case Some(k) => Some(k + 1)
  }

  /** anv_leaks_malloc_ once the system allocator returned `mem`: nothing
      for NULL, otherwise a new record at the head, `size` added to the
      allocated total and one more malloc. */
  function MallocSpec(l: Ledger, size: nat, file: string, line: int, mem: nat): Ledger
  {
    if mem == 0 then l
    else Ledger([Record(mem, size, file, line)] + l.records,
                l.stats.(totalAllocated := Add32(l.stats.totalAllocated, size),
                         mallocCount := Add32(l.stats.mallocCount, 1)))
  }

  /** anv_leaks_calloc_: a record of num * size bytes (a size_t product) at
      the head, whatever calloc returned. */
  function CallocSpec(l: Ledger, num: nat, size: nat, file: string, line: int, mem: nat): Ledger
  {
    var n := (num * size) % U64;
    Ledger([Record(mem, n, file, line)] + l.records,
           l.stats.(totalAllocated := Add32(l.stats.totalAllocated, n),
                    callocCount := Add32(l.stats.callocCount, 1)))
  }

  /** anv_leaks_free_: a tracked block loses its record and is counted as
      freed with its recorded size; an unknown block changes nothing. */
  function FreeSpec(l: Ledger, mem: nat): Ledger
  {
    match Find(l.records, mem)
    case None => l
    case Some(i) =>
      Ledger(l.records[..i] + l.records[i + 1..],
             l.stats.(totalFreed := Add32(l.stats.totalFreed, l.records[i].size),
                      freeCount := Add32(l.stats.freeCount, 1)))
  }

  /** anv_leaks_realloc_ once realloc returned `newMem`: NULL goes the malloc
      way; otherwise the record of `mem` takes the new block and size, the
      size_t difference is added to the allocated total (the whole size if
      no record was found) and one more realloc is counted. */
  function ReallocSpec(l: Ledger, mem: nat, size: nat, file: string, line: int, newMem: nat): Ledger
  {
    if mem == 0 then MallocSpec(l, size, file, line, newMem)
    else match Find(l.records, mem)
      case None =>
        Ledger(l.records, l.stats.(totalAllocated := Add32(l.stats.totalAllocated, size % U64),
                                   reallocCount := Add32(l.stats.reallocCount, 1)))
      case Some(i) =>
        var old_size := l.records[i].size;
        Ledger(l.records[i := l.records[i].(block := newMem, size := size)],
               l.stats.(totalAllocated := Add32(l.stats.totalAllocated, (size - old_size) % U64),
                        reallocCount := Add32(l.stats.reallocCount, 1)))
  }

  function InfoOf(r: Record): LeakInfo
  {
    LeakInfo(r.file, r.line, r.size, r.block)
  }

  function Infos(rs: seq<Record>): seq<LeakInfo>
  {
    seq(|rs|, k requires 0 <= k < |rs| => InfoOf(rs[k]))
  }

  /** malloc + calloc - free in unsigned arithmetic. */
  function Delta(s: Stats): nat
  {
    (s.mallocCount + s.callocCount - s.freeCount) % U32
  }

  /** anv_leaks_get_leaks: NULL and 0 when the counters say nothing is live;
      otherwise one entry per record, in list order, and the counted size. */
  function LeaksSpec(l: Ledger): (Option<seq<LeakInfo>>, nat)
  {
    if Delta(l.stats) == 0 then (None, 0) else (Some(Infos(l.records)), Delta(l.stats))
  }

  // ---------------------------------------------------------------------
  // The counters keep the balance.

  lemma {:induction false} SumRemove(rs: seq<Record>, i: nat)
    requires i < |rs|
    ensures SumSizes(rs[..i] + rs[i + 1..]) + rs[i].size == SumSizes(rs)
  {
    if i > 0 {
      var tl := rs[1..];
      SumRemove(tl, i - 1);
      var ys := rs[..i] + rs[i + 1..];
      assert ys[0] == rs[0];
      assert ys[1..] == tl[..i - 1] + tl[i..];
    } else {
      assert rs[..0] + rs[1..] == rs[1..];
    }
  }

  lemma {:induction false} SumUpdate(rs: seq<Record>, i: nat, r: Record)
    requires i < |rs|
    ensures SumSizes(rs[i := r]) + rs[i].size == SumSizes(rs) + r.size
  {
    if i > 0 {
      SumUpdate(rs[1..], i - 1, r);
      assert rs[i := r][1..] == rs[1..][i - 1 := r];
    }
  }

  lemma SumCons(r: Record, rs: seq<Record>)
    ensures SumSizes([r] + rs) == r.size + SumSizes(rs)
  {
    assert ([r] + rs)[1..] == rs;
  }

  /** A malloc keeps the ledger balanced. */
  lemma MallocBalanced(l: Ledger, size: nat, file: string, line: int, mem: nat)
    requires Balanced(l)
    ensures Balanced(MallocSpec(l, size, file, line, mem))
  {
    if mem != 0 {
      var s := l.stats;
      SumCons(Record(mem, size, file, line), l.records);
      CongShift(|l.records|, s.mallocCount + s.callocCount - s.freeCount, 1);
      ModAdd(s.mallocCount + 1, s.callocCount - s.freeCount);
      CongShift(SumSizes(l.records), s.totalAllocated - s.totalFreed, size);
      ModAdd(s.totalAllocated + size, -(s.totalFreed as int));
    }
  }

  /** A calloc keeps the ledger balanced. */
  lemma CallocBalanced(l: Ledger, num: nat, size: nat, file: string, line: int, mem: nat)
    requires Balanced(l)
    ensures Balanced(CallocSpec(l, num, size, file, line, mem))
  {
    var s := l.stats;
    var n := (num * size) % U64;
    SumCons(Record(mem, n, file, line), l.records);
    CongShift(|l.records|, s.mallocCount + s.callocCount - s.freeCount, 1);
    ModAdd(s.callocCount + 1, s.mallocCount - s.freeCount);
    CongShift(SumSizes(l.records), s.totalAllocated - s.totalFreed, n);
    ModAdd(s.totalAllocated + n, -(s.totalFreed as int));
  }

  /** A free, of a tracked block or not, keeps the ledger balanced. */
  lemma FreeBalanced(l: Ledger, mem: nat)
    requires Balanced(l)
    ensures Balanced(FreeSpec(l, mem))
  {
    var s := l.stats;
    match Find(l.records, mem)
    case None =>
    case Some(i) =>
      var rest := l.records[..i] + l.records[i + 1..];
      var sz := l.records[i].size;
      SumRemove(l.records, i);
      assert |rest| == |l.records| - 1;
      CongShift(|l.records|, s.mallocCount + s.callocCount - s.freeCount, -1);
      NegMod(s.freeCount + 1, s.mallocCount + s.callocCount);
      CongShift(SumSizes(l.records), s.totalAllocated - s.totalFreed, -(sz as int));
      NegMod(s.totalFreed + sz, s.totalAllocated);
  }

  /** Subtracting a value reduced modulo 2^32 is subtracting the value. */
  lemma NegMod(x: int, y: int)
    ensures (y - x % U32) % U32 == (y - x) % U32
  {
    ModPeriod(y - x, x / U32);
    assert y - x + (x / U32) * U32 == y - x % U32;
  }

  /** A realloc of NULL or of a tracked block keeps the ledger balanced. */
  lemma ReallocBalanced(l: Ledger, mem: nat, size: nat, file: string, line: int, newMem: nat)
    requires Balanced(l)
    requires mem == 0 || Find(l.records, mem).Some?
    ensures Balanced(ReallocSpec(l, mem, size, file, line, newMem))
  {
    if mem == 0 {
      MallocBalanced(l, size, file, line, newMem);
    } else {
      var s := l.stats;
      var i := Find(l.records, mem).value;
      var old_size := l.records[i].size;
      SumUpdate(l.records, i, l.records[i].(block := newMem, size := size));
      ModWide(size - old_size);
      ModAdd(s.totalAllocated + (size - old_size) % U64, -(s.totalFreed as int));
      ModAdd((size - old_size) % U64, s.totalAllocated - s.totalFreed);
      ModAdd(size - old_size, s.totalAllocated - s.totalFreed);
      CongShift(SumSizes(l.records), s.totalAllocated - s.totalFreed, size - old_size);
    }
  }

  /** A realloc of a block the ledger does not know adds to the allocated
      total without a record for it, so the balance is lost. */
  lemma ReallocUnknownUnbalances(l: Ledger, mem: nat, size: nat, file: string, line: int, newMem: nat)
    requires Balanced(l) && mem != 0 && Find(l.records, mem).None? && size % U32 != 0
    ensures !Balanced(ReallocSpec(l, mem, size, file, line, newMem))
  {
    var s := l.stats;
    ModWide(size);
    ModAdd(s.totalAllocated + size % U64, -(s.totalFreed as int));
    ModAdd(size % U64, s.totalAllocated - s.totalFreed);
    ModAdd(size, s.totalAllocated - s.totalFreed);
    CongShift(SumSizes(l.records), s.totalAllocated - s.totalFreed, size);
    ModAdd(SumSizes(l.records), size);
    ModPeriod(size, 0);
    CancelMod(SumSizes(l.records), size);
  }

  /** Adding a value that is not a multiple of 2^32 changes a 32-bit value. */
  lemma CancelMod(a: int, k: int)
    requires k % U32 != 0
    ensures (a + k) % U32 != a % U32
  {
    if (a + k) % U32 == a % U32 {
      ModUnique(k, U32, (a + k) / U32 - a / U32, 0);
    }
  }

  /** With a balanced ledger of fewer than 2^32 records, anv_leaks_get_leaks
      reports exactly the live records, and NULL exactly when there are none. */
  lemma LeaksReportsLive(l: Ledger)
    requires Balanced(l) && |l.records| < U32
    ensures LeaksSpec(l).1 == |l.records|
    ensures LeaksSpec(l).0.None? <==> l.records == []
    ensures l.records != [] ==> LeaksSpec(l).0 == Some(Infos(l.records))
  {
    ModPeriod(|l.records|, 0);
  }

  /** What the closing test checks: once no record is live, the allocated and
      freed totals agree and malloc + calloc equals free in 32 bits. */
  lemma NoLeaksTotals(l: Ledger)
    requires Balanced(l) && StatsOk(l.stats) && l.records == []
    ensures l.stats.totalAllocated == l.stats.totalFreed
    ensures (l.stats.mallocCount + l.stats.callocCount) % U32 == l.stats.freeCount
  {
    var s := l.stats;
    CancelBoth(s.totalAllocated, s.totalFreed);
    ModAdd(s.mallocCount + s.callocCount, -(s.freeCount as int));
    CongShift(s.mallocCount + s.callocCount - s.freeCount, 0, s.freeCount);
    ModPeriod(s.freeCount, 0);
  }

  /** Two 32-bit values whose difference is a multiple of 2^32 are equal. */
  lemma CancelBoth(a: nat, b: nat)
    requires a < U32 && b < U32 && (a - b) % U32 == 0
    ensures a == b
  {
    ModUnique(a - b, U32, (a - b) / U32, 0);
    MulZero((a - b) / U32, U32);
  }

  /** anv_leaks__settings: the counters and the record list. */
  class Tracker {
    var records: seq<Record>
    var stats: Stats

    function State(): Ledger
      reads this
    {
      Ledger(records, stats)
    }

    constructor ()
      ensures State() == Empty()
    {
      records := [];
      stats := Stats(0, 0, 0, 0, 0, 0);
    }

    /** anv_leaks_init. */
    method Init()
      modifies this
      ensures State() == Empty()
    {
      records := [];
      stats := Stats(0, 0, 0, 0, 0, 0);
    }

    /** anv_leaks_get_stats: a copy of the six counters. */
    method GetStats() returns (out: Stats)
      ensures out == State().stats
    {
      out := stats;
    }

    /** anv_leaks_get_leaks: walks the list from the head. */
    method GetLeaks() returns (arr: Option<seq<LeakInfo>>, sz: nat)
      ensures (arr, sz) == LeaksSpec(State())
    {
      var delta := (stats.mallocCount + stats.callocCount - stats.freeCount) % U32;
      if delta == 0 {
        return None, 0;
      }
      var out: seq<LeakInfo> := [];
      var i := 0;
      while i < |records|
        invariant 0 <= i <= |records|
        invariant |out| == i && forall k :: 0 <= k < i ==> out[k] == InfoOf(records[k])
      {
        out := out + [InfoOf(records[i])];
        i := i + 1;
      }
      assert out == Infos(records);
      return Some(out), delta;
    }

    /** The search loop shared by free_ and realloc_: the first record of
        block `mem`, from the head. */
    method Search(mem: nat) returns (i: Option<nat>)
      ensures i == Find(State().records, mem)
    {
      var k := 0;
      while k < |records|
        invariant 0 <= k <= |records|
        invariant forall j :: 0 <= j < k ==> records[j].block != mem
      {
        if records[k].block == mem {
          return Some(k);
        }
        k := k + 1;
      }
      return None;
    }

    /** anv_leaks_malloc_ (size != 0 is asserted); `mem` is what malloc
        returned. */
    method Malloc(size: nat, file: string, line: int, mem: nat) returns (p: nat)
      requires size != 0 && size < U64
      modifies this
      ensures p == mem
      ensures State() == MallocSpec(old(State()), size, file, line, mem)
    {
      if mem == 0 {
        return 0;
      }
      stats := stats.(totalAllocated := (stats.totalAllocated + size) % U32,
                      mallocCount := (stats.mallocCount + 1) % U32);
      records := [Record(mem, size, file, line)] + records;
      p := mem;
    }

    /** anv_leaks_calloc_ (size != 0 is asserted); `mem` is what calloc
        returned. */
    method Calloc(num: nat, size: nat, file: string, line: int, mem: nat) returns (p: nat)
      requires size != 0 && size < U64 && num < U64
      modifies this
      ensures p == mem
      ensures State() == CallocSpec(old(State()), num, size, file, line, mem)
    {
      var n := (num * size) % U64;
      stats := stats.(totalAllocated := (stats.totalAllocated + n) % U32,
                      callocCount := (stats.callocCount + 1) % U32);
      records := [Record(mem, n, file, line)] + records;
      p := mem;
    }

    /** anv_leaks_free_ (mem != NULL is asserted). */
    method Free(mem: nat)
      requires mem != 0
      modifies this
      ensures State() == FreeSpec(old(State()), mem)
    {
      var i := Search(mem);
      if i.None? {
        return;
      }
      var k := i.value;
      stats := stats.(freeCount := (stats.freeCount + 1) % U32,
                      totalFreed := (stats.totalFreed + records[k].size) % U32);
      records := records[..k] + records[k + 1..];
    }

    /** anv_leaks_realloc_ (size != 0 is asserted); `newMem` is what realloc,
        or malloc for NULL, returned. */
    method Realloc(mem: nat, size: nat, file: string, line: int, newMem: nat) returns (p: nat)
      requires size != 0 && size < U64
      modifies this
      ensures p == newMem
      ensures State() == ReallocSpec(old(State()), mem, size, file, line, newMem)
    {
      if mem == 0 {
        p := Malloc(size, file, line, newMem);
        return;
      }
      var i := Search(mem);
      var oldSize := 0;
      if i.Some? {
        oldSize := records[i.value].size;
        records := records[i.value := records[i.value].(block := newMem, size := size)];
      }
      stats := stats.(totalAllocated := (stats.totalAllocated + (size - oldSize) % U64) % U32,
                      reallocCount := (stats.reallocCount + 1) % U32);
      p := newMem;
    }
  }
}
