/** The memory mappings of the processes: `machine_vma` of `symbol_parser` and the lookups in it. */
module VmaMap {
  import opened Bytes

  /** What a mapping holds; the addresses are `size_t`. */
  datatype Vma = Vma(start: UInt64, end: UInt64, offset: UInt64, name: ByteString)

  /** `std::map<size_t, vma>`: the mappings in the order of their keys, which are their starts. */
  type ProcVma = seq<Vma>

  ghost predicate Ordered(m: ProcVma) {
    m != [] ==> (forall v | v in m[1..] :: m[0].start < v.start) && Ordered(m[1..])
  }

  /** `upper_bound`: the position of the first mapping that starts above `pc`. */
  function UpperBound(m: ProcVma, pc: nat): (u: nat)
    ensures u <= |m|
    ensures forall i | 0 <= i < u :: m[i].start <= pc
    ensures u < |m| ==> m[u].start > pc
  {
    if m == [] || m[0].start > pc then 0 else 1 + UpperBound(m[1..], pc)
  }

  /** `insert`: a mapping already there with the same start stays. */
  function Insert(m: ProcVma, v: Vma): ProcVma {
    if m == [] || v.start < m[0].start then [v] + m
    else if v.start == m[0].start then m
    else [m[0]] + Insert(m[1..], v)
  }

  /** Insertion keeps the order, adds the mapping exactly if none starts where it does, and drops none. */
  lemma {:induction false} InsertAddsNew(m: ProcVma, v: Vma)
    requires Ordered(m)
    ensures Ordered(Insert(m, v))
    ensures forall w :: w in Insert(m, v) <==> w in m || (w == v && forall x | x in m :: x.start != v.start)
  {
    if m != [] {
      assert m == [m[0]] + m[1..];
      if v.start > m[0].start {
        InsertAddsNew(m[1..], v);
        assert Insert(m, v)[1..] == Insert(m[1..], v);
      } else {
        assert ([v] + m)[1..] == m;
      }
    }
  }

  /**
   Both `find_vma`s: the mapping before the first one above `pc`; the first mapping if that is itself above; and
   nothing if no mapping is above, or if the one above claims to end below `pc`.
   */
  function FindVma(m: ProcVma, pc: nat): (r: seq<Vma>) {
    var u := UpperBound(m, pc);
    if u == |m| || m[u].end < pc then [] else if u > 0 then [m[u - 1]] else [m[u]]
  }

  predicate Contains(v: Vma, pc: nat) { v.start <= pc < v.end }

  /** Real mappings: in order, not empty, not overlapping. */
  predicate Disjoint(m: ProcVma) {
    && (forall i | 0 <= i < |m| :: m[i].start < m[i].end)
    && forall i, j | 0 <= i < j < |m| :: m[i].end <= m[j].start
  }

  /** The mapping that contains `pc` is found exactly if it is not the highest. */
  lemma {:induction false} FoundUnlessHighest(m: ProcVma, pc: nat, i: nat)
    requires Disjoint(m) && i < |m| && Contains(m[i], pc)
    ensures FindVma(m, pc) == if i + 1 < |m| then [m[i]] else []
  {
    assert i + 1 < |m| ==> m[i + 1].start > pc;
  }

  /** What is found contains `pc` exactly if some mapping other than the highest does. */
  lemma {:induction false} FoundContainsIff(m: ProcVma, pc: nat)
    requires Disjoint(m)
    ensures (FindVma(m, pc) != [] && Contains(FindVma(m, pc)[0], pc))
       <==> (exists i :: 0 <= i < |m| - 1 && Contains(m[i], pc))
  {
    var u := UpperBound(m, pc);
    if i :| 0 <= i < |m| - 1 && Contains(m[i], pc) {
      FoundUnlessHighest(m, pc, i);
    }
  }

  /** Every lookup below the start of the highest mapping finds something, and none from there on does. */
  lemma {:induction false} FoundIff(m: ProcVma, pc: nat)
    requires Disjoint(m)
    ensures FindVma(m, pc) != [] <==> m != [] && pc < m[|m| - 1].start
  {
    var u := UpperBound(m, pc);
    if u < |m| && u != |m| - 1 {
      assert m[u].end <= m[|m| - 1].start;
    }
  }

  /** What is found is the mapping that starts last at or below `pc`, contain it or not, or the first if none does. */
  lemma FoundIsNearest(m: ProcVma, pc: nat)
    requires Disjoint(m) && FindVma(m, pc) != []
    ensures var r := FindVma(m, pc);
            && |r| == 1 && r[0] in m
            && if m[0].start > pc then r[0] == m[0]
               else r[0].start <= pc && forall i | 0 <= i < |m| && m[i].start <= pc :: m[i].start <= r[0].start
  {
    var u := UpperBound(m, pc);
    if u > 0 {
      assert forall i | u < i < |m| :: m[u].end <= m[i].start;
      assert forall i | 0 <= i < u - 1 :: m[i].end <= m[u - 1].start;
    }
  }

  /** Below all mappings, the first is found, though it does not contain `pc`. */
  lemma BelowAllFindsFirst(m: ProcVma, pc: nat)
    requires m != [] && Ordered(m) && pc < m[0].start && m[0].start < m[0].end
    ensures FindVma(m, pc) == [m[0]] && !Contains(m[0], pc)
  {
  }

  /** The argument of the lookup that fills in a mapping. */
  class VmaArg {
    var start: UInt64
    var end: UInt64
    var offset: UInt64
    var pc: UInt64
    var name: ByteString

    constructor (addr: UInt64)
      ensures start == 0 && end == 0 && offset == 0 && pc == addr
    {
      start, end, offset, pc, name := 0, 0, 0, addr, [];
    }

    /** `vma::map`: the place in the file, with `size_t` wrapping around. */
    function Map(pc: UInt64): UInt64
      reads this
    {
      (pc - start + offset) % TWO_TO_THE_64
    }
  }

  class MachineVma {
    var machineVma: map<int, ProcVma>

    ghost predicate Valid()
      reads this
    {
      forall pid | pid in machineVma :: Ordered(machineVma[pid])
    }

    constructor ()
      ensures Valid() && machineVma == map[]
    {
      machineVma := map[];
    }

    /** `add_pid_maps`. */
    method AddPidMaps(pid: int, start: UInt64, end: UInt64, offset: UInt64, name: ByteString) returns (added: bool)
      requires Valid()
      modifies this
      ensures Valid() && added
      ensures var maps := if pid in old(machineVma) then old(machineVma)[pid] else [];
              machineVma == old(machineVma)[pid := Insert(maps, Vma(start, end, offset, name))]
    {
      if pid !in machineVma {
        machineVma := machineVma[pid := []];
      }
      InsertAddsNew(machineVma[pid], Vma(start, end, offset, name));
      machineVma := machineVma[pid := Insert(machineVma[pid], Vma(start, end, offset, name))];
      return true;
    }

    /** `find_vma(pid, pc)`, with at most one mapping for the pointer it returns. */
    method FindVmaAt(pid: int, pc: UInt64) returns (r: seq<Vma>)
      ensures r == if pid in machineVma then FindVma(machineVma[pid], pc) else []
    {
      if pid !in machineVma {
        return [];
      }
      var proc := machineVma[pid];
      var it := UpperBound(proc, pc);
      if it == |proc| || proc[it].end < pc {
        return [];
      }
      if it != 0 {
        it := it - 1;
      }
      return [proc[it]];
    }

    /** `find_vma(pid, vm)`: the mapping found is copied into the argument, which keeps its `pc`. */
    method FindVmaInto(pid: int, vm: VmaArg) returns (found: bool)
      modifies vm
      ensures var r := if pid in machineVma then FindVma(machineVma[pid], vm.pc) else [];
              && found == (r != []) && vm.pc == old(vm.pc)
              && (vm.start, vm.end, vm.offset, vm.name)
              == if found then (r[0].start, r[0].end, r[0].offset, r[0].name)
                 else (old(vm.start), old(vm.end), old(vm.offset), old(vm.name))
    {
      if pid !in machineVma {
        return false;
      }
      var proc := machineVma[pid];
      var it := UpperBound(proc, vm.pc);
      if it == |proc| {
        return false;
      }
      if proc[it].end < vm.pc {
        return false;
      }
      if it != 0 {
        it := it - 1;
      }
      vm.start := proc[it].start;
      vm.end := proc[it].end;
      vm.name := proc[it].name;
      vm.offset := proc[it].offset;
      return true;
    }
  }

  /** The lookup for `pc` found the mapping `v` and filled in the argument from it. */
  predicate FilledFrom(vm: VmaArg, v: Vma)
    reads vm
  {
    vm.start == v.start && vm.end == v.end && vm.offset == v.offset
  }

  /** The start of a mapping is mapped to its offset, and each next address to the next place, around the end. */
  lemma MapsInStep(v: Vma, vm: VmaArg, pc: UInt64)
    requires FilledFrom(vm, v) && Contains(v, pc)
    ensures vm.Map(v.start) == v.offset
    ensures Contains(v, pc + 1) ==> vm.Map(pc + 1) == (vm.Map(pc) + 1) % TWO_TO_THE_64
  {
  }

  /** That alone makes it count the addresses from the start. */
  lemma {:induction false} InStepCounts(v: Vma, vm: VmaArg, n: nat)
    requires FilledFrom(vm, v) && v.start + n < v.end
    ensures vm.Map(v.start + n) == (v.offset + n) % TWO_TO_THE_64
  {
    MapsInStep(v, vm, v.start);
    if n > 0 {
      InStepCounts(v, vm, n - 1);
      MapsInStep(v, vm, v.start + n - 1);
    }
  }

  /** No two addresses of a mapping are mapped to the same place. */
  lemma MapIsInjective(v: Vma, vm: VmaArg, pc: UInt64, other: UInt64)
    requires FilledFrom(vm, v) && Contains(v, pc) && Contains(v, other)
    ensures vm.Map(pc) == vm.Map(other) <==> pc == other
  {
    InStepCounts(v, vm, pc - v.start);
    InStepCounts(v, vm, other - v.start);
  }

  /** The part of the file that a mapping shows ends within what a `size_t` can say. */
  predicate FitsFile(v: Vma) { v.offset + (v.end - v.start) <= TWO_TO_THE_64 }

  /** Every place of the part of the file that a mapping shows is mapped from exactly one of its addresses. */
  lemma MapIsBijective(v: Vma, vm: VmaArg, place: nat) returns (pc: UInt64)
    requires FilledFrom(vm, v) && FitsFile(v) && v.offset <= place < v.offset + (v.end - v.start)
    ensures Contains(v, pc) && vm.Map(pc) == place
    ensures forall other: UInt64 :: Contains(v, other) && vm.Map(other) == place ==> other == pc
  {
    pc := v.start + (place - v.offset);
    InStepCounts(v, vm, place - v.offset);
    forall other: UInt64 | Contains(v, other) && vm.Map(other) == place ensures other == pc {
      MapIsInjective(v, vm, other, pc);
    }
  }

  /**
   An address inside a mapping that is not the highest maps into the part of the file the mapping shows, as far from
   its beginning as the address is from the start.
   */
  lemma MappedOffset(m: ProcVma, pc: UInt64, i: nat, vm: VmaArg)
    requires Disjoint(m) && i + 1 < |m| && Contains(m[i], pc) && FitsFile(m[i])
    requires FindVma(m, pc) != [] ==> FilledFrom(vm, FindVma(m, pc)[0])
    ensures m[i].offset <= vm.Map(pc) < m[i].offset + (m[i].end - m[i].start)
    ensures vm.Map(pc) - m[i].offset == pc - m[i].start
  {
    FoundUnlessHighest(m, pc, i);
    InStepCounts(m[i], vm, pc - m[i].start);
  }
}
