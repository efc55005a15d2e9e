/** The symbol tables of `symbol_parser`: how they are filled and what a lookup in them finds. */
module Symbols {
  import opened Bytes
  import opened SymbolSet

  // ---- what a table holds after a number of insertions ----

  /** `y` is the first of the insertions with its start. */
  ghost predicate FirstAmong(syms: seq<Symbol>, y: Symbol) {
    exists i :: 0 <= i < |syms| && syms[i] == y && forall j | 0 <= j < i :: syms[j].start != y.start
  }

  ghost predicate Holds(t: Tree, syms: seq<Symbol>) {
    Descending(InOrder(t)) && forall y :: y in InOrder(t) <==> FirstAmong(syms, y)
  }

  lemma {:induction false} SomeoneIsFirst(syms: seq<Symbol>, n: nat) returns (y: Symbol)
    requires n < |syms|
    ensures FirstAmong(syms, y) && y.start == syms[n].start
    decreases n
  {
    y := syms[n];
    if j :| 0 <= j < n && syms[j].start == syms[n].start {
      y := SomeoneIsFirst(syms, j);
    }
  }

  lemma FirstAfterInsertion(syms: seq<Symbol>, s: Symbol, y: Symbol)
    ensures FirstAmong(syms + [s], y) <==>
            FirstAmong(syms, y) || (y == s && forall j | 0 <= j < |syms| :: syms[j].start != s.start)
  {
    var all := syms + [s];
    if FirstAmong(syms, y) {
      var i :| 0 <= i < |syms| && syms[i] == y && forall j | 0 <= j < i :: syms[j].start != y.start;
      assert all[i] == y;
    }
    if y == s && forall j | 0 <= j < |syms| :: syms[j].start != s.start {
      assert all[|syms|] == y;
    }
    if FirstAmong(all, y) {
      var i :| 0 <= i < |all| && all[i] == y && forall j | 0 <= j < i :: all[j].start != y.start;
      if i < |syms| {
        assert syms[i] == y && forall j | 0 <= j < i :: syms[j].start == all[j].start;
      } else {
        assert forall j | 0 <= j < |syms| :: syms[j] == all[j];
      }
    }
  }

  /** A start is in the table exactly if it was inserted. */
  lemma StartHeld(t: Tree, syms: seq<Symbol>, n: int)
    requires Holds(t, syms)
    ensures (exists x :: x in InOrder(t) && x.start == n) <==> exists j :: 0 <= j < |syms| && syms[j].start == n
  {
    if j :| 0 <= j < |syms| && syms[j].start == n {
      var y := SomeoneIsFirst(syms, j);
      assert y in InOrder(t);
    }
    if x :| x in InOrder(t) && x.start == n {
      assert FirstAmong(syms, x);
    }
  }

  /** An insertion, with any rebalancing after it, keeps what the table holds in step with the insertions. */
  lemma InsertionHolds(t: Tree, syms: seq<Symbol>, s: Symbol, after: Tree)
    requires Holds(t, syms) && s.ip == s.start && Inserted(t, s, after)
    ensures Holds(after, syms + [s])
  {
    hide FirstAmong, Insert, InOrder, Descending;
    InsertKeepsFirst(t, s, []);
    StartHeld(t, syms, s.start);
    forall y ensures y in InOrder(after) <==> FirstAmong(syms + [s], y) {
      FirstAfterInsertion(syms, s, y);
    }
  }

  lemma {:induction false} NothingHeld()
    ensures Holds(Leaf, [])
  {
  }

  /** The trees a table goes through, from empty, while the symbols are inserted in turn. */
  predicate Run(trees: seq<Tree>, syms: seq<Symbol>) {
    && |trees| == |syms| + 1 && trees[0] == Leaf
    && forall i | 0 <= i < |syms| :: Inserted(trees[i], syms[i], trees[i + 1])
  }

  ghost predicate KeyedByStart(syms: seq<Symbol>) { forall i | 0 <= i < |syms| :: syms[i].ip == syms[i].start }

  lemma {:induction false} RunHolds(trees: seq<Tree>, syms: seq<Symbol>)
    requires Run(trees, syms) && KeyedByStart(syms)
    ensures Holds(trees[|syms|], syms)
    decreases |syms|
  {
    if |syms| == 0 {
      assert syms == [];
      NothingHeld();
    } else {
      var n := |syms| - 1;
      assert Run(trees[..n + 1], syms[..n]) by {
        forall i | 0 <= i < n ensures Inserted(trees[..n + 1][i], syms[..n][i], trees[..n + 1][i + 1]) {
          assert Inserted(trees[i], syms[i], trees[i + 1]);
        }
      }
      RunHolds(trees[..n + 1], syms[..n]);
      assert Inserted(trees[n], syms[n], trees[n + 1]);
      InsertionHolds(trees[n], syms[..n], syms[n], trees[n + 1]);
      assert syms[..n] + [syms[n]] == syms;
    }
  }

  /** The answer to a lookup of `pc`: of the symbols that start last at or before it, the one inserted first. */
  ghost predicate IsAnswer(syms: seq<Symbol>, pc: nat, r: seq<Symbol>) {
    if r == [] then forall i | 0 <= i < |syms| :: syms[i].start > pc
    else
      && |r| == 1 && FirstAmong(syms, r[0]) && r[0].start <= pc
      && forall i | 0 <= i < |syms| && syms[i].start <= pc :: syms[i].start <= r[0].start
  }

  lemma HeldAnswer(t: Tree, syms: seq<Symbol>, key: Symbol)
    requires Holds(t, syms) && key.start == 0
    ensures IsAnswer(syms, key.ip, Find(t, key))
  {
    var r := Find(t, key);
    FindIsPredecessor(t, key);
    forall i | 0 <= i < |syms| && syms[i].start <= key.ip ensures r != [] && syms[i].start <= r[0].start {
      var y := SomeoneIsFirst(syms, i);
      assert y in InOrder(t);
    }
  }

  /**
   After any insertions, however the tree was rebalanced between them, a lookup that comes with start 0 finds the
   first-inserted symbol with the greatest start at or below `pc`, and fails exactly when every symbol starts above.
   */
  lemma LookupAnswers(trees: seq<Tree>, syms: seq<Symbol>, key: Symbol)
    requires Run(trees, syms) && KeyedByStart(syms) && key.start == 0
    ensures IsAnswer(syms, key.ip, Find(trees[|syms|], key))
  {
    RunHolds(trees, syms);
    HeldAnswer(trees[|syms|], syms, key);
  }

  /** A lookup that comes with another start misses exactly when no symbol starts between that and its `ip`. */
  lemma LookupWithStart(trees: seq<Tree>, syms: seq<Symbol>, key: Symbol)
    requires Run(trees, syms) && KeyedByStart(syms)
    ensures Find(trees[|syms|], key) == [] <==> forall i | 0 <= i < |syms| :: !(key.start <= syms[i].start <= key.ip)
  {
    var t := trees[|syms|];
    RunHolds(trees, syms);
    FindIsPredecessor(t, key);
    forall i | 0 <= i < |syms| ensures exists x :: x in InOrder(t) && x.start == syms[i].start {
      var y := SomeoneIsFirst(syms, i);
      assert y in InOrder(t);
    }
    forall x | x in InOrder(t) ensures exists i :: 0 <= i < |syms| && syms[i].start == x.start {
      assert FirstAmong(syms, x);
    }
  }

  // ---- the kernel table ----

  const INVALID_ADDR: UInt64 := 0xffff_ffff_ffff_ffff

  /** A line of the sorted symbol list: address and name. */
  datatype Line = Line(addr: UInt64, name: ByteString)

  /** The addresses ascend, as they do once the lines are sorted. */
  predicate Ascending(lines: seq<Line>) { forall i, j | 0 <= i < j < |lines| :: lines[i].addr <= lines[j].addr }

  /** The symbol made of a line: it ends where the next line starts. */
  function KernelSymbol(lines: seq<Line>, i: nat): Symbol
    requires i < |lines|
  {
    Symbol(lines[i].addr, if i + 1 < |lines| then lines[i + 1].addr else INVALID_ADDR, lines[i].addr, lines[i].name)
  }

  function KernelSymbols(lines: seq<Line>, n: nat): (syms: seq<Symbol>)
    requires n <= |lines|
    ensures |syms| == n && forall i | 0 <= i < n :: syms[i] == KernelSymbol(lines, i)
  {
    if n == 0 then [] else KernelSymbols(lines, n - 1) + [KernelSymbol(lines, n - 1)]
  }

  /** The symbol says what line `i` says, up to where the next line starts; no earlier line has its address. */
  ghost predicate FromLine(lines: seq<Line>, i: nat, y: Symbol) {
    && i < |lines| && y.start == lines[i].addr == y.ip && y.name == lines[i].name
    && y.end == (if i + 1 < |lines| then lines[i + 1].addr else 0xffff_ffff_ffff_ffff)
    && forall j | 0 <= j < i :: lines[j].addr != y.start
  }

  /** No line starts after the symbol and not after `pc`. */
  predicate NothingBetween(lines: seq<Line>, y: Symbol, pc: nat) {
    y.start <= pc && forall j | 0 <= j < |lines| :: !(y.start < lines[j].addr <= pc)
  }

  /** Of the symbols of the lines, the first with each address is the first line's with that address. */
  lemma FirstIsFromLine(lines: seq<Line>, y: Symbol)
    ensures FirstAmong(KernelSymbols(lines, |lines|), y) <==> exists i: nat :: FromLine(lines, i, y)
  {
    var syms := KernelSymbols(lines, |lines|);
    assert forall i | 0 <= i < |syms| :: syms[i] == KernelSymbol(lines, i);
    if FirstAmong(syms, y) {
      var i: nat :| i < |syms| && syms[i] == y && forall j | 0 <= j < i :: syms[j].start != y.start;
      assert forall j | 0 <= j < i :: syms[j].start == lines[j].addr;
      assert FromLine(lines, i, y);
    }
    if i: nat :| FromLine(lines, i, y) {
      assert syms[i] == y && forall j | 0 <= j < i :: syms[j].start != y.start;
    }
  }

  /** No other line has the address. */
  predicate Alone(lines: seq<Line>, addr: UInt64) {
    forall i, j | 0 <= i < j < |lines| :: !(lines[i].addr == addr == lines[j].addr)
  }

  /**
   From the first address on every `pc` below INVALID_ADDR is found; the symbol found reaches past `pc` exactly when
   no other symbol shares its address.
   */
  lemma {:induction false} KernelLookup(lines: seq<Line>, pc: UInt64, r: seq<Symbol>)
    requires Ascending(lines) && IsAnswer(KernelSymbols(lines, |lines|), pc, r)
    ensures r == [] <==> lines == [] || pc < lines[0].addr
    ensures r != [] && pc < INVALID_ADDR ==> r[0].start <= pc && (pc < r[0].end <==> Alone(lines, r[0].start))
    ensures r != [] ==> NothingBetween(lines, r[0], pc) && exists i: nat :: FromLine(lines, i, r[0])
  {
    var syms := KernelSymbols(lines, |lines|);
    assert forall i | 0 <= i < |syms| :: syms[i].start == lines[i].addr;
    if r != [] {
      FirstIsFromLine(lines, r[0]);
      var i :| 0 <= i < |syms| && syms[i] == r[0] && forall j | 0 <= j < i :: syms[j].start != r[0].start;
      assert r[0] == KernelSymbol(lines, i);
      if pc < INVALID_ADDR {
        FirstLineCovers(lines, pc, i);
      }
    }
  }

  lemma {:induction false} FirstLineCovers(lines: seq<Line>, pc: UInt64, i: nat)
    requires Ascending(lines) && i < |lines| && lines[i].addr <= pc < INVALID_ADDR
    requires forall j | 0 <= j < i :: lines[j].addr != lines[i].addr
    requires forall k | 0 <= k < |lines| && lines[k].addr <= pc :: lines[k].addr <= lines[i].addr
    ensures pc < KernelSymbol(lines, i).end <==> Alone(lines, lines[i].addr)
  {
    if j, k :| 0 <= j < k < |lines| && lines[j].addr == lines[i].addr == lines[k].addr {
      assert i + 1 <= k && lines[i + 1].addr <= lines[k].addr;
    }
  }

  /** The argument of the lookups, which they fill in. */
  class SymbolArg {
    var start: UInt64
    var end: UInt64
    var ip: UInt64
    var name: ByteString

    constructor (pc: UInt64)
      ensures start == 0 && end == 0 && ip == pc
    {
      start, end, ip, name := 0, 0, pc, [];
    }

    function Key(): Symbol
      reads this
    {
      Symbol(start, end, ip, name)
    }

    /** `reset`. */
    method Reset(va: UInt64)
      modifies this
      ensures start == 0 && end == 0 && ip == va && name == old(name)
    {
      start, end, ip := 0, 0, va;
    }
  }

  /** `search_symbol`: the fields other than `ip` are those of the symbol found, and stay as they were if none is. */
  method SearchSymbol(ss: Tree, sym: SymbolArg) returns (found: bool)
    modifies sym
    ensures var r := Find(ss, old(sym.Key()));
            && found == (r != []) && sym.ip == old(sym.ip)
            && (found ==> sym.start == r[0].start && sym.end == r[0].end && sym.name == r[0].name)
            && (!found ==> sym.Key() == old(sym.Key()))
  {
    var it := Find(ss, sym.Key());
    if it != [] {
      sym.end := it[0].end;
      sym.start := it[0].start;
      sym.name := it[0].name;
      return true;
    }
    return false;
  }

  /** `symbol_parser`, as far as the kernel symbols go; `rebalance` is what the library does after an insertion. */
  class KernelTable {
    var kernelSymbols: Tree
    const rebalance: Tree -> Tree

    constructor (rebalance: Tree -> Tree)
      ensures this.rebalance == rebalance && kernelSymbols == Leaf
    {
      this.rebalance := rebalance;
      kernelSymbols := Leaf;
    }

    /** `load_kernel`; a table that is not empty is left as it is. */
    method LoadKernel(lines: seq<Line>)
      requires forall t :: InOrder(rebalance(t)) == InOrder(t)
      modifies this
      ensures if old(kernelSymbols) == Leaf then Holds(kernelSymbols, KernelSymbols(lines, |lines|))
              else kernelSymbols == old(kernelSymbols)
      ensures old(kernelSymbols) == Leaf ==>
                forall y :: y in InOrder(kernelSymbols) <==> exists i: nat :: FromLine(lines, i, y)
    {
      if kernelSymbols != Leaf {
        return;
      }
      NothingHeld();
      var cursor := 0;
      while cursor != |lines|
        invariant cursor <= |lines|
        invariant Holds(kernelSymbols, KernelSymbols(lines, cursor))
        decreases |lines| - cursor
      {
        ghost var before := kernelSymbols;
        var sym := KernelSymbol(lines, cursor);
        kernelSymbols := rebalance(Insert(kernelSymbols, sym, []));
        InsertionHolds(before, KernelSymbols(lines, cursor), sym, kernelSymbols);
        cursor := cursor + 1;
      }
      forall y ensures y in InOrder(kernelSymbols) <==> exists i: nat :: FromLine(lines, i, y) {
        FirstIsFromLine(lines, y);
      }
    }

    /** `find_kernel_symbol`. */
    method FindKernelSymbol(lines: seq<Line>, sym: SymbolArg) returns (found: bool)
      requires forall t :: InOrder(rebalance(t)) == InOrder(t)
      requires kernelSymbols == Leaf || Holds(kernelSymbols, KernelSymbols(lines, |lines|))
      requires Ascending(lines)
      modifies this, sym
      ensures Holds(kernelSymbols, KernelSymbols(lines, |lines|)) && sym.ip == old(sym.ip)
      ensures found <==> lines != [] && lines[0].addr <= sym.ip
      ensures found ==> var y := Symbol(sym.start, sym.end, sym.start, sym.name);
                        NothingBetween(lines, y, sym.ip) && exists i: nat :: FromLine(lines, i, y)
      ensures found && sym.ip < INVALID_ADDR ==> sym.start <= sym.ip && (sym.ip < sym.end <==> Alone(lines, sym.start))
      ensures !found ==> sym.start == 0 == sym.end && sym.name == old(sym.name)
    {
      LoadKernel(lines);
      sym.end, sym.start := 0, 0;
      ghost var r := Find(kernelSymbols, sym.Key());
      HeldAnswer(kernelSymbols, KernelSymbols(lines, |lines|), sym.Key());
      KernelLookup(lines, sym.ip, r);
      found := SearchSymbol(kernelSymbols, sym);
    }
  }
}
