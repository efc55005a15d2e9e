/**
 `std::set<symbol>` with the comparator of `symbol`, which compares the `ip` of one symbol with the `start` of the
 other and so is no order at all. The set is a search tree whose shape is the library's business: between insertions
 it may be rebalanced in any way that keeps the elements in order.
 */
module SymbolSet {
  import opened Bytes

  /** A symbol; the fields are `size_t`. */
  datatype Symbol = Symbol(start: UInt64, end: UInt64, ip: UInt64, name: ByteString)

  datatype Tree = Leaf | Node(left: Tree, value: Symbol, right: Tree)

  /** `symbol::operator<`. */
  predicate Less(a: Symbol, b: Symbol) { b.ip < a.start }

  function InOrder(t: Tree): seq<Symbol> {
    match t
    case Leaf => []
    case Node(left, value, right) => InOrder(left) + [value] + InOrder(right)
  }

  /** The walk of `lower_bound`: `best` is the last node found not to be less than the key. */
  function LowerBound(t: Tree, key: Symbol, best: seq<Symbol>): seq<Symbol> {
    match t
    case Leaf => best
    case Node(left, value, right) =>
      if Less(value, key) then LowerBound(right, key, best) else LowerBound(left, key, [value])
  }

  /** `find`: at most one element. */
  function Find(t: Tree, key: Symbol): seq<Symbol> {
    var j := LowerBound(t, key, []);
    if j == [] || Less(key, j[0]) then [] else j
  }

  /**
   The walk of `insert`. The place is taken unless the node before it, which is the last one the walk passed on its
   right, is found equal to the key.
   */
  function Insert(t: Tree, key: Symbol, before: seq<Symbol>): Tree {
    match t
    case Leaf => if before == [] || Less(before[0], key) then Node(Leaf, key, Leaf) else Leaf
    case Node(left, value, right) =>
      if Less(key, value) then Node(Insert(left, key, before), value, right)
      else Node(left, value, Insert(right, key, [value]))
  }

  /** Inserted, and perhaps rebalanced. */
  predicate Inserted(t: Tree, key: Symbol, after: Tree) { InOrder(after) == InOrder(Insert(t, key, [])) }

  // ---- what the walks do on a set whose elements are keyed by their start ----

  ghost predicate StartAbove(s: seq<Symbol>, n: int) { forall x | x in s :: x.start > n }

  ghost predicate StartBelow(s: seq<Symbol>, n: int) { forall x | x in s :: x.start < n }

  /** Every element has its start for its key, and the starts descend. */
  ghost predicate Descending(s: seq<Symbol>) {
    s != [] ==> s[0].ip == s[0].start && StartBelow(s[1..], s[0].start) && Descending(s[1..])
  }

  lemma {:induction false} DescendingAround(l: seq<Symbol>, x: Symbol, r: seq<Symbol>)
    ensures Descending(l + [x] + r) <==>
            Descending(l) && Descending(r) && x.ip == x.start && StartAbove(l, x.start) && StartBelow(r, x.start)
    ensures Descending(l + [x] + r) ==> forall y, z | y in l && z in r :: y.start > z.start
  {
    if l == [] {
      assert l + [x] + r == [x] + r;
    } else {
      var s := l + [x] + r;
      assert s[1..] == l[1..] + [x] + r && l == [l[0]] + l[1..];
      DescendingAround(l[1..], x, r);
      InMiddle(l[1..], x, r);
      assert x.start < l[0].start ==> StartBelow(r, x.start) ==> StartBelow(r, l[0].start);
    }
  }

  lemma InMiddle(l: seq<Symbol>, x: Symbol, r: seq<Symbol>)
    ensures forall y :: y in l + [x] + r <==> y in l || y == x || y in r
  {
  }

  /** The element that starts last among those that start at `pc` or before, or none. */
  ghost predicate IsPredecessor(s: seq<Symbol>, pc: nat, r: seq<Symbol>) {
    if r == [] then StartAbove(s, pc)
    else |r| == 1 && r[0] in s && r[0].start <= pc && forall x | x in s && x.start <= pc :: x.start <= r[0].start
  }

  /** The asymmetric comparison makes `lower_bound` a search for the last start at or below the key's `ip`. */
  lemma {:induction false} LowerBoundIsPredecessor(t: Tree, key: Symbol, best: seq<Symbol>)
    requires Descending(InOrder(t))
    requires best == [] || (|best| == 1 && best[0].start <= key.ip && StartAbove(InOrder(t), best[0].start))
    ensures var r := LowerBound(t, key, best);
            if r == best then StartAbove(InOrder(t), key.ip) else IsPredecessor(InOrder(t), key.ip, r) && r != []
  {
    if t.Node? {
      DescendingAround(InOrder(t.left), t.value, InOrder(t.right));
      InMiddle(InOrder(t.left), t.value, InOrder(t.right));
      if Less(t.value, key) {
        LowerBoundIsPredecessor(t.right, key, best);
      } else {
        LowerBoundIsPredecessor(t.left, key, [t.value]);
      }
    }
  }

  /** A lookup finds the predecessor of its `ip`, unless that starts before the `start` the lookup came with. */
  lemma FindIsPredecessor(t: Tree, key: Symbol)
    requires Descending(InOrder(t))
    ensures var r := Find(t, key);
            && (r == [] <==> forall x | x in InOrder(t) :: !(key.start <= x.start <= key.ip))
            && (r != [] ==> IsPredecessor(InOrder(t), key.ip, r))
  {
    LowerBoundIsPredecessor(t, key, []);
    var j := LowerBound(t, key, []);
    if j != [] {
      KeyedByStart(InOrder(t), j[0]);
    }
  }

  lemma {:induction false} KeyedByStart(s: seq<Symbol>, x: Symbol)
    requires Descending(s) && x in s
    ensures x.ip == x.start
  {
    if x != s[0] {
      KeyedByStart(s[1..], x);
    }
  }

  /** An insertion adds the symbol in its place, unless one with the same start is there. */
  lemma {:induction false} InsertKeepsFirst(t: Tree, key: Symbol, before: seq<Symbol>)
    requires Descending(InOrder(t)) && key.ip == key.start
    requires before == [] || (|before| == 1 && before[0].start >= key.start && StartBelow(InOrder(t), before[0].start))
    ensures var s, after := InOrder(t), InOrder(Insert(t, key, before));
            var present := (exists x :: x in s && x.start == key.start)
              || (before != [] && before[0].start == key.start);
            && Descending(after)
            && forall y :: y in after <==> y in s || (y == key && !present)
  {
    if t.Node? {
      var l, x, r := InOrder(t.left), t.value, InOrder(t.right);
      DescendingAround(l, x, r);
      InMiddle(l, x, r);
      if Less(key, x) {
        InsertKeepsFirst(t.left, key, before);
        var l' := InOrder(Insert(t.left, key, before));
        DescendingAround(l', x, r);
        InMiddle(l', x, r);
      } else {
        InsertKeepsFirst(t.right, key, [x]);
        var r' := InOrder(Insert(t.right, key, [x]));
        DescendingAround(l, x, r');
        InMiddle(l, x, r');
      }
    } else {
      assert InOrder(Node(Leaf, key, Leaf)) == [key];
    }
  }
}
