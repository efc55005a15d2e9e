/** The search tree of stack traces in the kernel module: one descriptor for every distinct trace. */
module StackTree {
  import opened Bytes

  const BACKTRACE_DEPTH: nat := 30

  /** `unsigned long [BACKTRACE_DEPTH]`; a trace ends at its first zero. */
  type Trace = t: seq<UInt64> | |t| == BACKTRACE_DEPTH witness seq(BACKTRACE_DEPTH, i => 0)

  /** An allocated descriptor: which allocation it was, and the trace copied into it. */
  datatype Desc = Desc(id: nat, trace: Trace)

  datatype Tree = Leaf | Node(left: Tree, desc: Desc, right: Tree)

  // ---- the order of the traces ----

  /** `diagnose_stack_trace_cmp`, from element `i` on. */
  function Cmp(a: Trace, b: Trace, i: nat): (c: int)
    requires i <= BACKTRACE_DEPTH
    ensures -1 <= c <= 1
    decreases BACKTRACE_DEPTH - i
  {
    if i == BACKTRACE_DEPTH then 0
    else if a[i] < b[i] then -1
    else if a[i] > b[i] then 1
    else if a[i] == 0 && b[i] == 0 then 0
    else Cmp(a, b, i + 1)
  }

  method StackTraceCmp(a: Trace, b: Trace) returns (c: int)
    ensures c == Cmp(a, b, 0)
  {
    for i := 0 to BACKTRACE_DEPTH
      invariant Cmp(a, b, 0) == Cmp(a, b, i)
    {
      if a[i] < b[i] {
        return -1;
      } else if a[i] > b[i] {
        return 1;
      } else if a[i] == 0 && b[i] == 0 {
        return 0;
      }
    }
    return 0;
  }

  /** The frames of a trace: what comes before its first zero. */
  function Frames(a: Trace, i: nat): seq<UInt64>
    requires i <= BACKTRACE_DEPTH
    decreases BACKTRACE_DEPTH - i
  {
    if i == BACKTRACE_DEPTH || a[i] == 0 then [] else [a[i]] + Frames(a, i + 1)
  }

  /** The comparison finds two traces equal exactly if they have the same frames; what follows the zero is ignored. */
  lemma {:induction false} EqualIsSameFrames(a: Trace, b: Trace, i: nat)
    requires i <= BACKTRACE_DEPTH
    ensures Cmp(a, b, i) == 0 <==> Frames(a, i) == Frames(b, i)
    decreases BACKTRACE_DEPTH - i
  {
    if i < BACKTRACE_DEPTH {
      EqualIsSameFrames(a, b, i + 1);
      if a[i] != 0 && b[i] != 0 {
        assert Frames(a, i)[0] == a[i] && Frames(a, i)[1..] == Frames(a, i + 1);
        assert Frames(b, i)[0] == b[i] && Frames(b, i)[1..] == Frames(b, i + 1);
      }
    }
  }

  lemma {:induction false} CmpTurnsRound(a: Trace, b: Trace, i: nat)
    requires i <= BACKTRACE_DEPTH
    ensures Cmp(b, a, i) == -Cmp(a, b, i)
    decreases BACKTRACE_DEPTH - i
  {
    if i < BACKTRACE_DEPTH {
      CmpTurnsRound(a, b, i + 1);
    }
  }

  lemma {:induction false} CmpTransitive(a: Trace, b: Trace, c: Trace, i: nat)
    requires i <= BACKTRACE_DEPTH && Cmp(a, b, i) <= 0 && Cmp(b, c, i) <= 0
    ensures Cmp(a, c, i) <= 0 && (Cmp(a, c, i) == 0 ==> Cmp(a, b, i) == 0 && Cmp(b, c, i) == 0)
    decreases BACKTRACE_DEPTH - i
  {
    if i < BACKTRACE_DEPTH && a[i] == b[i] == c[i] != 0 {
      CmpTransitive(a, b, c, i + 1);
    }
  }

  predicate Before(a: Trace, b: Trace) { Cmp(a, b, 0) < 0 }

  predicate Same(a: Trace, b: Trace) { Cmp(a, b, 0) == 0 }

  /** The traces have the same frames before place `k`, none of them zero, and there the first has the lower one. */
  predicate LowerAt(a: Trace, b: Trace, k: nat) {
    k < BACKTRACE_DEPTH && a[k] < b[k] && forall i | 0 <= i < k :: a[i] == b[i] != 0
  }

  /** The order is that of the first difference among the frames. */
  lemma BeforeIff(a: Trace, b: Trace)
    ensures Before(a, b) <==> exists k: nat :: LowerAt(a, b, k)
  {
    BeforeFrom(a, b, 0);
    if k: nat :| LowerAt(a, b, k) {
      LowerIsBefore(a, b, 0, k);
    }
  }

  lemma {:induction false} BeforeFrom(a: Trace, b: Trace, i: nat)
    requires i <= BACKTRACE_DEPTH && forall j | 0 <= j < i :: a[j] == b[j] != 0
    ensures Cmp(a, b, i) < 0 ==> exists k: nat :: LowerAt(a, b, k)
    decreases BACKTRACE_DEPTH - i
  {
    if i < BACKTRACE_DEPTH {
      if a[i] < b[i] {
        assert LowerAt(a, b, i);
      } else if a[i] == b[i] != 0 {
        BeforeFrom(a, b, i + 1);
      }
    }
  }

  lemma {:induction false} LowerIsBefore(a: Trace, b: Trace, i: nat, k: nat)
    requires i <= k && LowerAt(a, b, k)
    ensures Cmp(a, b, i) < 0
    decreases k - i
  {
    if i < k {
      LowerIsBefore(a, b, i + 1, k);
    }
  }

  /** A total order of the traces up to `Same`. */
  lemma Ordering(a: Trace, b: Trace, c: Trace)
    ensures Before(a, b) || Same(a, b) || Before(b, a)
    ensures !(Before(a, b) && Before(b, a)) && (Same(a, b) <==> Same(b, a)) && Same(a, a)
    ensures Before(a, b) && (Before(b, c) || Same(b, c)) ==> Before(a, c)
    ensures Same(a, b) && Before(b, c) ==> Before(a, c)
    ensures Same(a, b) && Same(b, c) ==> Same(a, c)
  {
    CmpTurnsRound(a, b, 0);
    EqualIsSameFrames(a, a, 0);
    EqualIsSameFrames(a, b, 0);
    EqualIsSameFrames(b, a, 0);
    EqualIsSameFrames(b, c, 0);
    EqualIsSameFrames(a, c, 0);
    if Cmp(a, b, 0) <= 0 && Cmp(b, c, 0) <= 0 {
      CmpTransitive(a, b, c, 0);
    }
  }

  // ---- the tree ----

  function InOrder(t: Tree): seq<Desc> {
    match t
    case Leaf => []
    case Node(left, desc, right) => InOrder(left) + [desc] + InOrder(right)
  }

  /** The walk of `__find_stack_desc`; at most one descriptor. */
  function Find(t: Tree, trace: Trace): seq<Desc> {
    match t
    case Leaf => []
    case Node(left, desc, right) =>
      if Cmp(trace, desc.trace, 0) < 0 then Find(left, trace)
      else if Cmp(trace, desc.trace, 0) > 0 then Find(right, trace)
      else [desc]
  }

  /** A descriptor linked where the walk for its trace falls off the tree. */
  function Link(t: Tree, d: Desc): Tree {
    match t
    case Leaf => Node(Leaf, d, Leaf)
    case Node(left, desc, right) =>
      if Cmp(d.trace, desc.trace, 0) < 0 then Node(Link(left, d), desc, right)
      else if Cmp(d.trace, desc.trace, 0) > 0 then Node(left, desc, Link(right, d))
      else t
  }

  ghost predicate AllBefore(s: seq<Desc>, a: Trace) { forall d | d in s :: Before(d.trace, a) }

  ghost predicate AllAfter(s: seq<Desc>, a: Trace) { forall d | d in s :: Before(a, d.trace) }

  /** Strictly ascending. */
  ghost predicate Ordered(s: seq<Desc>) { s != [] ==> AllAfter(s[1..], s[0].trace) && Ordered(s[1..]) }

  lemma InMiddle(l: seq<Desc>, x: Desc, r: seq<Desc>)
    ensures forall y :: y in l + [x] + r <==> y in l || y == x || y in r
  {
  }

  lemma {:induction false} OrderedAround(l: seq<Desc>, x: Desc, r: seq<Desc>)
    ensures Ordered(l + [x] + r) <==> Ordered(l) && Ordered(r) && AllBefore(l, x.trace) && AllAfter(r, x.trace)
  {
    if l == [] {
      assert l + [x] + r == [x] + r;
    } else {
      var s := l + [x] + r;
      assert s[1..] == l[1..] + [x] + r && l == [l[0]] + l[1..];
      OrderedAround(l[1..], x, r);
      InMiddle(l[1..], x, r);
      if Before(l[0].trace, x.trace) && AllAfter(r, x.trace) {
        forall d | d in r ensures Before(l[0].trace, d.trace) {
          Ordering(l[0].trace, x.trace, d.trace);
        }
      }
    }
  }

  /** The walk finds the one descriptor whose trace is the same, and nothing only if there is none. */
  lemma {:induction false} FindIsComplete(t: Tree, trace: Trace)
    requires Ordered(InOrder(t))
    ensures forall d :: d in Find(t, trace) <==> d in InOrder(t) && Same(trace, d.trace)
    ensures |Find(t, trace)| <= 1
  {
    if t.Node? {
      var l, x, r := InOrder(t.left), t.desc, InOrder(t.right);
      OrderedAround(l, x, r);
      InMiddle(l, x, r);
      FindIsComplete(t.left, trace);
      FindIsComplete(t.right, trace);
      forall d | d in l ensures Same(trace, d.trace) ==> Before(trace, x.trace) {
        Ordering(trace, d.trace, x.trace);
      }
      forall d | d in r ensures Same(trace, d.trace) ==> Before(x.trace, trace) {
        Ordering(d.trace, trace, x.trace);
        Ordering(x.trace, d.trace, trace);
      }
      Ordering(trace, x.trace, trace);
      CmpTurnsRound(trace, x.trace, 0);
    }
  }

  /** Linking keeps the order and adds just the descriptor. */
  lemma {:induction false} LinkAdds(t: Tree, d: Desc)
    requires Ordered(InOrder(t)) && Find(t, d.trace) == []
    ensures Ordered(InOrder(Link(t, d)))
    ensures forall y :: y in InOrder(Link(t, d)) <==> y in InOrder(t) || y == d
  {
    if t.Node? {
      var l, x, r := InOrder(t.left), t.desc, InOrder(t.right);
      OrderedAround(l, x, r);
      InMiddle(l, x, r);
      if Cmp(d.trace, x.trace, 0) < 0 {
        LinkAdds(t.left, d);
        OrderedAround(InOrder(Link(t.left, d)), x, r);
        InMiddle(InOrder(Link(t.left, d)), x, r);
      } else {
        LinkAdds(t.right, d);
        CmpTurnsRound(d.trace, x.trace, 0);
        OrderedAround(l, x, InOrder(Link(t.right, d)));
        InMiddle(l, x, InOrder(Link(t.right, d)));
      }
    }
  }

  /**
   After linking, and any rebalancing, lookups find the new descriptor for its trace and what they found before for
   all others.
   */
  lemma LinkThenFind(t: Tree, d: Desc, after: Tree, trace: Trace)
    requires Ordered(InOrder(t)) && Find(t, d.trace) == [] && InOrder(after) == InOrder(Link(t, d))
    ensures Find(after, trace) == if Same(trace, d.trace) then [d] else Find(t, trace)
  {
    LinkAdds(t, d);
    FindIsComplete(t, trace);
    FindIsComplete(t, d.trace);
    FindIsComplete(after, trace);
    if Same(trace, d.trace) {
      forall y | y in InOrder(t) ensures !Same(trace, y.trace) {
        Ordering(d.trace, trace, y.trace);
        Ordering(trace, d.trace, trace);
        assert y !in Find(t, d.trace);
      }
      assert d in Find(after, trace);
      Single(Find(after, trace), d);
    } else if Find(t, trace) != [] {
      assert Find(t, trace)[0] in Find(after, trace);
      Single(Find(after, trace), Find(t, trace)[0]);
    } else {
      assert forall y :: y in Find(after, trace) ==> y in Find(t, trace);
      NoneIn(Find(after, trace));
    }
  }

  lemma NoneIn(s: seq<Desc>)
    ensures s != [] ==> exists y :: y in s
  {
    if s != [] {
      assert s[0] in s;
    }
  }

  lemma Single(s: seq<Desc>, d: Desc)
    requires |s| <= 1 && d in s
    ensures s == [d]
  {
  }

  /** No descriptor is in the tree twice. */
  lemma {:induction false} OrderedIsDistinct(s: seq<Desc>, i: nat, j: nat)
    requires Ordered(s) && i < j < |s|
    ensures s[i] != s[j] && !Same(s[i].trace, s[j].trace)
  {
    if i == 0 {
      assert s[j] == s[1..][j - 1] && s[1..][j - 1] in s[1..];
      Ordering(s[0].trace, s[0].trace, s[0].trace);
    } else {
      OrderedIsDistinct(s[1..], i - 1, j - 1);
    }
  }

  // ---- runs ----

  /**
   What one call of find_alloc does: the trace is found from now on, what was found stays, other traces are as
   before.
   */
  ghost predicate Stepped(t: Tree, trace: Trace, r: seq<Desc>, after: Tree) {
    && Ordered(InOrder(after)) && Find(after, trace) == r && (Find(t, trace) != [] ==> r == Find(t, trace))
    && forall other: Trace | !Same(other, trace) :: Find(after, other) == Find(t, other)
  }

  /** A run of calls from the empty tree on, each with its trace and its result. */
  ghost predicate Run(trees: seq<Tree>, traces: seq<Trace>, results: seq<seq<Desc>>) {
    && |trees| == |traces| + 1 == |results| + 1 && trees[0] == Leaf
    && forall i | 0 <= i < |traces| :: Stepped(trees[i], traces[i], results[i], trees[i + 1])
  }

  lemma {:induction false} SameIsFoundAlike(t: Tree, a: Trace, b: Trace)
    requires Same(a, b)
    ensures Find(t, a) == Find(t, b)
  {
    if t.Node? {
      SameIsFoundAlike(t.left, a, b);
      SameIsFoundAlike(t.right, a, b);
      Ordering(a, b, t.desc.trace);
      Ordering(b, a, t.desc.trace);
      CmpTurnsRound(a, t.desc.trace, 0);
      CmpTurnsRound(b, t.desc.trace, 0);
    }
  }

  lemma {:induction false} OnceFoundStays(trees: seq<Tree>, traces: seq<Trace>, results: seq<seq<Desc>>, i: nat, k: nat)
    requires Run(trees, traces, results) && i < k <= |traces| && results[i] != []
    ensures Find(trees[k], traces[i]) == results[i]
  {
    if k == i + 1 {
      assert Stepped(trees[i], traces[i], results[i], trees[k]);
    } else {
      OnceFoundStays(trees, traces, results, i, k - 1);
      assert Stepped(trees[k - 1], traces[k - 1], results[k - 1], trees[k]);
      if Same(traces[i], traces[k - 1]) {
        SameIsFoundAlike(trees[k - 1], traces[i], traces[k - 1]);
        SameIsFoundAlike(trees[k], traces[i], traces[k - 1]);
      }
    }
  }

  /** In every run, two calls that give a descriptor give the same one exactly if their traces are the same. */
  lemma OneDescriptorPerTrace(trees: seq<Tree>, traces: seq<Trace>, results: seq<seq<Desc>>, i: nat, j: nat)
    requires Run(trees, traces, results) && i < j < |traces| && results[i] != [] && results[j] != []
    ensures results[i] == results[j] <==> Same(traces[i], traces[j])
  {
    OnceFoundStays(trees, traces, results, i, j);
    OnceFoundStays(trees, traces, results, i, j + 1);
    OnceFoundStays(trees, traces, results, j, j + 1);
    assert Stepped(trees[j], traces[j], results[j], trees[j + 1]);
    if Same(traces[i], traces[j]) {
      SameIsFoundAlike(trees[j + 1], traces[i], traces[j]);
    } else if results[i] == results[j] {
      var d := results[i][0];
      FindIsComplete(trees[j + 1], traces[i]);
      FindIsComplete(trees[j + 1], traces[j]);
      assert d in Find(trees[j + 1], traces[i]) && d in Find(trees[j + 1], traces[j]);
      Ordering(traces[i], d.trace, traces[j]);
      Ordering(traces[j], d.trace, traces[j]);
      assert false;
    }
  }

  // ---- every descriptor once ----

  /** The tree, the descriptors freed so far, and all those ever allocated, in turn. */
  datatype Store = Store(tree: Tree, freed: seq<Desc>, made: seq<Desc>)

  const NOTHING := Store(Leaf, [], [])

  /** A call of find_alloc, with or without memory and with the rebalancing it does, or of cleanup. */
  datatype Op = Call(trace: Trace, memory: bool, after: Tree) | Drop

  /** Rebalancing keeps the descriptors in order. */
  predicate Fair(s: Store, op: Op) {
    op.Call? ==> InOrder(op.after) == InOrder(Link(s.tree, Desc(|s.made|, op.trace)))
  }

  function Apply(s: Store, op: Op): Store {
    match op
    case Call(trace, memory, after) =>
      if Find(s.tree, trace) != [] || !memory then s else s.(tree := after, made := s.made + [Desc(|s.made|, trace)])
    case Drop => s.(tree := Leaf, freed := s.freed + InOrder(s.tree))
  }

  /** The store after a run from the empty tree, if its rebalancing was fair throughout. */
  ghost predicate Leads(ops: seq<Op>, s: Store)
    decreases |ops|
  {
    if ops == [] then s == NOTHING
    else
      var op := ops[|ops| - 1];
      exists before :: Leads(ops[..|ops| - 1], before) && Fair(before, op) && s == Apply(before, op)
  }

  /** Where a descriptor is, and how many times over. */
  function Places(s: Store, d: Desc): nat { multiset(InOrder(s.tree))[d] + multiset(s.freed)[d] }

  /** The tree is ordered, each allocation has its own number, and each descriptor is in one place once. */
  ghost predicate Conserves(s: Store) {
    && Ordered(InOrder(s.tree))
    && (forall i | 0 <= i < |s.made| :: s.made[i].id == i)
    && forall d :: Places(s, d) == if d in s.made then 1 else 0
  }

  lemma {:induction false} LinkAddsOnce(t: Tree, d: Desc, x: Desc)
    requires Find(t, d.trace) == []
    ensures multiset(InOrder(Link(t, d)))[x] == multiset(InOrder(t))[x] + if x == d then 1 else 0
  {
    if t.Node? {
      if Cmp(d.trace, t.desc.trace, 0) < 0 {
        LinkAddsOnce(t.left, d, x);
      } else {
        LinkAddsOnce(t.right, d, x);
      }
    }
  }

  lemma CallConserves(s: Store, d: Desc, after: Tree, x: Desc)
    requires Find(s.tree, d.trace) == [] && InOrder(after) == InOrder(Link(s.tree, d))
    requires d !in s.made && Places(s, x) == if x in s.made then 1 else 0
    ensures var next := s.(tree := after, made := s.made + [d]);
            Places(next, x) == if x in next.made then 1 else 0
  {
    hide Find, Link, InOrder;
    LinkAddsOnce(s.tree, d, x);
    assert x in s.made + [d] <==> x in s.made || x == d;
  }

  lemma DropConserves(s: Store, x: Desc)
    ensures Places(s.(tree := Leaf, freed := s.freed + InOrder(s.tree)), x) == Places(s, x)
  {
  }

  lemma StepConserves(s: Store, op: Op)
    requires Conserves(s) && Fair(s, op)
    ensures Conserves(Apply(s, op))
  {
    hide Places, Find, Link;
    match op
    case Call(trace, memory, after) =>
      if Find(s.tree, trace) == [] && memory {
        var d := Desc(|s.made|, trace);
        assert InOrder(after) == InOrder(Link(s.tree, d));
        LinkAdds(s.tree, d);
        hide InOrder, Ordered;
        forall x ensures Places(Apply(s, op), x) == if x in Apply(s, op).made then 1 else 0 {
          CallConserves(s, d, after, x);
        }
      }
    case Drop =>
      forall x ensures Places(Apply(s, op), x) == Places(s, x) {
        DropConserves(s, x);
      }
  }

  /** Over every run of find_alloc and cleanup, each descriptor made is in the tree or freed, once, and no other is. */
  lemma {:induction false} Conserved(ops: seq<Op>, s: Store)
    requires Leads(ops, s)
    ensures Conserves(s)
    decreases |ops|
  {
    if ops != [] {
      var op := ops[|ops| - 1];
      var before :| Leads(ops[..|ops| - 1], before) && Fair(before, op) && s == Apply(before, op);
      Conserved(ops[..|ops| - 1], before);
      StepConserves(before, op);
    }
  }

  // ---- the functions themselves ----

  /** `rebalance` stands for `rb_insert_color`. */
  class StackTraceTree {
    var stackTree: Tree
    var made: nat
    const rebalance: Tree -> Tree

    /** `diag_init_trace_stack`. */
    constructor (rebalance: Tree -> Tree)
      requires forall t :: InOrder(rebalance(t)) == InOrder(t)
      ensures Valid() && stackTree == Leaf
    {
      stackTree, made := Leaf, 0;
      this.rebalance := rebalance;
    }

    ghost predicate Valid()
      reads this
    {
      && (forall t :: InOrder(rebalance(t)) == InOrder(t))
      && Ordered(InOrder(stackTree))
      && forall d | d in InOrder(stackTree) :: d.id < made
    }

    /** `__find_stack_desc`. */
    method FindStackDesc(trace: Trace) returns (r: seq<Desc>)
      ensures r == Find(stackTree, trace)
    {
      var node := stackTree;
      while node.Node?
        invariant Find(stackTree, trace) == Find(node, trace)
        decreases node
      {
        var ret := StackTraceCmp(trace, node.desc.trace);
        if ret < 0 {
          node := node.left;
        } else if ret > 0 {
          node := node.right;
        } else {
          return [node.desc];
        }
      }
      return [];
    }

    /**
     `__diag_stack_desc_find_alloc`: the descriptor there is, or a new one, or none if there is no memory. Lookups of
     other traces find what they did.
     */
    method FindAlloc(trace: Trace, memory: bool) returns (r: seq<Desc>)
      requires Valid()
      modifies this
      ensures Valid() && made >= old(made)
      ensures var was := Find(old(stackTree), trace);
              && (was != [] || !memory ==> r == was && stackTree == old(stackTree) && made == old(made))
              && (was == [] && memory ==> r == [Desc(old(made), trace)] && made == old(made) + 1)
      ensures Stepped(old(stackTree), trace, r, stackTree)
      ensures stackTree == if Find(old(stackTree), trace) == [] && memory
                           then rebalance(Link(old(stackTree), Desc(old(made), trace))) else old(stackTree)
    {
      r := FindStackDesc(trace);
      if r == [] && memory {
        var stackDesc := Desc(made, trace);
        made := made + 1;
        LinkAdds(stackTree, stackDesc);
        ghost var before := stackTree;
        stackTree := rebalance(Link(stackTree, stackDesc));
        forall other: Trace
          ensures Find(stackTree, other) == if Same(other, trace) then [stackDesc] else Find(before, other)
        {
          LinkThenFind(before, stackDesc, stackTree, other);
        }
        Ordering(trace, trace, trace);
        r := [stackDesc];
      }
    }

    /** `diag_cleanup_trace_stack`: what is freed, in turn, is every descriptor of the tree once. */
    method Cleanup() returns (freed: seq<Desc>)
      requires Valid()
      modifies this
      ensures Valid() && stackTree == Leaf && freed == InOrder(old(stackTree)) && made == old(made)
      ensures forall i, j | 0 <= i < j < |freed| :: freed[i] != freed[j]
    {
      var stackList := InOrder(stackTree);
      stackTree := Leaf;
      freed := [];
      while stackList != []
        invariant freed + stackList == InOrder(old(stackTree))
        decreases |stackList|
      {
        freed := freed + [stackList[0]];
        stackList := stackList[1..];
      }
      assert freed == freed + stackList;
      forall i, j | 0 <= i < j < |freed| ensures freed[i] != freed[j] {
        OrderedIsDistinct(freed, i, j);
      }
    }
  }
}
