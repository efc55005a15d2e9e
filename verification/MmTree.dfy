/**
 The table of `mm_info`s the kernel module keeps by address space. Every function holds the tree's lock throughout, so
 each is one step; allocation and insertion may fail and say so by a parameter.
 */
module MmTree {
  import opened Bytes

  /** An allocated `mm_info`: which allocation it was, and the address space it is for. */
  datatype MmInfo = MmInfo(id: nat, mm: UInt64)

  type Tree = map<UInt64, MmInfo>

  const NR_BATCH: nat := 5

  // ---- the radix tree ----

  predicate IsLeast(s: set<UInt64>, m: UInt64) { m in s && forall k | k in s :: m <= k }

  lemma {:induction false} LeastOf(s: set<UInt64>) returns (m: UInt64)
    requires s != {}
    ensures IsLeast(s, m)
    decreases |s|
  {
    m :| m in s;
    var rest := s - {m};
    assert s == rest + {m};
    if rest != {} {
      var l := LeastOf(rest);
      if l < m {
        m := l;
      }
    }
  }

  lemma LeastExists(s: set<UInt64>)
    requires s != {}
    ensures exists m :: IsLeast(s, m)
  {
    var m := LeastOf(s);
  }

  function Min(s: set<UInt64>): (m: UInt64)
    requires s != {}
    ensures m in s && forall k | k in s :: m <= k
  {
    LeastExists(s);
    var m :| m in s && IsLeast(s, m);
    m
  }

  /** The keys in ascending order. */
  function Ascending(s: set<UInt64>): (keys: seq<UInt64>)
    ensures |keys| == |s|
  {
    if s == {} then [] else [Min(s)] + Ascending(s - {Min(s)})
  }

  lemma {:induction false} AscendingHolds(s: set<UInt64>)
    ensures forall k :: k in Ascending(s) <==> k in s
    decreases |s|
  {
    if s != {} {
      AscendingHolds(s - {Min(s)});
    }
  }

  function Infos(tree: Tree, keys: seq<UInt64>): (infos: seq<MmInfo>)
    requires forall k | k in keys :: k in tree
    ensures |infos| == |keys|
  {
    if keys == [] then [] else [tree[keys[0]]] + Infos(tree, keys[1..])
  }

  /** Everything in the tree, in the order of the keys. */
  function AllInfos(tree: Tree): (infos: seq<MmInfo>)
    ensures |infos| == |tree.Keys|
  {
    AscendingHolds(tree.Keys);
    Infos(tree, Ascending(tree.Keys))
  }

  /** The entries of the tree, each once, their address spaces ascending. */
  ghost predicate EntriesInOrder(tree: Tree, infos: seq<MmInfo>) {
    && (forall x :: x in infos <==> x.mm in tree && tree[x.mm] == x)
    && forall i, j | 0 <= i < j < |infos| :: infos[i].mm < infos[j].mm
  }

  /** `radix_tree_gang_lookup`: the first `n` at most of the entries from `pos` on. */
  function GangLookup(tree: Tree, pos: UInt64, n: nat): seq<MmInfo> {
    var all := AllInfos(map k | k in tree && k >= pos :: tree[k]);
    if |all| < n then all else all[..n]
  }

  lemma {:induction false} SameInfos(tree: Tree, other: Tree, keys: seq<UInt64>)
    requires forall k | k in keys :: k in tree && k in other && tree[k] == other[k]
    ensures Infos(tree, keys) == Infos(other, keys)
    decreases |keys|
  {
    if keys != [] {
      SameInfos(tree, other, keys[1..]);
    }
  }

  /** The least key comes first, and then the rest of the tree. */
  lemma {:induction false} LeastFirst(tree: Tree)
    requires tree != map[]
    ensures tree.Keys != {}
    ensures var m := Min(tree.Keys);
            AllInfos(tree) == [tree[m]] + AllInfos(tree - {m}) && forall k | k in tree - {m} :: k > m
  {
    assert tree.Keys != {} by {
      var k :| k in tree;
      assert k in tree.Keys;
    }
    var m := Min(tree.Keys);
    var rest := Ascending(tree.Keys - {m});
    assert (tree - {m}).Keys == tree.Keys - {m};
    AscendingHolds(tree.Keys - {m});
    SameInfos(tree, tree - {m}, rest);
    assert ([m] + rest)[1..] == rest;
    AscendingHolds(tree.Keys);
  }

  // ---- what the operations do to everything ever allocated ----

  /** The tree, what was handed to call_rcu in turn, what was taken out, and what a failed insertion lost. */
  datatype Store = Store(tree: Tree, rcu: seq<MmInfo>, taken: seq<MmInfo>, lost: seq<MmInfo>)

  /** Every `mm_info` is in the tree under its own `mm`. */
  predicate OwnKeys(tree: Tree) { forall k | k in tree :: tree[k].mm == k }

  /** `putin_mm_info`; `room` tells whether the insertion finds memory, which the code does not ask. */
  function PutIn(s: Store, info: MmInfo, room: bool): Store {
    var replaced := if info.mm in s.tree then [s.tree[info.mm]] else [];
    var without := s.tree - {info.mm};
    if room then Store(without[info.mm := info], s.rcu + replaced, s.taken, s.lost)
    else Store(without, s.rcu + replaced, s.taken, s.lost + [info])
  }

  /** `takeout_mm_info`. */
  function TakeOut(s: Store, mm: UInt64): Store {
    Store(s.tree - {mm}, s.rcu, s.taken + if mm in s.tree then [s.tree[mm]] else [], s.lost)
  }

  /** `cleanup_mm_tree`: everything goes to call_rcu, in the order of the keys. */
  function CleanUp(s: Store): Store {
    Store(map[], s.rcu + AllInfos(s.tree), s.taken, s.lost)
  }

  datatype Op = Exec(mm: UInt64, room: bool) | Exit(mm: UInt64) | Cleanup

  /** One operation; the `n`-th is given the `n`-th allocation. */
  function Apply(s: Store, op: Op, n: nat): Store {
    match op
    case Exec(mm, room) => PutIn(s, MmInfo(n, mm), room)
    case Exit(mm) => TakeOut(s, mm)
    case Cleanup => CleanUp(s)
  }

  const NOTHING := Store(map[], [], [], [])

  function Run(ops: seq<Op>): Store {
    if ops == [] then NOTHING else Apply(Run(ops[..|ops| - 1]), ops[|ops| - 1], |ops| - 1)
  }

  // ---- conservation ----

  /** Where the store holds an `mm_info`, and how many times over. */
  function Places(s: Store, x: MmInfo): nat {
    (if x.mm in s.tree && s.tree[x.mm] == x then 1 else 0) + multiset(s.rcu)[x] + multiset(s.taken)[x]
      + multiset(s.lost)[x]
  }

  /** Whether the allocation was made by one of the operations. */
  predicate Made(ops: seq<Op>, x: MmInfo) {
    x.id < |ops| && ops[x.id].Exec? && ops[x.id].mm == x.mm
  }

  lemma PutInMoves(s: Store, info: MmInfo, room: bool, x: MmInfo)
    requires OwnKeys(s.tree)
    ensures OwnKeys(PutIn(s, info, room).tree)
    ensures Places(PutIn(s, info, room), x) == Places(s, x) + if x == info then 1 else 0
  {
  }

  lemma TakeOutMoves(s: Store, mm: UInt64, x: MmInfo)
    requires OwnKeys(s.tree)
    ensures OwnKeys(TakeOut(s, mm).tree) && Places(TakeOut(s, mm), x) == Places(s, x)
  {
  }

  lemma {:induction false} InfosOnce(tree: Tree, x: MmInfo)
    requires OwnKeys(tree)
    ensures multiset(AllInfos(tree))[x] == if x.mm in tree && tree[x.mm] == x then 1 else 0
    decreases |tree.Keys|
  {
    if tree != map[] {
      LeastFirst(tree);
      var m := Min(tree.Keys);
      assert (tree - {m}).Keys == tree.Keys - {m};
      InfosOnce(tree - {m}, x);
    } else {
      assert tree.Keys == {};
    }
  }

  /** That is what `AllInfos` lists. */
  lemma {:induction false} AllInfosInOrder(tree: Tree)
    requires OwnKeys(tree)
    ensures EntriesInOrder(tree, AllInfos(tree))
    decreases |tree.Keys|
  {
    if tree == map[] {
      assert tree.Keys == {};
    } else {
      LeastFirst(tree);
      var m := Min(tree.Keys);
      var rest, more := tree - {m}, AllInfos(tree - {m});
      assert rest.Keys == tree.Keys - {m};
      AllInfosInOrder(rest);
      hide AllInfos, Min, EntriesInOrder;
      LeastInFront(tree, m, more);
    }
  }

  lemma LeastInFront(tree: Tree, m: UInt64, more: seq<MmInfo>)
    requires OwnKeys(tree) && m in tree && forall k | k in tree - {m} :: k > m
    requires EntriesInOrder(tree - {m}, more)
    ensures EntriesInOrder(tree, [tree[m]] + more)
  {
    var all := [tree[m]] + more;
    forall x ensures x in all <==> x.mm in tree && tree[x.mm] == x {
      assert x in all <==> x == tree[m] || x in more;
    }
    forall i, j | 0 <= i < j < |all| ensures all[i].mm < all[j].mm {
      assert all[j] == more[j - 1] && more[j - 1] in more;
    }
  }

  lemma NoInfos()
    ensures AllInfos(map[]) == []
  {
    var none: Tree := map[];
    assert none.Keys == {};
  }

  lemma MovedInOrder(before: seq<MmInfo>, after: seq<MmInfo>, tree: Tree)
    requires OwnKeys(tree) && after == before + AllInfos(tree)
    ensures before <= after && EntriesInOrder(tree, after[|before|..])
  {
    AllInfosInOrder(tree);
    hide AllInfos, EntriesInOrder;
    assert after[|before|..] == AllInfos(tree);
  }

  lemma CleanUpMoves(s: Store, x: MmInfo)
    requires OwnKeys(s.tree)
    ensures OwnKeys(CleanUp(s).tree) && Places(CleanUp(s), x) == Places(s, x)
  {
    InfosOnce(s.tree, x);
  }

  /**
   Over every run: each `mm_info` allocated so far is in exactly one place, once, and nothing else is anywhere. In the
   tree it is under its own `mm`.
   */
  lemma {:induction false} Conserved(ops: seq<Op>, x: MmInfo)
    ensures OwnKeys(Run(ops).tree)
    ensures Places(Run(ops), x) == if Made(ops, x) then 1 else 0
    decreases |ops|
  {
    if ops != [] {
      var before, op, n := ops[..|ops| - 1], ops[|ops| - 1], |ops| - 1;
      Conserved(before, x);
      var s := Run(before);
      match op
      case Exec(mm, room) => PutInMoves(s, MmInfo(n, mm), room, x);
      case Exit(mm) => TakeOutMoves(s, mm, x);
      case Cleanup => CleanUpMoves(s, x);
    }
  }

  /** Nothing is lost exactly if every insertion of the run found memory. */
  lemma {:induction false} LostIff(ops: seq<Op>)
    ensures Run(ops).lost == [] <==> forall i | 0 <= i < |ops| && ops[i].Exec? :: ops[i].room
    decreases |ops|
  {
    if ops != [] {
      var before, last := ops[..|ops| - 1], ops[|ops| - 1];
      LostIff(before);
      assert forall i | 0 <= i < |before| :: before[i] == ops[i];
      assert Run(ops).lost == [] <==> Run(before).lost == [] && (last.Exec? ==> last.room) by {
        hide Run;
        LostStep(Run(before), last, |before|);
        assert Run(ops) == Apply(Run(before), last, |before|) by { LastStep(ops); }
      }
      hide Run;
    }
  }

  lemma LastStep(ops: seq<Op>)
    requires ops != []
    ensures Run(ops) == Apply(Run(ops[..|ops| - 1]), ops[|ops| - 1], |ops| - 1)
  {
  }

  lemma LostStep(s: Store, op: Op, n: nat)
    ensures Apply(s, op, n).lost == [] <==> s.lost == [] && (op.Exec? ==> op.room)
  {
  }

  // ---- the functions themselves ----

  class MmTree {
    var tree: Tree
    var rcu: seq<MmInfo>

    ghost predicate Valid()
      reads this
    {
      OwnKeys(tree)
    }

    /** The store, when `taken` and `lost` went elsewhere. */
    ghost function Contents(taken: seq<MmInfo>, lost: seq<MmInfo>): Store
      reads this
    {
      Store(tree, rcu, taken, lost)
    }

    /** `init_mm_tree`. */
    constructor ()
      ensures Valid() && Contents([], []) == NOTHING
    {
      tree, rcu := map[], [];
    }

    /** `find_mm_info`. */
    method FindMmInfo(mm: UInt64) returns (info: seq<MmInfo>)
      ensures info == if mm != 0 && mm in tree then [tree[mm]] else []
    {
      if mm == 0 {
        return [];
      }
      return if mm in tree then [tree[mm]] else [];
    }

    /** `putin_mm_info`. */
    method PutinMmInfo(info: MmInfo, room: bool)
      requires Valid()
      modifies this
      ensures Valid()
      ensures Contents([], if room then [] else [info]) == PutIn(old(Contents([], [])), info, room)
      ensures if room then info.mm in tree && tree[info.mm] == info else info.mm !in tree
      ensures forall k | k != info.mm :: (k in tree <==> k in old(tree)) && (k in tree ==> tree[k] == old(tree)[k])
      ensures rcu == if info.mm in old(tree) then old(rcu) + [old(tree)[info.mm]] else old(rcu)
    {
      var mm := info.mm;
      if mm in tree {
        var tmp := tree[mm];
        tree := tree - {mm};
        rcu := rcu + [tmp];
      }
      assert tree == old(tree) - {mm};
      if room {
        tree := tree[mm := info];
      }
    }

    /** `takeout_mm_info`. */
    method TakeoutMmInfo(mm: UInt64) returns (info: seq<MmInfo>)
      requires Valid()
      modifies this
      ensures Valid() && Contents(info, []) == TakeOut(old(Contents([], [])), mm)
      ensures info == if mm in old(tree) then [old(tree)[mm]] else []
      ensures mm !in tree && rcu == old(rcu)
      ensures forall k | k != mm :: (k in tree <==> k in old(tree)) && (k in tree ==> tree[k] == old(tree)[k])
    {
      info := if mm in tree then [tree[mm]] else [];
      tree := tree - {mm};
    }

    /** `diag_hook_exec`; no address space is 0, and `memory` is false when there is no memory. */
    method HookExec(mm: UInt64, memory: bool, id: nat, room: bool)
      requires Valid()
      modifies this
      ensures Valid()
      ensures mm == 0 || !memory ==> Contents([], []) == old(Contents([], []))
      ensures mm != 0 && memory ==>
                Contents([], if room then [] else [MmInfo(id, mm)])
                == PutIn(old(Contents([], [])), MmInfo(id, mm), room)
      ensures mm != 0 && memory && room ==> mm in tree && tree[mm] == MmInfo(id, mm)
      ensures forall k | k != mm :: (k in tree <==> k in old(tree)) && (k in tree ==> tree[k] == old(tree)[k])
    {
      if mm == 0 {
        return;
      }
      if !memory {
        return;
      }
      PutinMmInfo(MmInfo(id, mm), room);
    }

    /** `diag_hook_process_exit_exec`: what is taken out is freed. */
    method HookProcessExit(mm: UInt64) returns (freed: seq<MmInfo>)
      requires Valid()
      modifies this
      ensures Valid()
      ensures Contents(freed, []) == if mm == 0 then old(Contents([], [])) else TakeOut(old(Contents([], [])), mm)
      ensures freed == if mm != 0 && mm in old(tree) then [old(tree)[mm]] else []
      ensures (mm != 0 ==> mm !in tree) && rcu == old(rcu)
      ensures forall k | k != mm :: (k in tree <==> k in old(tree)) && (k in tree ==> tree[k] == old(tree)[k])
    {
      if mm == 0 {
        return [];
      }
      freed := TakeoutMmInfo(mm);
    }

    /** `cleanup_mm_tree`, batch by batch; it ends, with the tree empty. */
    method CleanupMmTree()
      requires Valid()
      modifies this
      ensures Valid() && Contents([], []) == CleanUp(old(Contents([], [])))
      ensures tree == map[]
      ensures old(rcu) <= rcu && EntriesInOrder(old(tree), rcu[|old(rcu)|..])
    {
      hide EntriesInOrder, AllInfos, GangLookup;
      var pos, more := 0, true;
      assert [] + AllInfos(tree) == AllInfos(tree);
      while more
        invariant Valid() && forall k | k in tree :: k >= pos
        invariant !more ==> tree == map[]
        invariant rcu + AllInfos(tree) == old(rcu) + AllInfos(old(tree))
        decreases |tree.Keys|, more
      {
        var mms := GangLookup(tree, pos, NR_BATCH);
        GangFindsFirst(tree, pos);
        pos := DeleteBatch(mms, pos);
        more := |mms| > 0;
      }
      NoInfos();
      MovedInOrder(old(rcu), rcu, old(tree));
    }

    /** The loop over one batch. */
    method DeleteBatch(mms: seq<MmInfo>, from: UInt64) returns (pos: UInt64)
      requires Valid() && (forall k | k in tree :: k >= from)
      requires |mms| <= |tree.Keys| && mms == AllInfos(tree)[..|mms|]
      modifies this
      ensures Valid() && forall k | k in tree :: k >= pos
      ensures |tree.Keys| == |old(tree).Keys| - |mms|
      ensures rcu + AllInfos(tree) == old(rcu) + AllInfos(old(tree))
    {
      pos := from;
      for i := 0 to |mms|
        invariant Valid() && forall k | k in tree :: k >= pos
        invariant |tree.Keys| == |old(tree).Keys| - i
        invariant mms[i..] == AllInfos(tree)[..|mms| - i]
        invariant rcu + AllInfos(tree) == old(rcu) + AllInfos(old(tree))
      {
        ghost var before, m := tree, Min(tree.Keys);
        LeastFirst(tree);
        assert mms[i] == mms[i..][0] == tree[m] && mms[i].mm == m;
        tree := tree - {mms[i].mm};
        assert tree.Keys == before.Keys - {m};
        pos := (mms[i].mm + 1) % TWO_TO_THE_64;
        rcu := rcu + [mms[i]];
        assert mms[i + 1..] == mms[i..][1..];
      }
    }
  }

  /** From a place before every key the batch is the start of everything; it is empty only if the tree is. */
  lemma GangFindsFirst(tree: Tree, pos: UInt64)
    requires forall k | k in tree :: k >= pos
    ensures var mms := GangLookup(tree, pos, NR_BATCH);
            |mms| <= |tree.Keys| && mms == AllInfos(tree)[..|mms|] && (mms == [] <==> tree == map[])
  {
    assert (map k | k in tree && k >= pos :: tree[k]) == tree;
    if tree != map[] {
      LeastFirst(tree);
    }
  }
}
