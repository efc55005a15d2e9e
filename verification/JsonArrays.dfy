/** The member functions of `Json::Value` that change an array or an object in place. */
module JsonArrays {
  import opened Bytes
  import opened JsonValue

  /** The map of a dense array: the elements of `s` under the keys from, from+1, ... */
  function Dense(s: seq<Value>, from: nat): ObjectValues {
    if s == [] then Empty else Entry(Index(from), s[0], Dense(s[1..], from + 1))
  }

  lemma {:induction false} DenseLookup(s: seq<Value>, from: nat, i: nat)
    ensures Lookup(Dense(s, from), Index(i)) == if from <= i < from + |s| then Some(s[i - from]) else None
  {
    if s != [] {
      DenseLookup(s[1..], from + 1, i);
    }
  }

  lemma {:induction false} DensePut(s: seq<Value>, from: nat, i: nat, v: Value)
    requires from <= i <= from + |s|
    ensures Put(Dense(s, from), Index(i), v)
         == Dense(if i < from + |s| then s[i - from := v] else s + [v], from)
  {
    if s == [] {
      assert [v][1..] == [];
    } else if i == from {
      assert s[0 := v][1..] == s[1..];
    } else {
      DensePut(s[1..], from + 1, i, v);
      if i < from + |s| {
        assert s[i - from := v][1..] == s[1..][i - from - 1 := v];
      } else {
        assert (s + [v])[1..] == s[1..] + [v];
      }
    }
  }

  lemma {:induction false} DenseErase(s: seq<Value>, from: nat)
    requires s != []
    ensures Erase(Dense(s, from), Index(from + |s| - 1)) == Dense(s[..|s| - 1], from)
  {
    if |s| > 1 {
      DenseErase(s[1..], from + 1);
      assert s[..|s| - 1][1..] == s[1..][..|s| - 2];
    } else {
      assert s[1..] == [];
    }
  }

  lemma {:induction false} DenseSize(s: seq<Value>, from: nat)
    ensures ArraySize(Dense(s, from)) == if s == [] then 0 else from + |s|
  {
    if |s| > 1 {
      DenseSize(s[1..], from + 1);
    } else if |s| == 1 {
      assert s[1..] == [];
    }
  }

  /** Only one sequence gives a dense map. */
  lemma {:induction false} DenseInjective(s: seq<Value>, t: seq<Value>, from: nat)
    requires Dense(s, from) == Dense(t, from)
    ensures s == t
  {
    if s != [] {
      DenseInjective(s[1..], t[1..], from + 1);
      assert s == [s[0]] + s[1..] && t == [t[0]] + t[1..];
    }
  }

  /** The keys of a map, in iteration order. */
  function Keys(m: ObjectValues): seq<CZString> {
    match m
    case Empty => []
    case Entry(key, _, rest) => [key] + Keys(rest)
  }

  lemma {:induction false} KeysAreMembers(m: ObjectValues, k: CZString)
    ensures k in Keys(m) <==> Lookup(m, k).Some?
  {
    if m.Entry? {
      KeysAreMembers(m.rest, k);
    }
  }

  /** `getMemberNames` lists every member once, in the order of the keys. */
  lemma {:induction false} KeysAscend(m: ObjectValues, i: nat, j: nat)
    requires Sorted(m) && i < j < |Keys(m)|
    ensures KeyLess(Keys(m)[i], Keys(m)[j])
  {
    if i == 0 {
      AboveAllKeys(m.rest, m.key, j - 1);
    } else {
      KeysAscend(m.rest, i - 1, j - 1);
    }
  }

  lemma {:induction false} AboveAllKeys(m: ObjectValues, k: CZString, j: nat)
    requires AllAbove(m, k) && j < |Keys(m)|
    ensures KeyLess(k, Keys(m)[j])
  {
    if j > 0 {
      AboveAllKeys(m.rest, k, j - 1);
    }
  }

  /** The elements after position `index` copied down by one, up to position `i`. */
  function ShiftedDown(s: seq<Value>, index: nat, i: nat): (t: seq<Value>)
    requires index <= i < |s|
    ensures |t| == |s|
    ensures i == |s| - 1 ==> t[..|t| - 1] == s[..index] + s[index + 1..]
    ensures i == index ==> t == s
  {
    s[..index] + s[index + 1..i + 1] + s[i..]
  }

  lemma ShiftStep(s: seq<Value>, index: nat, i: nat)
    requires index <= i < |s| - 1
    ensures var t := ShiftedDown(s, index, i); t[i := t[i + 1]] == ShiftedDown(s, index, i + 1)
  {
  }

  /** The object `*this` of the member functions. */
  class Cell {
    var value: Value

    constructor (v: Value)
      ensures value == v
    {
      value := v;
    }

    /** Null, which these functions turn into an empty array, or an array with the elements `s` and no holes. */
    ghost predicate Holds(s: seq<Value>)
      reads this
    {
      match value.payload
      case Null => s == []
      case Array(m) => m == Dense(s, 0)
      case _ => false
    }

    /** `Value::size`, of null or an array. */
    function Size(): nat
      reads this
    {
      match value.payload
      case Array(m) => ArraySize(m)
      case _ => 0
    }

    /** What `operator[](ArrayIndex)` does before it returns a reference: null becomes an array. */
    method MakeArray()
      modifies this
      ensures value == if old(value).payload.Null? then Value(Array(Empty), 0, 0) else old(value)
    {
      if value.payload.Null? {
        value := Value(Array(Empty), 0, 0);
      }
    }

    /** `(*this)[i] = std::move((*this)[j])`: the two elements are created if missing, and swapped. */
    method MoveElement(i: nat, j: nat, ghost s: seq<Value>)
      requires Holds(s) && j < |s| && j < i <= |s|
      modifies this
      ensures var t := if i == |s| then s + [NULL_SINGLETON] else s; Holds(t[i := t[j]][j := t[i]])
    {
      var m := value.payload.values;
      DenseLookup(s, 0, i);
      DenseLookup(s, 0, j);
      var left, right := Get(m, Index(i)), Get(m, Index(j));
      ghost var t := if i == |s| then s + [NULL_SINGLETON] else s;
      DensePut(s, 0, i, right);
      assert t[i := right] == if i == |s| then s + [right] else s[i := right];
      DensePut(t[i := right], 0, j, left);
      value := value.(payload := Array(Put(Put(m, Index(i), right), Index(j), left)));
    }

    /** `(*value_.map_)[i] = (*this)[j]`: an element is copied onto another. */
    method CopyElement(i: nat, j: nat, ghost s: seq<Value>)
      requires Holds(s) && i < |s| && j < |s|
      modifies this
      ensures value.payload.Array? && Holds(s[i := s[j]])
    {
      DenseLookup(s, 0, j);
      var source := Get(value.payload.values, Index(j));
      DensePut(s, 0, i, source);
      value := value.(payload := Array(Put(value.payload.values, Index(i), source)));
    }

    /** `(*this)[i] = v`. */
    method SetElement(i: nat, v: Value, ghost s: seq<Value>)
      requires Holds(s) && i <= |s|
      modifies this
      ensures Holds(if i < |s| then s[i := v] else s + [v])
    {
      MakeArray();
      DensePut(s, 0, i, v);
      value := value.(payload := Array(Put(value.payload.values, Index(i), v)));
    }

    /** `Value::append`. */
    method Append(v: Value, ghost s: seq<Value>)
      requires Holds(s) && |s| < TWO_TO_THE_32 - 1
      modifies this
      ensures Holds(s + [v])
    {
      MakeArray();
      var at := Index(Size());
      DenseSize(s, 0);
      DenseLookup(s, 0, |s|);
      DensePut(s, 0, |s|, v);
      if Lookup(value.payload.values, at).None? { // emplace leaves an existing entry alone
        value := value.(payload := Array(Put(value.payload.values, at, v)));
      }
    }

    /** `Value::insert`: the elements from `index` on are moved up one by one, by swaps, from the end. */
    method Insert(index: nat, newValue: Value, ghost s: seq<Value>) returns (inserted: bool)
      requires Holds(s) && |s| < TWO_TO_THE_32 - 1
      modifies this
      ensures inserted == (index <= |s|)
      ensures inserted ==> Holds(s[..index] + [newValue] + s[index..])
      ensures !inserted ==> value == old(value)
    {
      DenseSize(s, 0);
      var length := Size();
      if index > length {
        return false;
      }
      var i := length;
      ghost var t := s;
      while i > index
        invariant index <= i <= length
        invariant Holds(t)
        invariant t == if i == length then s else s[..i] + [NULL_SINGLETON] + s[i..]
      {
        MoveElement(i, i - 1, t);
        ghost var u := if i == |t| then t + [NULL_SINGLETON] else t;
        t := u[i := u[i - 1]][i - 1 := u[i]];
        i := i - 1;
        assert t == s[..i] + [NULL_SINGLETON] + s[i..];
      }
      SetElement(index, newValue, t);
      assert (if index < |t| then t[index := newValue] else t + [newValue]) == s[..index] + [newValue] + s[index..];
      return true;
    }

    /** `Value::removeIndex`: the later elements are copied down, then the last entry is erased. */
    method RemoveIndex(index: nat, ghost s: seq<Value>) returns (removed: Option<Value>)
      requires Holds(s) && |s| < TWO_TO_THE_32
      modifies this
      ensures removed == if index < |s| then Some(s[index]) else None
      ensures removed.Some? ==> Holds(s[..index] + s[index + 1..])
      ensures removed.None? ==> value == old(value)
    {
      if !value.payload.Array? {
        return None;
      }
      DenseLookup(s, 0, index);
      removed := Lookup(value.payload.values, Index(index));
      if removed.None? {
        return;
      }
      DenseSize(s, 0);
      var oldSize := Size();
      var i := index;
      ghost var t := s;
      while i < oldSize - 1
        invariant index <= i <= oldSize - 1
        invariant value.payload.Array? && Holds(t)
        invariant t == ShiftedDown(s, index, i)
      {
        CopyElement(i, i + 1, t);
        ShiftStep(s, index, i);
        t := t[i := t[i + 1]];
        i := i + 1;
      }
      DenseErase(t, 0);
      value := value.(payload := Array(Erase(value.payload.values, Index(oldSize - 1))));
    }

    /** `Value::removeMember`. */
    method RemoveMember(name: ByteString) returns (removed: Option<Value>)
      requires value.payload.Object? ==> Sorted(value.payload.values)
      modifies this
      ensures !old(value).payload.Object? || removed.None? ==> value == old(value)
      ensures old(value).payload.Object? ==>
        && value.payload.Object? && Sorted(value.payload.values)
        && removed == Lookup(old(value).payload.values, Name(name))
        && Lookup(value.payload.values, Name(name)) == None
        && forall k | k != Name(name) :: Lookup(value.payload.values, k) == Lookup(old(value).payload.values, k)
    {
      if !value.payload.Object? {
        return None;
      }
      removed := Lookup(value.payload.values, Name(name));
      if removed.None? {
        return;
      }
      forall k {
        EraseRemoves(value.payload.values, Name(name), k);
      }
      value := value.(payload := Object(Erase(value.payload.values, Name(name))));
    }

    /** `Value::getMemberNames`. */
    method GetMemberNames() returns (members: seq<CZString>)
      ensures members == if value.payload.Object? then Keys(value.payload.values) else []
    {
      members := [];
      if value.payload.Object? {
        var it := value.payload.values;
        while it.Entry?
          invariant members + Keys(it) == Keys(value.payload.values)
          decreases it
        {
          members := members + [it.key];
          it := it.rest;
        }
      }
    }
  }
}
