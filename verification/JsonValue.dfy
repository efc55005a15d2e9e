/** The value tree of jsoncpp: what `Json::Value` holds, and its ordered maps. */
module JsonValue {
  import opened Bytes

  datatype Option<+T> = None | Some(value: T)

  /** A `double`, by its 64-bit pattern. */
  datatype Double = Double(bits: UInt64)

  const QUIET_NAN := Double(0x7ff8_0000_0000_0000)
  const INFINITY := Double(0x7ff0_0000_0000_0000)
  const MINUS_INFINITY := Double(0xfff0_0000_0000_0000)

  /** A map key: the index of an array element or the name of an object member. One map never mixes them. */
  datatype CZString = Index(index: nat) | Name(text: ByteString)

  /** What `swapPayload` exchanges: the type tag and the held value. */
  datatype Payload =
    | Null
    | Int(i: Int64)
    | UInt(u: UInt64)
    | Real(d: Double)
    | String(text: ByteString)
    | Bool(b: bool)
    | Array(values: ObjectValues)
    | Object(values: ObjectValues)

  /** A value and the range of the document it was read from. */
  datatype Value = Value(payload: Payload, start: int, limit: int)

  /** `std::map<CZString, Value>`: the entries, in the order the map iterates over them. */
  datatype ObjectValues = Empty | Entry(key: CZString, value: Value, rest: ObjectValues)

  const NULL_SINGLETON := Value(Null, 0, 0)

  /** A size that grows with every level and every entry; the measure for recursion over trees. */
  ghost function Weight(v: Value): (w: nat)
    ensures w >= 1
  {
    match v.payload
    case Array(m) => 3 + MapWeight(m)
    case Object(m) => 3 + MapWeight(m)
    case _ => 1
  }

  ghost function MapWeight(m: ObjectValues): nat {
    match m
    case Empty => 0
    case Entry(_, value, rest) => 1 + Weight(value) + MapWeight(rest)
  }

  // ---- memcmp and the order of the keys ----

  /** memcmp: the sign of the first difference among the first `n` bytes. */
  function Memcmp(s: ByteString, t: ByteString, n: nat): (c: int)
    requires n <= |s| && n <= |t|
    decreases n
  {
    if n == 0 then 0
    else if s[0] < t[0] then -1
    else if s[0] > t[0] then 1
    else Memcmp(s[1..], t[1..], n - 1)
  }

  function Min(a: nat, b: nat): nat { if a < b then a else b }

  /** The string comparison shared by `CZString::operator<` and the string case of `Value::operator<`. */
  predicate BytesLess(s: ByteString, t: ByteString) {
    var comp := Memcmp(s, t, Min(|s|, |t|));
    comp < 0 || (comp == 0 && |s| < |t|)
  }

  predicate KeyLess(k: CZString, l: CZString) {
    match (k, l)
    case (Index(i), Index(j)) => i < j
    case (Name(s), Name(t)) => BytesLess(s, t)
    case (Index(_), Name(_)) => true
    case (Name(_), Index(_)) => false
  }

  lemma {:induction false} BytesLessTotal(s: ByteString, t: ByteString)
    ensures BytesLess(s, t) || BytesLess(t, s) || s == t
    ensures !(BytesLess(s, t) && BytesLess(t, s))
    ensures s == t ==> !BytesLess(s, t)
    decreases |s|
  {
    if |s| > 0 && |t| > 0 && s[0] == t[0] {
      BytesLessTotal(s[1..], t[1..]);
      assert s == [s[0]] + s[1..] && t == [t[0]] + t[1..];
    }
  }

  lemma {:induction false} BytesLessTransitive(s: ByteString, t: ByteString, u: ByteString)
    requires BytesLess(s, t) && BytesLess(t, u)
    ensures BytesLess(s, u)
    decreases |s|
  {
    if |s| > 0 && |t| > 0 && |u| > 0 && s[0] == t[0] == u[0] {
      BytesLessTransitive(s[1..], t[1..], u[1..]);
    }
  }

  lemma KeyLessTotal(k: CZString, l: CZString)
    ensures KeyLess(k, l) || KeyLess(l, k) || k == l
    ensures !(KeyLess(k, l) && KeyLess(l, k))
    ensures k == l ==> !KeyLess(k, l)
  {
    if k.Name? && l.Name? {
      BytesLessTotal(k.text, l.text);
    }
  }

  lemma KeyLessTransitive(k: CZString, l: CZString, m: CZString)
    requires KeyLess(k, l) && KeyLess(l, m)
    ensures KeyLess(k, m)
  {
    if k.Name? && l.Name? && m.Name? {
      BytesLessTransitive(k.text, l.text, m.text);
    }
  }

  // ---- the operations of std::map that jsoncpp uses ----

  /** `find`. */
  function Lookup(m: ObjectValues, k: CZString): (found: Option<Value>)
    ensures found.Some? ==> Weight(found.value) < MapWeight(m)
  {
    match m
    case Empty => None
    case Entry(key, value, rest) => if key == k then Some(value) else Lookup(rest, k)
  }

  /** The value `operator[]` refers to: a missing entry is created as null. */
  function Get(m: ObjectValues, k: CZString): (v: Value)
    ensures Weight(v) < MapWeight(m) + 2
  {
    match Lookup(m, k)
    case None => NULL_SINGLETON
    case Some(v) => v
  }

  /** Assignment through the reference `operator[]` returns: `lower_bound`, then overwrite or insert there. */
  function Put(m: ObjectValues, k: CZString, v: Value): ObjectValues {
    match m
    case Empty => Entry(k, v, Empty)
    case Entry(key, value, rest) =>
      if KeyLess(key, k) then Entry(key, value, Put(rest, k, v))
      else if key == k then Entry(key, v, rest)
      else Entry(k, v, m)
  }

  /** `erase`. */
  function Erase(m: ObjectValues, k: CZString): ObjectValues {
    match m
    case Empty => Empty
    case Entry(key, value, rest) => if key == k then rest else Entry(key, value, Erase(rest, k))
  }

  function Count(m: ObjectValues): nat {
    match m
    case Empty => 0
    case Entry(_, _, rest) => 1 + Count(rest)
  }

  /** `Value::size` of an array: the highest index plus one. */
  function ArraySize(m: ObjectValues): nat {
    match m
    case Empty => 0
    case Entry(key, _, Empty) => if key.Index? then key.index + 1 else 0
    case Entry(_, _, rest) => ArraySize(rest)
  }

  /** Every key of `m` is above `k`. */
  predicate AllAbove(m: ObjectValues, k: CZString) {
    match m
    case Empty => true
    case Entry(key, _, rest) => KeyLess(k, key) && AllAbove(rest, k)
  }

  /** Every key of `m` is below `k`. */
  predicate AllBelow(m: ObjectValues, k: CZString) {
    match m
    case Empty => true
    case Entry(key, _, rest) => KeyLess(key, k) && AllBelow(rest, k)
  }

  /** The keys ascend strictly, as in every `std::map`. */
  predicate Sorted(m: ObjectValues) {
    match m
    case Empty => true
    case Entry(key, _, rest) => AllAbove(rest, key) && Sorted(rest)
  }

  lemma {:induction false} AllAboveTransitive(m: ObjectValues, k: CZString, l: CZString)
    requires AllAbove(m, l) && KeyLess(k, l)
    ensures AllAbove(m, k)
  {
    if m.Entry? {
      KeyLessTransitive(k, l, m.key);
      AllAboveTransitive(m.rest, k, l);
    }
  }

  lemma {:induction false} AllBelowTransitive(m: ObjectValues, k: CZString, l: CZString)
    requires AllBelow(m, k) && KeyLess(k, l)
    ensures AllBelow(m, l)
  {
    if m.Entry? {
      KeyLessTransitive(m.key, k, l);
      AllBelowTransitive(m.rest, k, l);
    }
  }

  lemma {:induction false} AboveNotFound(m: ObjectValues, k: CZString)
    requires AllAbove(m, k)
    ensures Lookup(m, k) == None
  {
    if m.Entry? {
      KeyLessTotal(k, m.key);
      AboveNotFound(m.rest, k);
    }
  }

  /** Assignment through `operator[]` keeps the map sorted, sets the one entry and leaves every other alone. */
  lemma {:induction false} PutIsUpdate(m: ObjectValues, k: CZString, v: Value, other: CZString)
    requires Sorted(m)
    ensures Sorted(Put(m, k, v))
    ensures AllAbove(m, other) && KeyLess(other, k) ==> AllAbove(Put(m, k, v), other)
    ensures Lookup(Put(m, k, v), k) == Some(v)
    ensures other != k ==> Lookup(Put(m, k, v), other) == Lookup(m, other)
    ensures Count(Put(m, k, v)) == Count(m) + if Lookup(m, k).Some? then 0 else 1
  {
    if m.Entry? {
      KeyLessTotal(m.key, k);
      PutIsUpdate(m.rest, k, v, other);
      PutIsUpdate(m.rest, k, v, m.key);
      if KeyLess(k, m.key) {
        AllAboveTransitive(m.rest, k, m.key);
        AboveNotFound(m.rest, k);
      }
    }
  }

  /** `removeMember`: the entry goes, every other stays. */
  lemma {:induction false} EraseRemoves(m: ObjectValues, k: CZString, other: CZString)
    requires Sorted(m)
    ensures Sorted(Erase(m, k))
    ensures AllAbove(m, other) ==> AllAbove(Erase(m, k), other)
    ensures Lookup(Erase(m, k), k) == None
    ensures other != k ==> Lookup(Erase(m, k), other) == Lookup(m, other)
  {
    if m.Entry? {
      EraseRemoves(m.rest, k, other);
      EraseRemoves(m.rest, k, m.key);
      AboveNotFound(m.rest, m.key);
    }
  }

  /** Concatenation; the map that results from inserting the keys of `n` after those of `m`. */
  function Append(m: ObjectValues, n: ObjectValues): ObjectValues {
    match m
    case Empty => n
    case Entry(key, value, rest) => Entry(key, value, Append(rest, n))
  }

  lemma {:induction false} AppendAssociative(m: ObjectValues, n: ObjectValues, o: ObjectValues)
    ensures Append(Append(m, n), o) == Append(m, Append(n, o))
  {
    if m.Entry? {
      AppendAssociative(m.rest, n, o);
    }
  }

  lemma {:induction false} AppendEmpty(m: ObjectValues)
    ensures Append(m, Empty) == m
  {
    if m.Entry? {
      AppendEmpty(m.rest);
    }
  }

  /** Inserting above every key appends, and the key was not there before. */
  lemma {:induction false} PutLast(m: ObjectValues, k: CZString, v: Value)
    requires AllBelow(m, k)
    ensures Lookup(m, k) == None
    ensures Put(m, k, v) == Append(m, Entry(k, v, Empty))
  {
    if m.Entry? {
      KeyLessTotal(m.key, k);
      PutLast(m.rest, k, v);
    }
  }

  lemma {:induction false} BelowAfterPut(m: ObjectValues, k: CZString, v: Value, l: CZString)
    requires AllBelow(m, k) && KeyLess(k, l)
    ensures AllBelow(Append(m, Entry(k, v, Empty)), l)
  {
    if m.Entry? {
      KeyLessTransitive(m.key, k, l);
      BelowAfterPut(m.rest, k, v, l);
    }
  }

  /** `s` is what is left of `m` from one of its entries on. */
  ghost predicate Within(s: ObjectValues, m: ObjectValues) {
    forall k :: Lookup(s, k).Some? ==> Lookup(m, k) == Lookup(s, k)
  }

  lemma RestIsWithin(s: ObjectValues, m: ObjectValues)
    requires s.Entry? && Sorted(s) && Within(s, m)
    ensures Lookup(m, s.key) == Some(s.value) && Within(s.rest, m)
  {
    assert Lookup(s, s.key) == Some(s.value);
    forall k | Lookup(s.rest, k).Some? ensures Lookup(m, k) == Lookup(s.rest, k) {
      AboveNotFound(s.rest, s.key);
      assert Lookup(s, k) == Lookup(s.rest, k);
    }
  }
}
