/** The comparison operators of `Json::Value`, and why they order every NaN-free tree totally. */
module JsonOrder {
  import opened Bytes
  import opened JsonValue

  // ---- doubles ----

  predicate IsNaN(d: Double) { d.bits % 0x8000_0000_0000_0000 > 0x7ff0_0000_0000_0000 }

  /** A number that orders the non-NaN doubles as IEEE 754 does; both zeros map to 0. */
  function Magnitude(d: Double): int {
    if d.bits < 0x8000_0000_0000_0000 then d.bits else 0x8000_0000_0000_0000 - d.bits
  }

  predicate DoubleLess(x: Double, y: Double) { !IsNaN(x) && !IsNaN(y) && Magnitude(x) < Magnitude(y) }

  predicate DoubleEqual(x: Double, y: Double) { !IsNaN(x) && !IsNaN(y) && Magnitude(x) == Magnitude(y) }

  // ---- Value::operator< and Value::operator== ----

  /** `Value::type()`, by the numbers of `enum ValueType`. */
  function Type(p: Payload): nat {
    match p
    case Null => 0
    case Int(_) => 1
    case UInt(_) => 2
    case Real(_) => 3
    case String(_) => 4
    case Bool(_) => 5
    case Array(_) => 6
    case Object(_) => 7
  }

  predicate Less(a: Value, b: Value)
    decreases Weight(a) + Weight(b)
  {
    if Type(a.payload) != Type(b.payload) then Type(a.payload) < Type(b.payload)
    else match a.payload
      case Null => false
      case Int(i) => i < b.payload.i
      case UInt(u) => u < b.payload.u
      case Real(d) => DoubleLess(d, b.payload.d)
      case Bool(f) => !f && b.payload.b
      case String(s) => BytesLess(s, b.payload.text)
      case Array(m) => SizeThenMapLess(m, b.payload.values)
      case Object(m) => SizeThenMapLess(m, b.payload.values)
  }

  predicate SizeThenMapLess(m: ObjectValues, n: ObjectValues)
    decreases MapWeight(m) + MapWeight(n), 1
  {
    if Count(m) != Count(n) then Count(m) < Count(n) else MapLess(m, n)
  }

  /** `operator<` of `std::map`: lexicographic over the entries, each compared as a `std::pair`. */
  predicate MapLess(m: ObjectValues, n: ObjectValues)
    decreases MapWeight(m) + MapWeight(n), 0
  {
    if m.Empty? || n.Empty? then n.Entry?
    else if KeyLess(m.key, n.key) || (!KeyLess(n.key, m.key) && Less(m.value, n.value)) then true
    else if KeyLess(n.key, m.key) || (!KeyLess(m.key, n.key) && Less(n.value, m.value)) then false
    else MapLess(m.rest, n.rest)
  }

  predicate Equal(a: Value, b: Value)
    decreases a.payload
  {
    match (a.payload, b.payload)
    case (Null, Null) => true
    case (Int(i), Int(j)) => i == j
    case (UInt(u), UInt(w)) => u == w
    case (Real(d), Real(e)) => DoubleEqual(d, e)
    case (Bool(f), Bool(g)) => f == g
    case (String(s), String(t)) => s == t
    case (Array(m), Array(n)) => Count(m) == Count(n) && MapEqual(m, n)
    case (Object(m), Object(n)) => Count(m) == Count(n) && MapEqual(m, n)
    case (_, _) => false
  }

  /** `operator==` of `std::map`. */
  predicate MapEqual(m: ObjectValues, n: ObjectValues)
    decreases m
  {
    match m
    case Empty => n.Empty?
    case Entry(key, value, rest) => n.Entry? && key == n.key && Equal(value, n.value) && MapEqual(rest, n.rest)
  }

  // ---- normal forms: offsets dropped and the two zeros identified ----

  function Norm(v: Value): Value {
    match v.payload
    case Real(d) => Value(Real(if d.bits == 0x8000_0000_0000_0000 then Double(0) else d), 0, 0)
    case Array(m) => Value(Array(NormMap(m)), 0, 0)
    case Object(m) => Value(Object(NormMap(m)), 0, 0)
    case p => Value(p, 0, 0)
  }

  function NormMap(m: ObjectValues): (n: ObjectValues)
    ensures Count(n) == Count(m)
  {
    match m
    case Empty => Empty
    case Entry(key, value, rest) => Entry(key, Norm(value), NormMap(rest))
  }

  /** No double in the tree is a NaN. */
  predicate NaNFree(v: Value) {
    match v.payload
    case Real(d) => !IsNaN(d)
    case Array(m) => MapNaNFree(m)
    case Object(m) => MapNaNFree(m)
    case _ => true
  }

  predicate MapNaNFree(m: ObjectValues) {
    match m
    case Empty => true
    case Entry(_, value, rest) => NaNFree(value) && MapNaNFree(rest)
  }

  lemma {:induction false} LessNorm(a: Value, b: Value)
    ensures Less(a, b) == Less(Norm(a), Norm(b))
    decreases Weight(a) + Weight(b)
  {
    if Type(a.payload) == Type(b.payload) && Type(a.payload) >= 6 {
      MapLessNorm(a.payload.values, b.payload.values);
    }
  }

  lemma {:induction false} MapLessNorm(m: ObjectValues, n: ObjectValues)
    ensures MapLess(m, n) == MapLess(NormMap(m), NormMap(n))
    decreases MapWeight(m) + MapWeight(n)
  {
    if m.Entry? && n.Entry? {
      LessNorm(m.value, n.value);
      LessNorm(n.value, m.value);
      MapLessNorm(m.rest, n.rest);
    }
  }

  /** `operator==` sees exactly the normal form. */
  lemma {:induction false} EqualIsNormEqual(a: Value, b: Value)
    requires NaNFree(a)
    ensures Equal(a, b) <==> Norm(a) == Norm(b)
    decreases a
  {
    if Type(a.payload) == Type(b.payload) && Type(a.payload) >= 6 {
      MapEqualIsNormEqual(a.payload.values, b.payload.values);
      if NormMap(a.payload.values) == NormMap(b.payload.values) {
        NormMapCount(a.payload.values, b.payload.values);
      }
    }
  }

  lemma NormMapCount(m: ObjectValues, n: ObjectValues)
    requires NormMap(m) == NormMap(n)
    ensures Count(m) == Count(n)
  {
    assert Count(m) == Count(NormMap(m));
  }

  lemma {:induction false} MapEqualIsNormEqual(m: ObjectValues, n: ObjectValues)
    requires MapNaNFree(m)
    ensures MapEqual(m, n) <==> NormMap(m) == NormMap(n)
    decreases m
  {
    if m.Entry? && n.Entry? {
      EqualIsNormEqual(m.value, n.value);
      MapEqualIsNormEqual(m.rest, n.rest);
    }
  }

  // ---- the order is strict and total ----

  predicate ExactlyOne(p: bool, q: bool, r: bool) {
    (p && !q && !r) || (!p && q && !r) || (!p && !q && r)
  }

  lemma {:induction false} Trichotomy(a: Value, b: Value)
    requires NaNFree(a) && NaNFree(b)
    ensures ExactlyOne(Less(a, b), Less(b, a), Equal(a, b))
    decreases a
  {
    if Type(a.payload) == Type(b.payload) {
      if Type(a.payload) >= 6 {
        MapTrichotomy(a.payload.values, b.payload.values);
      } else if a.payload.String? {
        BytesLessTotal(a.payload.text, b.payload.text);
      }
    }
  }

  lemma {:induction false} MapTrichotomy(m: ObjectValues, n: ObjectValues)
    requires MapNaNFree(m) && MapNaNFree(n)
    ensures ExactlyOne(MapLess(m, n), MapLess(n, m), MapEqual(m, n))
    decreases m
  {
    if m.Entry? && n.Entry? {
      KeyLessTotal(m.key, n.key);
      Trichotomy(m.value, n.value);
      MapTrichotomy(m.rest, n.rest);
    }
  }

  /** One NaN anywhere in the tree is enough to spoil the order: the tree no longer equals itself. */
  lemma TrichotomyIff(a: Value)
    ensures !Less(a, a)
    ensures ExactlyOne(Less(a, a), Less(a, a), Equal(a, a)) <==> NaNFree(a)
  {
    NeverLessThanItself(a);
    if NaNFree(a) {
      Trichotomy(a, a);
    } else {
      NaNUnequal(a);
    }
  }

  lemma {:induction false} NeverLessThanItself(a: Value)
    ensures !Less(a, a)
  {
    if Type(a.payload) >= 6 {
      NeverMapLessThanItself(a.payload.values);
    } else if a.payload.String? {
      BytesLessTotal(a.payload.text, a.payload.text);
    }
  }

  lemma {:induction false} NeverMapLessThanItself(m: ObjectValues)
    ensures !MapLess(m, m)
  {
    if m.Entry? {
      KeyLessTotal(m.key, m.key);
      NeverLessThanItself(m.value);
      NeverMapLessThanItself(m.rest);
    }
  }

  lemma {:induction false} NaNUnequal(a: Value)
    requires !NaNFree(a)
    ensures !Equal(a, a)
  {
    if Type(a.payload) >= 6 {
      MapNaNUnequal(a.payload.values);
    }
  }

  lemma {:induction false} MapNaNUnequal(m: ObjectValues)
    requires !MapNaNFree(m)
    ensures !MapEqual(m, m)
  {
    if NaNFree(m.value) {
      MapNaNUnequal(m.rest);
    } else {
      NaNUnequal(m.value);
    }
  }

  /** In normal form, neither less nor greater is the same. */
  lemma TrichotomyOnNorms(a: Value, b: Value)
    requires NaNFree(a) && NaNFree(b) && Norm(a) == a && Norm(b) == b
    ensures ExactlyOne(Less(a, b), Less(b, a), a == b)
  {
    Trichotomy(a, b);
    EqualIsNormEqual(a, b);
  }

  lemma {:induction false} TransitiveOnNorms(a: Value, b: Value, c: Value)
    requires NaNFree(a) && NaNFree(b) && NaNFree(c)
    requires Norm(a) == a && Norm(b) == b && Norm(c) == c
    requires Less(a, b) && Less(b, c)
    ensures Less(a, c)
    decreases a
  {
    if Type(a.payload) == Type(b.payload) == Type(c.payload) {
      if Type(a.payload) >= 6 {
        if Count(a.payload.values) == Count(b.payload.values) == Count(c.payload.values) {
          MapTransitiveOnNorms(a.payload.values, b.payload.values, c.payload.values);
        }
      } else if a.payload.String? {
        BytesLessTransitive(a.payload.text, b.payload.text, c.payload.text);
      }
    }
  }

  lemma {:induction false} MapTransitiveOnNorms(m: ObjectValues, n: ObjectValues, o: ObjectValues)
    requires MapNaNFree(m) && MapNaNFree(n) && MapNaNFree(o)
    requires NormMap(m) == m && NormMap(n) == n && NormMap(o) == o
    requires MapLess(m, n) && MapLess(n, o)
    ensures MapLess(m, o)
    decreases m
  {
    if m.Entry? && n.Entry? && o.Entry? {
      KeyLessTotal(m.key, n.key);
      KeyLessTotal(n.key, o.key);
      KeyLessTotal(m.key, o.key);
      if KeyLess(m.key, n.key) && KeyLess(n.key, o.key) {
        KeyLessTransitive(m.key, n.key, o.key);
      } else if m.key == n.key == o.key {
        TrichotomyOnNorms(m.value, n.value);
        TrichotomyOnNorms(n.value, o.value);
        TrichotomyOnNorms(m.value, o.value);
        if Less(m.value, n.value) && Less(n.value, o.value) {
          TransitiveOnNorms(m.value, n.value, o.value);
        } else if m.value == n.value == o.value {
          MapTransitiveOnNorms(m.rest, n.rest, o.rest);
        }
      }
    }
  }

  lemma {:induction false} NormIsNorm(v: Value)
    ensures Norm(Norm(v)) == Norm(v)
    ensures NaNFree(Norm(v)) == NaNFree(v)
  {
    if Type(v.payload) >= 6 {
      NormMapIsNorm(v.payload.values);
    }
  }

  lemma {:induction false} NormMapIsNorm(m: ObjectValues)
    ensures NormMap(NormMap(m)) == NormMap(m)
    ensures MapNaNFree(NormMap(m)) == MapNaNFree(m)
  {
    if m.Entry? {
      NormIsNorm(m.value);
      NormMapIsNorm(m.rest);
    }
  }

  /** `operator<` is transitive on NaN-free trees. */
  lemma Transitive(a: Value, b: Value, c: Value)
    requires NaNFree(a) && NaNFree(b) && NaNFree(c)
    requires Less(a, b) && Less(b, c)
    ensures Less(a, c)
  {
    NormIsNorm(a);
    NormIsNorm(b);
    NormIsNorm(c);
    LessNorm(a, b);
    LessNorm(b, c);
    LessNorm(a, c);
    TransitiveOnNorms(Norm(a), Norm(b), Norm(c));
  }

  /** Equal trees are interchangeable in comparisons, and equality is an equivalence. */
  lemma EqualIsCongruence(a: Value, b: Value, c: Value)
    requires NaNFree(a) && NaNFree(b) && NaNFree(c) && Equal(a, b)
    ensures Less(a, c) == Less(b, c) && Less(c, a) == Less(c, b) && Equal(a, c) == Equal(b, c) && Equal(b, a)
  {
    EqualIsNormEqual(a, b);
    EqualIsNormEqual(b, a);
    EqualIsNormEqual(a, c);
    EqualIsNormEqual(b, c);
    LessNorm(a, c);
    LessNorm(b, c);
    LessNorm(c, a);
    LessNorm(c, b);
  }
}
