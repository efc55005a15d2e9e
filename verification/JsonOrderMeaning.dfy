/**
 What the comparison operators of `Json::Value` mean: numbers by their value, text by its first difference, and
 containers by size and then by the first entry that differs.
 */
module JsonOrderMeaning {
  import opened Bytes
  import opened JsonValue
  import opened JsonOrder

  // ---- text ----

  /** The texts agree before place `k`; there the first one ends, or has the smaller byte. */
  predicate DifferAt(s: ByteString, t: ByteString, k: nat) {
    && k <= |s| && k < |t| && (forall i | 0 <= i < k :: s[i] == t[i])
    && (k == |s| || s[k] < t[k])
  }

  /** The order of text is that of its first difference, the bytes unsigned. */
  lemma {:induction false} BytesLessIff(s: ByteString, t: ByteString)
    ensures BytesLess(s, t) <==> exists k: nat :: DifferAt(s, t, k)
    decreases |s|
  {
    if s == [] || t == [] || s[0] != t[0] {
      if t != [] && (s == [] || s[0] < t[0]) {
        assert DifferAt(s, t, 0);
      }
    } else {
      BytesLessIff(s[1..], t[1..]);
      if k: nat :| DifferAt(s[1..], t[1..], k) {
        assert forall i | 1 <= i < k + 1 :: s[i] == s[1..][i - 1] == t[1..][i - 1] == t[i];
        assert DifferAt(s, t, k + 1);
      }
      if k: nat :| DifferAt(s, t, k) {
        assert k > 0;
        assert DifferAt(s[1..], t[1..], k - 1);
      }
    }
  }

  // ---- doubles ----

  function Pow2(n: nat): (p: nat)
    ensures p >= 1
  {
    if n == 0 then 1 else 2 * Pow2(n - 1)
  }

  const TWO_TO_THE_52: nat := 0x10_0000_0000_0000

  /** The magnitude that exponent and fraction denote, in units of the least one, 2^-1074. */
  function Magnified(exponent: nat, fraction: nat): (v: nat) {
    if exponent == 0 then fraction else (TWO_TO_THE_52 + fraction) * Pow2(exponent - 1)
  }

  /**
   The value of a double that is not a NaN, by section 3.4 of IEEE 754, in those units. The infinities come out where
   one more exponent would be, above all others.
   */
  function Scaled(d: Double): int {
    var magnitude: int := Unsigned(d.bits % 0x8000_0000_0000_0000);
    if d.bits >= 0x8000_0000_0000_0000 then -magnitude else magnitude
  }

  /** The value of the bits without the sign: eleven of exponent, then the fraction. */
  function Unsigned(bits: nat): nat { Magnified(bits / TWO_TO_THE_52, bits % TWO_TO_THE_52) }

  lemma {:induction false} Pow2Grows(m: nat, n: nat)
    requires m < n
    ensures 2 * Pow2(m) <= Pow2(n)
    decreases n
  {
    if m < n - 1 {
      Pow2Grows(m, n - 1);
    }
  }

  lemma ProductGrows(a: nat, b: nat, p: nat)
    requires a < b && p >= 1
    ensures a * p < b * p
  {
    assert b * p == a * p + (b - a) * p;
  }

  lemma FractionGrows(exponent: nat, f: nat, g: nat)
    requires f < g
    ensures Magnified(exponent, f) < Magnified(exponent, g)
  {
    if exponent > 0 {
      hide Pow2;
      ProductGrows(TWO_TO_THE_52 + f, TWO_TO_THE_52 + g, Pow2(exponent - 1));
    }
  }

  lemma ExponentGrows(e: nat, f: nat, e': nat, f': nat)
    requires e < e' && f < TWO_TO_THE_52
    ensures Magnified(e, f) < Magnified(e', f')
  {
    var p := Pow2(e' - 1);
    assert (TWO_TO_THE_52 + f') * p == TWO_TO_THE_52 * p + f' * p;
    assert f' * p >= 0;
    if e == 0 {
      assert TWO_TO_THE_52 * p >= TWO_TO_THE_52;
    } else {
      Pow2Grows(e - 1, e' - 1);
      var q := Pow2(e - 1);
      assert (TWO_TO_THE_52 + f) * q < 2 * TWO_TO_THE_52 * q;
      assert TWO_TO_THE_52 * p >= TWO_TO_THE_52 * (2 * q);
    }
  }

  /** The bits below the sign are ordered as the magnitudes they denote. */
  lemma UnsignedGrows(x: nat, y: nat)
    requires x < y
    ensures Unsigned(x) < Unsigned(y)
  {
    var e, f, e', f' := x / TWO_TO_THE_52, x % TWO_TO_THE_52, y / TWO_TO_THE_52, y % TWO_TO_THE_52;
    if e == e' {
      FractionGrows(e, f, f');
    } else {
      assert e < e';
      ExponentGrows(e, f, e', f');
    }
  }

  lemma ScaledByMagnitude(d: Double)
    ensures Unsigned(0) == 0
    ensures Magnitude(d) >= 0 ==> Scaled(d) == Unsigned(Magnitude(d))
    ensures Magnitude(d) <= 0 ==> Scaled(d) == -(Unsigned(-Magnitude(d)) as int)
  {
    ZeroUnsigned();
    hide Unsigned;
    assert d.bits >= 0x8000_0000_0000_0000 ==> d.bits % 0x8000_0000_0000_0000 == d.bits - 0x8000_0000_0000_0000;
  }

  lemma ZeroUnsigned()
    ensures Unsigned(0) == 0
  {
  }

  /** Doubles are compared by their values, and a NaN with nothing. */
  lemma DoublesByValue(x: Double, y: Double)
    ensures DoubleLess(x, y) <==> !IsNaN(x) && !IsNaN(y) && Scaled(x) < Scaled(y)
    ensures DoubleEqual(x, y) <==> !IsNaN(x) && !IsNaN(y) && Scaled(x) == Scaled(y)
  {
    ScaledByMagnitude(x);
    ScaledByMagnitude(y);
    hide Unsigned, Scaled, Magnitude, IsNaN;
    var a, b := Magnitude(x), Magnitude(y);
    ScaledGrows(a, b);
    ScaledGrows(b, a);
  }

  /** Zero counts on both sides. */
  lemma ScaledGrows(a: int, b: int)
    requires Unsigned(0) == 0
    ensures a < b && a >= 0 ==> Unsigned(a) < Unsigned(b)
    ensures a < b && b <= 0 ==> Unsigned(-b) < Unsigned(-a)
    ensures b > 0 ==> Unsigned(b) > 0
    ensures a < 0 ==> Unsigned(-a) > 0
  {
    hide Unsigned;
    if a < b && a >= 0 {
      UnsignedGrows(a, b);
    }
    if a < b && b <= 0 {
      UnsignedGrows(-b, -a);
    }
    if b > 0 {
      UnsignedGrows(0, b);
    }
    if a < 0 {
      UnsignedGrows(0, -a);
    }
  }

  // ---- whole values ----

  /** Null is before all other kinds; then come int, uint, real, string, boolean, array and object. */
  predicate KindBefore(p: Payload, q: Payload) {
    || (p.Null? && !q.Null?)
    || (p.Int? && !q.Null? && !q.Int?)
    || (p.UInt? && (q.Real? || q.String? || q.Bool? || q.Array? || q.Object?))
    || (p.Real? && (q.String? || q.Bool? || q.Array? || q.Object?))
    || (p.String? && (q.Bool? || q.Array? || q.Object?))
    || (p.Bool? && (q.Array? || q.Object?))
    || (p.Array? && q.Object?)
  }

  /** The entries of a map in its order. */
  function Entries(m: ObjectValues): seq<(CZString, Value)> {
    match m
    case Empty => []
    case Entry(key, value, rest) => [(key, value)] + Entries(rest)
  }

  ghost predicate KeyBefore(k: CZString, l: CZString) {
    || (k.Index? && l.Index? && k.index < l.index)
    || (k.Name? && l.Name? && exists n: nat :: DifferAt(k.text, l.text, n))
    || (k.Index? && l.Name?)
  }

  /** Neither of the values is less than the other. */
  predicate Level(a: Value, b: Value) { !Less(a, b) && !Less(b, a) }

  predicate SameEntry(a: (CZString, Value), b: (CZString, Value)) { a.0 == b.0 && Level(a.1, b.1) }

  /** The smaller key decides, and under one key the lesser value. */
  ghost predicate SmallerEntry(a: (CZString, Value), b: (CZString, Value)) {
    KeyBefore(a.0, b.0) || (a.0 == b.0 && Less(a.1, b.1))
  }

  /** The entries agree before place `k`; there the first map ends, or has the smaller entry. */
  ghost predicate EntriesDifferAt(m: seq<(CZString, Value)>, n: seq<(CZString, Value)>, k: nat) {
    && k <= |m| && k < |n|
    && (forall i | 0 <= i < k :: SameEntry(m[i], n[i]))
    && (k == |m| || SmallerEntry(m[k], n[k]))
  }

  ghost predicate SequenceBefore(m: seq<(CZString, Value)>, n: seq<(CZString, Value)>) {
    exists k: nat :: EntriesDifferAt(m, n, k)
  }

  ghost predicate ContainerBefore(m: ObjectValues, n: ObjectValues) {
    if |Entries(m)| != |Entries(n)| then |Entries(m)| < |Entries(n)| else SequenceBefore(Entries(m), Entries(n))
  }

  /** One value is before another by its kind, or within it by what it holds. */
  ghost predicate Before(p: Payload, q: Payload) {
    match (p, q)
    case (Int(i), Int(j)) => i < j
    case (UInt(u), UInt(w)) => u < w
    case (Real(d), Real(e)) => !IsNaN(d) && !IsNaN(e) && Scaled(d) < Scaled(e)
    case (String(s), String(t)) => exists k: nat :: DifferAt(s, t, k)
    case (Bool(f), Bool(g)) => !f && g
    case (Array(m), Array(n)) => ContainerBefore(m, n)
    case (Object(m), Object(n)) => ContainerBefore(m, n)
    case (_, _) => KindBefore(p, q)
  }

  lemma KeyLessIff(k: CZString, l: CZString)
    ensures KeyLess(k, l) <==> KeyBefore(k, l)
  {
    hide BytesLess, DifferAt;
    if k.Name? && l.Name? {
      BytesLessIff(k.text, l.text);
    }
  }

  lemma {:induction false} EntriesCount(m: ObjectValues)
    ensures |Entries(m)| == Count(m)
  {
    if m.Entry? {
      EntriesCount(m.rest);
    }
  }

  lemma {:induction false} MapLessIff(m: ObjectValues, n: ObjectValues)
    ensures MapLess(m, n) <==> SequenceBefore(Entries(m), Entries(n))
    decreases m
  {
    if m.Empty? || n.Empty? {
      EmptyBefore(Entries(m), Entries(n));
    } else {
      KeyLessTotal(m.key, n.key);
      KeyLessIff(m.key, n.key);
      KeyLessIff(n.key, m.key);
      MapLessIff(m.rest, n.rest);
      FirstDecides((m.key, m.value), Entries(m.rest), (n.key, n.value), Entries(n.rest));
      hide SequenceBefore, KeyBefore, KeyLess;
    }
  }

  lemma EmptyBefore(s: seq<(CZString, Value)>, t: seq<(CZString, Value)>)
    requires s == [] || t == []
    ensures SequenceBefore(s, t) <==> t != []
  {
    if s == [] && t != [] {
      assert EntriesDifferAt(s, t, 0);
    }
  }

  /** A difference is at the first entry, or behind entries that agree. */
  lemma FirstDecides(a: (CZString, Value), s: seq<(CZString, Value)>, b: (CZString, Value),
                     t: seq<(CZString, Value)>)
    ensures SequenceBefore([a] + s, [b] + t) <==> SmallerEntry(a, b) || (SameEntry(a, b) && SequenceBefore(s, t))
  {
    hide SmallerEntry, SameEntry, EntriesDifferAt;
    var u, v := [a] + s, [b] + t;
    DifferAtFirst(a, s, b, t);
    if SequenceBefore(u, v) {
      var k: nat :| EntriesDifferAt(u, v, k);
      if k > 0 {
        DifferLater(a, s, b, t, k - 1);
      }
    }
    if SequenceBefore(s, t) {
      var k: nat :| EntriesDifferAt(s, t, k);
      DifferLater(a, s, b, t, k);
    }
  }

  lemma DifferAtFirst(a: (CZString, Value), s: seq<(CZString, Value)>, b: (CZString, Value),
                      t: seq<(CZString, Value)>)
    ensures EntriesDifferAt([a] + s, [b] + t, 0) <==> SmallerEntry(a, b)
  {
    hide SmallerEntry, SameEntry;
  }

  lemma DifferLater(a: (CZString, Value), s: seq<(CZString, Value)>, b: (CZString, Value),
                    t: seq<(CZString, Value)>, n: nat)
    ensures EntriesDifferAt([a] + s, [b] + t, n + 1) <==> SameEntry(a, b) && EntriesDifferAt(s, t, n)
  {
    hide SmallerEntry, SameEntry;
    var u, v := [a] + s, [b] + t;
    if EntriesDifferAt(u, v, n + 1) {
      assert SameEntry(u[0], v[0]);
      forall i | 0 <= i < n ensures SameEntry(s[i], t[i]) {
        assert SameEntry(u[i + 1], v[i + 1]);
      }
    }
    if SameEntry(a, b) && EntriesDifferAt(s, t, n) {
      forall i | 0 <= i < n + 1 ensures SameEntry(u[i], v[i]) {
        if i > 0 {
          assert SameEntry(s[i - 1], t[i - 1]);
        }
      }
    }
  }

  lemma KindsAreTypes(p: Payload, q: Payload)
    ensures KindBefore(p, q) <==> Type(p) < Type(q)
  {
  }

  /** `operator<`: kinds first, numbers by value, text and containers by their first difference. */
  lemma LessIff(a: Value, b: Value)
    ensures Less(a, b) <==> Before(a.payload, b.payload)
  {
    hide KindBefore, Scaled, IsNaN, MapLess, BytesLess, SequenceBefore, DifferAt;
    KindsAreTypes(a.payload, b.payload);
    match (a.payload, b.payload)
    case (String(s), String(t)) => BytesLessIff(s, t);
    case (Real(d), Real(e)) => DoublesByValue(d, e);
    case (Array(m), Array(n)) => ContainerIff(m, n);
    case (Object(m), Object(n)) => ContainerIff(m, n);
    case (_, _) =>
  }

  lemma ContainerIff(m: ObjectValues, n: ObjectValues)
    ensures SizeThenMapLess(m, n) <==> ContainerBefore(m, n)
  {
    hide MapLess, SequenceBefore;
    EntriesCount(m);
    EntriesCount(n);
    MapLessIff(m, n);
  }
}
