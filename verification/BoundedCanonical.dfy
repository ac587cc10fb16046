/** The bounded list of smallest keys that makes class and attribute evidence canonical. */
module BoundedCanonical {
  import opened JsText

  ghost predicate Sorted<T>(values: seq<T>, keyOf: T -> JsString) {
    forall i, j :: 0 <= i < j < |values| ==> Less(keyOf(values[i]), keyOf(values[j]))
  }

  ghost predicate HasKey<T>(values: seq<T>, key: JsString, keyOf: T -> JsString) {
    exists i :: 0 <= i < |values| && keyOf(values[i]) == key
  }

  /** The number of leading values whose key is smaller than `key`. */
  function Rank<T>(values: seq<T>, key: JsString, keyOf: T -> JsString): (r: nat)
    ensures r <= |values|
    ensures forall i :: 0 <= i < r ==> Less(keyOf(values[i]), key)
    ensures r < |values| ==> !Less(keyOf(values[r]), key)
  {
    if values != [] && Less(keyOf(values[0]), key) then 1 + Rank(values[1..], key, keyOf) else 0
  }

  lemma RankIs<T>(values: seq<T>, key: JsString, index: nat, keyOf: T -> JsString)
    requires index <= |values| && forall i :: 0 <= i < index ==> Less(keyOf(values[i]), key)
    requires index < |values| ==> !Less(keyOf(values[index]), key)
    ensures Rank(values, key, keyOf) == index
  {
    hide Rank, Less;
    var r := Rank(values, key, keyOf);
  }

  /** Sorted insertion of a new key, cut back to the `maximum` smallest; a known key keeps its first value. */
  function Insert<T>(values: seq<T>, value: T, maximum: nat, keyOf: T -> JsString): seq<T> {
    var at := Rank(values, keyOf(value), keyOf);
    if at < |values| && keyOf(values[at]) == keyOf(value) then values
    else
      var longer := values[..at] + [value] + values[at..];
      if |longer| <= maximum then longer else longer[..maximum]
  }

  /** The evidence left after inserting `source` from left to right. */
  function Canonical<T>(source: seq<T>, maximum: nat, keyOf: T -> JsString): seq<T> {
    if source == [] then []
    else Insert(Canonical(source[..|source| - 1], maximum, keyOf), source[|source| - 1], maximum, keyOf)
  }

  lemma CanonicalNext<T>(source: seq<T>, value: T, maximum: nat, keyOf: T -> JsString)
    ensures Canonical(source + [value], maximum, keyOf) == Insert(Canonical(source, maximum, keyOf), value, maximum, keyOf)
  {
    assert (source + [value])[..|source|] == source;
  }

  /** `value` is the first value of `source` with its key. */
  ghost predicate IsFirst<T>(source: seq<T>, value: T, keyOf: T -> JsString) {
    exists i :: 0 <= i < |source| && source[i] == value &&
      forall j :: 0 <= j < i ==> keyOf(source[j]) != keyOf(value)
  }

  /** `kept` holds the first value of each of the `maximum` smallest distinct keys of `source`, in key order. */
  ghost predicate KeepsSmallest<T>(source: seq<T>, kept: seq<T>, maximum: nat, keyOf: T -> JsString) {
    && |kept| <= maximum
    && Sorted(kept, keyOf)
    && (forall i :: 0 <= i < |kept| ==> IsFirst(source, kept[i], keyOf))
    && (forall i :: 0 <= i < |source| ==> Kept(kept, keyOf(source[i]), maximum, keyOf))
  }

  /** A key is kept, or the list is full of smaller keys. */
  ghost predicate Kept<T>(kept: seq<T>, key: JsString, maximum: nat, keyOf: T -> JsString) {
    || HasKey(kept, key, keyOf)
    || (|kept| == maximum && forall i :: 0 <= i < |kept| ==> Less(keyOf(kept[i]), key))
  }

  lemma InsertSorted<T>(values: seq<T>, value: T, maximum: nat, keyOf: T -> JsString)
    requires Sorted(values, keyOf)
    ensures Sorted(Insert(values, value, maximum, keyOf), keyOf)
  {
    hide Rank, Less;
    var key := keyOf(value);
    var at := Rank(values, key, keyOf);
    if at < |values| && keyOf(values[at]) != key {
      LessTotal(keyOf(values[at]), key);
      forall j | at < j < |values| ensures Less(key, keyOf(values[j])) {
        LessTransitive(key, keyOf(values[at]), keyOf(values[j]));
      }
    }
  }

  /** One insertion keeps the list canonical for the longer source. */
  lemma InsertKeepsSmallest<T>(source: seq<T>, values: seq<T>, value: T, maximum: nat, keyOf: T -> JsString)
    requires KeepsSmallest(source, values, maximum, keyOf)
    ensures KeepsSmallest(source + [value], Insert(values, value, maximum, keyOf), maximum, keyOf)
  {
    hide Rank, Less, Kept, IsFirst, Sorted, HasKey;
    var longer := source + [value];
    var at := Rank(values, keyOf(value), keyOf);
    var kept := Insert(values, value, maximum, keyOf);
    InsertSorted(values, value, maximum, keyOf);
    forall i | 0 <= i < |values| ensures IsFirst(longer, values[i], keyOf) {
      FirstOfLonger(source, value, values[i], keyOf);
    }
    if !(at < |values| && keyOf(values[at]) == keyOf(value)) {
      InsertedValueIsFirst(source, values, value, maximum, keyOf);
    }
    forall i | 0 <= i < |longer| ensures Kept(kept, keyOf(longer[i]), maximum, keyOf) {
      assert i < |source| ==> longer[i] == source[i];
      InsertKeeps(values, value, maximum, keyOf, keyOf(longer[i]));
    }
  }

  lemma FirstOfLonger<T>(source: seq<T>, more: T, value: T, keyOf: T -> JsString)
    requires IsFirst(source, value, keyOf)
    ensures IsFirst(source + [more], value, keyOf)
  {
    var k :| 0 <= k < |source| && source[k] == value && forall j :: 0 <= j < k ==> keyOf(source[j]) != keyOf(value);
    assert (source + [more])[k] == value;
  }

  /** A key that is new to a canonical list and fits in it was never seen before. */
  lemma InsertedValueIsFirst<T>(source: seq<T>, values: seq<T>, value: T, maximum: nat, keyOf: T -> JsString)
    requires KeepsSmallest(source, values, maximum, keyOf)
    requires var at := Rank(values, keyOf(value), keyOf);
             at < |values| ==> keyOf(values[at]) != keyOf(value)
    ensures Rank(values, keyOf(value), keyOf) < maximum ==> IsFirst(source + [value], value, keyOf)
  {
    hide Rank, Less, Sorted, Kept;
    var key := keyOf(value);
    if Rank(values, key, keyOf) < maximum {
      forall j | 0 <= j < |source| ensures keyOf(source[j]) != key {
        NewKey(values, key, maximum, keyOf);
        assert Kept(values, keyOf(source[j]), maximum, keyOf);
      }
      assert (source + [value])[|source|] == value;
    }
  }

  /** A key that would be inserted is not kept. */
  lemma NewKey<T>(values: seq<T>, key: JsString, maximum: nat, keyOf: T -> JsString)
    requires Sorted(values, keyOf) && Rank(values, key, keyOf) < maximum
    requires var at := Rank(values, key, keyOf); at < |values| ==> keyOf(values[at]) != key
    ensures !Kept(values, key, maximum, keyOf)
  {
    hide Rank, Less;
    LessIrreflexive(key);
  }

  /** Insertion loses a key only by filling the list with smaller ones. */
  lemma InsertKeeps<T>(values: seq<T>, value: T, maximum: nat, keyOf: T -> JsString, key: JsString)
    requires |values| <= maximum && Sorted(values, keyOf)
    requires key == keyOf(value) || Kept(values, key, maximum, keyOf)
    ensures Kept(Insert(values, value, maximum, keyOf), key, maximum, keyOf)
  {
    hide Rank, Less;
    var at := Rank(values, keyOf(value), keyOf);
    var kept := Insert(values, value, maximum, keyOf);
    InsertSorted(values, value, maximum, keyOf);
    if at < |values| && keyOf(values[at]) == keyOf(value) {
      assert HasKey(values, keyOf(value), keyOf);
    } else {
      var longer := values[..at] + [value] + values[at..];
      InsertSorted(values, value, |longer|, keyOf);
      if key == keyOf(value) {
        assert longer[at] == value;
        CutKeeps(longer, maximum, keyOf, at);
      } else if i :| 0 <= i < |values| && keyOf(values[i]) == key {
        var j := if i < at then i else i + 1;
        assert longer[j] == values[i];
        CutKeeps(longer, maximum, keyOf, j);
      } else {
        assert |values| == maximum;
        forall i | 0 <= i < |kept| ensures Less(keyOf(kept[i]), key) {
          if i == at {
            assert at < |values|;
            LessTotal(keyOf(values[at]), keyOf(value));
            LessTransitive(keyOf(value), keyOf(values[at]), key);
          }
        }
      }
    }
  }

  /** Cutting a sorted list back keeps every key or fills the list with smaller ones. */
  lemma CutKeeps<T>(longer: seq<T>, maximum: nat, keyOf: T -> JsString, at: nat)
    requires Sorted(longer, keyOf) && at < |longer|
    ensures Kept(if |longer| <= maximum then longer else longer[..maximum], keyOf(longer[at]), maximum, keyOf)
  {
    hide Less;
    var kept := if |longer| <= maximum then longer else longer[..maximum];
    if at < |kept| { assert kept[at] == longer[at]; }
  }

  /** Inserting any sequence leaves the smallest distinct keys, sorted, each with its first value. */
  lemma {:induction false} CanonicalKeepsSmallest<T>(source: seq<T>, maximum: nat, keyOf: T -> JsString)
    ensures KeepsSmallest(source, Canonical(source, maximum, keyOf), maximum, keyOf)
  {
    if source != [] {
      var prefix, last := source[..|source| - 1], source[|source| - 1];
      CanonicalKeepsSmallest(prefix, maximum, keyOf);
      InsertKeepsSmallest(prefix, Canonical(prefix, maximum, keyOf), last, maximum, keyOf);
      assert source == prefix + [last];
    }
  }

  lemma CanonicalFits<T>(source: seq<T>, maximum: nat, keyOf: T -> JsString)
    ensures |Canonical(source, maximum, keyOf)| <= maximum
  {
    CanonicalKeepsSmallest(source, maximum, keyOf);
  }

  /** The characterisation leaves no choice: two lists that keep the smallest keys are equal. */
  lemma KeepsSmallestIsUnique<T>(source: seq<T>, a: seq<T>, b: seq<T>, maximum: nat, keyOf: T -> JsString)
    requires KeepsSmallest(source, a, maximum, keyOf) && KeepsSmallest(source, b, maximum, keyOf)
    ensures a == b
  {
    AgreeUpTo(source, a, b, maximum, keyOf, |a|);
    AgreeUpTo(source, b, a, maximum, keyOf, |b|);
  }

  lemma {:induction false} AgreeUpTo<T>(source: seq<T>, a: seq<T>, b: seq<T>, maximum: nat, keyOf: T -> JsString,
                                        n: nat)
    requires n <= |a|
    requires KeepsSmallest(source, a, maximum, keyOf) && KeepsSmallest(source, b, maximum, keyOf)
    ensures n <= |b| && a[..n] == b[..n]
  {
    if n > 0 {
      var i := n - 1;
      AgreeUpTo(source, a, b, maximum, keyOf, i);
      NotBelow(source, a, b, maximum, keyOf, i);
      NotBelow(source, b, a, maximum, keyOf, i);
      LessTotal(keyOf(a[i]), keyOf(b[i]));
      assert a[..n] == a[..i] + [a[i]] && b[..n] == b[..i] + [b[i]];
    }
  }

  /** After a common prefix, `b` has a next key and it is not above the next key of `a`. */
  lemma NotBelow<T>(source: seq<T>, a: seq<T>, b: seq<T>, maximum: nat, keyOf: T -> JsString, i: nat)
    requires i < |a| && i <= |b| && a[..i] == b[..i]
    requires KeepsSmallest(source, a, maximum, keyOf) && KeepsSmallest(source, b, maximum, keyOf)
    ensures i < |b| && !Less(keyOf(a[i]), keyOf(b[i]))
  {
    var key := keyOf(a[i]);
    assert IsFirst(source, a[i], keyOf);
    assert Kept(b, key, maximum, keyOf);
    if h :| 0 <= h < |b| && keyOf(b[h]) == key {
      if h < i {
        assert a[h] == a[..i][h] == b[..i][h] == b[h];
        LessIrreflexive(key);
      } else if h > i {
        if Less(key, keyOf(b[i])) {
          LessTransitive(key, keyOf(b[i]), key);
          LessIrreflexive(key);
        }
      } else {
        LessIrreflexive(key);
      }
    } else if Less(key, keyOf(b[i])) {
      LessTransitive(key, keyOf(b[i]), key);
      LessIrreflexive(key);
    }
  }

  /** The evidence list of one scan: what was offered so far, and the canonical part that is kept. */
  class EvidenceList<T> {
    const maximum: nat
    const keyOf: T -> JsString
    ghost var offered: seq<T>
    var values: seq<T>

    ghost predicate Valid()
      reads this
    {
      values == Canonical(offered, maximum, keyOf)
    }

    constructor (maximum: nat, keyOf: T -> JsString)
      ensures Valid() && offered == []
      ensures this.maximum == maximum && this.keyOf == keyOf
    {
      this.maximum, this.keyOf := maximum, keyOf;
      offered, values := [], [];
    }

    /** `insertBoundedCanonical`: find the place, drop a known key, splice, and pop an overflow. */
    method InsertBoundedCanonical(value: T)
      requires Valid()
      modifies this
      ensures Valid() && offered == old(offered) + [value]
    {
      hide Canonical, Less, Rank;
      var key := keyOf(value);
      var index := 0;
      CanonicalFits(offered, maximum, keyOf);
      CanonicalNext(offered, value, maximum, keyOf);
      offered := offered + [value];
      while index < |values| && Less(keyOf(values[index]), key)
        invariant index <= |values| && values == old(values) && offered == old(offered) + [value]
        invariant forall i :: 0 <= i < index ==> Less(keyOf(values[i]), key)
      {
        index := index + 1;
      }
      RankIs(values, key, index, keyOf);
      if index < |values| && keyOf(values[index]) == key { return; }
      if index < maximum {
        values := values[..index] + [value] + values[index..];
      }
      if |values| > maximum {
        values := values[..|values| - 1];
      }
    }
  }
}
