/**
 Collections as the error filter sees them: lodash's `uniq`, and the order in
 which `Object.keys` lists the keys of a plain object used as a dictionary.
 */
module JsCollections {

  predicate NoDuplicates<T(==)>(s: seq<T>)
  {
    forall i, j :: 0 <= i < j < |s| ==> s[i] != s[j]
  }

  /** lodash `uniq`: the first occurrence of every element, in order. */
  function Dedup<T(==,!new)>(s: seq<T>): (r: seq<T>)
    ensures forall x :: x in r <==> x in s
    ensures NoDuplicates(r)
    ensures |r| <= |s|
  {
    if s == [] then []
    else
      var d := Dedup(s[..|s| - 1]);
      if s[|s| - 1] in d then d else d + [s[|s| - 1]]
  }

  /** Extending the input by one element extends the result by it, unless it was already seen. */
  lemma DedupSnoc<T(!new)>(s: seq<T>, x: T)
    ensures Dedup(s + [x]) == if x in s then Dedup(s) else Dedup(s) + [x]
  {
    assert (s + [x])[..|s + [x]| - 1] == s;
  }

  /** Elements of `uniq` keep the order of their first occurrences. */
  lemma {:induction false} DedupKeepsFirstOccurrenceOrder<T(!new)>(s: seq<T>, i: nat, j: nat)
    requires i < j < |Dedup(s)|
    ensures FirstIndex(s, Dedup(s)[i]) < FirstIndex(s, Dedup(s)[j])
  {
    var d := Dedup(s[..|s| - 1]);
    assert s == s[..|s| - 1] + [s[|s| - 1]];
    FirstIndexPrefix(s[..|s| - 1], s[|s| - 1], Dedup(s)[i]);
    FirstIndexPrefix(s[..|s| - 1], s[|s| - 1], Dedup(s)[j]);
    if j < |d| {
      DedupKeepsFirstOccurrenceOrder(s[..|s| - 1], i, j);
    } else {
      assert Dedup(s)[j] == s[|s| - 1] && s[|s| - 1] !in s[..|s| - 1];
      assert Dedup(s)[i] in s[..|s| - 1];
    }
  }

  /** The position of the first occurrence of `x` in `s`. */
  function FirstIndex<T(==)>(s: seq<T>, x: T): (r: nat)
    requires x in s
    ensures r < |s| && s[r] == x
    ensures forall k :: 0 <= k < r ==> s[k] != x
  {
    if s[0] == x then 0 else 1 + FirstIndex(s[1..], x)
  }

  lemma FirstIndexPrefix<T>(s: seq<T>, y: T, x: T)
    requires x in s + [y]
    ensures x in s ==> FirstIndex(s + [y], x) == FirstIndex(s, x)
    ensures x !in s ==> FirstIndex(s + [y], x) == |s|
  {
    var r := FirstIndex(s + [y], x);
    if x in s {
      var r' := FirstIndex(s, x);
      assert (s + [y])[r'] == x;
    }
  }

  // ---------------------------------------------------------------------------
  // Object.keys order. ECMAScript lists the own keys of an ordinary object with
  // the array-index keys first, in ascending numeric order, and then the other
  // string keys in the order they were first inserted.
  // ---------------------------------------------------------------------------

  const MaxArrayIndex: nat := 4294967294  // 2^32 - 2

  predicate IsDigit(c: char) { '0' <= c <= '9' }

  /** The number a string of decimal digits denotes (non-digits read as 0). */
  function DecimalValue(k: string): nat
  {
    if k == [] then 0
    else DecimalValue(k[..|k| - 1]) * 10 + (if IsDigit(k[|k| - 1]) then (k[|k| - 1] - '0') as nat else 0)
  }

  /** A key that is the canonical decimal form of an integer in `[0, 2^32 - 2]`. */
  predicate IsArrayIndex(k: string)
  {
    |k| > 0 && (forall i :: 0 <= i < |k| ==> IsDigit(k[i]))
    && (k[0] != '0' || |k| == 1)
    && DecimalValue(k) <= MaxArrayIndex
  }

  function IndexKeys(ks: seq<string>): seq<string>
  {
    if ks == [] then []
    else IndexKeys(ks[..|ks| - 1]) + (if IsArrayIndex(ks[|ks| - 1]) then [ks[|ks| - 1]] else [])
  }

  function OtherKeys(ks: seq<string>): seq<string>
  {
    if ks == [] then []
    else OtherKeys(ks[..|ks| - 1]) + (if IsArrayIndex(ks[|ks| - 1]) then [] else [ks[|ks| - 1]])
  }

  lemma {:induction false} IndexOtherKeysElements(ks: seq<string>)
    ensures forall x :: x in IndexKeys(ks) <==> x in ks && IsArrayIndex(x)
    ensures forall x :: x in OtherKeys(ks) <==> x in ks && !IsArrayIndex(x)
    ensures |IndexKeys(ks)| + |OtherKeys(ks)| == |ks|
  {
    if ks != [] {
      var init := ks[..|ks| - 1];
      IndexOtherKeysElements(init);
      assert ks == init + [ks[|ks| - 1]];
    }
  }

  /** Each key's value is at most the next key's. */
  predicate SortedByValue(ks: seq<string>)
  {
    |ks| <= 1 || (DecimalValue(ks[0]) <= DecimalValue(ks[1]) && SortedByValue(ks[1..]))
  }

  lemma {:induction false} SortedPairwise(ks: seq<string>, i: nat, j: nat)
    requires SortedByValue(ks) && i < j < |ks|
    ensures DecimalValue(ks[i]) <= DecimalValue(ks[j])
  {
    if i > 0 {
      SortedPairwise(ks[1..], i - 1, j - 1);
    } else if j > 1 {
      SortedPairwise(ks[1..], 0, j - 1);
    }
  }

  function InsertByValue(k: string, ks: seq<string>): seq<string>
  {
    if ks == [] || DecimalValue(k) <= DecimalValue(ks[0]) then [k] + ks
    else [ks[0]] + InsertByValue(k, ks[1..])
  }

  /** Insertion sort by numeric value. */
  function SortByValue(ks: seq<string>): seq<string>
  {
    if ks == [] then [] else InsertByValue(ks[0], SortByValue(ks[1..]))
  }

  lemma {:induction false} InsertByValueElements(k: string, ks: seq<string>)
    ensures multiset(InsertByValue(k, ks)) == multiset(ks) + multiset{k}
  {
    if ks != [] && DecimalValue(k) > DecimalValue(ks[0]) {
      InsertByValueElements(k, ks[1..]);
      assert ks == [ks[0]] + ks[1..];
    }
  }

  lemma {:induction false} InsertByValueSorted(k: string, ks: seq<string>)
    requires SortedByValue(ks)
    ensures SortedByValue(InsertByValue(k, ks))
    ensures InsertByValue(k, ks)[0] == k || (ks != [] && InsertByValue(k, ks)[0] == ks[0])
  {
    if ks != [] && DecimalValue(k) > DecimalValue(ks[0]) {
      InsertByValueSorted(k, ks[1..]);
    }
  }

  lemma {:induction false} SortByValueSorted(ks: seq<string>)
    ensures multiset(SortByValue(ks)) == multiset(ks)
    ensures SortedByValue(SortByValue(ks))
  {
    if ks != [] {
      SortByValueSorted(ks[1..]);
      InsertByValueElements(ks[0], SortByValue(ks[1..]));
      InsertByValueSorted(ks[0], SortByValue(ks[1..]));
      assert ks == [ks[0]] + ks[1..];
    }
  }

  /** `Object.keys` of an object whose keys were inserted in the order `inserted`. */
  function ObjectKeys(inserted: seq<string>): seq<string>
  {
    SortByValue(IndexKeys(inserted)) + OtherKeys(inserted)
  }

  /** `Object.keys` lists each key once per insertion. */
  lemma ObjectKeysElements(inserted: seq<string>)
    ensures forall x :: x in ObjectKeys(inserted) <==> x in inserted
    ensures |ObjectKeys(inserted)| == |inserted|
  {
    var indexKeys := IndexKeys(inserted);
    var sorted := SortByValue(indexKeys);
    IndexOtherKeysElements(inserted);
    SortByValueSorted(indexKeys);
    forall x ensures x in sorted <==> x in indexKeys {
      assert x in sorted <==> x in multiset(sorted);
    }
    assert |sorted| == |multiset(sorted)| == |multiset(indexKeys)| == |indexKeys|;
  }

  /**
   `Object.keys` lists the array-index keys first, in ascending numeric order,
   and the other keys after them, in insertion order.
   */
  lemma ObjectKeysOrder(inserted: seq<string>)
    ensures forall i, j :: 0 <= i < j < |ObjectKeys(inserted)| && IsArrayIndex(ObjectKeys(inserted)[j]) ==>
      IsArrayIndex(ObjectKeys(inserted)[i]) && DecimalValue(ObjectKeys(inserted)[i]) <= DecimalValue(ObjectKeys(inserted)[j])
    ensures OtherKeys(ObjectKeys(inserted)) == OtherKeys(inserted)
  {
    var sorted := SortByValue(IndexKeys(inserted));
    var others := OtherKeys(inserted);
    var r := ObjectKeys(inserted);
    SortedIndexKeys(inserted);
    IndexOtherKeysElements(inserted);
    forall i, j | 0 <= i < j < |r| && IsArrayIndex(r[j])
      ensures IsArrayIndex(r[i]) && DecimalValue(r[i]) <= DecimalValue(r[j])
    {
      if j >= |sorted| {
        assert false;
      }
      assert r[i] in sorted;
      SortedPairwise(sorted, i, j);
    }
    OtherKeysAppend(sorted, others);
    OtherKeysOfIndexKeys(sorted);
    OtherKeysOfOtherKeys(inserted);
  }

  /** The sorted array-index keys are all array indices, in ascending order. */
  lemma SortedIndexKeys(inserted: seq<string>)
    ensures forall x :: x in SortByValue(IndexKeys(inserted)) ==> IsArrayIndex(x)
    ensures SortedByValue(SortByValue(IndexKeys(inserted)))
  {
    var indexKeys := IndexKeys(inserted);
    var sorted := SortByValue(indexKeys);
    IndexOtherKeysElements(inserted);
    SortByValueSorted(indexKeys);
    forall x | x in sorted ensures IsArrayIndex(x) {
      assert x in multiset(sorted);
    }
  }

  lemma {:induction false} OtherKeysAppend(a: seq<string>, b: seq<string>)
    ensures OtherKeys(a + b) == OtherKeys(a) + OtherKeys(b)
  {
    if b != [] {
      assert (a + b)[..|a + b| - 1] == a + b[..|b| - 1];
      OtherKeysAppend(a, b[..|b| - 1]);
    } else {
      assert a + b == a;
    }
  }

  lemma {:induction false} IndexKeysAppend(a: seq<string>, b: seq<string>)
    ensures IndexKeys(a + b) == IndexKeys(a) + IndexKeys(b)
  {
    if b != [] {
      assert (a + b)[..|a + b| - 1] == a + b[..|b| - 1];
      IndexKeysAppend(a, b[..|b| - 1]);
    } else {
      assert a + b == a;
    }
  }

  lemma {:induction false} OtherKeysOfIndexKeys(ks: seq<string>)
    requires forall x :: x in ks ==> IsArrayIndex(x)
    ensures OtherKeys(ks) == []
  {
    if ks != [] {
      OtherKeysOfIndexKeys(ks[..|ks| - 1]);
    }
  }

  lemma {:induction false} IndexKeysOfIndexKeys(ks: seq<string>)
    requires forall x :: x in ks ==> IsArrayIndex(x)
    ensures IndexKeys(ks) == ks
  {
    if ks != [] {
      IndexKeysOfIndexKeys(ks[..|ks| - 1]);
      assert ks == ks[..|ks| - 1] + [ks[|ks| - 1]];
    }
  }

  lemma {:induction false} IndexKeysOfOtherKeys(ks: seq<string>)
    ensures IndexKeys(OtherKeys(ks)) == []
  {
    if ks != [] {
      var init := ks[..|ks| - 1];
      var last := ks[|ks| - 1];
      IndexKeysOfOtherKeys(init);
      assert [last][..0] == [];
      if !IsArrayIndex(last) {
        assert OtherKeys(ks) == OtherKeys(init) + [last];
        IndexKeysAppend(OtherKeys(init), [last]);
        assert IndexKeys([last]) == IndexKeys([]) + [];
      } else {
        assert OtherKeys(ks) == OtherKeys(init) + [];
        assert OtherKeys(init) + [] == OtherKeys(init);
      }
    }
  }

  lemma {:induction false} OtherKeysOfOtherKeys(ks: seq<string>)
    ensures OtherKeys(OtherKeys(ks)) == OtherKeys(ks)
  {
    if ks != [] {
      var init := ks[..|ks| - 1];
      var last := ks[|ks| - 1];
      OtherKeysOfOtherKeys(init);
      assert [last][..0] == [];
      if !IsArrayIndex(last) {
        assert OtherKeys(ks) == OtherKeys(init) + [last];
        OtherKeysAppend(OtherKeys(init), [last]);
        assert OtherKeys([last]) == OtherKeys([]) + [last];
      } else {
        assert OtherKeys(ks) == OtherKeys(init) + [];
        assert OtherKeys(init) + [] == OtherKeys(init);
      }
    }
  }

  /** Sorting what is already sorted changes nothing. */
  lemma {:induction false} SortSorted(ks: seq<string>)
    requires SortedByValue(ks)
    ensures SortByValue(ks) == ks
  {
    if ks != [] {
      SortSorted(ks[1..]);
      assert ks == [ks[0]] + ks[1..];
    }
  }

  /**
   Re-inserting the keys of an object, in its `Object.keys` order, into a fresh
   object gives that object the same `Object.keys` order.
   */
  lemma ObjectKeysIdempotent(inserted: seq<string>)
    ensures ObjectKeys(ObjectKeys(inserted)) == ObjectKeys(inserted)
  {
    var sorted := SortByValue(IndexKeys(inserted));
    var others := OtherKeys(inserted);
    var keys := ObjectKeys(inserted);
    assert keys == sorted + others;
    SortedIndexKeys(inserted);
    IndexKeysAppend(sorted, others);
    IndexKeysOfIndexKeys(sorted);
    IndexKeysOfOtherKeys(inserted);
    assert IndexKeys(keys) == sorted + [] == sorted;
    SortSorted(sorted);
    assert SortByValue(IndexKeys(keys)) == sorted;
    OtherKeysAppend(sorted, others);
    OtherKeysOfIndexKeys(sorted);
    OtherKeysOfOtherKeys(inserted);
    assert OtherKeys(keys) == [] + others == others;
  }
}
