/**
 * The three edits the list screens make to a stored collection of records
 * keyed by `id` — delete by id (`filter`), update in place (`map` replacing
 * the record with the same id) and create (append) — and the lookup by id
 * (`find`) through which their effect is stated.
 */
module Collections {
  import opened Seqs

  /** `x => key(x) === id`. */
  function KeyIs<T, K(==)>(key: T -> K, id: K): T -> bool {
    (x: T) => key(x) == id
  }

  /** `x => key(x) !== id`. */
  function KeyIsNot<T, K(==)>(key: T -> K, id: K): T -> bool {
    (x: T) => key(x) != id
  }

  /** `s.find(x => key(x) === id)`: the first record with that key. */
  function ById<T(!new), K(==)>(s: seq<T>, key: T -> K, id: K): (r: Option<T>)
    ensures r.None? <==> forall x :: x in s ==> key(x) != id
    ensures r.Some? ==> key(r.value) == id
                        && exists k :: 0 <= k < |s| && s[k] == r.value
                                       && forall j :: 0 <= j < k ==> key(s[j]) != id
  {
    Find(s, KeyIs(key, id))
  }

  /** `s.filter(x => key(x) === id)`. */
  function WithKey<T(!new), K(==)>(s: seq<T>, key: T -> K, id: K): (r: seq<T>)
    ensures forall x :: x in r <==> x in s && key(x) == id
  {
    Filter(s, KeyIs(key, id))
  }

  /** `s.filter(x => key(x) !== id)`: delete by id. */
  function WithoutKey<T(!new), K(==)>(s: seq<T>, key: T -> K, id: K): (r: seq<T>)
    ensures forall x :: x in r <==> x in s && key(x) != id
  {
    Filter(s, KeyIsNot(key, id))
  }

  /** `s.map(y => key(y) === key(x) ? x : y)`: update in place. */
  function ReplaceByKey<T(!new), K(==)>(s: seq<T>, key: T -> K, x: T): (r: seq<T>)
    ensures |r| == |s|
  {
    ReplaceWhere(s, KeyIs(key, key(x)), x)
  }

  // ---------------------------------------------------------------------
  // Delete

  /** After deleting `id`, no record has it and every other id finds what it found before. */
  lemma WithoutKeyLookup<T(!new), K>(s: seq<T>, key: T -> K, id: K, other: K)
    ensures ById(WithoutKey(s, key, id), key, other) == if other == id then None else ById(s, key, other)
  {
    if other != id {
      FindIgnoresRemoved(s, KeyIsNot(key, id), KeyIs(key, other));
    }
  }

  /** Deleting an id that no record has changes nothing. */
  lemma WithoutKeyAbsent<T(!new), K>(s: seq<T>, key: T -> K, id: K)
    requires forall x :: x in s ==> key(x) != id
    ensures WithoutKey(s, key, id) == s
  {
    FilterKeepsAll(s, KeyIsNot(key, id));
  }

  /** Deleting the same id twice is deleting it once. */
  lemma WithoutKeyIdempotent<T(!new), K>(s: seq<T>, key: T -> K, id: K)
    ensures WithoutKey(WithoutKey(s, key, id), key, id) == WithoutKey(s, key, id)
  {
    FilterIdempotent(s, KeyIsNot(key, id));
  }

  /** Deletion works piece by piece, so the surviving records keep their relative order. */
  lemma WithoutKeyConcat<T(!new), K>(a: seq<T>, b: seq<T>, key: T -> K, id: K)
    ensures WithoutKey(a + b, key, id) == WithoutKey(a, key, id) + WithoutKey(b, key, id)
  {
    FilterConcat(a, b, KeyIsNot(key, id));
  }

  /** Deletion keeps ids distinct. */
  lemma WithoutKeyDistinct<T(!new), K>(s: seq<T>, key: T -> K, id: K)
    requires DistinctKeys(s, key)
    ensures DistinctKeys(WithoutKey(s, key, id), key)
  {
    FilterDistinctKeys(s, KeyIsNot(key, id), key);
  }

  // ---------------------------------------------------------------------
  // Update

  /**
   * After an update the record's id finds the new record when some record
   * had that id (and nothing otherwise); every other id finds what it found
   * before.
   */
  lemma ReplaceByKeyLookup<T(!new), K>(s: seq<T>, key: T -> K, x: T, id: K)
    ensures ById(ReplaceByKey(s, key, x), key, id)
         == if id != key(x) then ById(s, key, id)
            else if ById(s, key, id).Some? then Some(x)
            else None
  {
    if id != key(x) {
      FindUnaffectedByReplace(s, KeyIs(key, key(x)), x, KeyIs(key, id));
    } else if ById(s, key, id).Some? {
      var y := ById(s, key, id).value;
      assert y in s && KeyIs(key, id)(y);
      FindAfterReplace(s, KeyIs(key, key(x)), x, KeyIs(key, id));
    } else {
      ReplaceByKeyAbsent(s, key, x);
    }
  }

  /** Updating a record whose id no record has changes nothing. */
  lemma ReplaceByKeyAbsent<T(!new), K>(s: seq<T>, key: T -> K, x: T)
    requires forall y :: y in s ==> key(y) != key(x)
    ensures ReplaceByKey(s, key, x) == s
  {
    var r := ReplaceByKey(s, key, x);
    forall i | 0 <= i < |s| ensures r[i] == s[i] {
      assert s[i] in s;
    }
  }

  /** An update changes only the positions holding the record's id; the sequence of ids is unchanged. */
  lemma ReplaceByKeyInPlace<T(!new), K>(s: seq<T>, key: T -> K, x: T)
    ensures var r := ReplaceByKey(s, key, x);
      && (forall i :: 0 <= i < |s| && key(s[i]) != key(x) ==> r[i] == s[i])
      && (forall i :: 0 <= i < |s| && key(s[i]) == key(x) ==> r[i] == x)
      && Keys(r, key) == Keys(s, key)
  {
  }

  /** An update introduces no record other than the new one. */
  lemma ReplaceByKeyMembers<T(!new), K>(s: seq<T>, key: T -> K, x: T, y: T)
    requires y in ReplaceByKey(s, key, x)
    ensures y == x || y in s
  {
    var r := ReplaceByKey(s, key, x);
    var i :| 0 <= i < |r| && r[i] == y;
    if y != x {
      assert y == s[i];
    }
  }

  /** An update keeps ids distinct. */
  lemma ReplaceByKeyDistinct<T(!new), K>(s: seq<T>, key: T -> K, x: T)
    requires DistinctKeys(s, key)
    ensures DistinctKeys(ReplaceByKey(s, key, x), key)
  {
    var r := ReplaceByKey(s, key, x);
    ReplaceByKeyInPlace(s, key, x);
    forall i, j | 0 <= i < j < |r| ensures key(r[i]) != key(r[j]) {
      assert key(r[i]) == Keys(r, key)[i] == Keys(s, key)[i] == key(s[i]);
      assert key(r[j]) == Keys(r, key)[j] == Keys(s, key)[j] == key(s[j]);
    }
  }

  // ---------------------------------------------------------------------
  // Create

  /** After an append, an id finds the earlier record when one has it, otherwise the new one. */
  lemma AppendLookup<T(!new), K>(s: seq<T>, key: T -> K, x: T, id: K)
    ensures ById(s + [x], key, id)
         == if ById(s, key, id).Some? then ById(s, key, id)
            else if key(x) == id then Some(x)
            else None
  {
    FindAppend(s, x, KeyIs(key, id));
  }

  /** Appending a record with a new id keeps ids distinct. */
  lemma AppendDistinct<T(!new), K>(s: seq<T>, key: T -> K, x: T)
    requires DistinctKeys(s, key)
    requires forall y :: y in s ==> key(y) != key(x)
    ensures DistinctKeys(s + [x], key)
  {
    var r := s + [x];
    forall i, j | 0 <= i < j < |r| ensures key(r[i]) != key(r[j]) {
      assert r[i] == s[i];
      if j == |s| {
        assert s[i] in s;
      } else {
        assert r[j] == s[j];
      }
    }
  }
}
