/**
 * PHP arrays with string keys, as ordered lists of key/value entries: the
 * assignment `$a[$k] = $v`, `array_merge`, `array_unique`, `in_array` and
 * `array_search`. Keys are never numeric strings here, so PHP's integer-key
 * conversion and renumbering do not arise.
 */
module PhpArray {
  import opened Wrappers

  type PhpArray<V> = seq<(string, V)>

  /** Index `i` of the array holds key `key`. */
  predicate KeyAt<V>(a: PhpArray<V>, key: string, i: int) {
    0 <= i < |a| && a[i].0 == key
  }

  /** No key occurs twice, as in any PHP array. */
  predicate UniqueKeys<V>(a: PhpArray<V>) {
    forall k, l :: 0 <= k < l < |a| ==> a[k].0 != a[l].0
  }

  /** The index of the entry under `key`, if there is one. */
  function KeyIndex<V>(a: PhpArray<V>, key: string): (r: Option<nat>)
    ensures r.Some? ==> KeyAt(a, key, r.value)
    ensures r.None? ==> forall i :: !KeyAt(a, key, i)
    decreases |a|
  {
    if |a| == 0 then None
    else if a[0].0 == key then Some(0)
    else
      assert forall i :: KeyAt(a, key, i) ==> KeyAt(a[1..], key, i - 1);
      match KeyIndex(a[1..], key)
      case Some(i) => Some(i + 1)
      case None => None
  }

  /**
   * `$a[$key] = $v`: a key already present keeps its place and takes the new
   * value; a new key goes to the end.
   */
  function ArrayPut<V>(a: PhpArray<V>, key: string, v: V): (r: PhpArray<V>)
    ensures |r| >= |a|
    ensures forall i :: 0 <= i < |a| ==> r[i].0 == a[i].0
    ensures forall i :: 0 <= i < |a| && a[i].0 != key ==> r[i] == a[i]
    ensures (exists i :: KeyAt(a, key, i)) ==> |r| == |a|
    ensures (forall i :: !KeyAt(a, key, i)) ==> r == a + [(key, v)]
    ensures exists i :: KeyAt(r, key, i) && r[i].1 == v
  {
    match KeyIndex(a, key)
    case Some(i) =>
      assert KeyAt(a[i := (key, v)], key, i);
      a[i := (key, v)]
    case None =>
      assert KeyAt(a + [(key, v)], key, |a|);
      a + [(key, v)]
  }

  /** Every entry after `$a[$key] = $v` was in the array before or is the new one. */
  lemma PutEntries<V>(a: PhpArray<V>, key: string, v: V)
    ensures forall x :: x in ArrayPut(a, key, v) ==> x in a || x == (key, v)
  {
    match KeyIndex(a, key)
    case Some(i) =>
      forall x | x in a[i := (key, v)]
        ensures x in a || x == (key, v)
      {
        var j :| 0 <= j < |a| && a[i := (key, v)][j] == x;
        if j != i {
          assert x == a[j];
        }
      }
    case None =>
  }

  /** Storing the value a key already holds changes nothing. */
  lemma PutSameValue<V>(a: PhpArray<V>, key: string, v: V)
    requires exists i :: KeyAt(a, key, i)
    requires forall i :: KeyAt(a, key, i) ==> a[i].1 == v
    ensures ArrayPut(a, key, v) == a
  {
    var i := KeyIndex(a, key).value;
    assert a[i] == (key, v);
  }

  /** Some entry holds key `key`. */
  predicate HasKey<V>(a: PhpArray<V>, key: string) {
    exists i | 0 <= i < |a| :: KeyAt(a, key, i)
  }

  /** The value stored under `key`, or `d` when the array has no such key. */
  function ValueIn<V>(a: PhpArray<V>, key: string, d: V): V {
    match KeyIndex(a, key)
    case Some(i) => a[i].1
    case None => d
  }

  /** The entries of `extra` under keys `base` lacks, in their order in `extra`. */
  function NewEntries<V>(base: PhpArray<V>, extra: PhpArray<V>): (r: PhpArray<V>)
    ensures forall j :: 0 <= j < |r| ==> r[j] in extra && !HasKey(base, r[j].0)
    decreases |extra|
  {
    if |extra| == 0 then []
    else if HasKey(base, extra[0].0) then NewEntries(base, extra[1..])
    else [extra[0]] + NewEntries(base, extra[1..])
  }

  /**
   * `array_merge($base, $extra)` for string keys: the entries of `extra` put
   * one by one. For PHP arrays (no key twice): every key of `base` keeps its
   * place and ends with the value `extra` gives it, or its own when `extra`
   * has none; after them come the entries of `extra` under new keys, in the
   * order `extra` has them.
   */
  function ArrayMerge<V(==)>(base: PhpArray<V>, extra: PhpArray<V>): (r: PhpArray<V>)
    ensures |r| >= |base|
    ensures forall i :: 0 <= i < |base| ==> r[i].0 == base[i].0
    ensures UniqueKeys(base) && UniqueKeys(extra) ==>
              && |r| == |base| + |NewEntries(base, extra)|
              && (forall i :: 0 <= i < |base| ==> r[i] == (base[i].0, ValueIn(extra, base[i].0, base[i].1)))
              && r[|base|..] == NewEntries(base, extra)
    decreases |extra|
  {
    if |extra| == 0 then base
    else
      var r := ArrayMerge(ArrayPut(base, extra[0].0, extra[0].1), extra[1..]);
      MergeTurn(base, extra, r);
      r
  }

  /** What `ArrayMerge(base, extra)` is for PHP arrays, as its contract states it. */
  ghost predicate MergedAs<V>(base: PhpArray<V>, extra: PhpArray<V>, r: PhpArray<V>) {
    && |r| == |base| + |NewEntries(base, extra)|
    && (forall i :: 0 <= i < |base| ==> r[i] == (base[i].0, ValueIn(extra, base[i].0, base[i].1)))
    && r[|base|..] == NewEntries(base, extra)
  }

  // One step of the merge: what holds of the rest after putting the first entry holds of the whole.
  lemma MergeTurn<V>(base: PhpArray<V>, extra: PhpArray<V>, r: PhpArray<V>)
    requires |extra| > 0
    requires var b := ArrayPut(base, extra[0].0, extra[0].1);
             UniqueKeys(b) && UniqueKeys(extra[1..]) ==> MergedAs(b, extra[1..], r)
    ensures UniqueKeys(base) && UniqueKeys(extra) ==> MergedAs(base, extra, r)
  {
    if UniqueKeys(base) && UniqueKeys(extra) {
      UniqueTail(extra);
      PutUnique(base, extra[0].0, extra[0].1);
      ValueInCons(extra);
      if HasKey(base, extra[0].0) {
        MergeTurnPresent(base, extra, r);
      } else {
        MergeTurnNew(base, extra, r);
      }
    }
  }

  // The rest of a PHP array is one, and does not hold its first key again.
  lemma UniqueTail<V>(a: PhpArray<V>)
    requires |a| > 0 && UniqueKeys(a)
    ensures UniqueKeys(a[1..]) && !HasKey(a[1..], a[0].0)
  {
    assert forall i :: 0 <= i < |a[1..]| ==> a[1..][i] == a[i + 1];
  }

  // Putting one entry into a PHP array gives a PHP array.
  lemma PutUnique<V>(a: PhpArray<V>, key: string, v: V)
    requires UniqueKeys(a)
    ensures UniqueKeys(ArrayPut(a, key, v))
  {
    var r := ArrayPut(a, key, v);
    if HasKey(a, key) {
      assert |r| == |a|;
      forall k, l | 0 <= k < l < |r|
        ensures r[k].0 != r[l].0
      {
        assert r[k].0 == a[k].0 && r[l].0 == a[l].0;
      }
    } else {
      assert r == a + [(key, v)];
      forall k, l | 0 <= k < l < |r|
        ensures r[k].0 != r[l].0
      {
        if l == |a| {
          assert !KeyAt(a, key, k);
        }
      }
    }
  }

  // Putting an entry adds its key to the keys the array has, and no other.
  lemma PutKeepsKeys<V>(a: PhpArray<V>, key: string, v: V)
    ensures forall k :: HasKey(ArrayPut(a, key, v), k) <==> HasKey(a, k) || k == key
  {
    var r := ArrayPut(a, key, v);
    forall k
      ensures HasKey(r, k) <==> HasKey(a, k) || k == key
    {
      if HasKey(a, k) {
        var i :| 0 <= i < |a| && KeyAt(a, k, i);
        assert KeyAt(r, k, i);
      }
      if k == key {
        var i :| KeyAt(r, key, i) && r[i].1 == v;
        assert 0 <= i < |r|;
      }
      if HasKey(r, k) {
        var i :| 0 <= i < |r| && KeyAt(r, k, i);
        if i < |a| {
          assert KeyAt(a, k, i);
        } else if !HasKey(a, key) {
          assert r == a + [(key, v)];
        }
      }
    }
  }

  // A value looked up in an array with a first entry, when no key repeats that entry's.
  lemma ValueInCons<V>(a: PhpArray<V>)
    requires |a| > 0 && !HasKey(a[1..], a[0].0)
    ensures forall k, d :: ValueIn(a, k, d) == if k == a[0].0 then a[0].1 else ValueIn(a[1..], k, d)
  {
    forall k, d
      ensures ValueIn(a, k, d) == if k == a[0].0 then a[0].1 else ValueIn(a[1..], k, d)
    {
      if k != a[0].0 {
        match KeyIndex(a[1..], k)
        case Some(i) =>
          assert KeyIndex(a, k) == Some(i + 1);
          assert a[i + 1] == a[1..][i];
        case None =>
          assert KeyIndex(a, k) == None;
      }
    }
  }

  // The entries under new keys depend on the base only through which keys it has.
  lemma {:induction false} NewEntriesSameKeys<V>(a: PhpArray<V>, b: PhpArray<V>, xs: PhpArray<V>)
    requires forall j :: 0 <= j < |xs| ==> (HasKey(a, xs[j].0) <==> HasKey(b, xs[j].0))
    ensures NewEntries(a, xs) == NewEntries(b, xs)
    decreases |xs|
  {
    if |xs| > 0 {
      assert forall j :: 0 <= j < |xs[1..]| ==> xs[1..][j] == xs[j + 1];
      NewEntriesSameKeys(a, b, xs[1..]);
    }
  }

  // The merge step when the base already has the first key: that entry takes the value in place.
  lemma MergeTurnPresent<V>(base: PhpArray<V>, extra: PhpArray<V>, r: PhpArray<V>)
    requires |extra| > 0 && UniqueKeys(base) && HasKey(base, extra[0].0)
    requires !HasKey(extra[1..], extra[0].0)
    requires forall k, d :: ValueIn(extra, k, d) == if k == extra[0].0 then extra[0].1 else ValueIn(extra[1..], k, d)
    requires MergedAs(ArrayPut(base, extra[0].0, extra[0].1), extra[1..], r)
    ensures MergedAs(base, extra, r)
  {
    var key := extra[0].0;
    var b := ArrayPut(base, key, extra[0].1);
    var idx := KeyIndex(base, key).value;
    assert b == base[idx := extra[0]];
    PutKeepsKeys(base, key, extra[0].1);
    NewEntriesSameKeys(b, base, extra[1..]);
    assert NewEntries(base, extra) == NewEntries(base, extra[1..]);
    forall i | 0 <= i < |base|
      ensures r[i] == (base[i].0, ValueIn(extra, base[i].0, base[i].1))
    {
      assert r[i] == (b[i].0, ValueIn(extra[1..], b[i].0, b[i].1));
      if i == idx {
        assert KeyIndex(extra[1..], key).None?;
      } else {
        assert base[i].0 != key;
      }
    }
  }

  // The merge step when the first key is new: its entry goes to the end of the base.
  lemma MergeTurnNew<V>(base: PhpArray<V>, extra: PhpArray<V>, r: PhpArray<V>)
    requires |extra| > 0 && !HasKey(base, extra[0].0)
    requires !HasKey(extra[1..], extra[0].0)
    requires forall k, d :: ValueIn(extra, k, d) == if k == extra[0].0 then extra[0].1 else ValueIn(extra[1..], k, d)
    requires MergedAs(ArrayPut(base, extra[0].0, extra[0].1), extra[1..], r)
    ensures MergedAs(base, extra, r)
  {
    var b := ArrayPut(base, extra[0].0, extra[0].1);
    assert b == base + [extra[0]];
    MergeTurnNewTail(base, extra, b, r);
    forall i | 0 <= i < |base|
      ensures r[i] == (base[i].0, ValueIn(extra, base[i].0, base[i].1))
    {
      assert r[i] == (b[i].0, ValueIn(extra[1..], b[i].0, b[i].1));
      assert !KeyAt(base, extra[0].0, i);
    }
  }

  // After the base comes the new entry, then the new entries of the rest.
  lemma MergeTurnNewTail<V>(base: PhpArray<V>, extra: PhpArray<V>, b: PhpArray<V>, r: PhpArray<V>)
    requires |extra| > 0 && !HasKey(base, extra[0].0)
    requires !HasKey(extra[1..], extra[0].0)
    requires b == ArrayPut(base, extra[0].0, extra[0].1) && b == base + [extra[0]]
    requires |r| == |b| + |NewEntries(b, extra[1..])|
    requires forall i :: 0 <= i < |b| ==> r[i] == (b[i].0, ValueIn(extra[1..], b[i].0, b[i].1))
    requires r[|b|..] == NewEntries(b, extra[1..])
    ensures |r| == |base| + |NewEntries(base, extra)|
    ensures r[|base|..] == NewEntries(base, extra)
  {
    var key := extra[0].0;
    PutKeepsKeys(base, key, extra[0].1);
    forall j | 0 <= j < |extra[1..]|
      ensures HasKey(b, extra[1..][j].0) <==> HasKey(base, extra[1..][j].0)
    {
      assert !KeyAt(extra[1..], key, j);
      assert extra[1..][j].0 != key;
    }
    NewEntriesSameKeys(b, base, extra[1..]);
    NewEntriesCons(base, extra);
    assert r[|base|] == (key, ValueIn(extra[1..], key, extra[0].1));
    assert KeyIndex(extra[1..], key).None?;
    assert r[|base|..] == [r[|base|]] + r[|b|..];
  }

  /**
   * Merging PHP arrays appends each entry of `extra` under a key the base
   * lacks, unchanged, after every entry of the base.
   */
  lemma MergeAppendsNewKeys<V>(base: PhpArray<V>, extra: PhpArray<V>, j: int)
    requires UniqueKeys(base) && UniqueKeys(extra)
    requires 0 <= j < |extra| && !HasKey(base, extra[j].0)
    ensures exists m :: |base| <= m < |ArrayMerge(base, extra)| && ArrayMerge(base, extra)[m] == extra[j]
  {
    NewEntriesHas(base, extra, j);
    var n :| 0 <= n < |NewEntries(base, extra)| && NewEntries(base, extra)[n] == extra[j];
    assert ArrayMerge(base, extra)[|base| + n] == ArrayMerge(base, extra)[|base|..][n];
  }

  // The entries under new keys, one entry of `extra` at a time.
  lemma NewEntriesCons<V>(base: PhpArray<V>, extra: PhpArray<V>)
    requires |extra| > 0
    ensures NewEntries(base, extra)
            == (if HasKey(base, extra[0].0) then [] else [extra[0]]) + NewEntries(base, extra[1..])
  {
    if HasKey(base, extra[0].0) {
      assert [] + NewEntries(base, extra[1..]) == NewEntries(base, extra[1..]);
    }
  }

  // An entry under a key the base lacks is among the new entries.
  lemma {:induction false} NewEntriesHas<V>(base: PhpArray<V>, extra: PhpArray<V>, j: int)
    requires 0 <= j < |extra| && !HasKey(base, extra[j].0)
    ensures extra[j] in NewEntries(base, extra)
    decreases |extra|
  {
    NewEntriesCons(base, extra);
    if j > 0 {
      assert extra[1..][j - 1] == extra[j];
      NewEntriesHas(base, extra[1..], j - 1);
    }
  }

  /** A key present at index `i` stays at index `i` through any merge. */
  lemma {:induction false} MergeKeepsEntry<V>(base: PhpArray<V>, extra: PhpArray<V>, key: string, i: int)
    requires KeyAt(base, key, i)
    ensures KeyAt(ArrayMerge(base, extra), key, i)
    decreases |extra|
  {
    if |extra| > 0 {
      MergeKeepsEntry(ArrayPut(base, extra[0].0, extra[0].1), extra[1..], key, i);
    }
  }

  /**
   * An entry of `extra` under a key the base holds replaces that entry in
   * place; when every key of `extra` is in the base, the length is unchanged.
   */
  lemma MergeReplacesInPlace<V>(base: PhpArray<V>, extra: PhpArray<V>, key: string, i: int, j: int)
    requires UniqueKeys(base) && UniqueKeys(extra)
    requires KeyAt(base, key, i) && KeyAt(extra, key, j)
    ensures ArrayMerge(base, extra)[i] == extra[j]
    ensures (forall k :: 0 <= k < |extra| ==> HasKey(base, extra[k].0)) ==> |ArrayMerge(base, extra)| == |base|
  {
    var n := KeyIndex(extra, key).value;
    assert n == j;
    if forall k :: 0 <= k < |extra| ==> HasKey(base, extra[k].0) {
      if |NewEntries(base, extra)| > 0 {
        assert NewEntries(base, extra)[0] in extra;
      }
    }
  }

  /** `in_array($v, $a)`: some entry holds the value (exact equality standing for PHP's loose `==`). */
  predicate InArray<V(==)>(a: PhpArray<V>, v: V) {
    exists i :: 0 <= i < |a| && a[i].1 == v
  }

  /** `array_search($v, $a)`: the key of the first entry holding the value (exact equality, as in `InArray`). */
  function ArraySearch<V(==)>(a: PhpArray<V>, v: V): (r: Option<string>)
    ensures r.Some? <==> InArray(a, v)
    ensures r.Some? ==> exists i :: 0 <= i < |a| && a[i] == (r.value, v) && forall k :: 0 <= k < i ==> a[k].1 != v
    decreases |a|
  {
    if |a| == 0 then None
    else if a[0].1 == v then
      assert a[0] == (a[0].0, v);
      Some(a[0].0)
    else
      var r := ArraySearch(a[1..], v);
      assert forall i :: 0 < i < |a| && a[i].1 == v ==> a[1..][i - 1].1 == v;
      if r.Some? then
        var i :| 0 <= i < |a[1..]| && a[1..][i] == (r.value, v) && forall k :: 0 <= k < i ==> a[1..][k].1 != v;
        assert a[i + 1] == (r.value, v);
        assert forall k :: 0 < k < i + 1 ==> a[k].1 == a[1..][k - 1].1;
        r
      else r
  }

  /** Searching an array extended at the end finds an earlier hit first. */
  lemma {:induction false} SearchSnoc<V>(a: PhpArray<V>, key: string, w: V, v: V)
    ensures ArraySearch(a + [(key, w)], v)
            == if ArraySearch(a, v).Some? then ArraySearch(a, v) else if w == v then Some(key) else None
    decreases |a|
  {
    if |a| > 0 {
      assert (a + [(key, w)])[1..] == a[1..] + [(key, w)];
      SearchSnoc(a[1..], key, w, v);
    }
  }

  /**
   * `array_unique($a)`: an entry stays iff no earlier entry holds the same
   * value, so each value keeps the key it was first stored under.
   */
  function ArrayUnique<V(==)>(a: PhpArray<V>): (r: PhpArray<V>)
    ensures forall j :: 0 <= j < |r| ==> r[j] in a
    ensures forall j, l :: 0 <= j < l < |r| ==> r[j].1 != r[l].1
    ensures forall i :: 0 <= i < |a| ==> InArray(r, a[i].1)
    decreases |a|
  {
    if |a| == 0 then []
    else
      var init := a[..|a| - 1];
      var last := a[|a| - 1];
      var prev := ArrayUnique(init);
      assert forall x :: x in init ==> x in a;
      if InArray(prev, last.1) then prev
      else
        var r := prev + [last];
        assert r[|r| - 1] == last;
        assert forall j :: 0 <= j < |prev| ==> r[j] == prev[j] && prev[j].1 != last.1;
        forall i | 0 <= i < |a|
          ensures InArray(r, a[i].1)
        {
          if i < |init| {
            assert a[i] == init[i];
            var j :| 0 <= j < |prev| && prev[j].1 == init[i].1;
            assert r[j].1 == a[i].1;
          }
        }
        r
  }

  /** `array_unique` never changes which key a value is first found under. */
  lemma {:induction false} SearchUnique<V>(a: PhpArray<V>, v: V)
    ensures ArraySearch(ArrayUnique(a), v) == ArraySearch(a, v)
    decreases |a|
  {
    if |a| > 0 {
      var init := a[..|a| - 1];
      var last := a[|a| - 1];
      assert a == init + [last];
      SearchUnique(init, v);
      SearchSnoc(init, last.0, last.1, v);
      var prev := ArrayUnique(init);
      if !InArray(prev, last.1) {
        SearchSnoc(prev, last.0, last.1, v);
      } else {
        var j :| 0 <= j < |prev| && prev[j].1 == last.1;
        assert prev[j] in init;
        assert InArray(init, last.1);
      }
    }
  }
}
