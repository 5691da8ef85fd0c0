/** Lookup, delete, update, expand and shrink: what each keeps and what each changes. */
module LevelOps {
  import opened Words
  import opened LevelSpec
  import opened LevelInsert

  ghost predicate InBag<K, V>(b: multiset<(K, V)>, key: K) {
    exists pair :: pair in b && pair.0 == key
  }

  ghost predicate Stored<K, V>(t: Table<K, V>, key: K)
    requires |t.levels| == 2
  {
    InBag(Contents(t), key)
  }

  /** level_init gives a sound, empty table. */
  lemma InitSound<K, V>(c: Config<K, V>, levelSize: nat)
    requires levelSize >= 2
    ensures Sound(c, Init(c, levelSize)) && Contents(Init(c, levelSize)) == multiset{}
    ensures Init(c, levelSize).levelSize == levelSize && Init(c, levelSize).levelExpandTime == 0
    ensures Init(c, levelSize).resizeState == 0
  {
    hide Placed, Items, NewBuckets;
    var t := Init(c, levelSize);
    assert Pow2(levelSize) == 2 * Pow2(levelSize - 1) && Pow2(levelSize - 1) == 2 * Pow2(levelSize - 2);
    PlacedBlank(c, t.levels[0], Pow2(levelSize));
    PlacedBlank(c, t.levels[1], Pow2(levelSize - 1));
    ItemsBlank(t.levels[0]);
    ItemsBlank(t.levels[1]);
  }

  // ---------------------------------------------------------------- lookup

  ghost predicate HeldIn<K, V>(l: Level<K, V>, key: K) {
    exists k :: 0 <= k < |l| && l[k].token && l[k].key == key
  }

  /** Looking into the two buckets of a key is looking into the whole level. */
  lemma FindInComplete<K, V>(c: Config<K, V>, t: Table<K, V>, i: nat, key: K)
    requires Sound(c, t) && i < 2
    ensures FindIn(c, t, i, key).At? <==> HeldIn(t.levels[i], key)
  {
    hide Pow2, Items, Sound, FIdx, SIdx;
    LevelFacts(c, t, i);
    var l, cap := t.levels[i], Capacity(t, i);
    if k :| 0 <= k < |l| && l[k].token && l[k].key == key {
      assert ASSOC_NUM * (k / ASSOC_NUM) <= k < ASSOC_NUM * (k / ASSOC_NUM) + ASSOC_NUM;
    }
  }

  lemma StoredWhere<K, V>(t: Table<K, V>, key: K)
    requires |t.levels| == 2
    ensures Stored(t, key) <==> HeldIn(t.levels[0], key) || HeldIn(t.levels[1], key)
  {
    if pair :| pair in Contents(t) && pair.0 == key {
      ItemsAt(t.levels[0], key, pair.1);
      ItemsAt(t.levels[1], key, pair.1);
    }
    if i, k :| 0 <= i < 2 && 0 <= k < |t.levels[i]| && t.levels[i][k].token && t.levels[i][k].key == key {
      HeldIsStored(t, At(i, k), key);
    }
  }

  /** A place that holds the key names a stored pair. */
  lemma HeldIsStored<K, V>(t: Table<K, V>, r: Place, key: K)
    requires |t.levels| == 2 && Holds(t, r, key)
    ensures (key, t.levels[r.level][r.slot].value) in Contents(t)
  {
    var l := t.levels[r.level];
    assert l[r.slot] == Slot(true, key, l[r.slot].value);
    ItemsAt(l, key, l[r.slot].value);
  }

  /** Both queries miss exactly when the key is stored nowhere, and a hit is a stored value of the key. */
  lemma QueriesExact<K, V>(c: Config<K, V>, t: Table<K, V>, key: K)
    requires Sound(c, t)
    ensures FindStatic(c, t, key).Nowhere? <==> !Stored(t, key)
    ensures FindDynamic(c, t, key).Nowhere? <==> !Stored(t, key)
    ensures FindStatic(c, t, key).At? ==> (key, ValueAt(t, FindStatic(c, t, key)).value) in Contents(t)
    ensures FindDynamic(c, t, key).At? ==> (key, ValueAt(t, FindDynamic(c, t, key)).value) in Contents(t)
  {
    StoredWhere(t, key);
    FindInComplete(c, t, 0, key);
    FindInComplete(c, t, 1, key);
    hide Sound, Contents, HeldIn, FindIn;
    if FindStatic(c, t, key).At? { HeldIsStored(t, FindStatic(c, t, key), key); }
    if FindDynamic(c, t, key).At? { HeldIsStored(t, FindDynamic(c, t, key), key); }
  }

  // ---------------------------------------------------------------- delete and update

  /** Overwriting a slot in use keeps the table sound and exchanges the stored pair. */
  lemma OverwriteHit<K, V>(c: Config<K, V>, t: Table<K, V>, i: nat, p: nat, x: Slot<K, V>)
    requires Sound(c, t) && i < 2 && p < |t.levels[i]| && t.levels[i][p].token
    requires x.token ==> x.key == t.levels[i][p].key
    ensures var num := t.levelItemNum[i] - if x.token then 0 else 1;
      var t' := t.(levels := t.levels[i := t.levels[i][p := x]], levelItemNum := t.levelItemNum[i := num]);
      Sound(c, t') && Contents(t') + ItemOf(t.levels[i][p]) == Contents(t) + ItemOf(x)
  {
    hide Placed, Sound, F, S, Contents, Items;
    LevelFacts(c, t, i);
    var l := t.levels[i];
    var l' := l[p := x];
    assert Placed(c, l', Capacity(t, i)) by { PlacedOverwrite(c, l, Capacity(t, i), p, x); }
    ItemsUpdate(l, p, x);
    assert |Items(l') + ItemOf(l[p])| == |Items(l) + ItemOf(x)|;
    var num := t.levelItemNum[i] - if x.token then 0 else 1;
    ReplaceLevel(c, t, i, l', num);
    var t' := t.(levels := t.levels[i := l'], levelItemNum := t.levelItemNum[i := num]);
    Trade(Contents(t'), Items(l), Contents(t), Items(l'), ItemOf(l[p]), ItemOf(x));
  }

  lemma PlacedOverwrite<K, V>(c: Config<K, V>, l: Level<K, V>, capacity: nat, p: nat, x: Slot<K, V>)
    requires Placed(c, l, capacity) && p < |l| && l[p].token && (x.token ==> x.key == l[p].key)
    ensures Placed(c, l[p := x], capacity)
  {
    hide F, S;
  }

  lemma Trade<T>(a: multiset<T>, l: multiset<T>, b: multiset<T>, l': multiset<T>, y: multiset<T>, x: multiset<T>)
    requires a + l == b + l' && l' + y == l + x
    ensures a + y == b + x
  {
    assert (a + y) + l == (a + l) + y == b + (l' + y) == (b + x) + l;
    assert a + y == ((a + y) + l) - l;
    assert b + x == ((b + x) + l) - l;
  }

  /** level_delete removes exactly the first match in scan order, or reports that the key is not stored. */
  lemma DeleteRemoves<K, V>(c: Config<K, V>, t: Table<K, V>, key: K)
    requires Sound(c, t)
    ensures var (t', code) := Delete(c, t, key);
      && Sound(c, t') && t'.levelSize == t.levelSize
      && (code == 0 || code == 1)
      && (code == 1 <==> !Stored(t, key))
      && (code == 1 ==> t' == t)
      && (code == 0 ==>
            var pair := (key, ValueAt(t, FindStatic(c, t, key)).value);
            pair in Contents(t) && Contents(t') == Contents(t) - multiset{pair})
  {
    hide Placed, Sound, Contents, FindIn, FindDynamic, Pow2;
    LevelFacts(c, t, 0);
    QueriesExact(c, t, key);
    var r := FindStatic(c, t, key);
    if r.At? {
      OverwriteHit(c, t, r.level, r.slot, t.levels[r.level][r.slot].(token := false));
      var pair := multiset{(key, ValueAt(t, r).value)};
      assert Contents(Delete(c, t, key).0) == (Contents(Delete(c, t, key).0) + pair) - pair;
    }
  }

  /** level_update exchanges the value of exactly the first match in scan order. */
  lemma UpdateReplaces<K, V>(c: Config<K, V>, t: Table<K, V>, key: K, value: V)
    requires Sound(c, t)
    ensures var (t', code) := Update(c, t, key, value);
      && Sound(c, t') && t'.levelSize == t.levelSize
      && (code == 0 || code == 1)
      && (code == 1 <==> !Stored(t, key))
      && (code == 1 ==> t' == t)
      && (code == 0 ==>
            var pair := (key, ValueAt(t, FindStatic(c, t, key)).value);
            pair in Contents(t) && Contents(t') == Contents(t) - multiset{pair} + multiset{(key, value)})
  {
    hide Placed, Sound, Contents, FindIn, FindDynamic, Pow2;
    LevelFacts(c, t, 0);
    QueriesExact(c, t, key);
    var r := FindStatic(c, t, key);
    if r.At? {
      var i, p := r.level, r.slot;
      OverwriteHit(c, t, i, p, t.levels[i][p].(value := value));
      assert t.levelItemNum[i := t.levelItemNum[i] - 0] == t.levelItemNum;
      var pair := multiset{(key, ValueAt(t, r).value)};
      assert Contents(Update(c, t, key, value).0) == (Contents(Update(c, t, key, value).0) + pair) - pair;
    }
  }
}
