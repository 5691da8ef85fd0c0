/** What one level_insert does: the invariant, the contents, and exactly when it fails. */
module LevelInsert {
  import opened Words
  import opened LevelSpec

  // ---------------------------------------------------------------- slots and stored pairs

  /** Overwriting one slot exchanges its item for the new one. */
  lemma {:induction false} ItemsUpdate<K, V>(l: Level<K, V>, k: nat, x: Slot<K, V>)
    requires k < |l|
    ensures Items(l[k := x]) + ItemOf(l[k]) == Items(l) + ItemOf(x)
  {
    hide ItemOf;
    var n := |l| - 1;
    var r := l[k := x];
    if k == n {
      assert r[..n] == l[..n];
    } else {
      ItemsUpdate(l[..n], k, x);
      assert r[..n] == l[..n][k := x];
      Exchange(Items(r[..n]), ItemOf(l[k]), Items(l[..n]), ItemOf(x), ItemOf(l[n]));
    }
  }

  lemma Exchange<T>(a: multiset<T>, b: multiset<T>, c: multiset<T>, d: multiset<T>, e: multiset<T>)
    requires a + b == c + d
    ensures (a + e) + b == (c + e) + d
  {
    assert (a + e) + b == (a + b) + e;
    assert (c + e) + d == (c + d) + e;
  }

  lemma {:induction false} ItemsBlank<K, V>(l: Level<K, V>)
    requires forall k :: 0 <= k < |l| ==> !l[k].token
    ensures Items(l) == multiset{}
  {
    if |l| > 0 { ItemsBlank(l[..|l| - 1]); }
  }

  /** A pair is stored exactly when some slot in use holds it. */
  lemma {:induction false} ItemsAt<K, V>(l: Level<K, V>, key: K, value: V)
    ensures (key, value) in Items(l) <==> exists k :: 0 <= k < |l| && l[k] == Slot(true, key, value)
  {
    if |l| > 0 {
      var n := |l| - 1;
      ItemsAt(l[..n], key, value);
      if k :| 0 <= k < n && l[..n][k] == Slot(true, key, value) {
        assert l[k] == Slot(true, key, value);
      }
      if k :| 0 <= k < |l| && l[k] == Slot(true, key, value) && k < n {
        assert l[..n][k] == Slot(true, key, value);
      }
    }
  }

  /** Overwriting one slot keeps a level placed if the new resident belongs there. */
  lemma PlacedUpdate<K, V>(c: Config<K, V>, l: Level<K, V>, capacity: nat, p: nat, x: Slot<K, V>)
    requires Placed(c, l, capacity) && p < |l|
    requires x.token ==> p / ASSOC_NUM == F(c, x.key, capacity) || p / ASSOC_NUM == S(c, x.key, capacity)
    ensures Placed(c, l[p := x], capacity)
  {
  }

  lemma PlacedBlank<K, V>(c: Config<K, V>, l: Level<K, V>, capacity: nat)
    requires capacity >= 2 && |l| == ASSOC_NUM * capacity && forall k :: 0 <= k < |l| ==> !l[k].token
    ensures Placed(c, l, capacity)
  {
    hide F, S;
  }

  // ---------------------------------------------------------------- the three ways to make room

  lemma LevelFacts<K, V>(c: Config<K, V>, t: Table<K, V>, i: nat)
    requires Sound(c, t) && i < 2
    ensures |t.levels| == 2 && |t.levelItemNum| == 2 && t.addrCapacity >= 4
    ensures Capacity(t, i) >= 2 && |t.levels[i]| == ASSOC_NUM * Capacity(t, i)
    ensures Placed(c, t.levels[i], Capacity(t, i)) && t.levelItemNum[i] == |Items(t.levels[i])|
  {
    hide F, S, Items;
  }

  lemma SizeFacts<K, V>(c: Config<K, V>, t: Table<K, V>)
    requires Sound(c, t)
    ensures |t.levels| == 2 && |t.levelItemNum| == 2 && t.levelSize >= 2
    ensures |t.levels[0]| == ASSOC_NUM * Pow2(t.levelSize) && |t.levels[1]| == ASSOC_NUM * Pow2(t.levelSize - 1)
    ensures Pow2(t.levelSize + 1) == 2 * Pow2(t.levelSize)
  {
    hide F, S, Items;
  }

  /** Replacing one level, counted exactly, keeps the table sound. */
  lemma ReplaceLevel<K, V>(c: Config<K, V>, t: Table<K, V>, i: nat, l: Level<K, V>, num: int)
    requires Sound(c, t) && i < 2
    requires Placed(c, l, Capacity(t, i)) && num == |Items(l)|
    ensures var t' := t.(levels := t.levels[i := l], levelItemNum := t.levelItemNum[i := num]);
      Sound(c, t') && Contents(t') + Items(t.levels[i]) == Contents(t) + Items(l)
  {
    hide Placed, Pow2, Items;
    var t' := t.(levels := t.levels[i := l], levelItemNum := t.levelItemNum[i := num]);
    assert t'.levels[i] == l && t'.levels[1 - i] == t.levels[1 - i];
    assert Contents(t') == Items(l) + Items(t.levels[1 - i]);
    assert Contents(t) == Items(t.levels[i]) + Items(t.levels[1 - i]);
  }

  /** Adding a pair to a level that stays placed adds it to the table. */
  lemma GrowLevel<K, V>(c: Config<K, V>, t: Table<K, V>, i: nat, l: Level<K, V>, pair: (K, V))
    requires Sound(c, t) && i < 2
    requires Placed(c, l, Capacity(t, i)) && Items(l) == Items(t.levels[i]) + multiset{pair}
    ensures var t' := t.(levels := t.levels[i := l], levelItemNum := t.levelItemNum[i := t.levelItemNum[i] + 1]);
      Sound(c, t') && Contents(t') == Contents(t) + multiset{pair}
  {
    hide Placed, Pow2, Contents, Items;
    assert t.levelItemNum[i] == |Items(t.levels[i])|;
    ReplaceLevel(c, t, i, l, t.levelItemNum[i] + 1);
    Cancel(Contents(t.(levels := t.levels[i := l], levelItemNum := t.levelItemNum[i := t.levelItemNum[i] + 1])),
           Items(t.levels[i]), Contents(t), multiset{pair});
  }

  lemma Cancel<T>(a: multiset<T>, b: multiset<T>, c: multiset<T>, d: multiset<T>)
    requires a + b == c + (b + d)
    ensures a == c + d
  {
    assert a == (a + b) - b;
    assert c + d == (c + (b + d)) - b;
  }

  /** t' is a sound table of the same size that holds one more pair. */
  ghost predicate Adds<K, V>(c: Config<K, V>, t: Table<K, V>, t': Table<K, V>, pair: (K, V))
    requires |t.levels| == 2
  {
    && Sound(c, t')
    && t'.levelSize == t.levelSize && t'.levelExpandTime == t.levelExpandTime && t'.resizeState == t.resizeState
    && Contents(t') == Contents(t) + multiset{pair}
  }

  /** Filling a free slot of one of the key's own buckets keeps the table sound and adds the pair. */
  lemma PutAdds<K, V>(c: Config<K, V>, t: Table<K, V>, i: nat, p: nat, key: K, value: V)
    requires Sound(c, t) && i < 2 && p < |t.levels[i]| && !t.levels[i][p].token
    requires p / ASSOC_NUM == F(c, key, Capacity(t, i)) || p / ASSOC_NUM == S(c, key, Capacity(t, i))
    ensures Adds(c, t, Put(t, i, p, key, value), (key, value))
  {
    hide Placed, F, S, Pow2, Contents, Items;
    var x := Slot(true, key, value);
    var l := t.levels[i];
    ItemsUpdate(l, p, x);
    assert Items(l[p := x]) == Items(l) + multiset{(key, value)};
    assert Placed(c, l, Capacity(t, i));
    PlacedUpdate(c, l, Capacity(t, i), p, x);
    GrowLevel(c, t, i, l[p := x], (key, value));
  }

  /** A resident p copied to a free slot q that is also its own, and then overwritten by a pair that belongs
      at p: the level gains exactly that pair. */
  lemma DisplaceAdds<K, V>(c: Config<K, V>, l: Level<K, V>, capacity: nat, p: nat, q: nat, key: K, value: V)
    requires Placed(c, l, capacity) && p < |l| && q < |l| && l[p].token && !l[q].token
    requires q / ASSOC_NUM == F(c, l[p].key, capacity) || q / ASSOC_NUM == S(c, l[p].key, capacity)
    requires p / ASSOC_NUM == F(c, key, capacity) || p / ASSOC_NUM == S(c, key, capacity)
    ensures var l' := l[q := l[p]][p := Slot(true, key, value)];
      Placed(c, l', capacity) && Items(l') == Items(l) + multiset{(key, value)}
  {
    hide Placed, F, S, Items;
    var x := Slot(true, key, value);
    PlacedUpdate(c, l, capacity, q, l[p]);
    PlacedUpdate(c, l[q := l[p]], capacity, p, x);
    ItemsUpdate(l, q, l[p]);
    ItemsUpdate(l[q := l[p]], p, x);
    assert Items(l[q := l[p]]) == Items(l) + ItemOf(l[p]);
    assert Items(l) + ItemOf(l[p]) + ItemOf(x) == Items(l) + (ItemOf(l[p]) + multiset{(key, value)});
    Cancel(Items(l[q := l[p]][p := x]), ItemOf(l[p]), Items(l), multiset{(key, value)});
  }

  /** try_movement on a full bucket of the key: the displaced resident lands in its other bucket, and the
      table gains exactly the new pair. */
  lemma TryMovementAdds<K, V>(c: Config<K, V>, t: Table<K, V>, b: nat, i: nat, key: K, value: V)
    requires Sound(c, t) && i < 2 && b < Capacity(t, i)
    requires FullBucket(t.levels[i], b)
    requires b == F(c, key, Capacity(t, i)) || b == S(c, key, Capacity(t, i))
    requires TryMovement(c, t, b, i, key, value).1 == 0
    ensures Adds(c, t, TryMovement(c, t, b, i, key, value).0, (key, value))
  {
    hide Placed, Sound, F, S, Contents, Items;
    LevelFacts(c, t, i);
    var l, cap := t.levels[i], Capacity(t, i);
    var p := FirstSideways(c, l, cap, b, 0);
    var q := SidewaysSlot(c, l, cap, p);
    DisplaceAdds(c, l, cap, p, q, key, value);
    var l' := l[q := l[p]][p := Slot(true, key, value)];
    GrowLevel(c, t, i, l', (key, value));
    assert l[p].(token := true) == l[p];
    assert t.levels[i := l[q := l[p]]][i := l'] == t.levels[i := l'];
    assert TryMovement(c, t, b, i, key, value).0
        == t.(levels := t.levels[i := l'], levelItemNum := t.levelItemNum[i := t.levelItemNum[i] + 1]);
  }

  /** A bottom-to-top move of the resident of slot p to the free top slot q: the contents are untouched. */
  lemma MoveUpKeeps<K, V>(c: Config<K, V>, t: Table<K, V>, p: nat, q: nat)
    requires Sound(c, t) && p < |t.levels[1]| && q < |t.levels[0]| && t.levels[1][p].token && !t.levels[0][q].token
    requires var key := t.levels[1][p].key;
      q / ASSOC_NUM == F(c, key, Capacity(t, 0)) || q / ASSOC_NUM == S(c, key, Capacity(t, 0))
    ensures var m := t.levels[1][p];
      var t' := t.(levels := [t.levels[0][q := m], t.levels[1][p := m.(token := false)]],
                   levelItemNum := [t.levelItemNum[0] + 1, t.levelItemNum[1] - 1]);
      Sound(c, t') && Contents(t') == Contents(t)
  {
    hide Placed, Sound, F, S, Contents, Items;
    LevelFacts(c, t, 0);
    LevelFacts(c, t, 1);
    var m := t.levels[1][p];
    var up, down := t.levels[0][q := m], t.levels[1][p := m.(token := false)];
    ItemsUpdate(t.levels[0], q, m);
    ItemsUpdate(t.levels[1], p, m.(token := false));
    PlacedUpdate(c, t.levels[0], Capacity(t, 0), q, m);
    PlacedUpdate(c, t.levels[1], Capacity(t, 1), p, m.(token := false));
    assert |Items(up) + multiset{}| == |Items(t.levels[0]) + ItemOf(m)|;
    assert |Items(t.levels[1])| == |Items(down) + ItemOf(m)|;
    ReplaceLevel(c, t, 0, up, t.levelItemNum[0] + 1);
    var t1 := t.(levels := t.levels[0 := up], levelItemNum := t.levelItemNum[0 := t.levelItemNum[0] + 1]);
    ReplaceLevel(c, t1, 1, down, t.levelItemNum[1] - 1);
    var t2 := t1.(levels := t1.levels[1 := down], levelItemNum := t1.levelItemNum[1 := t.levelItemNum[1] - 1]);
    assert t2.levels == [up, down];
    assert t2.levelItemNum == [t.levelItemNum[0] + 1, t.levelItemNum[1] - 1];
    Balance(Contents(t), Contents(t1), Contents(t2), Items(t.levels[0]), Items(down), ItemOf(m));
  }

  lemma Balance<T>(
    c0: multiset<T>, c1: multiset<T>, c2: multiset<T>, top: multiset<T>, down: multiset<T>, m: multiset<T>)
    requires c1 + top == c0 + (top + m)
    requires c2 + (down + m) == c1 + down
    ensures c2 == c0
  {
    assert c1 == c0 + m by { Cancel(c1, top, c0, m); }
    assert c2 == (c2 + (down + m)) - (down + m);
    assert c0 == (c0 + m + down) - (down + m);
  }

  /** A successful bottom-to-top insertion into a full bottom bucket of the key adds exactly the pair. */
  lemma InsertByB2tAdds<K, V>(c: Config<K, V>, t: Table<K, V>, b: nat, key: K, value: V)
    requires Sound(c, t) && b < Capacity(t, 1)
    requires FullBucket(t.levels[1], b)
    requires b == F(c, key, Capacity(t, 1)) || b == S(c, key, Capacity(t, 1))
    requires InsertByB2t(c, t, b, key, value).1 == 0
    ensures Adds(c, t, InsertByB2t(c, t, b, key, value).0, (key, value))
  {
    hide Placed, Sound, F, S, Contents, Items;
    LevelFacts(c, t, 0);
    LevelFacts(c, t, 1);
    var p := FirstUp(c, t, b, 0);
    var q := UpSlot(c, t, p);
    assert t.levels[1][p].(token := true) == t.levels[1][p];
    MoveUpKeeps(c, t, p, q);
    PutAdds(c, B2tMovement(c, t, b).0, 1, p, key, value);
  }

  // ---------------------------------------------------------------- when insert fails

  predicate FullBucket<K, V>(l: Level<K, V>, b: nat)
    requires ASSOC_NUM * b + ASSOC_NUM <= |l|
  {
    forall k :: ASSOC_NUM * b <= k < ASSOC_NUM * b + ASSOC_NUM ==> l[k].token
  }

  /** Every resident of bucket b has a full alternative bucket in its own level. */
  predicate StuckSideways<K, V>(c: Config<K, V>, l: Level<K, V>, capacity: nat, b: nat)
    requires capacity >= 2 && |l| == ASSOC_NUM * capacity && b < capacity
  {
    forall k :: ASSOC_NUM * b <= k < ASSOC_NUM * b + ASSOC_NUM ==> FullBucket(l, Alternative(c, l[k].key, capacity, b))
  }

  /** Every resident of bottom bucket b has both its top buckets full. */
  predicate StuckBelow<K, V>(c: Config<K, V>, t: Table<K, V>, b: nat)
    requires Sound(c, t) && b < Capacity(t, 1)
  {
    forall k :: ASSOC_NUM * b <= k < ASSOC_NUM * b + ASSOC_NUM ==>
      && FullBucket(t.levels[0], F(c, t.levels[1][k].key, t.addrCapacity))
      && FullBucket(t.levels[0], S(c, t.levels[1][k].key, t.addrCapacity))
  }

  /** Both buckets of the key in level i are full, and nobody there can move sideways. */
  ghost predicate StuckInLevel<K, V>(c: Config<K, V>, t: Table<K, V>, i: nat, key: K)
    requires Sound(c, t) && i < 2
  {
    var l, cap := t.levels[i], Capacity(t, i);
    && FullBucket(l, F(c, key, cap)) && FullBucket(l, S(c, key, cap))
    && StuckSideways(c, l, cap, F(c, key, cap)) && StuckSideways(c, l, cap, S(c, key, cap))
  }

  /** No room for the key, whatever single move is tried. */
  ghost predicate NoRoom<K, V>(c: Config<K, V>, t: Table<K, V>, key: K)
    requires Sound(c, t)
  {
    && StuckInLevel(c, t, 0, key) && StuckInLevel(c, t, 1, key)
    && (t.levelExpandTime > 0 ==>
          StuckBelow(c, t, F(c, key, Capacity(t, 1))) && StuckBelow(c, t, S(c, key, Capacity(t, 1))))
  }

  lemma FreeSlotFull<K, V>(l: Level<K, V>, f: nat, s: nat)
    requires ASSOC_NUM * f + ASSOC_NUM <= |l| && ASSOC_NUM * s + ASSOC_NUM <= |l|
    ensures FreeSlot(l, f, s, 0) == -1 <==> FullBucket(l, f) && FullBucket(l, s)
  {
  }

  lemma SidewaysStuck<K, V>(c: Config<K, V>, l: Level<K, V>, capacity: nat, b: nat)
    requires capacity >= 2 && |l| == ASSOC_NUM * capacity && b < capacity
    ensures FirstSideways(c, l, capacity, b, 0) == -1 <==> StuckSideways(c, l, capacity, b)
  {
    forall k | ASSOC_NUM * b <= k < ASSOC_NUM * b + ASSOC_NUM
      ensures SidewaysSlot(c, l, capacity, k) == -1 <==> FullBucket(l, Alternative(c, l[k].key, capacity, b))
    {
      assert k / ASSOC_NUM == b;
      var alt := Alternative(c, l[k].key, capacity, b);
      FreeSlotFull(l, alt, alt);
    }
    hide SidewaysSlot, F, S, FullBucket, Alternative;
  }

  lemma UpSlotFull<K, V>(c: Config<K, V>, t: Table<K, V>, p: nat)
    requires Sound(c, t) && p < |t.levels[1]|
    ensures UpSlot(c, t, p) == -1 <==>
              && FullBucket(t.levels[0], F(c, t.levels[1][p].key, t.addrCapacity))
              && FullBucket(t.levels[0], S(c, t.levels[1][p].key, t.addrCapacity))
  {
    var key := t.levels[1][p].key;
    FreeSlotFull(t.levels[0], F(c, key, t.addrCapacity), S(c, key, t.addrCapacity));
  }

  lemma InsertByB2tStuck<K, V>(c: Config<K, V>, t: Table<K, V>, b: nat, key: K, value: V)
    requires Sound(c, t) && b < Capacity(t, 1)
    ensures InsertByB2t(c, t, b, key, value).1 != 0 <==> StuckBelow(c, t, b)
  {
    hide Placed, Sound, F, S, Pow2, UpSlot, FullBucket;
    LevelFacts(c, t, 0);
    LevelFacts(c, t, 1);
    forall k | ASSOC_NUM * b <= k < ASSOC_NUM * b + ASSOC_NUM
      ensures UpSlot(c, t, k) == -1 <==>
                && FullBucket(t.levels[0], F(c, t.levels[1][k].key, t.addrCapacity))
                && FullBucket(t.levels[0], S(c, t.levels[1][k].key, t.addrCapacity))
    {
      UpSlotFull(c, t, k);
    }
  }

  lemma InsertFreeAdds<K, V>(c: Config<K, V>, t: Table<K, V>, i: nat, key: K, value: V)
    requires Sound(c, t) && i < 2
    ensures var cap, r := Capacity(t, i), InsertFree(c, t, i, key, value);
      && (r.1 == 0 ==> Adds(c, t, r.0, (key, value)))
      && (r.1 != 0 <==> FullBucket(t.levels[i], F(c, key, cap)) && FullBucket(t.levels[i], S(c, key, cap)))
  {
    hide Placed, Sound, F, S, FullBucket, Adds;
    LevelFacts(c, t, i);
    var cap := Capacity(t, i);
    FreeSlotFull(t.levels[i], F(c, key, cap), S(c, key, cap));
    var p := FreeSlot(t.levels[i], F(c, key, cap), S(c, key, cap), 0);
    if p != -1 { PutAdds(c, t, i, p, key, value); }
  }

  lemma InsertSidewaysAdds<K, V>(c: Config<K, V>, t: Table<K, V>, i: nat, key: K, value: V)
    requires Sound(c, t) && i < 2
    requires FullBucket(t.levels[i], F(c, key, Capacity(t, i))) && FullBucket(t.levels[i], S(c, key, Capacity(t, i)))
    ensures var r := InsertSideways(c, t, i, key, value);
      && (r.1 == 0 ==> Adds(c, t, r.0, (key, value)))
      && (r.1 != 0 <==> StuckInLevel(c, t, i, key))
  {
    hide Adds, StuckSideways, FullBucket, F, S, Sound, FirstSideways, SidewaysSlot;
    LevelFacts(c, t, i);
    var f, s := F(c, key, Capacity(t, i)), S(c, key, Capacity(t, i));
    SidewaysStuck(c, t.levels[i], Capacity(t, i), f);
    SidewaysStuck(c, t.levels[i], Capacity(t, i), s);
    if TryMovement(c, t, f, i, key, value).1 == 0 { TryMovementAdds(c, t, f, i, key, value); }
    if TryMovement(c, t, s, i, key, value).1 == 0 { TryMovementAdds(c, t, s, i, key, value); }
  }

  lemma InsertUpAdds<K, V>(c: Config<K, V>, t: Table<K, V>, key: K, value: V)
    requires Sound(c, t)
    requires FullBucket(t.levels[1], F(c, key, Capacity(t, 1))) && FullBucket(t.levels[1], S(c, key, Capacity(t, 1)))
    ensures var r := InsertUp(c, t, key, value);
      && (r.1 == 0 ==> Adds(c, t, r.0, (key, value)))
      && (r.1 != 0 <==> (t.levelExpandTime > 0 ==>
                           StuckBelow(c, t, F(c, key, Capacity(t, 1))) && StuckBelow(c, t, S(c, key, Capacity(t, 1)))))
  {
    hide Adds, StuckBelow, FullBucket, F, S, Sound, InsertByB2t;
    LevelFacts(c, t, 1);
    var f, s := F(c, key, Capacity(t, 1)), S(c, key, Capacity(t, 1));
    InsertByB2tStuck(c, t, f, key, value);
    InsertByB2tStuck(c, t, s, key, value);
    if InsertByB2t(c, t, f, key, value).1 == 0 { InsertByB2tAdds(c, t, f, key, value); }
    if InsertByB2t(c, t, s, key, value).1 == 0 { InsertByB2tAdds(c, t, s, key, value); }
  }

  // ---------------------------------------------------------------- level_insert

  /** level_insert returns 0 and adds exactly the given pair, or returns 1 and leaves the table as it was;
      and it returns 1 exactly when no free slot and no single move can make room. */
  lemma InsertAdds<K, V>(c: Config<K, V>, t: Table<K, V>, key: K, value: V)
    requires Sound(c, t)
    ensures var (t', code) := Insert(c, t, key, value);
      && (code == 0 || code == 1)
      && (code == 0 ==> Adds(c, t, t', (key, value)))
      && (code == 1 ==> t' == t)
      && (code == 1 <==> NoRoom(c, t, key))
  {
    hide Placed, Sound, F, S, Pow2, InsertFree, InsertSideways, InsertUp, StuckSideways, StuckBelow, FullBucket, Adds;
    LevelFacts(c, t, 0);
    LevelFacts(c, t, 1);
    InsertFreeAdds(c, t, 0, key, value);
    InsertFreeAdds(c, t, 1, key, value);
    if InsertFree(c, t, 0, key, value).1 != 0 && InsertFree(c, t, 1, key, value).1 != 0 {
      InsertSidewaysAdds(c, t, 0, key, value);
      InsertSidewaysAdds(c, t, 1, key, value);
      InsertUpAdds(c, t, key, value);
    }
  }
}
