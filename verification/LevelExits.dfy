/** A resize, item by item, and exactly when it ends the program. */
module LevelExits {
  import opened Words
  import opened LevelSpec
  import opened LevelInsert
  import opened LevelIndex
  import opened LevelChoice
  import opened LevelResize

  // ---------------------------------------------------------------- expand

  /** When the rehash of slots k to m - 1 is done, the item of bottom slot m finds its two new buckets full. */
  predicate FindsFull<K, V>(
    c: Config<K, V>, bottom: Level<K, V>, k: nat, m: nat, top: Level<K, V>, num: nat, capacity: nat)
    requires capacity >= 2 && |top| == ASSOC_NUM * capacity && k <= m < |bottom|
  {
    && bottom[m].token
    && var r := Rehash(c, bottom[..m], k, top, num, capacity);
       && r.Done? && |r.value.0| == ASSOC_NUM * capacity
       && FullBucket(r.value.0, F(c, bottom[m].key, capacity))
       && FullBucket(r.value.0, S(c, bottom[m].key, capacity))
  }

  lemma RehashStep<K, V>(
    c: Config<K, V>, bottom: Level<K, V>, k: nat, m: nat, top: Level<K, V>, num: nat, capacity: nat)
    requires capacity >= 2 && |top| == ASSOC_NUM * capacity && k < m < |bottom|
    ensures var x := bottom[k];
      var p := FreeSlot(top, F(c, x.key, capacity), S(c, x.key, capacity), 0);
      FindsFull(c, bottom, k, m, top, num, capacity) <==>
        if !x.token then FindsFull(c, bottom, k + 1, m, top, num, capacity)
        else p != -1 && FindsFull(c, bottom, k + 1, m, top[p := x], num + 1, capacity)
  {
    hide FreeSlot, F, S, FullBucket;
    assert bottom[..m][k] == bottom[k];
  }

  lemma FirstFinds<K, V>(
    c: Config<K, V>, bottom: Level<K, V>, k: nat, top: Level<K, V>, num: nat, capacity: nat)
    requires capacity >= 2 && |top| == ASSOC_NUM * capacity && k < |bottom|
    ensures var x := bottom[k];
      FindsFull(c, bottom, k, k, top, num, capacity) <==>
        x.token && FreeSlot(top, F(c, x.key, capacity), S(c, x.key, capacity), 0) == -1
  {
    hide FreeSlot, F, S;
    FreeSlotFull(top, F(c, bottom[k].key, capacity), S(c, bottom[k].key, capacity));
  }

  lemma {:induction false} RehashExits<K, V>(
    c: Config<K, V>, bottom: Level<K, V>, k: nat, top: Level<K, V>, num: nat, capacity: nat)
    requires capacity >= 2 && |top| == ASSOC_NUM * capacity && k <= |bottom|
    ensures Rehash(c, bottom, k, top, num, capacity).Exit? <==>
      exists m :: k <= m < |bottom| && FindsFull(c, bottom, k, m, top, num, capacity)
    decreases |bottom| - k
  {
    hide FreeSlot, F, S, FindsFull;
    if k < |bottom| {
      var x := bottom[k];
      var p := FreeSlot(top, F(c, x.key, capacity), S(c, x.key, capacity), 0);
      FirstFinds(c, bottom, k, top, num, capacity);
      if x.token && p == -1 { return; }
      var (top', num') := if x.token then (top[p := x], num + 1) else (top, num);
      var k' := k + 1;
      RehashExits(c, bottom, k', top', num', capacity);
      if m :| k <= m < |bottom| && FindsFull(c, bottom, k, m, top, num, capacity) {
        RehashStep(c, bottom, k, m, top, num, capacity);
        assert FindsFull(c, bottom, k', m, top', num', capacity);
      }
      if m :| k' <= m < |bottom| && FindsFull(c, bottom, k', m, top', num', capacity) {
        RehashStep(c, bottom, k, m, top, num, capacity);
      }
    }
  }

  /** An expand exits if and only if some bottom item, once those before it are rehashed, finds both its new
      buckets full: the rehash displaces nobody. */
  lemma ExpandExits<K, V>(c: Config<K, V>, t: Table<K, V>)
    requires Sound(c, t)
    ensures |t.levels| == 2 && |t.levelItemNum| == 2
    ensures var capacity := Pow2(t.levelSize + 1);
      && capacity >= 2
      && (Expand(c, t).Exit? <==>
            exists m :: 0 <= m < |t.levels[1]| &&
              FindsFull(c, t.levels[1], 0, m, NewBuckets(c, capacity), 0, capacity))
    ensures var capacity := Pow2(t.levelSize + 1);
      Expand(c, t).Done? ==>
        var r := Rehash(c, t.levels[1], 0, NewBuckets(c, capacity), 0, capacity);
        && r.Done? && Expand(c, t).value.levels == [r.value.0, t.levels[0]]
        && Expand(c, t).value.levelItemNum == [r.value.1, t.levelItemNum[0]]
  {
    hide Sound, FindsFull, Rehash;
    SizeFacts(c, t);
    var capacity := Pow2(t.levelSize + 1);
    RehashExits(c, t.levels[1], 0, NewBuckets(c, capacity), 0, capacity);
  }

  // ---------------------------------------------------------------- shrink

  /** When slots k to m - 1 are re-inserted, there is no room for the item of slot m. */
  ghost predicate FindsNoRoom<K, V>(c: Config<K, V>, t: Table<K, V>, interim: Level<K, V>, k: nat, m: nat)
    requires Sound(c, t) && k <= m < |interim|
  {
    && interim[m].token
    && var r := Refill(c, t, interim[..m], k);
       r.Done? && Sound(c, r.value) && NoRoom(c, r.value, interim[m].key)
  }

  lemma RefillStep<K, V>(c: Config<K, V>, t: Table<K, V>, interim: Level<K, V>, k: nat, m: nat)
    requires Sound(c, t) && k < m < |interim|
    ensures var x := interim[k];
      var (t', code) := Insert(c, t, x.key, x.value);
      FindsNoRoom(c, t, interim, k, m) <==>
        if !x.token then FindsNoRoom(c, t, interim, k + 1, m)
        else code == 0 && Sound(c, t') && FindsNoRoom(c, t', interim, k + 1, m)
  {
    hide Sound, Insert, NoRoom;
    assert interim[..m][k] == interim[k];
    InsertAdds(c, t, interim[k].key, interim[k].value);
    LevelFacts(c, t, 0);
  }

  lemma FirstFindsNoRoom<K, V>(c: Config<K, V>, t: Table<K, V>, interim: Level<K, V>, k: nat)
    requires Sound(c, t) && k < |interim|
    ensures var x := interim[k];
      FindsNoRoom(c, t, interim, k, k) <==> x.token && Insert(c, t, x.key, x.value).1 != 0
  {
    hide Sound, Insert, NoRoom;
    InsertAdds(c, t, interim[k].key, interim[k].value);
    LevelFacts(c, t, 0);
  }

  lemma {:induction false} RefillExits<K, V>(c: Config<K, V>, t: Table<K, V>, interim: Level<K, V>, k: nat)
    requires Sound(c, t) && k <= |interim|
    ensures Refill(c, t, interim, k).Exit? <==>
      exists m :: k <= m < |interim| && FindsNoRoom(c, t, interim, k, m)
    decreases |interim| - k
  {
    hide Sound, Insert, FindsNoRoom;
    if k < |interim| {
      var x := interim[k];
      FirstFindsNoRoom(c, t, interim, k);
      LevelFacts(c, t, 0);
      InsertAdds(c, t, x.key, x.value);
      var (t', code) := Insert(c, t, x.key, x.value);
      if x.token && code != 0 { return; }
      var next := if x.token then t' else t;
      var k' := k + 1;
      RefillExits(c, next, interim, k');
      if m :| k <= m < |interim| && FindsNoRoom(c, t, interim, k, m) {
        RefillStep(c, t, interim, k, m);
        assert FindsNoRoom(c, next, interim, k', m);
      }
      if m :| k' <= m < |interim| && FindsNoRoom(c, next, interim, k', m) {
        RefillStep(c, t, interim, k, m);
      }
    }
  }

  lemma TooFullExactly<K, V>(c: Config<K, V>, t: Table<K, V>)
    requires Sound(c, t)
    ensures |t.levels| == 2 && |t.levelItemNum| == 2
    ensures TooFull(t) <==> 10 * |Contents(t)| > 4 * (|t.levels[0]| + |t.levels[1]|)
  {
    hide Items, F, S;
    var n, slots := t.levelItemNum[0] + t.levelItemNum[1], t.totalCapacity * ASSOC_NUM;
    assert n == |Contents(t)|;
    assert slots == |t.levels[0]| + |t.levels[1]| by { SizeFacts(c, t); }
    assert n as real > slots as real * 0.4 <==> 10.0 * n as real > 4.0 * slots as real;
  }

  /** A shrink exits if and only if more than 0.4 of the slots are in use, or some item of the old top level, once
      those before it are re-inserted, has no room in the sense of InsertAdds. The table that is refilled has the
      old bottom level on top, nothing below, and the expansion count still as it was. */
  lemma ShrinkExits<K, V>(c: Config<K, V>, t: Table<K, V>)
    requires Sound(c, t) && t.levelSize >= 3
    ensures |t.levels| == 2 && Sound(c, Halved(c, t))
    ensures var h := Halved(c, t);
      && h.levelSize == t.levelSize - 1 && h.levelExpandTime == t.levelExpandTime && h.levels[0] == t.levels[1]
      && forall k :: 0 <= k < |h.levels[1]| ==> !h.levels[1][k].token
    ensures Shrink(c, t).Exit? <==>
      || 10 * |Contents(t)| > 4 * (|t.levels[0]| + |t.levels[1]|)
      || exists m :: 0 <= m < |t.levels[0]| && FindsNoRoom(c, Halved(c, t), t.levels[0], 0, m)
    ensures Shrink(c, t).Done? ==>
      var r := Refill(c, Halved(c, t), t.levels[0], 0);
      r.Done? && Shrink(c, t).value.levels == r.value.levels && Shrink(c, t).value.levelItemNum == r.value.levelItemNum
  {
    hide Sound, FindsNoRoom, Refill, Halved, TooFull;
    LevelFacts(c, t, 0);
    HalvedSound(c, t);
    TooFullExactly(c, t);
    RefillExits(c, Halved(c, t), t.levels[0], 0);
  }

  // ---------------------------------------------------------------- item by item

  /** The rehash after one more bottom slot x: an item goes to the first free of its new home slots, and ends the
      program if it has none. */
  ghost predicate RehashedNext<K, V>(
    c: Config<K, V>, x: Slot<K, V>, r: Outcome<(Level<K, V>, nat)>, next: Outcome<(Level<K, V>, nat)>)
  {
    match r
    case Exit => next.Exit?
    case Done((top, num)) =>
      if !x.token then next == r
      else if NoFreeHome(c, top, x.key) then next.Exit?
      else forall p :: FirstFree(c, top, x.key, p) ==> next == Done((top[p := x], num + 1))
  }

  lemma RehashOne<K, V>(c: Config<K, V>, x: Slot<K, V>, top: Level<K, V>, num: nat, capacity: nat)
    requires capacity >= 2 && |top| == ASSOC_NUM * capacity
    ensures RehashedNext(c, x, Done((top, num)), Rehash(c, [x], 0, top, num, capacity))
  {
    FreeSlotIsFirst(c, top, capacity, x.key);
    hide F, S, FreeSlot, NoFreeHome, FirstFree;
    var p := FreeSlot(top, F(c, x.key, capacity), S(c, x.key, capacity), 0);
    if x.token && p != -1 {
      FirstNotNone(c, top, x.key, p);
      forall q | FirstFree(c, top, x.key, q) ensures q == p { FirstFreeUnique(c, top, x.key, q, p); }
    }
  }

  lemma {:induction false} RehashOneAt<K, V>(
    c: Config<K, V>, bottom: Level<K, V>, x: Slot<K, V>, top: Level<K, V>, num: nat, capacity: nat)
    requires capacity >= 2 && |top| == ASSOC_NUM * capacity
    ensures Rehash(c, bottom + [x], |bottom|, top, num, capacity) == Rehash(c, [x], 0, top, num, capacity)
  {
    hide F, S, FreeSlot;
    var p := FreeSlot(top, F(c, x.key, capacity), S(c, x.key, capacity), 0);
    assert (bottom + [x])[|bottom|] == x;
  }

  lemma {:induction false} RehashNextFrom<K, V>(
    c: Config<K, V>, bottom: Level<K, V>, k: nat, x: Slot<K, V>, top: Level<K, V>, num: nat, capacity: nat)
    requires capacity >= 2 && |top| == ASSOC_NUM * capacity && k <= |bottom|
    ensures RehashedNext(
      c, x, Rehash(c, bottom, k, top, num, capacity), Rehash(c, bottom + [x], k, top, num, capacity))
    decreases |bottom| - k
  {
    hide F, S, FreeSlot, RehashedNext;
    if k == |bottom| {
      RehashOneAt(c, bottom, x, top, num, capacity);
      RehashOne(c, x, top, num, capacity);
    } else {
      var y := bottom[k];
      assert (bottom + [x])[k] == y;
      var p := FreeSlot(top, F(c, y.key, capacity), S(c, y.key, capacity), 0);
      if !y.token {
        RehashNextFrom(c, bottom, k + 1, x, top, num, capacity);
      } else if p != -1 {
        RehashNextFrom(c, bottom, k + 1, x, top[p := y], num + 1, capacity);
      } else {
        BothExit(c, x);
      }
    }
  }

  lemma BothExit<K, V>(c: Config<K, V>, x: Slot<K, V>)
    ensures RehashedNext(c, x, Exit, Exit)
  {
  }

  /** The rehash of a level_expand, slot by slot in the order of the old bottom level, into an empty level. */
  lemma RehashNext<K, V>(c: Config<K, V>, bottom: Level<K, V>, m: nat, capacity: nat)
    requires capacity >= 2 && m < |bottom|
    ensures var blank := NewBuckets(c, capacity);
      && Rehash(c, bottom[..0], 0, blank, 0, capacity) == Done((blank, 0))
      && RehashedNext(c, bottom[m], Rehash(c, bottom[..m], 0, blank, 0, capacity),
                      Rehash(c, bottom[..m + 1], 0, blank, 0, capacity))
  {
    assert bottom[..m + 1] == bottom[..m] + [bottom[m]];
    RehashNextFrom(c, bottom[..m], 0, bottom[m], NewBuckets(c, capacity), 0, capacity);
  }

  /** The refill after one more old slot x: an item is inserted as level_insert does it. */
  ghost predicate RefilledNext<K, V>(
    c: Config<K, V>, x: Slot<K, V>, r: Outcome<Table<K, V>>, next: Outcome<Table<K, V>>)
  {
    match r
    case Exit => next.Exit?
    case Done(t) =>
      if !x.token then next == r
      else
        && Sound(c, t)
        && var (t', code) := Insert(c, t, x.key, x.value);
           next == if code != 0 then Exit else Done(t')
  }

  lemma RefillOneAt<K, V>(c: Config<K, V>, t: Table<K, V>, interim: Level<K, V>, x: Slot<K, V>)
    requires Sound(c, t)
    ensures RefilledNext(c, x, Done(t), Refill(c, t, interim + [x], |interim|))
  {
    hide Sound, Insert;
    InsertAdds(c, t, x.key, x.value);
    LevelFacts(c, t, 0);
    assert (interim + [x])[|interim|] == x;
  }

  lemma {:induction false} RefillNextFrom<K, V>(
    c: Config<K, V>, t: Table<K, V>, interim: Level<K, V>, k: nat, x: Slot<K, V>)
    requires Sound(c, t) && k <= |interim|
    ensures RefilledNext(c, x, Refill(c, t, interim, k), Refill(c, t, interim + [x], k))
    decreases |interim| - k
  {
    hide Sound, Insert, RefilledNext;
    if k == |interim| {
      RefillOneAt(c, t, interim, x);
    } else {
      var y := interim[k];
      assert (interim + [x])[k] == y;
      if !y.token {
        RefillNextFrom(c, t, interim, k + 1, x);
      } else {
        InsertAdds(c, t, y.key, y.value);
        LevelFacts(c, t, 0);
        var (t', code) := Insert(c, t, y.key, y.value);
        if code == 0 { RefillNextFrom(c, t', interim, k + 1, x); } else { BothExited(c, x); }
      }
    }
  }

  lemma BothExited<K, V>(c: Config<K, V>, x: Slot<K, V>)
    ensures RefilledNext(c, x, Exit, Exit)
  {
  }

  /** The refill of a level_shrink, slot by slot in the order of the old top level. */
  lemma RefillNext<K, V>(c: Config<K, V>, t: Table<K, V>, interim: Level<K, V>, m: nat)
    requires Sound(c, t) && m < |interim|
    ensures Refill(c, t, interim[..0], 0) == Done(t)
    ensures RefilledNext(c, interim[m], Refill(c, t, interim[..m], 0), Refill(c, t, interim[..m + 1], 0))
  {
    hide Sound, RefilledNext;
    assert interim[..m + 1] == interim[..m] + [interim[m]];
    RefillNextFrom(c, t, interim[..m], 0, interim[m]);
  }
}
