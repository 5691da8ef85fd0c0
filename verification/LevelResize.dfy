/** In-place expand and shrink: one level is rehashed, and no pair is lost or duplicated. */
module LevelResize {
  import opened Words
  import opened LevelSpec
  import opened LevelInsert

  // ---------------------------------------------------------------- expand

  /** The rehash loop moves every remaining bottom pair into the new level, correctly placed and counted. */
  lemma {:induction false} RehashKeeps<K, V>(
    c: Config<K, V>, bottom: Level<K, V>, k: nat, top: Level<K, V>, num: nat, capacity: nat)
    requires Placed(c, top, capacity) && num == |Items(top)| && k <= |bottom|
    ensures var r := Rehash(c, bottom, k, top, num, capacity);
      r.Done? ==>
        && Placed(c, r.value.0, capacity) && r.value.1 == |Items(r.value.0)|
        && Items(r.value.0) + Items(bottom[..k]) == Items(top) + Items(bottom)
    decreases |bottom| - k
  {
    hide F, S, Items, Placed;
    PlacedSize(c, top, capacity);
    if k == |bottom| {
      assert bottom[..k] == bottom;
    } else {
      ItemsPrefix(bottom, k);
      var x := bottom[k];
      if !x.token {
        RehashKeeps(c, bottom, k + 1, top, num, capacity);
      } else {
        var p := FreeSlot(top, F(c, x.key, capacity), S(c, x.key, capacity), 0);
        if p != -1 {
          ItemsUpdate(top, p, x);
          PlacedUpdate(c, top, capacity, p, x);
          assert Items(top[p := x]) == Items(top) + ItemOf(x);
          RehashKeeps(c, bottom, k + 1, top[p := x], num + 1, capacity);
          var r := Rehash(c, bottom, k, top, num, capacity);
          if r.Done? { Transfer(Items(r.value.0), Items(bottom[..k]), ItemOf(x), Items(top), Items(bottom)); }
        }
      }
    }
  }

  lemma PlacedSize<K, V>(c: Config<K, V>, l: Level<K, V>, capacity: nat)
    requires Placed(c, l, capacity)
    ensures capacity >= 2 && |l| == ASSOC_NUM * capacity
  {
  }

  lemma ItemsPrefix<K, V>(l: Level<K, V>, k: nat)
    requires k < |l|
    ensures Items(l[..k + 1]) == Items(l[..k]) + ItemOf(l[k])
  {
    assert l[..k + 1][..k] == l[..k];
  }

  lemma Transfer<T>(r: multiset<T>, done: multiset<T>, x: multiset<T>, top: multiset<T>, all: multiset<T>)
    requires r + (done + x) == (top + x) + all
    ensures r + done == top + all
  {
    assert r + done == (r + (done + x)) - x;
    assert top + all == ((top + x) + all) - x;
  }

  /** An expand that returns keeps the contents, doubles the table, and keeps the old top level, unrehashed,
      as the bottom one. */
  lemma ExpandKeeps<K, V>(c: Config<K, V>, t: Table<K, V>)
    requires Sound(c, t)
    ensures var r := Expand(c, t);
      r.Done? ==>
        && Sound(c, r.value) && Contents(r.value) == Contents(t)
        && r.value.levelSize == t.levelSize + 1 && r.value.addrCapacity == 2 * t.addrCapacity
        && r.value.levels[1] == t.levels[0] && r.value.levelItemNum[1] == t.levelItemNum[0]
        && r.value.levelExpandTime == (t.levelExpandTime + 1) % 256 && r.value.resizeState == 0
  {
    hide Placed, F, S, Items;
    LevelFacts(c, t, 0);
    LevelFacts(c, t, 1);
    var capacity := Pow2(t.levelSize + 1);
    var blank := NewBuckets(c, capacity);
    assert Placed(c, blank, capacity) by { PlacedBlank(c, blank, capacity); }
    ItemsBlank(blank);
    RehashKeeps(c, t.levels[1], 0, blank, 0, capacity);
    assert t.levels[1][..0] == [];
    var r := Expand(c, t);
    if r.Done? {
      var top := r.value.levels[0];
      assert Items(top) + Items(t.levels[1][..0]) == Items(blank) + Items(t.levels[1]);
      ItemsBlank(t.levels[1][..0]);
      assert Items(top) == Items(top) + multiset{} && Items(t.levels[1]) == multiset{} + Items(t.levels[1]);
    }
  }

  // ---------------------------------------------------------------- when expand cannot fail

  /** Emptying a slot in use loses one item. */
  lemma Clear<K, V>(l: Level<K, V>, k: nat)
    requires k < |l| && l[k].token
    ensures |Items(l)| == |Items(l[k := l[k].(token := false)])| + 1
  {
    hide Items;
    var x := l[k].(token := false);
    ItemsUpdate(l, k, x);
    assert |Items(l[k := x]) + ItemOf(l[k])| == |Items(l) + ItemOf(x)|;
  }

  /** Emptying the first n slots of a full bucket. */
  function Emptied<K, V>(l: Level<K, V>, b: nat, n: nat): (r: Level<K, V>)
    requires n <= ASSOC_NUM && ASSOC_NUM * b + ASSOC_NUM <= |l|
    ensures |r| == |l|
    ensures forall k :: 0 <= k < |l| && !(ASSOC_NUM * b <= k < ASSOC_NUM * b + n) ==> r[k] == l[k]
  {
    if n == 0 then l else
      var r := Emptied(l, b, n - 1);
      r[ASSOC_NUM * b + n - 1 := r[ASSOC_NUM * b + n - 1].(token := false)]
  }

  lemma {:induction false} EmptiedCount<K, V>(l: Level<K, V>, b: nat, n: nat)
    requires n <= ASSOC_NUM && ASSOC_NUM * b + ASSOC_NUM <= |l| && FullBucket(l, b)
    ensures |Items(l)| == |Items(Emptied(l, b, n))| + n
  {
    hide Items;
    if n > 0 {
      EmptiedCount(l, b, n - 1);
      Clear(Emptied(l, b, n - 1), ASSOC_NUM * b + n - 1);
    }
  }

  /** Two full buckets hold eight items. */
  lemma TwoFullBuckets<K, V>(l: Level<K, V>, f: nat, s: nat)
    requires f != s && ASSOC_NUM * f + ASSOC_NUM <= |l| && ASSOC_NUM * s + ASSOC_NUM <= |l|
    requires FullBucket(l, f) && FullBucket(l, s)
    ensures |Items(l)| >= 8
  {
    hide Items;
    EmptiedCount(l, f, ASSOC_NUM);
    EmptiedCount(Emptied(l, f, ASSOC_NUM), s, ASSOC_NUM);
  }

  lemma {:induction false} RehashFits<K, V>(
    c: Config<K, V>, bottom: Level<K, V>, k: nat, top: Level<K, V>, num: nat, capacity: nat)
    requires Placed(c, top, capacity) && num == |Items(top)| && k <= |bottom|
    requires num + |Items(bottom)| - |Items(bottom[..k])| <= 8
    ensures Rehash(c, bottom, k, top, num, capacity).Done?
    decreases |bottom| - k
  {
    hide Items, Placed, FIdx, SIdx, FreeSlot;
    PlacedSize(c, top, capacity);
    if k < |bottom| {
      ItemsPrefix(bottom, k);
      PrefixBound(bottom, k + 1);
      var x := bottom[k];
      if !x.token {
        RehashFits(c, bottom, k + 1, top, num, capacity);
      } else {
        var f, s := F(c, x.key, capacity), S(c, x.key, capacity);
        FreeSlotFull(top, f, s);
        var p := FreeSlot(top, f, s, 0);
        if p == -1 {
          TwoFullBuckets(top, f, s);
          assert false;
        } else {
          ItemsUpdate(top, p, x);
          PlacedUpdate(c, top, capacity, p, x);
          assert Items(top[p := x]) == Items(top) + ItemOf(x);
          RehashFits(c, bottom, k + 1, top[p := x], num + 1, capacity);
        }
      }
    }
  }

  lemma {:induction false} PrefixBound<K, V>(l: Level<K, V>, k: nat)
    requires k <= |l|
    ensures |Items(l[..k])| <= |Items(l)|
  {
    if k == |l| {
      assert l[..k] == l;
    } else {
      PrefixBound(l[..|l| - 1], k);
      assert l[..|l| - 1][..k] == l[..k];
    }
  }

  /** Whatever the hash function, an expand cannot fail while the bottom level holds at most eight items. */
  lemma ExpandFits<K, V>(c: Config<K, V>, t: Table<K, V>)
    requires Sound(c, t) && t.levelItemNum[1] <= 8
    ensures Expand(c, t).Done?
  {
    hide Placed, F, S, Items;
    LevelFacts(c, t, 0);
    LevelFacts(c, t, 1);
    var capacity := Pow2(t.levelSize + 1);
    var blank := NewBuckets(c, capacity);
    assert Placed(c, blank, capacity) by { PlacedBlank(c, blank, capacity); }
    ItemsBlank(blank);
    ItemsBlank(t.levels[1][..0]);
    RehashFits(c, t.levels[1], 0, blank, 0, capacity);
  }

  // ---------------------------------------------------------------- shrink

  /** The refill loop of level_shrink: re-insert the items of the old top level from slot k on. */
  function Refill<K, V>(c: Config<K, V>, t: Table<K, V>, interim: Level<K, V>, k: nat): Outcome<Table<K, V>>
    requires Sound(c, t) && k <= |interim|
    decreases |interim| - k
  {
    if k == |interim| then Done(t)
    else if !interim[k].token then Refill(c, t, interim, k + 1)
    else
      InsertAdds(c, t, interim[k].key, interim[k].value);
      var (t', code) := Insert(c, t, interim[k].key, interim[k].value);
      if code != 0 then Exit else Refill(c, t', interim, k + 1)
  }

  lemma HalvedSound<K, V>(c: Config<K, V>, t: Table<K, V>)
    requires Sound(c, t) && t.levelSize >= 3
    ensures Sound(c, Halved(c, t)) && Contents(Halved(c, t)) == Items(t.levels[1])
    ensures Halved(c, t).levelSize == t.levelSize - 1 && Halved(c, t).levelExpandTime == t.levelExpandTime
    ensures Halved(c, t).levels[0] == t.levels[1]
    ensures forall k :: 0 <= k < |Halved(c, t).levels[1]| ==> !Halved(c, t).levels[1][k].token
  {
    hide F, S, Items, Placed;
    LevelFacts(c, t, 1);
    var h := Halved(c, t);
    PlacedBlank(c, h.levels[1], Pow2(t.levelSize - 2));
    ItemsBlank(h.levels[1]);
  }

  /** level_shrink. Below level_size 3 the new bottom index would be taken modulo 0. */
  function Shrink<K, V>(c: Config<K, V>, t: Table<K, V>): Outcome<Table<K, V>>
    requires Sound(c, t) && t.levelSize >= 3
  {
    if TooFull(t) then Exit
    else
      HalvedSound(c, t);
      match Refill(c, Halved(c, t), t.levels[0], 0)
      case Exit => Exit
      case Done(t') => Done(t'.(levelExpandTime := 0, resizeState := 0))
  }

  /** However many residents the re-insertions displace, the pairs in the halved table plus those still to
      come are always the same. */
  lemma {:induction false} RefillKeeps<K, V>(c: Config<K, V>, t: Table<K, V>, interim: Level<K, V>, k: nat)
    requires Sound(c, t) && k <= |interim|
    ensures var r := Refill(c, t, interim, k);
      r.Done? ==>
        && Sound(c, r.value) && r.value.levelSize == t.levelSize
        && Contents(r.value) + Items(interim[..k]) == Contents(t) + Items(interim)
    decreases |interim| - k
  {
    hide Sound, Contents, Items, Insert;
    if k == |interim| {
      assert interim[..k] == interim;
    } else {
      ItemsPrefix(interim, k);
      var x := interim[k];
      if !x.token {
        RefillKeeps(c, t, interim, k + 1);
      } else {
        InsertAdds(c, t, x.key, x.value);
        var (t', code) := Insert(c, t, x.key, x.value);
        if code == 0 {
          RefillKeeps(c, t', interim, k + 1);
          var r := Refill(c, t, interim, k);
          LevelFacts(c, t, 0);
          if r.Done? {
            LevelFacts(c, r.value, 0);
            Transfer(Contents(r.value), Items(interim[..k]), ItemOf(x), Contents(t), Items(interim));
          }
        }
      }
    }
  }

  /** A shrink that returns keeps the contents exactly and halves the table. */
  lemma ShrinkKeeps<K, V>(c: Config<K, V>, t: Table<K, V>)
    requires Sound(c, t) && t.levelSize >= 3
    ensures var r := Shrink(c, t);
      r.Done? ==>
        && Sound(c, r.value) && Contents(r.value) == Contents(t)
        && r.value.levelSize == t.levelSize - 1 && 2 * r.value.addrCapacity == t.addrCapacity
        && r.value.levelExpandTime == 0 && r.value.resizeState == 0
  {
    hide Placed, Items, NewBuckets;
    HalvedSound(c, t);
    RefillKeeps(c, Halved(c, t), t.levels[0], 0);
    ItemsBlank(t.levels[0][..0]);
    var r := Refill(c, Halved(c, t), t.levels[0], 0);
    if r.Done? {
      assert Contents(r.value) == Contents(r.value) + Items(t.levels[0][..0]);
    }
  }
}
