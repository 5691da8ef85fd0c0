/** Which slot every operation picks, in terms of slot numbers, items and hash values alone. */
module LevelChoice {
  import opened Words
  import opened LevelSpec
  import opened LevelInsert
  import opened LevelIndex
  import opened LevelLoad

  /** Every stored key is at home. */
  lemma StoredAtHome<K, V>(c: Config<K, V>, t: Table<K, V>, i: nat, p: nat)
    requires Sound(c, t) && i < 2 && p < |t.levels[i]| && t.levels[i][p].token
    ensures Home(c, t.levels[i], p, t.levels[i][p].key)
  {
    hide F, S, Items, Pow2;
    HomeExactly(c, t.levels[i], Capacity(t, i), p, t.levels[i][p].key);
  }

  // ---------------------------------------------------------------- searching

  /** Slot p is the first one of the level that holds the key. */
  predicate FirstHeld<K(==), V>(l: Level<K, V>, key: K, p: nat) {
    && p < |l| && l[p].token && l[p].key == key
    && forall q :: 0 <= q < p ==> !(l[q].token && l[q].key == key)
  }

  predicate HeldNowhere<K(==), V>(l: Level<K, V>, key: K) {
    forall q :: 0 <= q < |l| ==> !(l[q].token && l[q].key == key)
  }

  /** The search of a level finds the first slot of all that holds the key. */
  lemma FindInFirst<K, V>(c: Config<K, V>, t: Table<K, V>, i: nat, key: K)
    requires Sound(c, t) && i < 2
    ensures match FindIn(c, t, i, key)
      case Nowhere => HeldNowhere(t.levels[i], key)
      case At(j, p) => j == i && FirstHeld(t.levels[i], key, p)
  {
    hide Items, Pow2, Sound, FIdx, SIdx;
    LevelFacts(c, t, i);
    var l, cap := t.levels[i], Capacity(t, i);
    var f, s := F(c, key, cap), S(c, key, cap);
    BucketsOrdered(c, key, cap);
    forall q | 0 <= q < |l| && l[q].token && l[q].key == key
      ensures ASSOC_NUM * f <= q < ASSOC_NUM * f + ASSOC_NUM || ASSOC_NUM * s <= q < ASSOC_NUM * s + ASSOC_NUM
    {
      assert ASSOC_NUM * (q / ASSOC_NUM) <= q < ASSOC_NUM * (q / ASSOC_NUM) + ASSOC_NUM;
    }
  }

  lemma BucketsOrdered<K, V>(c: Config<K, V>, key: K, capacity: nat)
    requires capacity >= 2
    ensures F(c, key, capacity) < S(c, key, capacity)
  {
  }

  /** Static query, delete and update take the first slot of the top level that holds the key, else the first one
      of the bottom level. */
  lemma StaticOrder<K, V>(c: Config<K, V>, t: Table<K, V>, key: K)
    requires Sound(c, t)
    ensures |t.levels| == 2
    ensures match FindStatic(c, t, key)
      case Nowhere => HeldNowhere(t.levels[0], key) && HeldNowhere(t.levels[1], key)
      case At(i, p) => i < 2 && FirstHeld(t.levels[i], key, p) && (i == 1 ==> HeldNowhere(t.levels[0], key))
  {
    LevelFacts(c, t, 0);
    hide Sound, Items, FindIn, FirstHeld, HeldNowhere, Holds;
    FindInFirst(c, t, 0, key);
    FindInFirst(c, t, 1, key);
  }

  /** The dynamic query starts with the level that has more items, with the bottom level on a tie. */
  lemma DynamicOrder<K, V>(c: Config<K, V>, t: Table<K, V>, key: K)
    requires Sound(c, t)
    ensures |t.levels| == 2
    ensures match FindDynamic(c, t, key)
      case Nowhere => HeldNowhere(t.levels[0], key) && HeldNowhere(t.levels[1], key)
      case At(i, p) =>
        && i < 2 && FirstHeld(t.levels[i], key, p)
        && (i == 1 && |Items(t.levels[0])| > |Items(t.levels[1])| ==> HeldNowhere(t.levels[0], key))
        && (i == 0 && |Items(t.levels[0])| <= |Items(t.levels[1])| ==> HeldNowhere(t.levels[1], key))
  {
    LevelFacts(c, t, 0);
    LevelFacts(c, t, 1);
    hide Sound, Items, FindIn, FirstHeld, HeldNowhere, Holds, Placed;
    FindInFirst(c, t, 0, key);
    FindInFirst(c, t, 1, key);
  }

  lemma FirstHeldUnique<K, V>(l: Level<K, V>, key: K, p: nat, q: nat)
    requires FirstHeld(l, key, p) && FirstHeld(l, key, q)
    ensures p == q && !HeldNowhere(l, key)
  {
  }

  /** Whatever it does to the slot it finds, the first slot of the first level that holds the key is meant. */
  lemma FoundFirst<K, V>(c: Config<K, V>, t: Table<K, V>, key: K)
    requires Sound(c, t)
    ensures |t.levels| == 2
    ensures var l0, l1, r := t.levels[0], t.levels[1], FindStatic(c, t, key);
      && (r.Nowhere? <==> HeldNowhere(l0, key) && HeldNowhere(l1, key))
      && (forall p: nat :: FirstHeld(l0, key, p) ==> r == At(0, p))
      && (HeldNowhere(l0, key) ==> forall p: nat :: FirstHeld(l1, key, p) ==> r == At(1, p))
  {
    LevelFacts(c, t, 0);
    StaticOrder(c, t, key);
    hide Sound, FindStatic, FirstHeld, HeldNowhere;
    var l0, l1, r := t.levels[0], t.levels[1], FindStatic(c, t, key);
    if r.At? {
      FirstHeldUnique(t.levels[r.level], key, r.slot, r.slot);
    }
    forall p | FirstHeld(l0, key, p) ensures r == At(0, p) {
      FirstHeldUnique(l0, key, p, p);
      if r.At? && r.level == 0 { FirstHeldUnique(l0, key, p, r.slot); }
    }
    if HeldNowhere(l0, key) {
      forall p | FirstHeld(l1, key, p) ensures r == At(1, p) {
        FirstHeldUnique(l1, key, p, p);
        if r.At? { FirstHeldUnique(t.levels[r.level], key, r.slot, r.slot); }
        if r.At? && r.level == 1 { FirstHeldUnique(l1, key, p, r.slot); }
      }
    }
  }

  /** Slot p of level i is x now, and nothing else has changed in the levels. */
  ghost predicate Overwrites<K, V>(t: Table<K, V>, t': Table<K, V>, i: nat, p: nat, x: Slot<K, V>) {
    i < |t.levels| && p < |t.levels[i]| && t'.levels == t.levels[i := t.levels[i][p := x]]
  }

  lemma DeleteResult<K, V>(c: Config<K, V>, t: Table<K, V>, key: K)
    requires Sound(c, t)
    ensures var (t', code) := Delete(c, t, key);
      match FindStatic(c, t, key)
      case Nowhere => t' == t && code == 1
      case At(i, p) =>
        && i < |t.levels| && p < |t.levels[i]| && code == 0
        && Overwrites(t, t', i, p, t.levels[i][p].(token := false))
  {
    LevelFacts(c, t, 0);
    hide Sound, FindStatic;
  }

  lemma UpdateResult<K, V>(c: Config<K, V>, t: Table<K, V>, key: K, value: V)
    requires Sound(c, t)
    ensures var (t', code) := Update(c, t, key, value);
      match FindStatic(c, t, key)
      case Nowhere => t' == t && code == 1
      case At(i, p) =>
        && i < |t.levels| && p < |t.levels[i]| && code == 0
        && Overwrites(t, t', i, p, t.levels[i][p].(value := value))
  {
    LevelFacts(c, t, 0);
    hide Sound, FindStatic;
  }

  /** level_delete clears the token of the first slot that holds the key, top level first, and nothing else. */
  lemma DeleteExactly<K, V>(c: Config<K, V>, t: Table<K, V>, key: K)
    requires Sound(c, t)
    ensures |t.levels| == 2
    ensures var (t', code), l0, l1 := Delete(c, t, key), t.levels[0], t.levels[1];
      && (code == 1 <==> HeldNowhere(l0, key) && HeldNowhere(l1, key))
      && (forall p: nat :: FirstHeld(l0, key, p) ==> Overwrites(t, t', 0, p, l0[p].(token := false)))
      && (HeldNowhere(l0, key) ==>
            forall p: nat :: FirstHeld(l1, key, p) ==> Overwrites(t, t', 1, p, l1[p].(token := false)))
  {
    FoundFirst(c, t, key);
    DeleteResult(c, t, key);
    LevelFacts(c, t, 0);
    hide Sound, FindStatic, HeldNowhere, Delete, Overwrites;
  }

  /** level_update overwrites the value of that slot, and nothing else. */
  lemma UpdateExactly<K, V>(c: Config<K, V>, t: Table<K, V>, key: K, value: V)
    requires Sound(c, t)
    ensures |t.levels| == 2
    ensures var (t', code), l0, l1 := Update(c, t, key, value), t.levels[0], t.levels[1];
      && (code == 1 <==> HeldNowhere(l0, key) && HeldNowhere(l1, key))
      && (forall p: nat :: FirstHeld(l0, key, p) ==> Overwrites(t, t', 0, p, l0[p].(value := value)))
      && (HeldNowhere(l0, key) ==>
            forall p: nat :: FirstHeld(l1, key, p) ==> Overwrites(t, t', 1, p, l1[p].(value := value)))
  {
    FoundFirst(c, t, key);
    UpdateResult(c, t, key, value);
    LevelFacts(c, t, 0);
    hide Sound, FindStatic, HeldNowhere, Update, Overwrites;
  }

  // ---------------------------------------------------------------- level_insert

  /** Slot p is a free home slot of the key. */
  predicate FreeHome<K, V>(c: Config<K, V>, l: Level<K, V>, key: K, p: int) {
    0 <= p < |l| && Home(c, l, p, key) && !l[p].token
  }

  predicate NoFreeHome<K, V>(c: Config<K, V>, l: Level<K, V>, key: K) {
    forall p :: 0 <= p < |l| ==> !FreeHome(c, l, key, p)
  }

  /** The free home slot that comes first when both buckets are scanned in lockstep. */
  predicate FirstFree<K, V>(c: Config<K, V>, l: Level<K, V>, key: K, p: int) {
    && FreeHome(c, l, key, p)
    && forall q :: 0 <= q < |l| && FreeHome(c, l, key, q) ==> p % 4 < q % 4 || (p % 4 == q % 4 && p <= q)
  }

  /** The free home slot with the lowest number. */
  predicate LowestFree<K, V>(c: Config<K, V>, l: Level<K, V>, key: K, p: int) {
    && FreeHome(c, l, key, p)
    && forall q :: 0 <= q < |l| && FreeHome(c, l, key, q) ==> p <= q
  }

  /** Slot p of level l is the first home slot of the key whose resident has a free home slot in level l'. */
  predicate FirstMovable<K, V>(c: Config<K, V>, l: Level<K, V>, l': Level<K, V>, key: K, p: int) {
    && 0 <= p < |l| && Home(c, l, p, key) && !NoFreeHome(c, l', l[p].key)
    && forall q :: 0 <= q < p && Home(c, l, q, key) ==> NoFreeHome(c, l', l[q].key)
  }

  predicate NoMovable<K, V>(c: Config<K, V>, l: Level<K, V>, l': Level<K, V>, key: K) {
    forall q :: 0 <= q < |l| && Home(c, l, q, key) ==> NoFreeHome(c, l', l[q].key)
  }

  lemma {:induction false} HoleFirst<K, V>(l: Level<K, V>, b: nat, j: nat, i: nat)
    requires j <= i < ASSOC_NUM && ASSOC_NUM * b + ASSOC_NUM <= |l| && !l[ASSOC_NUM * b + i].token
    ensures FirstHole(l, b, j) <= i
    decreases ASSOC_NUM - j
  {
    if l[ASSOC_NUM * b + j].token { HoleFirst(l, b, j + 1, i); }
  }

  lemma FreeSlotBefore<K, V>(l: Level<K, V>, f: nat, s: nat, q: nat)
    requires f < s && ASSOC_NUM * s + ASSOC_NUM <= |l|
    requires q < |l| && !l[q].token && (q / 4 == f || q / 4 == s)
    ensures var p := FreeSlot(l, f, s, 0); p != -1 && (p % 4 < q % 4 || (p % 4 == q % 4 && p <= q))
  {
    hide FreeSlot, FirstHole;
    FreeSlotByHoles(l, f, s, 0);
    HoleFirst(l, q / 4, 0, q % 4);
    SlotNumbers(f, FirstHole(l, f, 0));
    SlotNumbers(s, FirstHole(l, s, 0));
  }

  lemma SlotNumbers(b: nat, h: nat)
    ensures h < 4 ==> (4 * b + h) % 4 == h && (4 * b + h) / 4 == b
  {
  }

  lemma FreeSlotIsFirst<K, V>(c: Config<K, V>, l: Level<K, V>, capacity: nat, key: K)
    requires capacity >= 2 && |l| == ASSOC_NUM * capacity
    ensures var p := FreeSlot(l, F(c, key, capacity), S(c, key, capacity), 0);
      if p == -1 then NoFreeHome(c, l, key) else FirstFree(c, l, key, p)
  {
    var f, s := F(c, key, capacity), S(c, key, capacity);
    BucketsOrdered(c, key, capacity);
    forall q | 0 <= q < |l| && !l[q].token && (q / 4 == f || q / 4 == s)
      ensures var p := FreeSlot(l, f, s, 0); p != -1 && (p % 4 < q % 4 || (p % 4 == q % 4 && p <= q))
    {
      FreeSlotBefore(l, f, s, q);
    }
    hide F, S;
    forall q: nat | q < |l| ensures Home(c, l, q, key) <==> q / 4 == f || q / 4 == s {
      HomeExactly(c, l, capacity, q, key);
    }
    hide Home;
  }

  /** There is only one first free slot. */
  lemma FirstFreeUnique<K, V>(c: Config<K, V>, l: Level<K, V>, key: K, p: int, q: int)
    requires FirstFree(c, l, key, p) && FirstFree(c, l, key, q)
    ensures p == q
  {
    hide Home;
  }

  lemma FreeBranch<K, V>(c: Config<K, V>, t: Table<K, V>, i: nat, key: K, value: V)
    requires Sound(c, t) && i < 2
    ensures NoFreeHome(c, t.levels[i], key) <==> InsertFree(c, t, i, key, value).1 != 0
    ensures forall p :: FirstFree(c, t.levels[i], key, p) ==>
      InsertFree(c, t, i, key, value).0.levels == t.levels[i := t.levels[i][p := Slot(true, key, value)]]
  {
    LevelFacts(c, t, i);
    hide Sound, F, S, FreeSlot;
    var l := t.levels[i];
    FreeSlotIsFirst(c, l, Capacity(t, i), key);
    forall p | FirstFree(c, l, key, p)
      ensures InsertFree(c, t, i, key, value).0.levels == t.levels[i := l[p := Slot(true, key, value)]]
    {
      var q := FreeSlot(l, F(c, key, Capacity(t, i)), S(c, key, Capacity(t, i)), 0);
      FirstFreeUnique(c, l, key, p, q);
    }
    hide Home;
  }

  // ---------------------------------------------------------------- displacement

  /** A slot in a full bucket of its resident: the way out is the lowest free home slot of the resident. */
  lemma SidewaysExactly<K, V>(c: Config<K, V>, l: Level<K, V>, capacity: nat, p: nat)
    requires Placed(c, l, capacity) && p < |l| && FullBucket(l, p / ASSOC_NUM)
    ensures var q := SidewaysSlot(c, l, capacity, p);
      if q == -1 then NoFreeHome(c, l, l[p].key) else LowestFree(c, l, l[p].key, q)
  {
    var key := l[p].key;
    var f, s, b := F(c, key, capacity), S(c, key, capacity), p / ASSOC_NUM;
    var alt := Alternative(c, key, capacity, b);
    assert l[p].token by { InBucket(l, p); }
    assert b == f || b == s;
    BucketsOrdered(c, key, capacity);
    FreeSlotInOne(l, alt);
    hide F, S, FreeSlot;
    forall q: nat | q < |l| ensures Home(c, l, q, key) <==> q / 4 == b || q / 4 == alt {
      HomeExactly(c, l, capacity, q, key);
    }
    forall q: nat | q < |l| && q / 4 == b ensures l[q].token { InBucket(l, q); }
    hide Home, Placed, FullBucket;
  }

  lemma InBucket<K, V>(l: Level<K, V>, q: nat)
    requires q < |l| && ASSOC_NUM * (q / 4) + ASSOC_NUM <= |l| && FullBucket(l, q / 4)
    ensures l[q].token
  {
    assert ASSOC_NUM * (q / 4) <= q < ASSOC_NUM * (q / 4) + ASSOC_NUM;
  }

  lemma FreeSlotInOne<K, V>(l: Level<K, V>, b: nat)
    requires ASSOC_NUM * b + ASSOC_NUM <= |l|
    ensures var p := FreeSlot(l, b, b, 0);
      && (p != -1 ==> 0 <= p < |l| && !l[p].token && p / 4 == b)
      && forall q :: 0 <= q < |l| && q / 4 == b && !l[q].token ==> p != -1 && p <= q
  {
    forall q | 0 <= q < |l| && q / 4 == b ensures ASSOC_NUM * b <= q < ASSOC_NUM * b + ASSOC_NUM {}
  }

  lemma HomeSlots<K, V>(c: Config<K, V>, l: Level<K, V>, capacity: nat, key: K, q: nat)
    requires capacity >= 2 && |l| == ASSOC_NUM * capacity && q < |l|
    ensures var f, s := F(c, key, capacity), S(c, key, capacity);
      Home(c, l, q, key) <==>
        (ASSOC_NUM * f <= q < ASSOC_NUM * f + ASSOC_NUM || ASSOC_NUM * s <= q < ASSOC_NUM * s + ASSOC_NUM)
  {
    HomeExactly(c, l, capacity, q, key);
    hide F, S, Home;
  }

  lemma BothFull<K, V>(c: Config<K, V>, l: Level<K, V>, capacity: nat, key: K)
    requires capacity >= 2 && |l| == ASSOC_NUM * capacity
    ensures NoFreeHome(c, l, key) <==>
      FullBucket(l, F(c, key, capacity)) && FullBucket(l, S(c, key, capacity))
  {
    var f, s := F(c, key, capacity), S(c, key, capacity);
    FreeSlotIsFirst(c, l, capacity, key);
    FreeSlotFull(l, f, s);
    hide F, S, FullBucket, FreeSlot, Home;
  }

  /** In a home bucket of a key without a free home slot, a resident can leave just when it has one. */
  lemma WayOut<K, V>(c: Config<K, V>, l: Level<K, V>, capacity: nat, key: K, q: nat)
    requires Placed(c, l, capacity) && NoFreeHome(c, l, key) && q < |l| && Home(c, l, q, key)
    ensures capacity >= 2 && |l| == ASSOC_NUM * capacity && l[q].token
    ensures var to := SidewaysSlot(c, l, capacity, q);
      if to == -1 then NoFreeHome(c, l, l[q].key) else LowestFree(c, l, l[q].key, to)
  {
    BothFull(c, l, capacity, key);
    HomeExactly(c, l, capacity, q, key);
    hide F, S, Home, NoFreeHome, SidewaysSlot, FullBucket;
    InBucket(l, q);
    SidewaysExactly(c, l, capacity, q);
  }

  lemma {:induction false} FirstSidewaysFirst<K, V>(
    c: Config<K, V>, l: Level<K, V>, capacity: nat, b: nat, a: nat, k: nat)
    requires capacity >= 2 && |l| == ASSOC_NUM * capacity && b < capacity && a <= ASSOC_NUM
    requires ASSOC_NUM * b + a <= k < FirstSideways(c, l, capacity, b, a)
    ensures k < |l| && SidewaysSlot(c, l, capacity, k) == -1
    decreases ASSOC_NUM - a
  {
    hide SidewaysSlot;
    if k > ASSOC_NUM * b + a { FirstSidewaysFirst(c, l, capacity, b, a + 1, k); }
  }

  /** The search for a displacement: the first bucket, then the second. */
  function Sideways<K, V>(c: Config<K, V>, l: Level<K, V>, capacity: nat, key: K): (p: int)
    requires capacity >= 2 && |l| == ASSOC_NUM * capacity
    ensures p == -1 || 0 <= p < |l|
  {
    var p := FirstSideways(c, l, capacity, F(c, key, capacity), 0);
    if p != -1 then p else FirstSideways(c, l, capacity, S(c, key, capacity), 0)
  }

  /** The search passes over home slots whose residents cannot leave, and stops at the first that can. */
  lemma SidewaysPasses<K, V>(c: Config<K, V>, l: Level<K, V>, capacity: nat, key: K, q: nat)
    requires capacity >= 2 && |l| == ASSOC_NUM * capacity && q < |l| && Home(c, l, q, key)
    requires var p := Sideways(c, l, capacity, key); p == -1 || q < p
    ensures SidewaysSlot(c, l, capacity, q) == -1
  {
    var f, s := F(c, key, capacity), S(c, key, capacity);
    BucketsOrdered(c, key, capacity);
    HomeSlots(c, l, capacity, key, q);
    hide F, S, Home, SidewaysSlot, FirstSideways;
    var p := FirstSideways(c, l, capacity, f, 0);
    var r := FirstSideways(c, l, capacity, s, 0);
    if q < ASSOC_NUM * f + ASSOC_NUM {
      if p != -1 { FirstSidewaysFirst(c, l, capacity, f, 0, q); }
    } else if r != -1 {
      FirstSidewaysFirst(c, l, capacity, s, 0, q);
    }
  }

  /** Without a free home slot, the search for a displacement finds the first home slot that can be left. */
  lemma SidewaysFirst<K, V>(c: Config<K, V>, l: Level<K, V>, capacity: nat, key: K)
    requires Placed(c, l, capacity) && NoFreeHome(c, l, key)
    ensures capacity >= 2 && |l| == ASSOC_NUM * capacity
    ensures var p := Sideways(c, l, capacity, key);
      if p == -1 then NoMovable(c, l, l, key)
      else FirstMovable(c, l, l, key, p) && LowestFree(c, l, l[p].key, SidewaysSlot(c, l, capacity, p))
  {
    var p := Sideways(c, l, capacity, key);
    assert p != -1 ==> Home(c, l, p, key) && SidewaysSlot(c, l, capacity, p) != -1 by {
      if p != -1 { HomeSlots(c, l, capacity, key, p); }
    }
    hide Home, SidewaysSlot, NoFreeHome, Sideways, F, S, LowestFree;
    forall q: nat | q < |l| && Home(c, l, q, key) && (p == -1 || q < p) ensures NoFreeHome(c, l, l[q].key) {
      SidewaysPasses(c, l, capacity, key, q);
      WayOut(c, l, capacity, key, q);
    }
    if p != -1 {
      WayOut(c, l, capacity, key, p);
      assert !NoFreeHome(c, l, l[p].key) by { NotNone(c, l, l[p].key, SidewaysSlot(c, l, capacity, p)); }
    }
  }

  lemma NotNone<K, V>(c: Config<K, V>, l: Level<K, V>, key: K, q: int)
    requires LowestFree(c, l, key, q)
    ensures !NoFreeHome(c, l, key)
  {
    hide Home;
  }

  lemma FirstMovableUnique<K, V>(c: Config<K, V>, l: Level<K, V>, l': Level<K, V>, key: K, p: int, q: int)
    requires FirstMovable(c, l, l', key, p) && FirstMovable(c, l, l', key, q)
    ensures p == q
  {
    hide Home, NoFreeHome;
  }

  lemma LowestFreeUnique<K, V>(c: Config<K, V>, l: Level<K, V>, key: K, p: int, q: int)
    requires LowestFree(c, l, key, p) && LowestFree(c, l, key, q)
    ensures p == q
  {
    hide Home;
  }

  /** What the table becomes when the resident of slot p moves to q and the pair takes its place. */
  ghost predicate Displaced<K, V>(
    t: Table<K, V>, t': Table<K, V>, i: nat, p: int, q: int, key: K, value: V)
  {
    && i < |t.levels| && 0 <= p < |t.levels[i]| && 0 <= q < |t.levels[i]|
    && var l := t.levels[i];
       t'.levels == t.levels[i := l[q := l[p].(token := true)][p := Slot(true, key, value)]]
  }

  lemma TryMovementResult<K, V>(c: Config<K, V>, t: Table<K, V>, b: nat, i: nat, key: K, value: V)
    requires Sound(c, t) && i < 2 && b < Capacity(t, i)
    ensures |t.levels| == 2 && Capacity(t, i) >= 2 && |t.levels[i]| == ASSOC_NUM * Capacity(t, i)
    ensures var l, cap := t.levels[i], Capacity(t, i);
      var p, r := FirstSideways(c, l, cap, b, 0), TryMovement(c, t, b, i, key, value);
      if p == -1 then r.1 != 0
      else r.1 == 0 && Displaced(t, r.0, i, p, SidewaysSlot(c, l, cap, p), key, value)
  {
    LevelFacts(c, t, i);
    hide Sound, FirstSideways, SidewaysSlot, Placed, Items, Capacity, Put;
    var l, cap := t.levels[i], Capacity(t, i);
    var p := FirstSideways(c, l, cap, b, 0);
    if p != -1 {
      var q := SidewaysSlot(c, l, cap, p);
      PutTwice(t, i, l[q := l[p].(token := true)], p, key, value);
    }
  }

  lemma PutTwice<K, V>(t: Table<K, V>, i: nat, l: Level<K, V>, p: nat, key: K, value: V)
    requires i < |t.levels| == |t.levelItemNum| && p < |l|
    ensures Put(t.(levels := t.levels[i := l]), i, p, key, value).levels
         == t.levels[i := l[p := Slot(true, key, value)]]
  {
  }

  /** What InsertSideways does, given what its two searches find. */
  lemma SidewaysResult<K, V>(c: Config<K, V>, t: Table<K, V>, i: nat, key: K, value: V)
    requires Sound(c, t) && i < 2
    ensures |t.levels| == 2 && Capacity(t, i) >= 2 && |t.levels[i]| == ASSOC_NUM * Capacity(t, i)
    ensures var l, cap := t.levels[i], Capacity(t, i);
      var p, r := Sideways(c, l, cap, key), InsertSideways(c, t, i, key, value);
      if p == -1 then r.1 != 0
      else r.1 == 0 && Displaced(t, r.0, i, p, SidewaysSlot(c, l, cap, p), key, value)
  {
    LevelFacts(c, t, i);
    hide Sound, FirstSideways, SidewaysSlot, F, S, TryMovement, Displaced;
    TryMovementResult(c, t, F(c, key, Capacity(t, i)), i, key, value);
    TryMovementResult(c, t, S(c, key, Capacity(t, i)), i, key, value);
  }

  lemma SidewaysBranch<K, V>(c: Config<K, V>, t: Table<K, V>, i: nat, key: K, value: V)
    requires Sound(c, t) && i < 2 && NoFreeHome(c, t.levels[i], key)
    ensures var l, r := t.levels[i], InsertSideways(c, t, i, key, value);
      && (NoMovable(c, l, l, key) <==> r.1 != 0)
      && forall p, q :: FirstMovable(c, l, l, key, p) && LowestFree(c, l, l[p].key, q) ==>
           r.0.levels == t.levels[i := l[q := l[p]][p := Slot(true, key, value)]]
  {
    LevelFacts(c, t, i);
    var l, cap := t.levels[i], Capacity(t, i);
    SidewaysFirst(c, l, cap, key);
    SidewaysResult(c, t, i, key, value);
    hide Sound, InsertSideways, Sideways, SidewaysSlot, LowestFree, FirstMovable, NoFreeHome, Placed, Home;
    var p := Sideways(c, l, cap, key);
    if p != -1 {
      FirstMovableSome(c, l, l, key, p);
      WayOutToken(c, l, cap, key, p);
      forall p', q | FirstMovable(c, l, l, key, p') && LowestFree(c, l, l[p'].key, q)
        ensures p' == p && q == SidewaysSlot(c, l, cap, p)
      {
        FirstMovableUnique(c, l, l, key, p, p');
        LowestFreeUnique(c, l, l[p].key, q, SidewaysSlot(c, l, cap, p));
      }
    } else {
      forall p' ensures !FirstMovable(c, l, l, key, p') {
        if FirstMovable(c, l, l, key, p') { FirstMovableSome(c, l, l, key, p'); }
      }
    }
  }

  lemma FirstMovableSome<K, V>(c: Config<K, V>, l: Level<K, V>, l': Level<K, V>, key: K, p: int)
    requires FirstMovable(c, l, l', key, p)
    ensures 0 <= p < |l| && !NoMovable(c, l, l', key)
  {
    hide Home, NoFreeHome;
  }

  lemma WayOutToken<K, V>(c: Config<K, V>, l: Level<K, V>, capacity: nat, key: K, p: int)
    requires Placed(c, l, capacity) && NoFreeHome(c, l, key) && FirstMovable(c, l, l, key, p)
    ensures 0 <= p < |l| && l[p].token
  {
    hide Home;
    assert !FreeHome(c, l, key, p);
  }

  // ---------------------------------------------------------------- bottom to top

  lemma UpExactly<K, V>(c: Config<K, V>, t: Table<K, V>, p: nat)
    requires Sound(c, t) && p < |t.levels[1]|
    ensures var l0, key, q := t.levels[0], t.levels[1][p].key, UpSlot(c, t, p);
      if q == -1 then NoFreeHome(c, l0, key) else FirstFree(c, l0, key, q)
  {
    LevelFacts(c, t, 0);
    FreeSlotIsFirst(c, t.levels[0], t.addrCapacity, t.levels[1][p].key);
    hide Sound, F, S, FreeSlot, NoFreeHome, FirstFree;
  }

  lemma {:induction false} FirstUpFirst<K, V>(c: Config<K, V>, t: Table<K, V>, b: nat, a: nat, k: nat)
    requires Sound(c, t) && b < Capacity(t, 1) && a <= ASSOC_NUM
    requires ASSOC_NUM * b + a <= k < FirstUp(c, t, b, a)
    ensures k < |t.levels[1]| && UpSlot(c, t, k) == -1
    decreases ASSOC_NUM - a
  {
    hide UpSlot, Sound;
    BottomSlots(c, t);
    if k > ASSOC_NUM * b + a { FirstUpFirst(c, t, b, a + 1, k); }
  }

  /** The search for a bottom-to-top move: the first bucket, then the second. */
  function Upwards<K, V>(c: Config<K, V>, t: Table<K, V>, key: K): (p: int)
    requires Sound(c, t)
    ensures p == -1 || (|t.levels| == 2 && 0 <= p < |t.levels[1]|)
  {
    hide Sound;
    LevelFacts(c, t, 1);
    var p := FirstUp(c, t, F(c, key, Capacity(t, 1)), 0);
    if p != -1 then p else FirstUp(c, t, S(c, key, Capacity(t, 1)), 0)
  }

  lemma UpPasses<K, V>(c: Config<K, V>, t: Table<K, V>, key: K, q: nat)
    requires Sound(c, t) && q < |t.levels[1]| && Home(c, t.levels[1], q, key)
    requires var p := Upwards(c, t, key); p == -1 || q < p
    ensures UpSlot(c, t, q) == -1
  {
    LevelFacts(c, t, 1);
    var cap := Capacity(t, 1);
    var f, s := F(c, key, cap), S(c, key, cap);
    BucketsOrdered(c, key, cap);
    HomeSlots(c, t.levels[1], cap, key, q);
    hide F, S, Home, UpSlot, FirstUp, Sound;
    var p, r := FirstUp(c, t, f, 0), FirstUp(c, t, s, 0);
    if q < ASSOC_NUM * f + ASSOC_NUM {
      if p != -1 { FirstUpFirst(c, t, f, 0, q); }
    } else if r != -1 {
      FirstUpFirst(c, t, s, 0, q);
    }
  }

  /** The search finds the first bottom home slot of the key whose resident has a free home slot above. */
  lemma UpFirst<K, V>(c: Config<K, V>, t: Table<K, V>, key: K)
    requires Sound(c, t)
    ensures |t.levels| == 2
    ensures var l0, l1, p := t.levels[0], t.levels[1], Upwards(c, t, key);
      if p == -1 then NoMovable(c, l1, l0, key)
      else FirstMovable(c, l1, l0, key, p) && FirstFree(c, l0, l1[p].key, UpSlot(c, t, p))
  {
    LevelFacts(c, t, 1);
    var l0, l1, p := t.levels[0], t.levels[1], Upwards(c, t, key);
    assert p != -1 ==> Home(c, l1, p, key) && UpSlot(c, t, p) != -1 by {
      hide Sound, UpSlot, Home, F, S;
      if p != -1 { HomeSlots(c, l1, Capacity(t, 1), key, p); }
    }
    hide Sound, Home, UpSlot, NoFreeHome, Upwards, F, S, FirstFree;
    forall q: nat | q < |l1| && Home(c, l1, q, key) && (p == -1 || q < p) ensures NoFreeHome(c, l0, l1[q].key) {
      UpPasses(c, t, key, q);
      UpExactly(c, t, q);
    }
    if p != -1 {
      UpExactly(c, t, p);
      FirstNotNone(c, l0, l1[p].key, UpSlot(c, t, p));
    }
  }

  lemma FirstNotNone<K, V>(c: Config<K, V>, l: Level<K, V>, key: K, q: int)
    requires FirstFree(c, l, key, q)
    ensures !NoFreeHome(c, l, key)
  {
    hide Home;
  }

  /** What the table becomes when the resident of bottom slot p moves to top slot q and the pair takes its place. */
  ghost predicate MovedUp<K, V>(t: Table<K, V>, t': Table<K, V>, p: int, q: int, key: K, value: V) {
    && |t.levels| == 2 && 0 <= p < |t.levels[1]| && 0 <= q < |t.levels[0]|
    && t'.levels == [t.levels[0][q := t.levels[1][p].(token := true)], t.levels[1][p := Slot(true, key, value)]]
  }

  lemma B2tMovementResult<K, V>(c: Config<K, V>, t: Table<K, V>, b: nat)
    requires Sound(c, t) && b < Capacity(t, 1)
    ensures |t.levels| == 2
    ensures var p, r := FirstUp(c, t, b, 0), B2tMovement(c, t, b);
      if p == -1 then r.1 == -1
      else
        var q, m := UpSlot(c, t, p), t.levels[1][p];
        && ASSOC_NUM * b + r.1 == p && r.1 >= 0
        && r.0.levels == [t.levels[0][q := m.(token := true)], t.levels[1][p := m.(token := false)]]
  {
    LevelFacts(c, t, 1);
    hide Sound, FirstUp, UpSlot;
  }

  lemma B2tBounds<K, V>(c: Config<K, V>, t: Table<K, V>, b: nat)
    requires Sound(c, t) && b < Capacity(t, 1)
    ensures var (t1, j) := B2tMovement(c, t, b);
      && |t1.levels| == |t1.levelItemNum| == 2
      && (j != -1 ==> 0 <= ASSOC_NUM * b + j < |t1.levels[1]|)
  {
    LevelFacts(c, t, 1);
    hide Sound, B2tMovement;
  }

  lemma InsertByB2tSteps<K, V>(c: Config<K, V>, t: Table<K, V>, b: nat, key: K, value: V, t1: Table<K, V>, j: int)
    requires Sound(c, t) && b < Capacity(t, 1) && B2tMovement(c, t, b) == (t1, j)
    requires |t1.levels| == |t1.levelItemNum| == 2 && (j != -1 ==> 0 <= ASSOC_NUM * b + j < |t1.levels[1]|)
    ensures InsertByB2t(c, t, b, key, value) ==
      if j == -1 then (t1, 1) else (Put(t1, 1, ASSOC_NUM * b + j, key, value), 0)
  {
    hide Sound, B2tMovement, Put;
  }

  lemma PutLevels<K, V>(t: Table<K, V>, i: nat, p: nat, key: K, value: V)
    requires i < |t.levels| == |t.levelItemNum| && p < |t.levels[i]|
    ensures Put(t, i, p, key, value).levels == t.levels[i := t.levels[i][p := Slot(true, key, value)]]
  {
  }

  lemma InsertByB2tResult<K, V>(c: Config<K, V>, t: Table<K, V>, b: nat, key: K, value: V)
    requires Sound(c, t) && b < Capacity(t, 1)
    ensures var p, r := FirstUp(c, t, b, 0), InsertByB2t(c, t, b, key, value);
      if p == -1 then r.1 != 0 else r.1 == 0 && MovedUp(t, r.0, p, UpSlot(c, t, p), key, value)
  {
    hide Sound, FirstUp, UpSlot, B2tMovement, InsertByB2t, Capacity, Put;
    B2tMovementResult(c, t, b);
    B2tBounds(c, t, b);
    var (t1, j) := B2tMovement(c, t, b);
    InsertByB2tSteps(c, t, b, key, value, t1, j);
    UpSlotBounds(c, t, b);
    var p := FirstUp(c, t, b, 0);
    if p != -1 {
      var m := t.levels[1][p];
      var l0 := t.levels[0][UpSlot(c, t, p) := m.(token := true)];
      PutLevels(t1, 1, p, key, value);
      Overwrite(l0, t.levels[1], p, m.(token := false), Slot(true, key, value));
    }
  }

  lemma UpSlotBounds<K, V>(c: Config<K, V>, t: Table<K, V>, b: nat)
    requires Sound(c, t) && b < Capacity(t, 1)
    ensures var p := FirstUp(c, t, b, 0);
      p != -1 ==> 0 <= p < |t.levels[1]| && 0 <= UpSlot(c, t, p) < |t.levels[0]|
  {
    LevelFacts(c, t, 1);
    hide Sound, FirstUp, UpSlot;
  }

  lemma Overwrite<T>(a: seq<T>, b: seq<T>, p: nat, y: T, x: T)
    requires p < |b|
    ensures var ls := [a, b[p := y]]; ls[1 := ls[1][p := x]] == [a, b[p := x]]
  {
    var ls := [a, b[p := y]];
    assert b[p := y][p := x] == b[p := x];
    assert ls[1 := b[p := x]] == [a, b[p := x]];
  }

  lemma UpResult<K, V>(c: Config<K, V>, t: Table<K, V>, key: K, value: V)
    requires Sound(c, t) && t.levelExpandTime > 0
    ensures |t.levels| == 2
    ensures var p, r := Upwards(c, t, key), InsertUp(c, t, key, value);
      if p == -1 then r.1 != 0 else r.1 == 0 && MovedUp(t, r.0, p, UpSlot(c, t, p), key, value)
  {
    LevelFacts(c, t, 1);
    hide Sound, FirstUp, UpSlot, F, S, InsertByB2t, MovedUp;
    InsertByB2tResult(c, t, F(c, key, Capacity(t, 1)), key, value);
    InsertByB2tResult(c, t, S(c, key, Capacity(t, 1)), key, value);
  }

  // ---------------------------------------------------------------- all of level_insert

  /** level_insert, slot by slot: the first free home slot of the top level; else that of the bottom level; else
      one displacement in the top level; else one in the bottom level; else, once expanded, one bottom-to-top
      move; else nothing. A displacement takes the first home slot whose resident has a free home slot in its own
      level, and the lowest such slot; a move up takes the first one whose resident has a free home slot above, and
      the one that an insert of the resident would take. */
  ghost predicate InsertsBySlot<K, V>(
    c: Config<K, V>, t: Table<K, V>, key: K, value: V, t': Table<K, V>, code: nat)
    requires |t.levels| == 2
  {
    var l0, l1, x := t.levels[0], t.levels[1], Slot(true, key, value);
    if !NoFreeHome(c, l0, key) then
      code == 0 && forall p :: FirstFree(c, l0, key, p) ==> t'.levels == t.levels[0 := l0[p := x]]
    else if !NoFreeHome(c, l1, key) then
      code == 0 && forall p :: FirstFree(c, l1, key, p) ==> t'.levels == t.levels[1 := l1[p := x]]
    else if !NoMovable(c, l0, l0, key) then
      code == 0 && forall p, q :: FirstMovable(c, l0, l0, key, p) && LowestFree(c, l0, l0[p].key, q) ==>
        t'.levels == t.levels[0 := l0[q := l0[p]][p := x]]
    else if !NoMovable(c, l1, l1, key) then
      code == 0 && forall p, q :: FirstMovable(c, l1, l1, key, p) && LowestFree(c, l1, l1[p].key, q) ==>
        t'.levels == t.levels[1 := l1[q := l1[p]][p := x]]
    else if t.levelExpandTime > 0 && !NoMovable(c, l1, l0, key) then
      code == 0 && forall p, q :: FirstMovable(c, l1, l0, key, p) && FirstFree(c, l0, l1[p].key, q) ==>
        t'.levels == [l0[q := l1[p]], l1[p := x]]
    else code == 1 && t' == t
  }

  lemma UpBranch<K, V>(c: Config<K, V>, t: Table<K, V>, key: K, value: V)
    requires Sound(c, t) && t.levelExpandTime > 0 && NoFreeHome(c, t.levels[1], key)
    ensures |t.levels| == 2
    ensures var l0, l1, r := t.levels[0], t.levels[1], InsertUp(c, t, key, value);
      && (NoMovable(c, l1, l0, key) <==> r.1 != 0)
      && forall p, q :: FirstMovable(c, l1, l0, key, p) && FirstFree(c, l0, l1[p].key, q) ==>
           r.0.levels == [l0[q := l1[p]], l1[p := Slot(true, key, value)]]
  {
    LevelFacts(c, t, 1);
    UpFirst(c, t, key);
    UpResult(c, t, key, value);
    var l0, l1, p := t.levels[0], t.levels[1], Upwards(c, t, key);
    hide Sound, InsertUp, Upwards, UpSlot, FirstFree, FirstMovable, NoMovable, Home;
    if p != -1 {
      FirstMovableSome(c, l1, l0, key, p);
      assert l1[p].token by { FullHome(c, l1, l0, key, p); }
      hide NoFreeHome;
      forall p', q | FirstMovable(c, l1, l0, key, p') && FirstFree(c, l0, l1[p'].key, q)
        ensures p' == p && q == UpSlot(c, t, p)
      {
        FirstMovableUnique(c, l1, l0, key, p, p');
        FirstFreeUnique(c, l0, l1[p].key, q, UpSlot(c, t, p));
      }
    } else {
      hide NoFreeHome;
      forall p' ensures !FirstMovable(c, l1, l0, key, p') {
        if FirstMovable(c, l1, l0, key, p') { FirstMovableSome(c, l1, l0, key, p'); }
      }
    }
  }

  lemma FullHome<K, V>(c: Config<K, V>, l: Level<K, V>, l': Level<K, V>, key: K, p: int)
    requires NoFreeHome(c, l, key) && FirstMovable(c, l, l', key, p)
    ensures 0 <= p < |l| && l[p].token
  {
    hide Home;
    assert !FreeHome(c, l, key, p);
  }

  /** Which of its branches level_insert takes. */
  lemma InsertBranches<K, V>(c: Config<K, V>, t: Table<K, V>, key: K, value: V)
    requires Sound(c, t)
    ensures var r := Insert(c, t, key, value);
      var top, bottom := InsertFree(c, t, 0, key, value), InsertFree(c, t, 1, key, value);
      var aside, below := InsertSideways(c, t, 0, key, value), InsertSideways(c, t, 1, key, value);
      var up := InsertUp(c, t, key, value);
      && (top.1 == 0 ==> r == top)
      && (top.1 != 0 && bottom.1 == 0 ==> r == bottom)
      && (top.1 != 0 && bottom.1 != 0 && aside.1 == 0 ==> r == aside)
      && (top.1 != 0 && bottom.1 != 0 && aside.1 != 0 && below.1 == 0 ==> r == below)
      && (top.1 != 0 && bottom.1 != 0 && aside.1 != 0 && below.1 != 0 ==> r == up)
      && (up.1 != 0 ==> up == (t, 1))
  {
    hide Sound, InsertFree, InsertSideways, InsertUp;
    if InsertUp(c, t, key, value).1 != 0 { NoUp(c, t, key, value); }
  }

  lemma NoUp<K, V>(c: Config<K, V>, t: Table<K, V>, key: K, value: V)
    requires Sound(c, t) && InsertUp(c, t, key, value).1 != 0
    ensures InsertUp(c, t, key, value) == (t, 1)
  {
    hide Sound, InsertByB2t, F, S;
  }

  lemma InsertExactly<K, V>(c: Config<K, V>, t: Table<K, V>, key: K, value: V)
    requires Sound(c, t)
    ensures |t.levels| == 2
    ensures var (t', code) := Insert(c, t, key, value); InsertsBySlot(c, t, key, value, t', code)
  {
    LevelFacts(c, t, 0);
    FreeBranch(c, t, 0, key, value);
    FreeBranch(c, t, 1, key, value);
    InsertBranches(c, t, key, value);
    hide Sound, NoFreeHome, FirstFree, LowestFree, FirstMovable, NoMovable;
    hide Insert, InsertFree, InsertSideways, InsertUp;
    if NoFreeHome(c, t.levels[0], key) && NoFreeHome(c, t.levels[1], key) {
      SidewaysBranch(c, t, 0, key, value);
      SidewaysBranch(c, t, 1, key, value);
      if t.levelExpandTime > 0 { UpBranch(c, t, key, value); } else { NotExpanded(c, t, key, value); }
    }
  }

  lemma NotExpanded<K, V>(c: Config<K, V>, t: Table<K, V>, key: K, value: V)
    requires Sound(c, t) && t.levelExpandTime == 0
    ensures InsertUp(c, t, key, value).1 != 0
  {
    hide Sound;
  }
}