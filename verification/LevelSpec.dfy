/** The level hash table as a value: its layout, its invariant, and what each operation makes of it.
    The class in LevelTable.dfy is proved to compute exactly these functions. */
module LevelSpec {
  import opened Words
  import opened Wrappers

  const ASSOC_NUM: nat := 4

  /** One slot of a bucket. Bucket b of a level owns the slots ASSOC_NUM*b .. ASSOC_NUM*b + 3. */
  datatype Slot<K, V> = Slot(token: bool, key: K, value: V)

  type Level<K, V> = seq<Slot<K, V>>

  /** The hash function with its two seeds, and the bytes a freshly allocated slot happens to hold. */
  datatype Config<!K, V> = Config(hash: (K, nat) -> nat, fSeed: nat, sSeed: nat, blankKey: K, blankValue: V) {
    function FHash(key: K): nat { hash(key, fSeed) }

    function SHash(key: K): nat { hash(key, sSeed) }
  }

  datatype Table<K, V> = Table(
    levels: seq<Level<K, V>>,      // 0 is the top level, 1 the bottom level
    levelItemNum: seq<int>,
    addrCapacity: nat,
    totalCapacity: nat,
    levelSize: nat,
    levelExpandTime: nat,
    resizeState: nat)

  datatype Outcome<T> = Done(value: T) | Exit   // Exit stands for exit(1)

  // ---------------------------------------------------------------- layout

  function FIdx(hashKey: nat, capacity: nat): (b: nat)
    requires capacity >= 2
    ensures b < capacity / 2
  {
    hashKey % (capacity / 2)
  }

  function SIdx(hashKey: nat, capacity: nat): (b: nat)
    requires capacity >= 2
    ensures capacity / 2 <= b < capacity / 2 * 2 <= capacity
  {
    hashKey % (capacity / 2) + capacity / 2
  }

  function F<K, V>(c: Config<K, V>, key: K, capacity: nat): (b: nat)
    requires capacity >= 2
    ensures b < capacity
  {
    FIdx(c.FHash(key), capacity)
  }

  function S<K, V>(c: Config<K, V>, key: K, capacity: nat): (b: nat)
    requires capacity >= 2
    ensures b < capacity
  {
    SIdx(c.SHash(key), capacity)
  }

  function NewBuckets<K, V>(c: Config<K, V>, n: nat): (l: Level<K, V>)
    ensures |l| == ASSOC_NUM * n && forall k :: 0 <= k < |l| ==> !l[k].token
  {
    seq(ASSOC_NUM * n, _ => Slot(false, c.blankKey, c.blankValue))
  }

  /** The number of buckets of level i. */
  function Capacity<K, V>(t: Table<K, V>, i: nat): nat {
    if i == 0 then t.addrCapacity else t.addrCapacity / 2
  }

  // ---------------------------------------------------------------- contents

  ghost function ItemOf<K, V>(s: Slot<K, V>): multiset<(K, V)> {
    if s.token then multiset{(s.key, s.value)} else multiset{}
  }

  /** The stored pairs of a level, with multiplicity: insert never looks for duplicates. */
  ghost function Items<K, V>(l: Level<K, V>): multiset<(K, V)> {
    if |l| == 0 then multiset{} else Items(l[..|l| - 1]) + ItemOf(l[|l| - 1])
  }

  ghost function Contents<K, V>(t: Table<K, V>): multiset<(K, V)>
    requires |t.levels| == 2
  {
    Items(t.levels[0]) + Items(t.levels[1])
  }

  // ---------------------------------------------------------------- invariant

  /** Every stored key sits in one of its two buckets for this capacity. */
  ghost predicate Placed<K, V>(c: Config<K, V>, l: Level<K, V>, capacity: nat)
  {
    && capacity >= 2
    && |l| == ASSOC_NUM * capacity
    && forall k :: 0 <= k < |l| && l[k].token ==>
         k / ASSOC_NUM == F(c, l[k].key, capacity) || k / ASSOC_NUM == S(c, l[k].key, capacity)
  }

  /** What holds between and inside resizes. */
  ghost predicate Sound<K, V>(c: Config<K, V>, t: Table<K, V>) {
    && |t.levels| == 2 && |t.levelItemNum| == 2
    && t.levelSize >= 2
    && t.addrCapacity == Pow2(t.levelSize)
    && t.totalCapacity == Pow2(t.levelSize) + Pow2(t.levelSize - 1)
    && Placed(c, t.levels[0], t.addrCapacity)
    && Placed(c, t.levels[1], t.addrCapacity / 2)
    && t.levelItemNum[0] == |Items(t.levels[0])|
    && t.levelItemNum[1] == |Items(t.levels[1])|
  }

  // ---------------------------------------------------------------- level_init

  function Init<K, V>(c: Config<K, V>, levelSize: nat): Table<K, V>
    requires levelSize >= 2
  {
    Table([NewBuckets(c, Pow2(levelSize)), NewBuckets(c, Pow2(levelSize - 1))], [0, 0],
          Pow2(levelSize), Pow2(levelSize) + Pow2(levelSize - 1), levelSize, 0, 0)
  }

  // ---------------------------------------------------------------- searching

  /** The first free slot when buckets f and s are scanned in lockstep from slot j on, f first; -1 if none. */
  function FreeSlot<K, V>(l: Level<K, V>, f: nat, s: nat, j: nat): (p: int)
    requires j <= ASSOC_NUM
    requires ASSOC_NUM * f + ASSOC_NUM <= |l| && ASSOC_NUM * s + ASSOC_NUM <= |l|
    ensures p == -1 || (0 <= p < |l| && !l[p].token && (p / ASSOC_NUM == f || p / ASSOC_NUM == s))
    ensures p != -1 ==> p >= ASSOC_NUM * (p / ASSOC_NUM) + j
    ensures p != -1 ==> forall k :: ASSOC_NUM * (p / ASSOC_NUM) + j <= k < p ==> l[k].token
    ensures p == -1 ==> forall k :: ASSOC_NUM * f + j <= k < ASSOC_NUM * f + ASSOC_NUM ==> l[k].token
    ensures p == -1 ==> forall k :: ASSOC_NUM * s + j <= k < ASSOC_NUM * s + ASSOC_NUM ==> l[k].token
    decreases ASSOC_NUM - j
  {
    if j == ASSOC_NUM then -1
    else if !l[ASSOC_NUM * f + j].token then ASSOC_NUM * f + j
    else if !l[ASSOC_NUM * s + j].token then ASSOC_NUM * s + j
    else FreeSlot(l, f, s, j + 1)
  }

  /** The first slot of bucket b, from slot j on, that holds the key; -1 if none. */
  function MatchInBucket<K(==), V>(l: Level<K, V>, b: nat, key: K, j: nat): (p: int)
    requires j <= ASSOC_NUM && ASSOC_NUM * b + ASSOC_NUM <= |l|
    ensures p == -1 || (ASSOC_NUM * b + j <= p < ASSOC_NUM * b + ASSOC_NUM && l[p].token && l[p].key == key)
    ensures forall k :: ASSOC_NUM * b + j <= k < (if p == -1 then ASSOC_NUM * b + ASSOC_NUM else p) ==>
              !(l[k].token && l[k].key == key)
    decreases ASSOC_NUM - j
  {
    if j == ASSOC_NUM then -1
    else if l[ASSOC_NUM * b + j].token && l[ASSOC_NUM * b + j].key == key then ASSOC_NUM * b + j
    else MatchInBucket(l, b, key, j + 1)
  }

  /** The first slot holding the key in bucket f and then bucket s; -1 if none. */
  function MatchInLevel<K(==), V>(l: Level<K, V>, f: nat, s: nat, key: K): (p: int)
    requires ASSOC_NUM * f + ASSOC_NUM <= |l| && ASSOC_NUM * s + ASSOC_NUM <= |l|
    ensures p == -1 || (0 <= p < |l| && l[p].token && l[p].key == key)
  {
    var p := MatchInBucket(l, f, key, 0);
    if p != -1 then p else MatchInBucket(l, s, key, 0)
  }

  datatype Place = Nowhere | At(level: nat, slot: nat)

  /** The place is a slot of the table that holds the key. */
  predicate Holds<K(==), V>(t: Table<K, V>, r: Place, key: K) {
    && r.At?
    && r.level < |t.levels| && r.slot < |t.levels[r.level]|
    && t.levels[r.level][r.slot].token && t.levels[r.level][r.slot].key == key
  }

  /** The first match of the key in the given level. */
  function FindIn<K(==), V>(c: Config<K, V>, t: Table<K, V>, i: nat, key: K): (r: Place)
    requires Sound(c, t) && i < 2
    ensures r.At? ==> r.level == i && Holds(t, r, key)
  {
    var cap := Capacity(t, i);
    var p := MatchInLevel(t.levels[i], F(c, key, cap), S(c, key, cap), key);
    if p == -1 then Nowhere else At(i, p)
  }

  /** Scan order of static query, delete and update: the top level, then the bottom level. */
  function FindStatic<K(==), V>(c: Config<K, V>, t: Table<K, V>, key: K): (r: Place)
    requires Sound(c, t)
    ensures r.At? ==> Holds(t, r, key)
  {
    var r := FindIn(c, t, 0, key);
    if r.At? then r else FindIn(c, t, 1, key)
  }

  /** Scan order of the dynamic query: the level with more items first, the bottom level on a tie. */
  function FindDynamic<K(==), V>(c: Config<K, V>, t: Table<K, V>, key: K): (r: Place)
    requires Sound(c, t)
    ensures r.At? ==> Holds(t, r, key)
  {
    var first := if t.levelItemNum[0] > t.levelItemNum[1] then 0 else 1;
    var r := FindIn(c, t, first, key);
    if r.At? then r else FindIn(c, t, 1 - first, key)
  }

  function ValueAt<K, V>(t: Table<K, V>, r: Place): Option<V>
    requires r.At? ==> r.level < |t.levels| && r.slot < |t.levels[r.level]|
  {
    if r.Nowhere? then None else Some(t.levels[r.level][r.slot].value)
  }

  // ---------------------------------------------------------------- delete and update

  function Delete<K(==), V>(c: Config<K, V>, t: Table<K, V>, key: K): (Table<K, V>, nat)
    requires Sound(c, t)
  {
    match FindStatic(c, t, key)
    case Nowhere => (t, 1)
    case At(i, p) =>
      (t.(levels := t.levels[i := t.levels[i][p := t.levels[i][p].(token := false)]],
          levelItemNum := t.levelItemNum[i := t.levelItemNum[i] - 1]), 0)
  }

  function Update<K(==), V>(c: Config<K, V>, t: Table<K, V>, key: K, value: V): (Table<K, V>, nat)
    requires Sound(c, t)
  {
    match FindStatic(c, t, key)
    case Nowhere => (t, 1)
    case At(i, p) => (t.(levels := t.levels[i := t.levels[i][p := t.levels[i][p].(value := value)]]), 0)
  }

  // ---------------------------------------------------------------- insert

  /** Write a pair into slot p of level i and count it. */
  function Put<K, V>(t: Table<K, V>, i: nat, p: nat, key: K, value: V): Table<K, V>
    requires i < |t.levels| == |t.levelItemNum| && p < |t.levels[i]|
  {
    t.(levels := t.levels[i := t.levels[i][p := Slot(true, key, value)]],
       levelItemNum := t.levelItemNum[i := t.levelItemNum[i] + 1])
  }

  /** The same-level alternative of bucket b for a key. */
  function Alternative<K, V>(c: Config<K, V>, key: K, capacity: nat, b: nat): nat
    requires capacity >= 2
  {
    if F(c, key, capacity) == b then S(c, key, capacity) else F(c, key, capacity)
  }

  /** Where the resident of slot p could move inside its own level; -1 if its alternative bucket is full. */
  function SidewaysSlot<K, V>(c: Config<K, V>, l: Level<K, V>, capacity: nat, p: nat): (q: int)
    requires capacity >= 2 && |l| == ASSOC_NUM * capacity && p < |l|
    ensures q == -1 ||
      (0 <= q < |l| && !l[q].token && q / ASSOC_NUM == Alternative(c, l[p].key, capacity, p / ASSOC_NUM))
  {
    var alt := Alternative(c, l[p].key, capacity, p / ASSOC_NUM);
    FreeSlot(l, alt, alt, 0)
  }

  /** The first slot of bucket b, from slot a on, whose resident can move sideways; -1 if none. */
  function FirstSideways<K, V>(c: Config<K, V>, l: Level<K, V>, capacity: nat, b: nat, a: nat): (p: int)
    requires capacity >= 2 && |l| == ASSOC_NUM * capacity && b < capacity && a <= ASSOC_NUM
    ensures p == -1 || (ASSOC_NUM * b + a <= p < ASSOC_NUM * b + ASSOC_NUM && SidewaysSlot(c, l, capacity, p) != -1)
    ensures p == -1 ==>
      forall k :: ASSOC_NUM * b + a <= k < ASSOC_NUM * b + ASSOC_NUM ==> SidewaysSlot(c, l, capacity, k) == -1
    decreases ASSOC_NUM - a
  {
    if a == ASSOC_NUM then -1
    else if SidewaysSlot(c, l, capacity, ASSOC_NUM * b + a) != -1 then ASSOC_NUM * b + a
    else FirstSideways(c, l, capacity, b, a + 1)
  }

  /** try_movement: move the first movable resident of bucket b sideways and put the new pair in its slot. */
  function TryMovement<K, V>(c: Config<K, V>, t: Table<K, V>, b: nat, i: nat, key: K, value: V): (r: (Table<K, V>, nat))
    requires Sound(c, t) && i < 2 && b < Capacity(t, i)
    ensures r.1 != 0 ==> r == (t, 1)
  {
    var l := t.levels[i];
    var p := FirstSideways(c, l, Capacity(t, i), b, 0);
    if p == -1 then (t, 1)
    else
      var q := SidewaysSlot(c, l, Capacity(t, i), p);
      (Put(t.(levels := t.levels[i := l[q := l[p].(token := true)]]), i, p, key, value), 0)
  }

  /** Where the resident of bottom slot p could move in the top level; -1 if both its top buckets are full. */
  function UpSlot<K, V>(c: Config<K, V>, t: Table<K, V>, p: nat): (q: int)
    requires Sound(c, t) && p < |t.levels[1]|
    ensures q == -1 || (0 <= q < |t.levels[0]| && !t.levels[0][q].token)
  {
    var key := t.levels[1][p].key;
    FreeSlot(t.levels[0], F(c, key, t.addrCapacity), S(c, key, t.addrCapacity), 0)
  }

  lemma BottomSlots<K, V>(c: Config<K, V>, t: Table<K, V>)
    requires Sound(c, t)
    ensures |t.levels| == 2 && |t.levels[1]| == ASSOC_NUM * Capacity(t, 1)
  {
  }

  /** The first slot of bottom bucket b, from slot a on, whose resident can move up; -1 if none. */
  function FirstUp<K, V>(c: Config<K, V>, t: Table<K, V>, b: nat, a: nat): (p: int)
    requires Sound(c, t) && b < Capacity(t, 1) && a <= ASSOC_NUM
    ensures p == -1 || (ASSOC_NUM * b + a <= p < ASSOC_NUM * b + ASSOC_NUM && UpSlot(c, t, p) != -1)
    ensures p == -1 ==> forall k :: ASSOC_NUM * b + a <= k < ASSOC_NUM * b + ASSOC_NUM ==> UpSlot(c, t, k) == -1
    decreases ASSOC_NUM - a
  {
    hide Sound, UpSlot;
    BottomSlots(c, t);
    if a == ASSOC_NUM then -1
    else if UpSlot(c, t, ASSOC_NUM * b + a) != -1 then ASSOC_NUM * b + a
    else FirstUp(c, t, b, a + 1)
  }

  /** b2t_movement: move the first movable resident of bottom bucket b to the top level.
      Returns the slot number it left inside the bucket, or -1. */
  function B2tMovement<K, V>(c: Config<K, V>, t: Table<K, V>, b: nat): (r: (Table<K, V>, int))
    requires Sound(c, t) && b < Capacity(t, 1)
    ensures r == (t, -1) || 0 <= r.1 < ASSOC_NUM
    ensures |r.0.levels| == |r.0.levelItemNum| == 2 && |r.0.levels[1]| == |t.levels[1]|
  {
    var p := FirstUp(c, t, b, 0);
    if p == -1 then (t, -1)
    else
      var q := UpSlot(c, t, p);
      var m := t.levels[1][p];
      (t.(levels := [t.levels[0][q := m.(token := true)], t.levels[1][p := m.(token := false)]],
          levelItemNum := [t.levelItemNum[0] + 1, t.levelItemNum[1] - 1]), p - ASSOC_NUM * b)
  }

  /** Make room in bottom bucket b by a bottom-to-top move, then put the pair there. */
  function InsertByB2t<K, V>(c: Config<K, V>, t: Table<K, V>, b: nat, key: K, value: V): (r: (Table<K, V>, nat))
    requires Sound(c, t) && b < Capacity(t, 1)
    ensures r.1 != 0 ==> r == (t, 1)
  {
    var (t', j) := B2tMovement(c, t, b);
    if j == -1 then (t', 1) else (Put(t', 1, ASSOC_NUM * b + j, key, value), 0)
  }

  function InsertFree<K, V>(c: Config<K, V>, t: Table<K, V>, i: nat, key: K, value: V): (r: (Table<K, V>, nat))
    requires Sound(c, t) && i < 2
    ensures r.1 != 0 ==> r == (t, 1)
  {
    var cap := Capacity(t, i);
    var p := FreeSlot(t.levels[i], F(c, key, cap), S(c, key, cap), 0);
    if p == -1 then (t, 1) else (Put(t, i, p, key, value), 0)
  }

  /** Make room in level i by one sideways move out of one of the key's two buckets. */
  function InsertSideways<K, V>(c: Config<K, V>, t: Table<K, V>, i: nat, key: K, value: V): (r: (Table<K, V>, nat))
    requires Sound(c, t) && i < 2
    ensures r.1 != 0 ==> r == (t, 1)
  {
    var r := TryMovement(c, t, F(c, key, Capacity(t, i)), i, key, value);
    if r.1 == 0 then r else TryMovement(c, t, S(c, key, Capacity(t, i)), i, key, value)
  }

  /** Make room by one bottom-to-top move, once the table has been expanded. */
  function InsertUp<K, V>(c: Config<K, V>, t: Table<K, V>, key: K, value: V): (r: (Table<K, V>, nat))
    requires Sound(c, t)
    ensures r.1 != 0 ==> r == (t, 1)
  {
    if t.levelExpandTime == 0 then (t, 1)
    else
      var r := InsertByB2t(c, t, F(c, key, Capacity(t, 1)), key, value);
      if r.1 == 0 then r else InsertByB2t(c, t, S(c, key, Capacity(t, 1)), key, value)
  }

  /** level_insert: a free slot, else one sideways move, else one bottom-to-top move. */
  function Insert<K, V>(c: Config<K, V>, t: Table<K, V>, key: K, value: V): (Table<K, V>, nat)
    requires Sound(c, t)
  {
    if InsertFree(c, t, 0, key, value).1 == 0 then InsertFree(c, t, 0, key, value)
    else if InsertFree(c, t, 1, key, value).1 == 0 then InsertFree(c, t, 1, key, value)
    else if InsertSideways(c, t, 0, key, value).1 == 0 then InsertSideways(c, t, 0, key, value)
    else if InsertSideways(c, t, 1, key, value).1 == 0 then InsertSideways(c, t, 1, key, value)
    else InsertUp(c, t, key, value)
  }

  // ---------------------------------------------------------------- resizing

  /** The rehash loop of level_expand: the items of the old bottom level from slot k on are put into
      the new top level; `num` counts them. */
  function Rehash<K, V>(c: Config<K, V>, bottom: Level<K, V>, k: nat, top: Level<K, V>, num: nat, capacity: nat)
    : Outcome<(Level<K, V>, nat)>
    requires capacity >= 2 && |top| == ASSOC_NUM * capacity && k <= |bottom|
    decreases |bottom| - k
  {
    if k == |bottom| then Done((top, num))
    else if !bottom[k].token then Rehash(c, bottom, k + 1, top, num, capacity)
    else
      var p := FreeSlot(top, F(c, bottom[k].key, capacity), S(c, bottom[k].key, capacity), 0);
      if p == -1 then Exit
      else Rehash(c, bottom, k + 1, top[p := bottom[k]], num + 1, capacity)
  }

  /** level_expand. The expansion count is a byte. */
  function Expand<K, V>(c: Config<K, V>, t: Table<K, V>): Outcome<Table<K, V>>
    requires Sound(c, t)
  {
    var capacity := Pow2(t.levelSize + 1);
    match Rehash(c, t.levels[1], 0, NewBuckets(c, capacity), 0, capacity)
    case Exit => Exit
    case Done((top, num)) =>
      Done(Table([top, t.levels[0]], [num, t.levelItemNum[0]], capacity,
                 Pow2(t.levelSize + 1) + Pow2(t.levelSize), t.levelSize + 1, (t.levelExpandTime + 1) % 256, 0))
  }

  /** The table a shrink starts filling: the bottom level becomes the top one, over an empty bottom. */
  function Halved<K, V>(c: Config<K, V>, t: Table<K, V>): Table<K, V>
    requires Sound(c, t)
  {
    Table([t.levels[1], NewBuckets(c, Pow2(t.levelSize - 2))], [t.levelItemNum[1], 0],
          Pow2(t.levelSize - 1), Pow2(t.levelSize - 1) + Pow2(t.levelSize - 2), t.levelSize - 1,
          t.levelExpandTime, 2)
  }

  /** More than 0.4 of the slots in use. */
  predicate TooFull<K, V>(t: Table<K, V>)
    requires |t.levelItemNum| == 2
  {
    (t.levelItemNum[0] + t.levelItemNum[1]) as real > (t.totalCapacity * ASSOC_NUM) as real * 0.4
  }
}
