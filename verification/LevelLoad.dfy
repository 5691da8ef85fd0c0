/** Which of its two buckets a new item goes to. The source says the less-loaded one; the code takes the one
    whose first hole comes first. The two agree until a delete leaves a hole below an item. */
module LevelLoad {
  import opened Words
  import opened LevelSpec
  import opened LevelInsert
  import opened LevelOps
  import opened LevelResize
  import opened LevelRuns

  /** The number of items in bucket b. */
  function Load<K, V>(l: Level<K, V>, b: nat): nat
    requires ASSOC_NUM * b + ASSOC_NUM <= |l|
  {
    LoadFrom(l, b, 0)
  }

  function LoadFrom<K, V>(l: Level<K, V>, b: nat, j: nat): (n: nat)
    requires ASSOC_NUM * b + ASSOC_NUM <= |l| && j <= ASSOC_NUM
    ensures n <= ASSOC_NUM - j
    decreases ASSOC_NUM - j
  {
    if j == ASSOC_NUM then 0 else (if l[ASSOC_NUM * b + j].token then 1 else 0) + LoadFrom(l, b, j + 1)
  }

  /** The slot number of the first hole of bucket b at or after j; ASSOC_NUM if there is none. */
  function FirstHole<K, V>(l: Level<K, V>, b: nat, j: nat): (h: nat)
    requires ASSOC_NUM * b + ASSOC_NUM <= |l| && j <= ASSOC_NUM
    ensures j <= h <= ASSOC_NUM
    decreases ASSOC_NUM - j
  {
    if j == ASSOC_NUM || !l[ASSOC_NUM * b + j].token then j else FirstHole(l, b, j + 1)
  }

  /** The code's choice: the bucket whose first hole is not later than the other's, f on a tie. */
  lemma {:induction false} FreeSlotByHoles<K, V>(l: Level<K, V>, f: nat, s: nat, j: nat)
    requires j <= ASSOC_NUM && ASSOC_NUM * f + ASSOC_NUM <= |l| && ASSOC_NUM * s + ASSOC_NUM <= |l|
    ensures var hf, hs := FirstHole(l, f, j), FirstHole(l, s, j);
      FreeSlot(l, f, s, j) ==
        if hf == ASSOC_NUM && hs == ASSOC_NUM then -1
        else if hf <= hs then ASSOC_NUM * f + hf else ASSOC_NUM * s + hs
    decreases ASSOC_NUM - j
  {
    if j < ASSOC_NUM && l[ASSOC_NUM * f + j].token && l[ASSOC_NUM * s + j].token {
      FreeSlotByHoles(l, f, s, j + 1);
    }
  }

  /** The comment's promise: the chosen bucket is not the fuller of the two. */
  predicate ChoosesLessLoaded<K, V>(l: Level<K, V>, f: nat, s: nat)
    requires ASSOC_NUM * f + ASSOC_NUM <= |l| && ASSOC_NUM * s + ASSOC_NUM <= |l|
  {
    var p := FreeSlot(l, f, s, 0);
    p != -1 ==>
      if p / ASSOC_NUM == f then Load(l, f) <= Load(l, s) else Load(l, s) <= Load(l, f)
  }

  // ---------------------------------------------------------------- when the promise is kept

  /** No hole of bucket b lies below an item. */
  ghost predicate Packed<K, V>(l: Level<K, V>, b: nat)
    requires ASSOC_NUM * b + ASSOC_NUM <= |l|
  {
    forall j, k :: ASSOC_NUM * b <= j < k < ASSOC_NUM * b + ASSOC_NUM && l[k].token ==> l[j].token
  }

  /** At most one item of bucket b lies above its first hole. */
  predicate NearlyPacked<K, V>(l: Level<K, V>, b: nat)
    requires ASSOC_NUM * b + ASSOC_NUM <= |l|
  {
    Load(l, b) <= FirstHole(l, b, 0) + 1
  }

  lemma {:induction false} HoleBelowLoad<K, V>(l: Level<K, V>, b: nat, j: nat)
    requires ASSOC_NUM * b + ASSOC_NUM <= |l| && j <= ASSOC_NUM
    ensures FirstHole(l, b, j) - j <= LoadFrom(l, b, j)
    decreases ASSOC_NUM - j
  {
    if j < ASSOC_NUM { HoleBelowLoad(l, b, j + 1); }
  }

  /** In a packed bucket the items are those below the first hole; in no other. */
  lemma PackedLoad<K, V>(l: Level<K, V>, b: nat)
    requires ASSOC_NUM * b + ASSOC_NUM <= |l|
    ensures Packed(l, b) <==> Load(l, b) == FirstHole(l, b, 0)
  {
    var t0, t1, t2, t3 := l[4 * b].token, l[4 * b + 1].token, l[4 * b + 2].token, l[4 * b + 3].token;
    assert Packed(l, b) <==> (t3 ==> t2) && (t2 ==> t1) && (t1 ==> t0);
    assert LoadFrom(l, b, 3) == if t3 then 1 else 0;
    assert LoadFrom(l, b, 2) == (if t2 then 1 else 0) + LoadFrom(l, b, 3);
    assert LoadFrom(l, b, 1) == (if t1 then 1 else 0) + LoadFrom(l, b, 2);
    assert FirstHole(l, b, 3) == if t3 then 4 else 3;
    assert FirstHole(l, b, 2) == if t2 then FirstHole(l, b, 3) else 2;
    assert FirstHole(l, b, 1) == if t1 then FirstHole(l, b, 2) else 1;
  }

  predicate ChoosesBucket<K, V>(l: Level<K, V>, f: nat, s: nat, b: nat)
    requires ASSOC_NUM * f + ASSOC_NUM <= |l| && ASSOC_NUM * s + ASSOC_NUM <= |l|
  {
    FreeSlot(l, f, s, 0) != -1 && FreeSlot(l, f, s, 0) / ASSOC_NUM == b
  }

  lemma ChosenByHoles<K, V>(l: Level<K, V>, f: nat, s: nat)
    requires f != s && ASSOC_NUM * f + ASSOC_NUM <= |l| && ASSOC_NUM * s + ASSOC_NUM <= |l|
    ensures var hf, hs := FirstHole(l, f, 0), FirstHole(l, s, 0);
      && (ChoosesBucket(l, f, s, f) <==> hf <= hs && hf < ASSOC_NUM)
      && (ChoosesBucket(l, f, s, s) <==> hs < hf)
  {
    FreeSlotByHoles(l, f, s, 0);
  }

  /** A packed first bucket is chosen only when it is not the fuller one. */
  lemma PackedFirst<K, V>(l: Level<K, V>, f: nat, s: nat)
    requires f != s && ASSOC_NUM * f + ASSOC_NUM <= |l| && ASSOC_NUM * s + ASSOC_NUM <= |l|
    requires Packed(l, f) && ChoosesBucket(l, f, s, f)
    ensures Load(l, f) <= Load(l, s)
  {
    ChosenByHoles(l, f, s);
    PackedLoad(l, f);
    HoleBelowLoad(l, s, 0);
  }

  /** A second bucket with at most one item above its first hole is chosen only when it is not the fuller one. */
  lemma NearlyPackedSecond<K, V>(l: Level<K, V>, f: nat, s: nat)
    requires f != s && ASSOC_NUM * f + ASSOC_NUM <= |l| && ASSOC_NUM * s + ASSOC_NUM <= |l|
    requires NearlyPacked(l, s) && ChoosesBucket(l, f, s, s)
    ensures Load(l, s) <= Load(l, f)
  {
    ChosenByHoles(l, f, s);
    HoleBelowLoad(l, f, 0);
  }

  /** The two levels agree on all buckets but b. */
  ghost predicate SameBut<K, V>(l: Level<K, V>, l': Level<K, V>, b: nat) {
    |l'| == |l| && forall k :: 0 <= k < |l| && k / ASSOC_NUM != b ==> l'[k] == l[k]
  }

  /** Whatever the other bucket holds, the first bucket is never chosen while it is the fuller one. */
  ghost predicate FirstKeeps<K(!new), V(!new)>(l: Level<K, V>, f: nat, s: nat)
    requires ASSOC_NUM * f + ASSOC_NUM <= |l| && ASSOC_NUM * s + ASSOC_NUM <= |l|
  {
    forall l' :: SameBut(l, l', s) && ChoosesBucket(l', f, s, f) ==> Load(l', f) <= Load(l', s)
  }

  /** Whatever the other bucket holds, the second bucket is never chosen while it is the fuller one. */
  ghost predicate SecondKeeps<K(!new), V(!new)>(l: Level<K, V>, f: nat, s: nat)
    requires ASSOC_NUM * f + ASSOC_NUM <= |l| && ASSOC_NUM * s + ASSOC_NUM <= |l|
  {
    forall l' :: SameBut(l, l', f) && ChoosesBucket(l', f, s, s) ==> Load(l', s) <= Load(l', f)
  }

  /** Bucket b with its first n slots in use and the others free. */
  function Filled<K, V>(l: Level<K, V>, b: nat, n: nat): (l': Level<K, V>)
    ensures |l'| == |l|
  {
    seq(|l|, k requires 0 <= k < |l| => if k / ASSOC_NUM == b then l[k].(token := k % ASSOC_NUM < n) else l[k])
  }

  lemma FilledBucket<K, V>(l: Level<K, V>, b: nat, n: nat)
    requires ASSOC_NUM * b + ASSOC_NUM <= |l| && n <= ASSOC_NUM
    ensures SameBut(l, Filled(l, b, n), b)
    ensures Load(Filled(l, b, n), b) == FirstHole(Filled(l, b, n), b, 0) == n
  {
    FilledFrom(l, b, n, 0);
  }

  lemma {:induction false} FilledFrom<K, V>(l: Level<K, V>, b: nat, n: nat, j: nat)
    requires ASSOC_NUM * b + ASSOC_NUM <= |l| && j <= ASSOC_NUM && n <= ASSOC_NUM
    ensures LoadFrom(Filled(l, b, n), b, j) == if j < n then n - j else 0
    ensures FirstHole(Filled(l, b, n), b, j) == if j < n then n else j
    decreases ASSOC_NUM - j
  {
    if j < ASSOC_NUM { FilledFrom(l, b, n, j + 1); }
  }

  lemma {:induction false} SameBucket<K, V>(l: Level<K, V>, l': Level<K, V>, b: nat, other: nat, j: nat)
    requires SameBut(l, l', other) && b != other && ASSOC_NUM * b + ASSOC_NUM <= |l| && j <= ASSOC_NUM
    ensures LoadFrom(l', b, j) == LoadFrom(l, b, j) && FirstHole(l', b, j) == FirstHole(l, b, j)
    decreases ASSOC_NUM - j
  {
    if j < ASSOC_NUM {
      SameBucket(l, l', b, other, j + 1);
      assert (ASSOC_NUM * b + j) / ASSOC_NUM == b;
    }
  }

  /** The first bucket keeps the promise against every content of the second if and only if it has no hole
      below an item. */
  lemma FirstKeepsExactly<K(!new), V(!new)>(l: Level<K, V>, f: nat, s: nat)
    requires f != s && ASSOC_NUM * f + ASSOC_NUM <= |l| && ASSOC_NUM * s + ASSOC_NUM <= |l|
    ensures FirstKeeps(l, f, s) <==> Packed(l, f)
  {
    hide Packed, FreeSlot, FirstHole, LoadFrom, ChoosesBucket;
    PackedLoad(l, f);
    if Packed(l, f) {
      forall l' | SameBut(l, l', s) && ChoosesBucket(l', f, s, f) ensures Load(l', f) <= Load(l', s) {
        SameBucket(l, l', f, s, 0);
        PackedLoad(l', f);
        PackedFirst(l', f, s);
      }
    } else {
      HoleBelowLoad(l, f, 0);
      LoadBound(l, f);
      var h := FirstHole(l, f, 0);
      var l' := Filled(l, s, h);
      FilledBucket(l, s, h);
      SameBucket(l, l', f, s, 0);
      ChosenByHoles(l', f, s);
      assert SameBut(l, l', s) && ChoosesBucket(l', f, s, f) && Load(l', f) > Load(l', s);
    }
  }

  /** The second bucket keeps the promise against every content of the first if and only if it has at most one
      item above its first hole: on a tie of holes it is not chosen. */
  lemma SecondKeepsExactly<K(!new), V(!new)>(l: Level<K, V>, f: nat, s: nat)
    requires f != s && ASSOC_NUM * f + ASSOC_NUM <= |l| && ASSOC_NUM * s + ASSOC_NUM <= |l|
    ensures SecondKeeps(l, f, s) <==> NearlyPacked(l, s)
  {
    hide FreeSlot, FirstHole, LoadFrom, ChoosesBucket;
    if NearlyPacked(l, s) {
      forall l' | SameBut(l, l', f) && ChoosesBucket(l', f, s, s) ensures Load(l', s) <= Load(l', f) {
        SameBucket(l, l', s, f, 0);
        NearlyPackedSecond(l', f, s);
      }
    } else {
      LoadBound(l, s);
      var h := FirstHole(l, s, 0) + 1;
      var l' := Filled(l, f, h);
      FilledBucket(l, f, h);
      SameBucket(l, l', s, f, 0);
      ChosenByHoles(l', f, s);
      assert SameBut(l, l', f) && ChoosesBucket(l', f, s, s) && Load(l', s) > Load(l', f);
    }
  }

  lemma LoadBound<K, V>(l: Level<K, V>, b: nat)
    requires ASSOC_NUM * b + ASSOC_NUM <= |l|
    ensures Load(l, b) <= ASSOC_NUM
  {
  }

  // ---------------------------------------------------------------- a run that breaks the promise

  /** Every key has the top buckets 0 and 2 of a table of level_size 2. */
  const COLLIDING: Config<int, int> := Config((key: int, seed: nat) => 0, 0, 1, 0, 0)

  /** Three inserts, which go to slot 0 of bucket 0, slot 0 of bucket 2 and slot 1 of bucket 0; then the first two
      items are deleted. */
  const HOLED: seq<Op<int, int>> := [InsertOp(1, 0), InsertOp(2, 0), InsertOp(3, 0), DeleteOp(1), DeleteOp(2)]

  lemma InsertFound<K, V>(c: Config<K, V>, t: Table<K, V>, key: K, value: V, p: nat)
    requires Sound(c, t) && FreeSlot(t.levels[0], F(c, key, t.addrCapacity), S(c, key, t.addrCapacity), 0) == p
    ensures p < |t.levels[0]| && Insert(c, t, key, value) == (Put(t, 0, p, key, value), 0)
  {
    hide Placed, FreeSlot, F, S;
    InsertFreeAdds(c, t, 0, key, value);
  }

  lemma DeleteFound<K, V>(c: Config<K, V>, t: Table<K, V>, key: K, p: nat)
    requires Sound(c, t)
    requires MatchInLevel(t.levels[0], F(c, key, t.addrCapacity), S(c, key, t.addrCapacity), key) == p
    ensures p < |t.levels[0]|
    ensures Delete(c, t, key) ==
      (t.(levels := t.levels[0 := t.levels[0][p := t.levels[0][p].(token := false)]],
          levelItemNum := t.levelItemNum[0 := t.levelItemNum[0] - 1]), 0)
  {
    hide Placed, F, S;
  }

  lemma CollidingBuckets(t: Table<int, int>, key: int)
    requires t.addrCapacity == 4
    ensures F(COLLIDING, key, t.addrCapacity) == 0 && S(COLLIDING, key, t.addrCapacity) == 2
  {
  }

  lemma RunStep<K, V>(c: Config<K, V>, t: Table<K, V>, ops: seq<Op<K, V>>, t1: Table<K, V>, reply: Reply<V>)
    requires Sound(c, t) && ops != [] && Step(c, t, ops[0]) == Done((t1, reply))
    requires Sound(c, t1) && Run(c, t1, ops[1..]).Done?
    ensures Run(c, t, ops).Done? && Run(c, t, ops).value.0 == Run(c, t1, ops[1..]).value.0
  {
    hide Sound, Step;
  }

  lemma InsertStep(t: Table<int, int>, key: int, p: nat)
    requires Sound(COLLIDING, t) && t.addrCapacity == 4 && FreeSlot(t.levels[0], 0, 2, 0) == p
    ensures p < |t.levels[0]| && Step(COLLIDING, t, InsertOp(key, 0)) == Done((Put(t, 0, p, key, 0), Code(0)))
    ensures Sound(COLLIDING, Put(t, 0, p, key, 0))
  {
    hide FreeSlot, F, S, Insert, Put;
    CollidingBuckets(t, key);
    InsertFound(COLLIDING, t, key, 0, p);
    hide Sound;
    StepIsBagStep(COLLIDING, t, InsertOp(key, 0));
  }

  /** Clear slot p of the top level. */
  function Cleared<K, V>(t: Table<K, V>, p: nat): Table<K, V>
    requires |t.levels| == 2 && |t.levelItemNum| == 2 && p < |t.levels[0]|
  {
    t.(levels := t.levels[0 := t.levels[0][p := t.levels[0][p].(token := false)]],
       levelItemNum := t.levelItemNum[0 := t.levelItemNum[0] - 1])
  }

  lemma DeleteStep(t: Table<int, int>, key: int, p: nat)
    requires Sound(COLLIDING, t) && t.addrCapacity == 4 && MatchInLevel(t.levels[0], 0, 2, key) == p
    ensures p < |t.levels[0]| && Step(COLLIDING, t, DeleteOp(key)) == Done((Cleared(t, p), Code(0)))
    ensures Sound(COLLIDING, Cleared(t, p))
  {
    hide MatchInLevel, F, S, Delete;
    CollidingBuckets(t, key);
    DeleteFound(COLLIDING, t, key, p);
    hide Sound;
    StepIsBagStep(COLLIDING, t, DeleteOp(key));
  }

  /** The first free slot for a key of buckets 0 and 2 while at most slot 0 of each is in use. */
  lemma FreeInHoled<K, V>(l: Level<K, V>)
    requires |l| == 16 && (l[0].token && l[8].token ==> !l[1].token)
    ensures FreeSlot(l, 0, 2, 0) == if !l[0].token then 0 else if !l[8].token then 8 else 1
  {
    assert l[0].token && l[8].token ==> FreeSlot(l, 0, 2, 0) == FreeSlot(l, 0, 2, 1);
  }

  /** Where a key is when slots 0, 1 and 8 are the only ones in use. */
  lemma FirstMatch(l: Level<int, int>, key: int)
    requires |l| == 16 && !l[2].token && !l[3].token && l[1].key != key && l[8].token && l[8].key == key
    requires l[0].token ==> l[0].key != key
    ensures MatchInLevel(l, 0, 2, key) == 8
  {
    assert MatchInBucket(l, 0, key, 4) == -1;
    assert MatchInBucket(l, 0, key, 3) == -1;
    assert MatchInBucket(l, 0, key, 2) == -1;
    assert MatchInBucket(l, 0, key, 1) == -1;
    assert MatchInBucket(l, 0, key, 0) == -1;
    assert MatchInBucket(l, 2, key, 0) == 8;
  }

  lemma OneAndNone<K, V>(l: Level<K, V>)
    requires |l| == 16 && l[1].token
    requires forall k :: 0 <= k < 16 && k != 1 ==> !l[k].token
    ensures Load(l, 0) == 1 && Load(l, 2) == 0
  {
    assert LoadFrom(l, 0, 3) == 0 && LoadFrom(l, 0, 2) == 0 && LoadFrom(l, 0, 1) == 1;
    assert LoadFrom(l, 2, 3) == 0 && LoadFrom(l, 2, 2) == 0 && LoadFrom(l, 2, 1) == 0;
  }

  /** The tables the run goes through, from a new one on. */
  function RunTables(): (ts: seq<Table<int, int>>)
    ensures |ts| == 6
  {
    var t0 := Init(COLLIDING, 2);
    assert Pow2(2) == 4 by { assert Pow2(1) == 2; }
    var t1 := Put(t0, 0, 0, 1, 0);
    var t2 := Put(t1, 0, 8, 2, 0);
    var t3 := Put(t2, 0, 1, 3, 0);
    var t4 := Cleared(t3, 0);
    [t0, t1, t2, t3, t4, Cleared(t4, 8)]
  }

  lemma RunStates()
    ensures var ts := RunTables();
      && Sound(COLLIDING, ts[0]) && Run(COLLIDING, ts[0], HOLED).Done?
      && Run(COLLIDING, ts[0], HOLED).value.0 == ts[5] && Sound(COLLIDING, ts[5])
  {
    hide Sound, Step, Run, FreeSlot, MatchInLevel;
    var ts := RunTables();
    assert Pow2(2) == 4 by { assert Pow2(1) == 2; }
    InitSound(COLLIDING, 2);
    FreeInHoled(ts[0].levels[0]);
    InsertStep(ts[0], 1, 0);
    FreeInHoled(ts[1].levels[0]);
    InsertStep(ts[1], 2, 8);
    FreeInHoled(ts[2].levels[0]);
    InsertStep(ts[2], 3, 1);
    MatchFirst(ts[3].levels[0], 1);
    DeleteStep(ts[3], 1, 0);
    FirstMatch(ts[4].levels[0], 2);
    DeleteStep(ts[4], 2, 8);
    hide RunTables, Put, Cleared;
    RunNothing(ts[5]);
    RunStep(COLLIDING, ts[4], HOLED[4..], ts[5], Code(0));
    RunStep(COLLIDING, ts[3], HOLED[3..], ts[4], Code(0));
    RunStep(COLLIDING, ts[2], HOLED[2..], ts[3], Code(0));
    RunStep(COLLIDING, ts[1], HOLED[1..], ts[2], Code(0));
    RunStep(COLLIDING, ts[0], HOLED, ts[1], Code(0));
  }

  lemma MatchFirst(l: Level<int, int>, key: int)
    requires |l| == 16 && l[0].token && l[0].key == key
    ensures MatchInLevel(l, 0, 2, key) == 0
  {
  }

  lemma RunNothing(t: Table<int, int>)
    requires Sound(COLLIDING, t)
    ensures Run(COLLIDING, t, HOLED[5..]) == Done((t, []))
  {
  }

  /** The insert puts the pair into the fuller of the key's two top buckets. */
  ghost predicate FillsFuller<K, V>(c: Config<K, V>, t: Table<K, V>, key: K, value: V, p: nat)
    requires Sound(c, t)
  {
    var f, s := F(c, key, t.addrCapacity), S(c, key, t.addrCapacity);
    && p < |t.levels[0]| && p / ASSOC_NUM == f
    && Insert(c, t, key, value) == (Put(t, 0, p, key, value), 0)
    && Load(t.levels[0], f) > Load(t.levels[0], s)
  }

  /** The promise fails in a run from a new table: the next insert goes to bucket 0, which holds an item, and not
      to bucket 2, which is empty. */
  lemma LessLoadedFails() returns (c: Config<int, int>, ops: seq<Op<int, int>>)
    ensures Sound(c, Init(c, 2)) && Run(c, Init(c, 2), ops).Done?
    ensures FillsFuller(c, Run(c, Init(c, 2), ops).value.0, 4, 0, 0)
    ensures c == COLLIDING && ops == HOLED
  {
    hide Sound, Run, FreeSlot, Load, Step, Insert;
    c, ops := COLLIDING, HOLED;
    RunStates();
    FullerAtLast(RunTables()[5]);
  }

  lemma FullerAtLast(t: Table<int, int>)
    requires Sound(COLLIDING, t) && t == RunTables()[5]
    ensures FillsFuller(COLLIDING, t, 4, 0, 0)
  {
    hide Sound, FreeSlot, Load, Insert;
    assert Pow2(2) == 4 by { assert Pow2(1) == 2; }
    CollidingBuckets(t, 4);
    FreeInHoled(t.levels[0]);
    InsertFound(COLLIDING, t, 4, 0, 0);
    OneAndNone(t.levels[0]);
  }

  // ---------------------------------------------------------------- while nothing is deleted

  /** No item of a bucket has a hole below it. */
  ghost predicate Compact<K, V>(l: Level<K, V>) {
    forall j, k :: 0 <= j < k < |l| && j / ASSOC_NUM == k / ASSOC_NUM && l[k].token ==> l[j].token
  }

  ghost predicate CompactTable<K, V>(t: Table<K, V>)
    requires |t.levels| == 2
  {
    Compact(t.levels[0]) && Compact(t.levels[1])
  }

  /** In a compact level the promise always holds. */
  lemma CompactChoosesLessLoaded<K, V>(l: Level<K, V>, f: nat, s: nat)
    requires Compact(l) && f != s && ASSOC_NUM * f + ASSOC_NUM <= |l| && ASSOC_NUM * s + ASSOC_NUM <= |l|
    ensures ChoosesLessLoaded(l, f, s)
  {
    hide Load, FirstHole;
    CompactPacked(l, f);
    CompactPacked(l, s);
    PackedLoad(l, s);
    ChosenByHoles(l, f, s);
    if ChoosesBucket(l, f, s, f) { PackedFirst(l, f, s); }
    if ChoosesBucket(l, f, s, s) { NearlyPackedSecond(l, f, s); }
  }

  lemma CompactPacked<K, V>(l: Level<K, V>, b: nat)
    requires Compact(l) && ASSOC_NUM * b + ASSOC_NUM <= |l|
    ensures Packed(l, b)
  {
    forall k | ASSOC_NUM * b <= k < ASSOC_NUM * b + ASSOC_NUM ensures k / ASSOC_NUM == b {}
  }

  /** Filling the slot a search returned keeps a level compact. */
  lemma CompactFill<K, V>(l: Level<K, V>, f: nat, s: nat, x: Slot<K, V>)
    requires Compact(l) && ASSOC_NUM * f + ASSOC_NUM <= |l| && ASSOC_NUM * s + ASSOC_NUM <= |l|
    requires x.token && FreeSlot(l, f, s, 0) != -1
    ensures Compact(l[FreeSlot(l, f, s, 0) := x])
  {
  }

  /** Overwriting an item by an item keeps a level compact. */
  lemma CompactOverwrite<K, V>(l: Level<K, V>, p: nat, x: Slot<K, V>)
    requires Compact(l) && p < |l| && l[p].token && x.token
    ensures Compact(l[p := x])
  {
  }

  lemma TryMovementCompact<K, V>(c: Config<K, V>, t: Table<K, V>, b: nat, i: nat, key: K, value: V)
    requires Sound(c, t) && i < 2 && b < Capacity(t, i)
    requires CompactTable(t) && FullBucket(t.levels[i], b)
    ensures |TryMovement(c, t, b, i, key, value).0.levels| == 2 && CompactTable(TryMovement(c, t, b, i, key, value).0)
  {
    hide Sound, Placed, F, S, Compact;
    LevelFacts(c, t, i);
    var l, cap := t.levels[i], Capacity(t, i);
    var p := FirstSideways(c, l, cap, b, 0);
    if p != -1 {
      var q := SidewaysSlot(c, l, cap, p);
      var alt := Alternative(c, l[p].key, cap, p / ASSOC_NUM);
      CompactFill(l, alt, alt, l[p].(token := true));
      CompactOverwrite(l[q := l[p].(token := true)], p, Slot(true, key, value));
    }
  }

  lemma InsertByB2tCompact<K, V>(c: Config<K, V>, t: Table<K, V>, b: nat, key: K, value: V)
    requires Sound(c, t) && b < Capacity(t, 1)
    requires CompactTable(t) && FullBucket(t.levels[1], b)
    ensures |InsertByB2t(c, t, b, key, value).0.levels| == 2 && CompactTable(InsertByB2t(c, t, b, key, value).0)
  {
    hide Sound, Placed, F, S, Compact, FirstUp, FreeSlot;
    LevelFacts(c, t, 0);
    LevelFacts(c, t, 1);
    var p := FirstUp(c, t, b, 0);
    if p != -1 {
      var m, q, x := t.levels[1][p], UpSlot(c, t, p), Slot(true, key, value);
      CompactFill(t.levels[0], F(c, m.key, t.addrCapacity), S(c, m.key, t.addrCapacity), m.(token := true));
      CompactOverwrite(t.levels[1], p, x);
      assert t.levels[1][p := m.(token := false)][p := x] == t.levels[1][p := x];
      assert InsertByB2t(c, t, b, key, value).0.levels == [t.levels[0][q := m.(token := true)], t.levels[1][p := x]];
    }
  }

  lemma InsertFreeCompact<K, V>(c: Config<K, V>, t: Table<K, V>, i: nat, key: K, value: V)
    requires Sound(c, t) && i < 2 && CompactTable(t)
    ensures |InsertFree(c, t, i, key, value).0.levels| == 2 && CompactTable(InsertFree(c, t, i, key, value).0)
  {
    hide Sound, Placed, F, S, Compact, FreeSlot;
    LevelFacts(c, t, i);
    var l, cap := t.levels[i], Capacity(t, i);
    if FreeSlot(l, F(c, key, cap), S(c, key, cap), 0) != -1 {
      CompactFill(l, F(c, key, cap), S(c, key, cap), Slot(true, key, value));
    }
  }

  /** Whichever way level_insert makes room, it leaves no hole below an item. */
  lemma InsertCompact<K, V>(c: Config<K, V>, t: Table<K, V>, key: K, value: V)
    requires Sound(c, t) && CompactTable(t)
    ensures |Insert(c, t, key, value).0.levels| == 2 && CompactTable(Insert(c, t, key, value).0)
  {
    hide Placed, Sound, F, S, TryMovement, InsertByB2t, InsertFree, FullBucket, CompactTable;
    LevelFacts(c, t, 0);
    LevelFacts(c, t, 1);
    InsertFreeAdds(c, t, 0, key, value);
    InsertFreeAdds(c, t, 1, key, value);
    InsertFreeCompact(c, t, 0, key, value);
    InsertFreeCompact(c, t, 1, key, value);
    if InsertFree(c, t, 0, key, value).1 != 0 && InsertFree(c, t, 1, key, value).1 != 0 {
      TryMovementCompact(c, t, F(c, key, Capacity(t, 0)), 0, key, value);
      TryMovementCompact(c, t, S(c, key, Capacity(t, 0)), 0, key, value);
      TryMovementCompact(c, t, F(c, key, Capacity(t, 1)), 1, key, value);
      TryMovementCompact(c, t, S(c, key, Capacity(t, 1)), 1, key, value);
      InsertByB2tCompact(c, t, F(c, key, Capacity(t, 1)), key, value);
      InsertByB2tCompact(c, t, S(c, key, Capacity(t, 1)), key, value);
    }
  }

  lemma {:induction false} RehashCompact<K, V>(
    c: Config<K, V>, bottom: Level<K, V>, k: nat, top: Level<K, V>, num: nat, capacity: nat)
    requires capacity >= 2 && |top| == ASSOC_NUM * capacity && k <= |bottom| && Compact(top)
    ensures var r := Rehash(c, bottom, k, top, num, capacity); r.Done? ==> Compact(r.value.0)
    decreases |bottom| - k
  {
    hide Compact, F, S, FreeSlot;
    if k < |bottom| {
      if !bottom[k].token {
        RehashCompact(c, bottom, k + 1, top, num, capacity);
      } else {
        var f, s := F(c, bottom[k].key, capacity), S(c, bottom[k].key, capacity);
        var p := FreeSlot(top, f, s, 0);
        if p != -1 {
          CompactFill(top, f, s, bottom[k]);
          RehashCompact(c, bottom, k + 1, top[p := bottom[k]], num + 1, capacity);
        }
      }
    }
  }

  lemma {:induction false} RefillCompact<K, V>(c: Config<K, V>, t: Table<K, V>, interim: Level<K, V>, k: nat)
    requires Sound(c, t) && k <= |interim| && CompactTable(t)
    ensures var r := Refill(c, t, interim, k); r.Done? ==> |r.value.levels| == 2 && CompactTable(r.value)
    decreases |interim| - k
  {
    hide Sound, CompactTable, Insert;
    LevelFacts(c, t, 0);
    if k < |interim| {
      if !interim[k].token {
        RefillCompact(c, t, interim, k + 1);
      } else {
        InsertAdds(c, t, interim[k].key, interim[k].value);
        InsertCompact(c, t, interim[k].key, interim[k].value);
        var (t', code) := Insert(c, t, interim[k].key, interim[k].value);
        if code == 0 { RefillCompact(c, t', interim, k + 1); }
      }
    }
  }

  lemma ExpandCompact<K, V>(c: Config<K, V>, t: Table<K, V>)
    requires Sound(c, t) && CompactTable(t)
    ensures var r := Expand(c, t); r.Done? ==> |r.value.levels| == 2 && CompactTable(r.value)
  {
    hide Placed, F, S, Rehash, Items;
    var capacity := Pow2(t.levelSize + 1);
    RehashCompact(c, t.levels[1], 0, NewBuckets(c, capacity), 0, capacity);
  }

  lemma UpdateCompact<K, V>(c: Config<K, V>, t: Table<K, V>, key: K, value: V)
    requires Sound(c, t) && CompactTable(t)
    ensures |Update(c, t, key, value).0.levels| == 2 && CompactTable(Update(c, t, key, value).0)
  {
    hide Sound, FindStatic, Compact;
    LevelFacts(c, t, 0);
    var r := FindStatic(c, t, key);
    if r.At? { CompactOverwrite(t.levels[r.level], r.slot, t.levels[r.level][r.slot].(value := value)); }
  }

  lemma ShrinkCompact<K, V>(c: Config<K, V>, t: Table<K, V>)
    requires Sound(c, t) && t.levelSize >= 3 && CompactTable(t)
    ensures var r := Shrink(c, t); r.Done? ==> |r.value.levels| == 2 && CompactTable(r.value)
  {
    hide Sound, Refill, Pow2;
    LevelFacts(c, t, 0);
    HalvedSound(c, t);
    RefillCompact(c, Halved(c, t), t.levels[0], 0);
  }

  lemma StepCompact<K, V>(c: Config<K, V>, t: Table<K, V>, op: Op<K, V>)
    requires Sound(c, t) && CompactTable(t) && !op.DeleteOp?
    ensures var r := Step(c, t, op); r.Done? ==> |r.value.0.levels| == 2 && CompactTable(r.value.0)
  {
    hide Sound, CompactTable, Insert, Update, FindStatic, FindDynamic, Expand, Shrink;
    LevelFacts(c, t, 0);
    match op
    case InsertOp(k, v) => InsertCompact(c, t, k, v);
    case UpdateOp(k, v) => UpdateCompact(c, t, k, v);
    case ExpandOp => ExpandCompact(c, t);
    case ShrinkOp => if t.levelSize >= 3 { ShrinkCompact(c, t); }
    case _ =>
  }

  lemma {:induction false} NoDeleteRunCompact<K, V>(c: Config<K, V>, t: Table<K, V>, ops: seq<Op<K, V>>)
    requires Sound(c, t) && CompactTable(t) && forall i :: 0 <= i < |ops| ==> !ops[i].DeleteOp?
    ensures var r := Run(c, t, ops); r.Done? ==> |r.value.0.levels| == 2 && CompactTable(r.value.0)
    decreases ops
  {
    hide Sound, Step, CompactTable;
    LevelFacts(c, t, 0);
    if ops != [] && Step(c, t, ops[0]).Done? {
      StepIsBagStep(c, t, ops[0]);
      StepCompact(c, t, ops[0]);
      NoDeleteRunCompact(c, Step(c, t, ops[0]).value.0, ops[1..]);
    }
  }

  /** After every run without deletes from a new table, a free slot for any key is taken in the less-loaded
      of its two buckets, in both levels. */
  lemma NoDeleteRunBalances<K, V>(c: Config<K, V>, levelSize: nat, ops: seq<Op<K, V>>, key: K)
    requires levelSize >= 2 && forall i :: 0 <= i < |ops| ==> !ops[i].DeleteOp?
    ensures Sound(c, Init(c, levelSize))
    ensures var r := Run(c, Init(c, levelSize), ops);
      r.Done? ==> forall i :: 0 <= i < 2 ==>
        var t := r.value.0;
        |t.levels| == 2 && Capacity(t, i) >= 2 && |t.levels[i]| == ASSOC_NUM * Capacity(t, i)
        && ChoosesLessLoaded(t.levels[i], F(c, key, Capacity(t, i)), S(c, key, Capacity(t, i)))
  {
    hide Sound, Run, ChoosesLessLoaded, Compact;
    InitSound(c, levelSize);
    InitCompact(c, levelSize);
    NoDeleteRunCompact(c, Init(c, levelSize), ops);
    var r := Run(c, Init(c, levelSize), ops);
    if r.Done? {
      var t := r.value.0;
      forall i | 0 <= i < 2
        ensures |t.levels| == 2 && Capacity(t, i) >= 2 && |t.levels[i]| == ASSOC_NUM * Capacity(t, i)
        ensures ChoosesLessLoaded(t.levels[i], F(c, key, Capacity(t, i)), S(c, key, Capacity(t, i)))
      {
        LevelFacts(c, t, i);
        CompactChoosesLessLoaded(t.levels[i], F(c, key, Capacity(t, i)), S(c, key, Capacity(t, i)));
      }
    }
  }

  lemma InitCompact<K, V>(c: Config<K, V>, levelSize: nat)
    requires levelSize >= 2
    ensures CompactTable(Init(c, levelSize))
  {
  }
}
