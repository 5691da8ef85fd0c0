/** The level hash table as the program keeps it: two bucket arrays updated in place. Every method is proved
    to turn the state into what the function of LevelSpec says. */
module LevelTable {
  import opened Words
  import opened Wrappers
  import opened LevelSpec
  import opened LevelInsert
  import opened LevelOps
  import opened LevelResize

  datatype Status = Returned | Exited

  class LevelHash<K(==, !new), V(!new)> {
    const c: Config<K, V>
    var buckets: seq<array<Slot<K, V>>>
    var levelItemNum: seq<int>
    var addrCapacity: nat
    var totalCapacity: nat
    var levelSize: nat
    var levelExpandTime: nat
    var resizeState: nat

    ghost predicate Shaped()
      reads this
    {
      |buckets| == 2 && buckets[0] != buckets[1]
    }

    ghost function State(): Table<K, V>
      requires Shaped()
      reads this, buckets
    {
      Table([buckets[0][..], buckets[1][..]], levelItemNum, addrCapacity, totalCapacity, levelSize,
            levelExpandTime, resizeState)
    }

    ghost predicate Valid()
      reads this, buckets
    {
      Shaped() && Sound(c, State())
    }

    constructor (c: Config<K, V>, levelSize: nat)
      requires levelSize >= 2
      ensures Valid() && this.c == c && State() == Init(c, levelSize)
      ensures fresh(buckets[0]) && fresh(buckets[1])
    {
      InitSound(c, levelSize);
      var top := AllocateBuckets(c, Pow2(levelSize));
      var bottom := AllocateBuckets(c, Pow2(levelSize - 1));
      this.c := c;
      this.levelSize := levelSize;
      addrCapacity := Pow2(levelSize);
      totalCapacity := Pow2(levelSize) + Pow2(levelSize - 1);
      buckets := [top, bottom];
      levelItemNum := [0, 0];
      levelExpandTime := 0;
      resizeState := 0;
    }

    /** alignedmalloc of n buckets, with all tokens 0. */
    static method AllocateBuckets(c: Config<K, V>, n: nat) returns (a: array<Slot<K, V>>)
      ensures fresh(a) && a[..] == NewBuckets(c, n)
    {
      a := new Slot<K, V>[ASSOC_NUM * n](_ => Slot(false, c.blankKey, c.blankValue));
    }

    // -------------------------------------------------------------- queries

    method MatchBucket(i: nat, b: nat, key: K) returns (p: int)
      requires Valid() && i < 2 && b < Capacity(State(), i)
      ensures p == MatchInBucket(buckets[i][..], b, key, 0)
    {
      var j := 0;
      while j < ASSOC_NUM
        invariant 0 <= j <= ASSOC_NUM
        invariant MatchInBucket(buckets[i][..], b, key, j) == MatchInBucket(buckets[i][..], b, key, 0)
      {
        if buckets[i][ASSOC_NUM * b + j].token && buckets[i][ASSOC_NUM * b + j].key == key {
          return ASSOC_NUM * b + j;
        }
        j := j + 1;
      }
      return -1;
    }

    /** Scan bucket fIdx and then bucket sIdx of level i. */
    method LevelPlace(i: nat, fIdx: nat, sIdx: nat, key: K) returns (r: Place)
      requires Valid() && i < 2
      requires fIdx == F(c, key, Capacity(State(), i)) && sIdx == S(c, key, Capacity(State(), i))
      ensures r == FindIn(c, State(), i, key)
    {
      hide Sound, Placed, F, S, MatchInBucket;
      LevelFacts(c, State(), i);
      var p := MatchBucket(i, fIdx, key);
      if p == -1 { p := MatchBucket(i, sIdx, key); }
      r := if p == -1 then Nowhere else At(i, p);
    }

    method StaticPlace(key: K) returns (r: Place)
      requires Valid()
      ensures r == FindStatic(c, State(), key)
    {
      hide Sound, Placed, F, S, FindIn;
      LevelFacts(c, State(), 0);
      var fIdx, sIdx := F(c, key, addrCapacity), S(c, key, addrCapacity);
      var i := 0;
      while i < 2
        invariant 0 <= i <= 2
        invariant i < 2 ==> fIdx == F(c, key, Capacity(State(), i)) && sIdx == S(c, key, Capacity(State(), i))
        invariant forall n :: 0 <= n < i ==> FindIn(c, State(), n, key).Nowhere?
      {
        r := LevelPlace(i, fIdx, sIdx, key);
        if r.At? { return; }
        fIdx, sIdx := F(c, key, addrCapacity / 2), S(c, key, addrCapacity / 2);
        i := i + 1;
      }
      return Nowhere;
    }

    method StaticQuery(key: K) returns (value: Option<V>)
      requires Valid()
      ensures value == ValueAt(State(), FindStatic(c, State(), key))
    {
      var r := StaticPlace(key);
      if r.At? { return Some(buckets[r.level][r.slot].value); }
      return None;
    }

    method DynamicPlace(key: K) returns (r: Place)
      requires Valid()
      ensures r == FindDynamic(c, State(), key)
    {
      hide Sound, Placed, F, S, FindIn;
      LevelFacts(c, State(), 0);
      if levelItemNum[0] > levelItemNum[1] {
        var fIdx, sIdx := F(c, key, addrCapacity), S(c, key, addrCapacity);
        var i := 0;
        while i < 2
          invariant 0 <= i <= 2
          invariant i < 2 ==> fIdx == F(c, key, Capacity(State(), i)) && sIdx == S(c, key, Capacity(State(), i))
          invariant forall n :: 0 <= n < i ==> FindIn(c, State(), n, key).Nowhere?
        {
          r := LevelPlace(i, fIdx, sIdx, key);
          if r.At? { return; }
          fIdx, sIdx := F(c, key, addrCapacity / 2), S(c, key, addrCapacity / 2);
          i := i + 1;
        }
      } else {
        var fIdx, sIdx := F(c, key, addrCapacity / 2), S(c, key, addrCapacity / 2);
        var i := 2;
        while i > 0
          invariant 0 <= i <= 2
          invariant i > 0 ==>
            fIdx == F(c, key, Capacity(State(), i - 1)) && sIdx == S(c, key, Capacity(State(), i - 1))
          invariant forall n :: i <= n < 2 ==> FindIn(c, State(), n, key).Nowhere?
        {
          r := LevelPlace(i - 1, fIdx, sIdx, key);
          if r.At? { return; }
          fIdx, sIdx := F(c, key, addrCapacity), S(c, key, addrCapacity);
          i := i - 1;
        }
      }
      return Nowhere;
    }

    method DynamicQuery(key: K) returns (value: Option<V>)
      requires Valid()
      ensures value == ValueAt(State(), FindDynamic(c, State(), key))
    {
      var r := DynamicPlace(key);
      if r.At? { return Some(buckets[r.level][r.slot].value); }
      return None;
    }

    // -------------------------------------------------------------- writing

    /** Overwrite one slot in place. */
    method Write(i: nat, p: nat, x: Slot<K, V>)
      requires Shaped() && i < 2 && p < buckets[i].Length
      modifies buckets[i]
      ensures var t := old(State()); State() == t.(levels := t.levels[i := t.levels[i][p := x]])
    {
      ghost var t := State();
      buckets[i][p] := x;
      assert State().levels == t.levels[i := t.levels[i][p := x]];
    }

    /** Overwrite one slot in place and adjust the counter of its level. */
    method WriteCounted(i: nat, p: nat, x: Slot<K, V>, delta: int)
      requires Shaped() && |levelItemNum| == 2 && i < 2 && p < buckets[i].Length
      modifies this`levelItemNum, buckets[i]
      ensures var t := old(State());
        State() == t.(levels := t.levels[i := t.levels[i][p := x]],
                      levelItemNum := t.levelItemNum[i := t.levelItemNum[i] + delta])
    {
      Write(i, p, x);
      levelItemNum := levelItemNum[i := levelItemNum[i] + delta];
    }

    // -------------------------------------------------------------- delete and update

    method Delete(key: K) returns (code: nat)
      requires Valid()
      modifies this`levelItemNum, buckets[0], buckets[1]
      ensures Valid()
      ensures (State(), code) == LevelSpec.Delete(c, old(State()), key)
    {
      hide Sound, FindStatic, Contents, Stored, Placed, Items;
      ghost var t := State();
      LevelFacts(c, t, 0);
      DeleteRemoves(c, t, key);
      var r := StaticPlace(key);
      if r.Nowhere? { return 1; }
      WriteCounted(r.level, r.slot, buckets[r.level][r.slot].(token := false), -1);
      return 0;
    }

    method Update(key: K, newValue: V) returns (code: nat)
      requires Valid()
      modifies buckets[0], buckets[1]
      ensures Valid()
      ensures (State(), code) == LevelSpec.Update(c, old(State()), key, newValue)
    {
      hide Sound, FindStatic, Contents, Stored;
      ghost var t := State();
      LevelFacts(c, t, 0);
      UpdateReplaces(c, t, key, newValue);
      var r := StaticPlace(key);
      if r.Nowhere? { return 1; }
      Write(r.level, r.slot, buckets[r.level][r.slot].(value := newValue));
      return 0;
    }

    // -------------------------------------------------------------- insert

    /** Scan two buckets of a level in lockstep for a free slot. */
    method FindFree(a: array<Slot<K, V>>, f: nat, s: nat) returns (p: int)
      requires ASSOC_NUM * f + ASSOC_NUM <= a.Length && ASSOC_NUM * s + ASSOC_NUM <= a.Length
      ensures p == FreeSlot(a[..], f, s, 0)
    {
      var j := 0;
      while j < ASSOC_NUM
        invariant 0 <= j <= ASSOC_NUM
        invariant FreeSlot(a[..], f, s, j) == FreeSlot(a[..], f, s, 0)
      {
        if !a[ASSOC_NUM * f + j].token { return ASSOC_NUM * f + j; }
        if !a[ASSOC_NUM * s + j].token { return ASSOC_NUM * s + j; }
        j := j + 1;
      }
      return -1;
    }

    /** Write a pair into a slot and count it. */
    method Place(i: nat, p: nat, key: K, value: V)
      requires Shaped() && |levelItemNum| == 2 && i < 2 && p < buckets[i].Length
      modifies this`levelItemNum, buckets[i]
      ensures Shaped() && State() == Put(old(State()), i, p, key, value)
    {
      WriteCounted(i, p, Slot(true, key, value), 1);
    }

    /** Where the resident of slot p could move inside level i. */
    method SidewaysTarget(i: nat, p: nat) returns (q: int)
      requires Valid() && i < 2 && p < buckets[i].Length
      ensures q == SidewaysSlot(c, State().levels[i], Capacity(State(), i), p)
    {
      hide Sound, Placed, F, S, FreeSlot;
      LevelFacts(c, State(), i);
      var capacity := if i == 0 then addrCapacity else addrCapacity / 2;
      var key := buckets[i][p].key;
      var fIdx, sIdx := F(c, key, capacity), S(c, key, capacity);
      var jdx := if fIdx == p / ASSOC_NUM then sIdx else fIdx;
      q := FindFree(buckets[i], jdx, jdx);
    }

    /** Find the first resident of bucket idx of level i that can move sideways, and where to. */
    method FindSideways(i: nat, idx: nat) returns (p: int, q: int)
      requires Valid() && i < 2 && idx < Capacity(State(), i)
      ensures var l, cap := State().levels[i], Capacity(State(), i);
        p == FirstSideways(c, l, cap, idx, 0) && (p != -1 ==> q == SidewaysSlot(c, l, cap, p))
    {
      hide Sound, SidewaysSlot;
      LevelFacts(c, State(), i);
      ghost var l, capacity := buckets[i][..], Capacity(State(), i);
      var a := 0;
      while a < ASSOC_NUM
        invariant 0 <= a <= ASSOC_NUM
        invariant FirstSideways(c, l, capacity, idx, a) == FirstSideways(c, l, capacity, idx, 0)
      {
        p := ASSOC_NUM * idx + a;
        q := SidewaysTarget(i, p);
        if q != -1 { return; }
        a := a + 1;
      }
      return -1, -1;
    }

    method TryMovement(idx: nat, i: nat, key: K, value: V) returns (code: nat)
      requires Valid() && i < 2 && idx < Capacity(State(), i)
      modifies this`levelItemNum, buckets[i]
      ensures Shaped() && (State(), code) == LevelSpec.TryMovement(c, old(State()), idx, i, key, value)
    {
      hide Sound, FirstSideways, SidewaysSlot;
      LevelFacts(c, State(), i);
      var p, q := FindSideways(i, idx);
      if p == -1 { return 1; }
      Write(i, q, buckets[i][p].(token := true));
      Place(i, p, key, value);
      return 0;
    }

    /** Where the resident of bottom slot p could move in the top level. */
    method UpTarget(p: nat) returns (q: int)
      requires Valid() && p < buckets[1].Length
      ensures q == UpSlot(c, State(), p)
    {
      hide Sound, Placed, F, S, FreeSlot;
      LevelFacts(c, State(), 0);
      var key := buckets[1][p].key;
      q := FindFree(buckets[0], F(c, key, addrCapacity), S(c, key, addrCapacity));
    }

    /** Find the first resident of bottom bucket idx that can move up, and where to. */
    method FindUp(idx: nat) returns (p: int, q: int)
      requires Valid() && idx < Capacity(State(), 1)
      ensures p == FirstUp(c, State(), idx, 0) && (p != -1 ==> q == UpSlot(c, State(), p))
    {
      hide Sound, UpSlot;
      LevelFacts(c, State(), 1);
      var a := 0;
      while a < ASSOC_NUM
        invariant 0 <= a <= ASSOC_NUM
        invariant FirstUp(c, State(), idx, a) == FirstUp(c, State(), idx, 0)
      {
        p := ASSOC_NUM * idx + a;
        q := UpTarget(p);
        if q != -1 { return; }
        a := a + 1;
      }
      return -1, -1;
    }

    /** Copy the resident of bottom slot p to top slot q, release p, and adjust both counters. */
    method MoveUp(p: nat, q: nat)
      requires Shaped() && |levelItemNum| == 2 && p < buckets[1].Length && q < buckets[0].Length
      modifies this`levelItemNum, buckets[0], buckets[1]
      ensures var t := old(State());
        var m := t.levels[1][p];
        State() == t.(levels := [t.levels[0][q := m.(token := true)], t.levels[1][p := m.(token := false)]],
                      levelItemNum := [t.levelItemNum[0] + 1, t.levelItemNum[1] - 1])
    {
      var m := buckets[1][p];
      WriteCounted(0, q, m.(token := true), 1);
      WriteCounted(1, p, m.(token := false), -1);
    }

    method B2tMovement(idx: nat) returns (j: int)
      requires Valid() && idx < Capacity(State(), 1)
      modifies this`levelItemNum, buckets[0], buckets[1]
      ensures Shaped() && (State(), j) == LevelSpec.B2tMovement(c, old(State()), idx)
    {
      hide Sound, FirstUp, UpSlot;
      LevelFacts(c, State(), 0);
      LevelFacts(c, State(), 1);
      var p, q := FindUp(idx);
      if p == -1 { return -1; }
      MoveUp(p, q);
      return p - ASSOC_NUM * idx;
    }

    /** level_insert. */
    method Insert(key: K, value: V) returns (code: nat)
      requires Valid()
      modifies this`levelItemNum, buckets[0], buckets[1]
      ensures Valid()
      ensures (State(), code) == LevelSpec.Insert(c, old(State()), key, value)
    {
      hide Sound, InsertFree, InsertSideways, InsertUp, Contents, NoRoom;
      ghost var t := State();
      InsertAdds(c, t, key, value);
      var i := 0;
      while i < 2
        invariant 0 <= i <= 2 && State() == t
        invariant forall n :: 0 <= n < i ==> InsertFree(c, t, n, key, value).1 != 0
      {
        code := InsertIntoFree(i, key, value);
        if code == 0 { return; }
        i := i + 1;
      }
      i := 0;
      while i < 2
        invariant 0 <= i <= 2 && State() == t
        invariant forall n :: 0 <= n < i ==> InsertSideways(c, t, n, key, value).1 != 0
      {
        code := InsertAfterMovement(i, key, value);
        if code == 0 { return; }
        i := i + 1;
      }
      code := InsertAfterB2t(key, value);
    }

    method InsertAfterMovement(i: nat, key: K, value: V) returns (code: nat)
      requires Valid() && i < 2
      modifies this`levelItemNum, buckets[i]
      ensures Shaped() && (State(), code) == InsertSideways(c, old(State()), i, key, value)
    {
      hide Sound, F, S, LevelSpec.TryMovement;
      LevelFacts(c, State(), i);
      var capacity := if i == 0 then addrCapacity else addrCapacity / 2;
      code := TryMovement(F(c, key, capacity), i, key, value);
      if code == 0 { return; }
      code := TryMovement(S(c, key, capacity), i, key, value);
    }

    method InsertAfterB2t(key: K, value: V) returns (code: nat)
      requires Valid()
      modifies this`levelItemNum, buckets[0], buckets[1]
      ensures Shaped() && (State(), code) == InsertUp(c, old(State()), key, value)
    {
      hide Sound, F, S, InsertByB2t;
      LevelFacts(c, State(), 1);
      if levelExpandTime == 0 { return 1; }
      code := InsertBelow(F(c, key, addrCapacity / 2), key, value);
      if code == 0 { return; }
      code := InsertBelow(S(c, key, addrCapacity / 2), key, value);
    }

    method InsertIntoFree(i: nat, key: K, value: V) returns (code: nat)
      requires Valid() && i < 2
      modifies this`levelItemNum, buckets[i]
      ensures Shaped() && (State(), code) == InsertFree(c, old(State()), i, key, value)
    {
      hide Sound, F, S, FreeSlot;
      LevelFacts(c, State(), i);
      var capacity := if i == 0 then addrCapacity else addrCapacity / 2;
      var p := FindFree(buckets[i], F(c, key, capacity), S(c, key, capacity));
      if p == -1 { return 1; }
      Place(i, p, key, value);
      return 0;
    }

    method InsertBelow(idx: nat, key: K, value: V) returns (code: nat)
      requires Valid() && idx < Capacity(State(), 1)
      modifies this`levelItemNum, buckets[0], buckets[1]
      ensures Shaped() && (State(), code) == InsertByB2t(c, old(State()), idx, key, value)
    {
      hide Sound, LevelSpec.B2tMovement;
      LevelFacts(c, State(), 1);
      var emptyLocation := B2tMovement(idx);
      if emptyLocation == -1 { return 1; }
      Place(1, ASSOC_NUM * idx + emptyLocation, key, value);
      return 0;
    }

    // -------------------------------------------------------------- resizing

    /** The loop of level_expand: move every item of the old bottom array into the new top array, releasing
        its slot. Returns the number moved, or Exited. */
    method RehashBottom(bottom: array<Slot<K, V>>, top: array<Slot<K, V>>, n: nat, capacity: nat)
      returns (status: Status, num: nat)
      requires bottom != top && bottom.Length == ASSOC_NUM * n
      requires capacity >= 2 && top.Length == ASSOC_NUM * capacity
      modifies bottom, top
      ensures var r := Rehash(c, old(bottom[..]), 0, old(top[..]), 0, capacity);
        && (status.Exited? <==> r.Exit?)
        && (status.Returned? ==> r == Done((top[..], num)))
    {
      hide F, S, FreeSlot;
      num := 0;
      ghost var l, top0 := bottom[..], top[..];
      var oldIdx := 0;
      while oldIdx < n
        invariant 0 <= oldIdx <= n
        invariant forall k :: ASSOC_NUM * oldIdx <= k < |l| ==> bottom[k] == l[k]
        invariant Rehash(c, l, ASSOC_NUM * oldIdx, top[..], num, capacity) == Rehash(c, l, 0, top0, 0, capacity)
      {
        var i := 0;
        while i < ASSOC_NUM
          invariant 0 <= i <= ASSOC_NUM
          invariant forall k :: ASSOC_NUM * oldIdx + i <= k < |l| ==> bottom[k] == l[k]
          invariant Rehash(c, l, ASSOC_NUM * oldIdx + i, top[..], num, capacity) == Rehash(c, l, 0, top0, 0, capacity)
        {
          var k := ASSOC_NUM * oldIdx + i;
          var x := bottom[k];
          if x.token {
            var p := FindFree(top, F(c, x.key, capacity), S(c, x.key, capacity));
            if p == -1 { return Exited, num; }
            ghost var before := top[..];
            top[p] := x;
            assert top[..] == before[p := x];
            num := num + 1;
            bottom[k] := x.(token := false);
          }
          i := i + 1;
        }
        oldIdx := oldIdx + 1;
      }
      return Returned, num;
    }

    /** level_expand. After Exited the program is over and nothing is said of the state. */
    method Expand() returns (status: Status)
      requires Valid()
      modifies this, buckets[1]
      ensures status.Exited? <==> LevelSpec.Expand(c, old(State())).Exit?
      ensures status.Returned? ==>
        && Valid() && LevelSpec.Expand(c, old(State())) == Done(State())
        && fresh(buckets[0]) && buckets[1] == old(buckets[0])
    {
      hide Sound, Rehash, Contents, Pow2;
      ghost var t := State();
      SizeFacts(c, t);
      ExpandKeeps(c, t);
      resizeState := 1;
      addrCapacity := Pow2(levelSize + 1);
      var newBuckets := AllocateBuckets(c, addrCapacity);
      var num;
      status, num := RehashBottom(buckets[1], newBuckets, Pow2(levelSize - 1), addrCapacity);
      if status.Exited? { return; }
      levelSize := levelSize + 1;
      totalCapacity := Pow2(levelSize) + Pow2(levelSize - 1);
      buckets := [newBuckets, buckets[0]];
      levelItemNum := [num, levelItemNum[0]];
      levelExpandTime := (levelExpandTime + 1) % 256;
      resizeState := 0;
    }

    /** The loop of level_shrink: re-insert every item of the old top array, releasing its slot. At every step
        the table and the slots still in use of the old array together hold the same pairs. */
    method Reinsert(interim: array<Slot<K, V>>, n: nat) returns (status: Status)
      requires Valid() && interim !in buckets && interim.Length == ASSOC_NUM * n
      modifies this`levelItemNum, buckets[0], buckets[1], interim
      ensures status.Exited? <==> Refill(c, old(State()), old(interim[..]), 0).Exit?
      ensures status.Returned? ==> Valid() && Refill(c, old(State()), old(interim[..]), 0) == Done(State())
    {
      hide Sound, Contents, Items, LevelSpec.Insert, Refill, NoRoom;
      ghost var l, t := interim[..], State();
      LevelFacts(c, t, 0);
      var oldIdx := 0;
      while oldIdx < n
        invariant 0 <= oldIdx <= n && Valid()
        invariant forall k :: ASSOC_NUM * oldIdx <= k < |l| ==> interim[k] == l[k]
        invariant Refill(c, State(), l, ASSOC_NUM * oldIdx) == Refill(c, t, l, 0)
        invariant Contents(State()) + Items(interim[..]) == Contents(t) + Items(l)
      {
        var i := 0;
        while i < ASSOC_NUM
          invariant 0 <= i <= ASSOC_NUM && Valid()
          invariant forall k :: ASSOC_NUM * oldIdx + i <= k < |l| ==> interim[k] == l[k]
          invariant Refill(c, State(), l, ASSOC_NUM * oldIdx + i) == Refill(c, t, l, 0)
          invariant Contents(State()) + Items(interim[..]) == Contents(t) + Items(l)
        {
          status := ReinsertSlot(interim, ASSOC_NUM * oldIdx + i, l);
          if status.Exited? { return; }
          i := i + 1;
        }
        oldIdx := oldIdx + 1;
      }
      RefillEnd(c, State(), l);
      return Returned;
    }

    method ReinsertSlot(interim: array<Slot<K, V>>, k: nat, ghost l: Level<K, V>) returns (status: Status)
      requires Valid() && interim !in buckets && k < interim.Length == |l| && interim[k] == l[k]
      modifies this`levelItemNum, buckets[0], buckets[1], interim
      ensures status.Exited? ==> Refill(c, old(State()), l, k).Exit?
      ensures status.Returned? ==>
        && Valid() && Refill(c, State(), l, k + 1) == Refill(c, old(State()), l, k)
        && Contents(State()) + Items(interim[..]) == old(Contents(State()) + Items(interim[..]))
        && forall m :: 0 <= m < |l| && m != k ==> interim[m] == old(interim[m])
    {
      hide Sound, Contents, Items, LevelSpec.Insert, NoRoom;
      ghost var t, before := State(), interim[..];
      if interim[k].token {
        LevelFacts(c, t, 0);
        InsertAdds(c, t, interim[k].key, interim[k].value);
        var code := Insert(interim[k].key, interim[k].value);
        if code != 0 { return Exited; }
        interim[k] := interim[k].(token := false);
        assert interim[..] == before[k := before[k].(token := false)];
        ItemsUpdate(before, k, before[k].(token := false));
        Handover(Contents(State()), Items(interim[..]), Contents(t), Items(before), ItemOf(before[k]));
      }
      return Returned;
    }

    /** level_shrink. After Exited the program is over and nothing is said of the state. */
    method Shrink() returns (status: Status)
      requires Valid() && levelSize >= 3
      modifies this, buckets[0], buckets[1]
      ensures status.Exited? <==> LevelResize.Shrink(c, old(State())).Exit?
      ensures status.Returned? ==>
        && Valid() && LevelResize.Shrink(c, old(State())) == Done(State())
        && fresh(buckets[1]) && buckets[0] == old(buckets[1])
    {
      hide Sound, Contents, Items, Refill, Pow2;
      ghost var t := State();
      SizeFacts(c, t);
      if (levelItemNum[0] + levelItemNum[1]) as real > (totalCapacity * ASSOC_NUM) as real * 0.4 { return Exited; }
      HalvedSound(c, t);
      ShrinkKeeps(c, t);
      resizeState := 2;
      levelSize := levelSize - 1;
      var newBuckets := AllocateBuckets(c, Pow2(levelSize - 1));
      var interim := buckets[0];
      buckets := [buckets[1], newBuckets];
      levelItemNum := [levelItemNum[1], 0];
      addrCapacity := Pow2(levelSize);
      totalCapacity := Pow2(levelSize) + Pow2(levelSize - 1);
      assert State() == Halved(c, t);
      assert interim.Length == ASSOC_NUM * Pow2(levelSize + 1);
      status := Reinsert(interim, Pow2(levelSize + 1));
      if status.Exited? { return; }
      levelExpandTime := 0;
      resizeState := 0;
    }
  }

  lemma Handover<T>(c': multiset<T>, i': multiset<T>, c: multiset<T>, i: multiset<T>, x: multiset<T>)
    requires c' == c + x && i' + x == i + multiset{}
    ensures c' + i' == c + i
  {
    assert c' + i' == c + (i' + x);
  }

  lemma RefillEnd<K, V>(c: Config<K, V>, t: Table<K, V>, interim: Level<K, V>)
    requires Sound(c, t)
    ensures Refill(c, t, interim, |interim|) == Done(t)
  {
  }
}
