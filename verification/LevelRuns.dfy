/** Whole runs of the table, against a plain multiset and against a map. */
module LevelRuns {
  import opened Words
  import opened Wrappers
  import opened LevelSpec
  import opened LevelInsert
  import opened LevelOps
  import opened LevelResize

  datatype Op<K, V> =
    | InsertOp(key: K, value: V)
    | DeleteOp(key: K)
    | UpdateOp(key: K, value: V)
    | StaticQueryOp(key: K)
    | DynamicQueryOp(key: K)
    | ExpandOp
    | ShrinkOp

  datatype Reply<V> = Code(code: nat) | Found(value: Option<V>) | Void

  /** One operation. A shrink below level_size 3 is outside the model and ends the run, as exit does. */
  function Step<K(==), V>(c: Config<K, V>, t: Table<K, V>, op: Op<K, V>): Outcome<(Table<K, V>, Reply<V>)>
    requires Sound(c, t)
  {
    match op
    case InsertOp(k, v) => var (t', code) := Insert(c, t, k, v); Done((t', Code(code)))
    case DeleteOp(k) => var (t', code) := Delete(c, t, k); Done((t', Code(code)))
    case UpdateOp(k, v) => var (t', code) := Update(c, t, k, v); Done((t', Code(code)))
    case StaticQueryOp(k) => Done((t, Found(ValueAt(t, FindStatic(c, t, k)))))
    case DynamicQueryOp(k) => Done((t, Found(ValueAt(t, FindDynamic(c, t, k)))))
    case ExpandOp => (match Expand(c, t) case Exit => Exit case Done(t') => Done((t', Void)))
    case ShrinkOp =>
      if t.levelSize < 3 then Exit
      else match Shrink(c, t) case Exit => Exit case Done(t') => Done((t', Void))
  }

  // ---------------------------------------------------------------- against a multiset

  /** What the operation finds: the value at the first match of its key in scan order. */
  function Hit<K(==), V>(c: Config<K, V>, t: Table<K, V>, op: Op<K, V>): Option<V>
    requires Sound(c, t)
  {
    match op
    case DeleteOp(k) => ValueAt(t, FindStatic(c, t, k))
    case UpdateOp(k, _) => ValueAt(t, FindStatic(c, t, k))
    case StaticQueryOp(k) => ValueAt(t, FindStatic(c, t, k))
    case DynamicQueryOp(k) => ValueAt(t, FindDynamic(c, t, k))
    case _ => None
  }

  /** What a plain multiset of pairs does on the same operation, given which of the key's pairs comes first and
      whether there is room. */
  ghost predicate BagStep<K, V>(
    b: multiset<(K, V)>, op: Op<K, V>, hit: Option<V>, reply: Reply<V>, b': multiset<(K, V)>)
  {
    match op
    case InsertOp(k, v) => (reply == Code(0) && b' == b + multiset{(k, v)}) || (reply == Code(1) && b' == b)
    case DeleteOp(k) =>
      && BagLookup(b, k, hit)
      && if hit.None? then reply == Code(1) && b' == b
         else reply == Code(0) && b' == b - multiset{(k, hit.value)}
    case UpdateOp(k, v) =>
      && BagLookup(b, k, hit)
      && if hit.None? then reply == Code(1) && b' == b
         else reply == Code(0) && b' == b - multiset{(k, hit.value)} + multiset{(k, v)}
    case StaticQueryOp(k) => b' == b && reply == Found(hit) && BagLookup(b, k, hit)
    case DynamicQueryOp(k) => b' == b && reply == Found(hit) && BagLookup(b, k, hit)
    case ExpandOp => reply == Void && b' == b
    case ShrinkOp => reply == Void && b' == b
  }

  /** Nothing is found just when the multiset has no pair of the key; what is found is one of its pairs. */
  ghost predicate BagLookup<K, V>(b: multiset<(K, V)>, key: K, hit: Option<V>) {
    if hit.None? then !InBag(b, key) else (key, hit.value) in b
  }

  /** Both scans find what a lookup in the multiset may find. */
  lemma FoundIsLookup<K, V>(c: Config<K, V>, t: Table<K, V>, key: K)
    requires Sound(c, t)
    ensures |t.levels| == 2 && (Stored(t, key) <==> InBag(Contents(t), key))
    ensures FindStatic(c, t, key).Nowhere? <==> !Stored(t, key)
    ensures BagLookup(Contents(t), key, ValueAt(t, FindStatic(c, t, key)))
    ensures BagLookup(Contents(t), key, ValueAt(t, FindDynamic(c, t, key)))
  {
    hide Sound, Contents, FindStatic, FindDynamic, InBag;
    LevelFacts(c, t, 0);
    QueriesExact(c, t, key);
  }

  lemma DeleteIsBagStep<K, V>(c: Config<K, V>, t: Table<K, V>, key: K)
    requires Sound(c, t)
    ensures var (t', code) := Delete(c, t, key);
      Sound(c, t') && BagStep(Contents(t), DeleteOp(key), Hit(c, t, DeleteOp(key)), Code(code), Contents(t'))
  {
    hide Sound, Contents, Delete, FindStatic, FindDynamic, InBag, Stored, BagLookup;
    LevelFacts(c, t, 0);
    FoundIsLookup(c, t, key);
    DeleteRemoves(c, t, key);
  }

  lemma UpdateIsBagStep<K, V>(c: Config<K, V>, t: Table<K, V>, key: K, value: V)
    requires Sound(c, t)
    ensures var (t', code) := Update(c, t, key, value);
      var op := UpdateOp(key, value);
      Sound(c, t') && BagStep(Contents(t), op, Hit(c, t, op), Code(code), Contents(t'))
  {
    hide Sound, Contents, Update, FindStatic, FindDynamic, InBag, Stored, BagLookup;
    LevelFacts(c, t, 0);
    FoundIsLookup(c, t, key);
    UpdateReplaces(c, t, key, value);
  }

  lemma QueryIsBagStep<K, V>(c: Config<K, V>, t: Table<K, V>, op: Op<K, V>)
    requires Sound(c, t) && (op.StaticQueryOp? || op.DynamicQueryOp?)
    ensures BagStep(Contents(t), op, Hit(c, t, op), Step(c, t, op).value.1, Contents(Step(c, t, op).value.0))
  {
    hide Sound, Contents, FindStatic, FindDynamic, InBag, Stored, BagLookup;
    LevelFacts(c, t, 0);
    FoundIsLookup(c, t, op.key);
  }

  /** Every operation that returns keeps the table sound and does to its contents what it does to a multiset. */
  lemma StepIsBagStep<K, V>(c: Config<K, V>, t: Table<K, V>, op: Op<K, V>)
    requires Sound(c, t)
    ensures var r := Step(c, t, op);
      r.Done? ==>
        && Sound(c, r.value.0)
        && BagStep(Contents(t), op, Hit(c, t, op), r.value.1, Contents(r.value.0))
  {
    hide Sound, Contents, Insert, Delete, Update, Expand, Shrink, FindStatic, FindDynamic, Pow2, InBag;
    match op
    case InsertOp(k, v) => LevelFacts(c, t, 0); InsertAdds(c, t, k, v);
    case DeleteOp(k) => DeleteIsBagStep(c, t, k);
    case UpdateOp(k, v) => UpdateIsBagStep(c, t, k, v);
    case StaticQueryOp(_) => QueryIsBagStep(c, t, op);
    case DynamicQueryOp(_) => QueryIsBagStep(c, t, op);
    case ExpandOp => LevelFacts(c, t, 0); ExpandKeeps(c, t);
    case ShrinkOp => LevelFacts(c, t, 0); if t.levelSize >= 3 { ShrinkKeeps(c, t); }
  }

  /** A run: the table reached and the replies given, or Exit. */
  function Run<K(==), V>(c: Config<K, V>, t: Table<K, V>, ops: seq<Op<K, V>>)
    : (r: Outcome<(Table<K, V>, seq<Reply<V>>)>)
    requires Sound(c, t)
    ensures r.Done? ==> Sound(c, r.value.0) && |r.value.1| == |ops|
    decreases ops
  {
    if ops == [] then Done((t, []))
    else
      StepIsBagStep(c, t, ops[0]);
      match Step(c, t, ops[0])
      case Exit => Exit
      case Done((t1, reply)) =>
        match Run(c, t1, ops[1..])
        case Exit => Exit
        case Done((t2, replies)) => Done((t2, [reply] + replies))
  }

  /** What the operations of a run find, one after the other. */
  function Hits<K(==), V>(c: Config<K, V>, t: Table<K, V>, ops: seq<Op<K, V>>): (hits: seq<Option<V>>)
    requires Sound(c, t) && Run(c, t, ops).Done?
    ensures |hits| == |ops|
    decreases ops
  {
    if ops == [] then []
    else
      StepIsBagStep(c, t, ops[0]);
      [Hit(c, t, ops[0])] + Hits(c, Step(c, t, ops[0]).value.0, ops[1..])
  }

  /** The multiset b' is what the operations, with these hits and replies, make of b. */
  ghost predicate BagRun<K(!new), V(!new)>(
    b: multiset<(K, V)>, ops: seq<Op<K, V>>, hits: seq<Option<V>>, replies: seq<Reply<V>>, b': multiset<(K, V)>)
    requires |ops| == |hits| == |replies|
    decreases ops
  {
    if ops == [] then b' == b
    else exists b1 ::
      BagStep(b, ops[0], hits[0], replies[0], b1) && BagRun(b1, ops[1..], hits[1..], replies[1..], b')
  }

  /** Over every run that does not exit, the invariant holds and the contents are those of a plain multiset put
      through the same operations, where delete and update act on the first match in scan order. */
  lemma {:induction false} RunIsBagRun<K(!new), V(!new)>(c: Config<K, V>, t: Table<K, V>, ops: seq<Op<K, V>>)
    requires Sound(c, t)
    ensures var r := Run(c, t, ops);
      r.Done? ==>
        && Sound(c, r.value.0) && |r.value.1| == |ops|
        && BagRun(Contents(t), ops, Hits(c, t, ops), r.value.1, Contents(r.value.0))
    decreases ops
  {
    hide Sound, Contents, BagStep, Step, Hit;
    LevelFacts(c, t, 0);
    if ops != [] && Step(c, t, ops[0]).Done? {
      var (t1, reply) := Step(c, t, ops[0]).value;
      StepIsBagStep(c, t, ops[0]);
      LevelFacts(c, t1, 0);
      RunIsBagRun(c, t1, ops[1..]);
      var r := Run(c, t, ops);
      if r.Done? {
        var rest := Run(c, t1, ops[1..]).value;
        assert r.value == (rest.0, [reply] + rest.1);
        assert ([reply] + rest.1)[1..] == rest.1;
        assert Hits(c, t, ops)[1..] == Hits(c, t1, ops[1..]);
        LevelFacts(c, r.value.0, 0);
      }
    }
  }

  // ---------------------------------------------------------------- the counters of a run

  /** The expands since the last shrink, counted over the operations alone; n before the first shrink. */
  function ExpandsSinceShrink<K, V>(ops: seq<Op<K, V>>, n: nat): nat {
    if ops == [] then n
    else
      var before := ExpandsSinceShrink(ops[..|ops| - 1], n);
      match ops[|ops| - 1]
      case ExpandOp => before + 1
      case ShrinkOp => 0
      case _ => before
  }

  /** One more for every expand, one less for every shrink. */
  function SizeAfter<K, V>(ops: seq<Op<K, V>>, n: int): int {
    if ops == [] then n
    else
      var before := SizeAfter(ops[..|ops| - 1], n);
      match ops[|ops| - 1]
      case ExpandOp => before + 1
      case ShrinkOp => before - 1
      case _ => before
  }

  lemma {:induction false} CountFirst<K, V>(op: Op<K, V>, ops: seq<Op<K, V>>, n: nat, k: int)
    ensures ExpandsSinceShrink([op] + ops, n) == ExpandsSinceShrink(ops, ExpandsSinceShrink([op], n))
    ensures SizeAfter([op] + ops, k) == SizeAfter(ops, SizeAfter([op], k))
    decreases |ops|
  {
    if ops == [] {
      assert [op] + ops == [op];
    } else {
      var m := |ops| - 1;
      assert ([op] + ops)[..m + 1] == [op] + ops[..m];
      CountFirst(op, ops[..m], n, k);
    }
  }

  lemma StepCounts<K, V>(c: Config<K, V>, t: Table<K, V>, op: Op<K, V>, n: nat)
    requires Sound(c, t) && t.levelExpandTime == n % 256 && t.resizeState == 0
    ensures var r := Step(c, t, op);
      r.Done? ==>
        && r.value.0.levelExpandTime == ExpandsSinceShrink([op], n) % 256
        && r.value.0.levelSize == SizeAfter([op], t.levelSize)
        && r.value.0.resizeState == 0
  {
    hide Sound, Contents, Insert, FindStatic, FindDynamic, Expand, Shrink, Pow2;
    LevelFacts(c, t, 0);
    assert [op][..0] == [];
    match op
    case InsertOp(k, v) => InsertAdds(c, t, k, v);
    case DeleteOp(k) => KeepsCounters(c, t, k, None);
    case UpdateOp(k, v) => KeepsCounters(c, t, k, Some(v));
    case ExpandOp => ExpandKeeps(c, t); assert (n % 256 + 1) % 256 == (n + 1) % 256;
    case ShrinkOp => if t.levelSize >= 3 { ShrinkKeeps(c, t); }
    case _ =>
  }

  lemma KeepsCounters<K, V>(c: Config<K, V>, t: Table<K, V>, key: K, value: Option<V>)
    requires Sound(c, t)
    ensures var t' := match value case None => Delete(c, t, key).0 case Some(v) => Update(c, t, key, v).0;
      t'.levelExpandTime == t.levelExpandTime && t'.levelSize == t.levelSize && t'.resizeState == t.resizeState
  {
    hide Sound, FindStatic, Holds;
    LevelFacts(c, t, 0);
  }

  lemma {:induction false} RunCountsFrom<K, V>(c: Config<K, V>, t: Table<K, V>, ops: seq<Op<K, V>>, n: nat)
    requires Sound(c, t) && t.levelExpandTime == n % 256 && t.resizeState == 0
    ensures var r := Run(c, t, ops);
      r.Done? ==>
        && r.value.0.levelExpandTime == ExpandsSinceShrink(ops, n) % 256
        && r.value.0.levelSize == SizeAfter(ops, t.levelSize)
        && r.value.0.resizeState == 0
    decreases ops
  {
    hide Sound, Step;
    if ops != [] && Step(c, t, ops[0]).Done? {
      var t1 := Step(c, t, ops[0]).value.0;
      StepIsBagStep(c, t, ops[0]);
      StepCounts(c, t, ops[0], n);
      RunCountsFrom(c, t1, ops[1..], ExpandsSinceShrink([ops[0]], n));
      CountFirst(ops[0], ops[1..], n, t.levelSize);
      assert [ops[0]] + ops[1..] == ops;
    }
  }

  /** After every run from a new table, the expansion count is the number of expands since the last shrink,
      modulo 256; the size went up with every expand and down with every shrink; no resize is pending. */
  lemma RunCounts<K, V>(c: Config<K, V>, levelSize: nat, ops: seq<Op<K, V>>)
    requires levelSize >= 2
    ensures Sound(c, Init(c, levelSize))
    ensures var r := Run(c, Init(c, levelSize), ops);
      r.Done? ==>
        && r.value.0.levelExpandTime == ExpandsSinceShrink(ops, 0) % 256
        && r.value.0.levelSize == SizeAfter(ops, levelSize)
        && r.value.0.resizeState == 0
  {
    hide Sound, Run;
    InitSound(c, levelSize);
    RunCountsFrom(c, Init(c, levelSize), ops, 0);
  }

  // ---------------------------------------------------------------- against a map

  /** The multiset holds each key of m once, with its value, and nothing else. */
  ghost predicate PairsOf<K(!new), V(!new)>(b: multiset<(K, V)>, m: map<K, V>) {
    forall pair: (K, V) :: b[pair] == if pair.0 in m && m[pair.0] == pair.1 then 1 else 0
  }

  function Lookup<K(==), V>(m: map<K, V>, key: K): Option<V> {
    if key in m then Some(m[key]) else None
  }

  /** The reply a map gives; an insert may also be refused for lack of room. */
  predicate MapReplies<K(==), V(==)>(m: map<K, V>, op: Op<K, V>, reply: Reply<V>) {
    match op
    case InsertOp(k, v) => reply == Code(0) || reply == Code(1)
    case DeleteOp(k) => reply == Code(if k in m then 0 else 1)
    case UpdateOp(k, v) => reply == Code(if k in m then 0 else 1)
    case StaticQueryOp(k) => reply == Found(Lookup(m, k))
    case DynamicQueryOp(k) => reply == Found(Lookup(m, k))
    case ExpandOp => reply == Void
    case ShrinkOp => reply == Void
  }

  function MapAfter<K(==), V(==)>(m: map<K, V>, op: Op<K, V>, reply: Reply<V>): map<K, V> {
    match op
    case InsertOp(k, v) => if reply == Code(0) then m[k := v] else m
    case DeleteOp(k) => m - {k}
    case UpdateOp(k, v) => if k in m then m[k := v] else m
    case _ => m
  }

  /** The operations insert only keys that are absent at that point. */
  predicate FreshInserts<K(==), V(==)>(m: map<K, V>, ops: seq<Op<K, V>>, replies: seq<Reply<V>>)
    requires |ops| == |replies|
    decreases ops
  {
    ops == [] ||
    (&& (ops[0].InsertOp? ==> ops[0].key !in m)
     && FreshInserts(MapAfter(m, ops[0], replies[0]), ops[1..], replies[1..]))
  }

  predicate MapRun<K(==), V(==)>(m: map<K, V>, ops: seq<Op<K, V>>, replies: seq<Reply<V>>)
    requires |ops| == |replies|
    decreases ops
  {
    ops == [] ||
    (&& MapReplies(m, ops[0], replies[0])
     && MapRun(MapAfter(m, ops[0], replies[0]), ops[1..], replies[1..]))
  }

  function MapFinal<K(==), V(==)>(m: map<K, V>, ops: seq<Op<K, V>>, replies: seq<Reply<V>>): map<K, V>
    requires |ops| == |replies|
    decreases ops
  {
    if ops == [] then m else MapFinal(MapAfter(m, ops[0], replies[0]), ops[1..], replies[1..])
  }

  lemma BagHas<K(!new), V(!new)>(b: multiset<(K, V)>, m: map<K, V>, key: K)
    requires PairsOf(b, m)
    ensures InBag(b, key) <==> key in m
    ensures forall pair :: pair in b && pair.0 == key ==> key in m && pair == (key, m[key])
  {
    if key in m { assert b[(key, m[key])] == 1; }
    forall pair: (K, V) | pair in b && pair.0 == key ensures key in m && pair == (key, m[key]) {
      assert b[pair] == 1;
    }
  }

  lemma BagRemove<K(!new), V(!new)>(b: multiset<(K, V)>, m: map<K, V>, key: K)
    requires PairsOf(b, m) && key in m
    ensures PairsOf(b - multiset{(key, m[key])}, m - {key})
  {
    var b', m' := b - multiset{(key, m[key])}, m - {key};
    forall pair: (K, V) ensures b'[pair] == if pair.0 in m' && m'[pair.0] == pair.1 then 1 else 0 {
      assert b[pair] == if pair.0 in m && m[pair.0] == pair.1 then 1 else 0;
    }
  }

  lemma BagAdd<K(!new), V(!new)>(b: multiset<(K, V)>, m: map<K, V>, key: K, value: V)
    requires PairsOf(b, m) && key !in m
    ensures PairsOf(b + multiset{(key, value)}, m[key := value])
  {
    var b', m' := b + multiset{(key, value)}, m[key := value];
    forall pair: (K, V) ensures b'[pair] == if pair.0 in m' && m'[pair.0] == pair.1 then 1 else 0 {
      assert b[pair] == if pair.0 in m && m[pair.0] == pair.1 then 1 else 0;
    }
  }

  lemma BagDeleteOfMap<K(!new), V(!new)>(
    b: multiset<(K, V)>, m: map<K, V>, key: K, hit: Option<V>, reply: Reply<V>, b': multiset<(K, V)>)
    requires PairsOf(b, m) && BagStep(b, DeleteOp(key), hit, reply, b')
    ensures MapReplies(m, DeleteOp(key), reply) && PairsOf(b', m - {key})
  {
    BagHas(b, m, key);
    hide PairsOf, InBag;
    if key in m { BagRemove(b, m, key); } else { assert m - {key} == m; }
  }

  lemma BagUpdateOfMap<K(!new), V(!new)>(
    b: multiset<(K, V)>, m: map<K, V>, key: K, value: V, hit: Option<V>, reply: Reply<V>,
    b': multiset<(K, V)>)
    requires PairsOf(b, m) && BagStep(b, UpdateOp(key, value), hit, reply, b')
    ensures MapReplies(m, UpdateOp(key, value), reply)
    ensures PairsOf(b', if key in m then m[key := value] else m)
  {
    BagHas(b, m, key);
    hide PairsOf, InBag;
    if key in m {
      BagRemove(b, m, key);
      BagAdd(b - multiset{(key, m[key])}, m - {key}, key, value);
      assert (m - {key})[key := value] == m[key := value];
    }
  }

  /** On the pairs of a map, the multiset step is the map step. */
  lemma BagStepOfMap<K(!new), V(!new)>(
    b: multiset<(K, V)>, m: map<K, V>, op: Op<K, V>, hit: Option<V>, reply: Reply<V>, b': multiset<(K, V)>)
    requires PairsOf(b, m) && BagStep(b, op, hit, reply, b')
    requires op.InsertOp? ==> op.key !in m
    ensures MapReplies(m, op, reply) && PairsOf(b', MapAfter(m, op, reply))
  {
    hide PairsOf, InBag;
    match op
    case InsertOp(k, v) => BagAdd(b, m, k, v);
    case DeleteOp(k) => BagDeleteOfMap(b, m, k, hit, reply, b');
    case UpdateOp(k, v) => BagUpdateOfMap(b, m, k, v, hit, reply, b');
    case StaticQueryOp(k) => BagHas(b, m, k);
    case DynamicQueryOp(k) => BagHas(b, m, k);
    case _ =>
  }

  /** While every insert is of an absent key, the table answers every operation as a map would, through every
      displacement, expand and shrink; both queries return the map's value. */
  lemma {:induction false} RunIsMapRun<K(!new), V(!new)>(
    c: Config<K, V>, t: Table<K, V>, m: map<K, V>, ops: seq<Op<K, V>>)
    requires Sound(c, t) && PairsOf(Contents(t), m)
    ensures var r := Run(c, t, ops);
      r.Done? ==>
        && |r.value.1| == |ops| && Sound(c, r.value.0)
        && (FreshInserts(m, ops, r.value.1) ==>
              && MapRun(m, ops, r.value.1)
              && PairsOf(Contents(r.value.0), MapFinal(m, ops, r.value.1)))
    decreases ops
  {
    hide Sound, Contents, BagStep, Step, Hit, MapReplies, MapAfter;
    LevelFacts(c, t, 0);
    if ops != [] && Step(c, t, ops[0]).Done? {
      var (t1, reply) := Step(c, t, ops[0]).value;
      StepIsBagStep(c, t, ops[0]);
      LevelFacts(c, t1, 0);
      var m1 := MapAfter(m, ops[0], reply);
      var r := Run(c, t, ops);
      if r.Done? {
        var rest := Run(c, t1, ops[1..]).value;
        assert r.value == (rest.0, [reply] + rest.1);
        assert ([reply] + rest.1)[1..] == rest.1;
        if FreshInserts(m, ops, r.value.1) {
          BagStepOfMap(Contents(t), m, ops[0], Hit(c, t, ops[0]), reply, Contents(t1));
          RunIsMapRun(c, t1, m1, ops[1..]);
        }
      }
    }
  }
}
