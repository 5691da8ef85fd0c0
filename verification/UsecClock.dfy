/** time_usec_sequential: unique, increasing readings of a clock that may stand still between calls. */
module UsecClock {
  import opened Words

  /** The two fields after a call at clock reading `now`; the call returns their sum. */
  function SequentialStep(last: nat, since: nat, now: nat): (nat, nat) {
    var diff := Bit64(now - last);
    var since1 := if now == last then since else if diff >= since then 0 else since - diff;
    (now, since1 + 1)
  }

  /** The result is one more than both the current time and the previous result exactly when the clock has
      not gone back. */
  lemma SequentialExact(last: nat, since: nat, now: nat)
    requires last + since < TWO_TO_THE_64 && now < TWO_TO_THE_64
    ensures var (last', since') := SequentialStep(last, since, now);
      last' + since' == Max(now, last + since) + 1 <==> now >= last
  {
    if now < last {
      assert Bit64(now - last) == now - last + TWO_TO_THE_64;
    }
  }

  /** The results of a sequence of calls. */
  function Readings(last: nat, since: nat, clock: seq<nat>): (r: seq<nat>)
    ensures |r| == |clock|
    decreases clock
  {
    if clock == [] then []
    else
      var (last', since') := SequentialStep(last, since, clock[0]);
      [last' + since'] + Readings(last', since', clock[1..])
  }

  lemma NextReading(last: nat, since: nat, now: nat)
    requires last <= now < TWO_TO_THE_64
    ensures var (last', since') := SequentialStep(last, since, now);
      last' == now && last' + since' == Max(now, last + since) + 1
  {
  }

  /** The clock readings start at `last` or later and do not go back. */
  predicate Forward(last: nat, clock: seq<nat>) {
    && (forall k :: 0 <= k < |clock| ==> last <= clock[k] < TWO_TO_THE_64)
    && forall j, k :: 0 <= j < k < |clock| ==> clock[j] <= clock[k]
  }

  /** The result before result k. */
  function Previous(first: nat, r: seq<nat>, k: nat): nat
    requires k <= |r|
  {
    if k == 0 then first else r[k - 1]
  }

  /** While the clock does not go back, every result is one more than the maximum of its time and the result
      before it. */
  lemma {:induction false} ReadingsExact(last: nat, since: nat, clock: seq<nat>, k: nat)
    requires Forward(last, clock) && k < |clock|
    ensures var r := Readings(last, since, clock); r[k] == Max(clock[k], Previous(last + since, r, k)) + 1
    decreases k
  {
    NextReading(last, since, clock[0]);
    if k > 0 {
      var (last', since') := SequentialStep(last, since, clock[0]);
      ReadingsExact(last', since', clock[1..], k - 1);
    }
  }

  /** So the results strictly increase, beyond every earlier result. */
  lemma {:induction false} ReadingsIncrease(last: nat, since: nat, clock: seq<nat>, j: nat, k: nat)
    requires Forward(last, clock) && j <= k < |clock|
    ensures var r := Readings(last, since, clock);
      r[k] > Previous(last + since, r, j) && r[k] > clock[k] && (j < k ==> r[j] < r[k])
    decreases k - j
  {
    ReadingsExact(last, since, clock, k);
    if j < k { ReadingsIncrease(last, since, clock, j, k - 1); }
  }
}
