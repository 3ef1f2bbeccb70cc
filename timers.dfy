/** The browser's timer queue as an explicit, ordered list of pending
    callbacks. `setTimeout(f, d)` appends `Timer(now + d, f)`; the next
    callback to run is the one with the earliest due time, and among equal
    due times the one scheduled first. */
module Timers {

  datatype Timer<A> = Timer(due: int, action: A)

  /** Position of the timer that fires next. */
  function Earliest<A>(ts: seq<Timer<A>>): (k: nat)
    requires ts != []
    ensures k < |ts|
    ensures forall j :: 0 <= j < |ts| ==> ts[k].due <= ts[j].due
    ensures forall j :: 0 <= j < k ==> ts[j].due > ts[k].due
  {
    if |ts| == 1 then 0
    else
      var k := Earliest(ts[1..]);
      if ts[0].due <= ts[k + 1].due then 0 else k + 1
  }

  /** The queue once the timer at `k` has been taken out to run. */
  function RemoveAt<A>(ts: seq<Timer<A>>, k: nat): seq<Timer<A>>
    requires k < |ts|
  {
    ts[..k] + ts[k + 1..]
  }

  /** Total weight of the pending callbacks; an event loop step that runs a
      callback of weight w and schedules callbacks of smaller total weight
      makes it smaller, which is why the loop stops. */
  function Load<A>(ts: seq<Timer<A>>, weight: A -> nat): nat
  {
    if ts == [] then 0 else weight(ts[0].action) + Load(ts[1..], weight)
  }

  lemma {:induction false} LoadAppend<A>(ts: seq<Timer<A>>, more: seq<Timer<A>>, weight: A -> nat)
    ensures Load(ts + more, weight) == Load(ts, weight) + Load(more, weight)
  {
    if ts == [] {
      assert ts + more == more;
    } else {
      assert (ts + more)[1..] == ts[1..] + more;
      LoadAppend(ts[1..], more, weight);
    }
  }

  lemma {:induction false} LoadRemoveAt<A>(ts: seq<Timer<A>>, k: nat, weight: A -> nat)
    requires k < |ts|
    ensures Load(RemoveAt(ts, k), weight) + weight(ts[k].action) == Load(ts, weight)
  {
    assert ts == ts[..k] + ([ts[k]] + ts[k + 1..]);
    LoadAppend(ts[..k], [ts[k]] + ts[k + 1..], weight);
    LoadAppend(ts[..k], ts[k + 1..], weight);
    assert ([ts[k]] + ts[k + 1..])[1..] == ts[k + 1..];
  }

  /** Removing a timer keeps every other one, in order. */
  lemma RemoveAtKeeps<A>(ts: seq<Timer<A>>, k: nat)
    requires k < |ts|
    ensures |RemoveAt(ts, k)| == |ts| - 1
    ensures forall j :: 0 <= j < k ==> RemoveAt(ts, k)[j] == ts[j]
    ensures forall j :: k <= j < |ts| - 1 ==> RemoveAt(ts, k)[j] == ts[j + 1]
  {
  }
}
