/**
 The reference behaviour of the upload cache of components/solar_logger/solar_logger.c: a bounded
 queue that drops its oldest record when it is full.  Records are numbered in the order in which
 they are appended, so that one can say what became of each.
 */
module Fifo {
  /**
   All records ever appended, the number of the oldest one still pending, and the numbers of those
   delivered and of those dropped, in the order in which that happened.
   */
  datatype Log<R> = Log(appended: seq<R>, head: nat, delivered: seq<nat>, dropped: seq<nat>)

  function Empty<R>(): Log<R> {
    Log([], 0, [], [])
  }

  ghost function Pending<R>(s: Log<R>): seq<R>
    requires s.head <= |s.appended|
  {
    s.appended[s.head..]
  }

  function Numbers(from: nat, to: nat): (ns: seq<nat>)
    requires from <= to
    ensures |ns| == to - from && forall i :: 0 <= i < |ns| ==> ns[i] == from + i
  {
    seq(to - from, i requires 0 <= i < to - from => from + i)
  }

  /** Appends a record; a full queue first gives up its oldest. */
  function Append<R>(s: Log<R>, r: R, capacity: nat): Log<R>
    requires s.head <= |s.appended|
  {
    if |s.appended| - s.head < capacity then s.(appended := s.appended + [r])
    else Log(s.appended + [r], s.head + 1, s.delivered, s.dropped + [s.head])
  }

  /** Delivers the `n` oldest pending records. */
  function Deliver<R>(s: Log<R>, n: nat): Log<R>
    requires s.head + n <= |s.appended|
  {
    s.(head := s.head + n, delivered := s.delivered + Numbers(s.head, s.head + n))
  }

  // ----- what every run keeps

  ghost predicate Increasing(ns: seq<nat>) {
    forall i, j :: 0 <= i < j < |ns| ==> ns[i] < ns[j]
  }

  /**
   The queue never holds more than its capacity; records are delivered in the order in which they
   were appended and each at most once; every record in front of the queue was either delivered or
   dropped, never both; and one is dropped only when as many records as the queue holds were
   appended behind it and then one more.
   */
  ghost predicate Sound<R>(s: Log<R>, capacity: nat) {
    && s.head <= |s.appended| <= s.head + capacity
    && Increasing(s.delivered) && Increasing(s.dropped)
    && (forall k :: 0 <= k < s.head ==> (k in s.delivered <==> k !in s.dropped))
    && (forall k :: k in s.delivered || k in s.dropped ==> k < s.head)
    && (forall k :: k in s.dropped ==> k + capacity < |s.appended|)
    && |s.delivered| + |s.dropped| + (|s.appended| - s.head) == |s.appended|
  }

  lemma AppendSound<R>(s: Log<R>, r: R, capacity: nat)
    requires Sound(s, capacity)
    ensures Sound(Append(s, r, capacity), capacity)
  {
    var t := Append(s, r, capacity);
    assert forall i :: 0 <= i < |s.dropped| ==> s.dropped[i] in s.dropped;
    assert forall k :: k in s.dropped ==> k in t.dropped;
    assert s.head < t.head ==> t.dropped[|s.dropped|] == s.head;
  }

  lemma DeliverSound<R>(s: Log<R>, n: nat, capacity: nat)
    requires Sound(s, capacity) && s.head + n <= |s.appended|
    ensures Sound(Deliver(s, n), capacity)
  {
    var t := Deliver(s, n);
    var ns := Numbers(s.head, s.head + n);
    assert forall i :: 0 <= i < |s.delivered| ==> s.delivered[i] in s.delivered;
    forall k | s.head <= k < s.head + n ensures k in ns {
      assert ns[k - s.head] == k;
    }
    assert forall k :: k in t.delivered <==> k in s.delivered || k in ns;
  }

  // ----- runs

  datatype Event<R> = Appended(record: R) | Sent(count: nat)

  ghost predicate Enabled<R>(s: Log<R>, e: Event<R>) {
    s.head <= |s.appended| && (e.Sent? ==> s.head + e.count <= |s.appended|)
  }

  ghost function Step<R>(s: Log<R>, e: Event<R>, capacity: nat): Log<R>
    requires Enabled(s, e)
  {
    match e
    case Appended(r) => Append(s, r, capacity)
    case Sent(n) => Deliver(s, n)
  }

  /** `run` leads from `s` to `t`. */
  ghost predicate Runs<R>(s: Log<R>, run: seq<Event<R>>, t: Log<R>, capacity: nat)
    decreases |run|
  {
    if run == [] then s == t
    else Enabled(s, run[0]) && Runs(Step(s, run[0], capacity), run[1..], t, capacity)
  }

  /** Over every run of appends and of successful sends. */
  lemma {:induction false} EveryRunIsSound<R>(s: Log<R>, run: seq<Event<R>>, t: Log<R>, capacity: nat)
    requires Sound(s, capacity) && Runs(s, run, t, capacity)
    ensures Sound(t, capacity)
    ensures s.appended <= t.appended && s.delivered <= t.delivered && s.dropped <= t.dropped
    decreases |run|
  {
    if run != [] {
      match run[0] {
        case Appended(r) => AppendSound(s, r, capacity);
        case Sent(n) => DeliverSound(s, n, capacity);
      }
      EveryRunIsSound(Step(s, run[0], capacity), run[1..], t, capacity);
    }
  }

  lemma {:induction false} RunsCompose<R>(s: Log<R>, run: seq<Event<R>>, t: Log<R>, more: seq<Event<R>>, u: Log<R>, capacity: nat)
    requires Runs(s, run, t, capacity) && Runs(t, more, u, capacity)
    ensures Runs(s, run + more, u, capacity)
    decreases |run|
  {
    if run == [] {
      assert run + more == more;
    } else {
      assert (run + more)[1..] == run[1..] + more;
      RunsCompose(Step(s, run[0], capacity), run[1..], t, more, u, capacity);
    }
  }

  // ----- what has been delivered

  /** The delivered records, in the order of delivery. */
  ghost function Delivered<R>(s: Log<R>): (rs: seq<R>)
    requires forall i :: 0 <= i < |s.delivered| ==> s.delivered[i] < |s.appended|
  {
    seq(|s.delivered|, i requires 0 <= i < |s.delivered| => s.appended[s.delivered[i]])
  }

  lemma AppendDelivers<R>(s: Log<R>, r: R, capacity: nat)
    requires Sound(s, capacity)
    ensures (forall i :: 0 <= i < |s.delivered| ==> s.delivered[i] < |s.appended|)
    ensures Delivered(Append(s, r, capacity)) == Delivered(s)
  {
    assert forall i :: 0 <= i < |s.delivered| ==> s.delivered[i] in s.delivered;
  }

  lemma DeliverDelivers<R>(s: Log<R>, n: nat, capacity: nat)
    requires Sound(s, capacity) && s.head + n <= |s.appended|
    ensures forall i :: 0 <= i < |s.delivered| ==> s.delivered[i] < |s.appended|
    ensures Delivered(Deliver(s, n)) == Delivered(s) + s.appended[s.head..s.head + n]
  {
    assert forall i :: 0 <= i < |s.delivered| ==> s.delivered[i] in s.delivered;
  }
}
