/** The queue of outstanding requests by which `libpoolprotocols/stratum/EthStratumClient.cpp` times the
    pool's replies. Times are milliseconds of a steady clock. */
module StratumPleas {

  import opened Arith

  predicate Sorted(s: seq<nat>) {
    forall i, j | 0 <= i < j < |s| :: s[i] <= s[j]
  }

  class ResponsePleas {
    var count: int
    var older: nat            // m_response_plea_older
    var times: seq<nat>       // m_response_plea_times
    ghost var clock: nat      // the last time read
    ghost var answered: Option<nat>   // the request answered last, since nothing was outstanding

    /** `older` is when the oldest unanswered request was sent, or when the one answered before it was. */
    ghost predicate Valid()
      reads this
    {
      && count == |times| && Sorted(times) && older <= clock
      && (forall i | 0 <= i < |times| :: times[i] <= clock)
      && (times != [] ==> older == if answered.Some? then answered.value else times[0])
      && (times != [] && answered.Some? ==> answered.value <= times[0])
    }

    constructor (now: nat)
      ensures Valid() && times == [] && clock == now
    {
      count, older, times, clock, answered := 0, now, [], now, None;
    }

    /** `enqueue_response_plea` */
    method Enqueue(now: nat)
      requires Valid() && now >= clock
      modifies this
      ensures Valid() && clock == now && times == old(times) + [now]
      ensures old(times) == [] ==> older == now
    {
      if count == 0 {
        older := now;
        answered := None;
      }
      count := count + 1;
      times := times + [now];
      clock := now;
    }

    /** `dequeue_response_plea`, also for a reply nobody asked for. The delay reported is never less than
        the time the request answered has waited. */
    method Dequeue(now: nat) returns (delay: nat)
      requires Valid() && now >= clock
      modifies this
      ensures Valid() && clock == now
      ensures old(times) == [] ==> delay == 0 && times == [] && older == old(older)
      ensures old(times) != [] ==>
                times == old(times)[1..] && older == old(times)[0] && delay == now - old(older) >= now - old(times)[0]
    {
      var d := now - older;
      clock := now;
      if |times| > 0 {
        answered := Some(times[0]);
        older := times[0];
        times := times[1..];
      }
      if count > 0 {
        count := count - 1;
        return d;
      }
      return 0;
    }

    /** `clear_response_pleas` */
    method Clear(now: nat)
      requires Valid() && now >= clock
      modifies this
      ensures Valid() && clock == now && times == [] && older == now
    {
      count := 0;
      while |times| > 0
        modifies this`times
        decreases |times|
      {
        times := times[1..];
      }
      older := now;
      clock := now;
      answered := None;
    }

    /** The check of `workloop_timer_elapsed` while connected: it never comes late, for it fires whenever the
        oldest unanswered request has waited the full timeout; and it comes early exactly when a request
        answered before, and sent earlier, is the one that has. */
    method ResponseOverdue(now: nat, timeout: nat) returns (fires: bool)
      requires Valid() && now >= clock
      ensures times != [] && now - times[0] >= timeout * 1000 ==> fires
      ensures times == [] ==> !fires
      ensures times != [] && now - times[0] < timeout * 1000 ==>
                (fires <==> answered.Some? && now - answered.value >= timeout * 1000)
    {
      fires := count > 0 && now - older >= timeout * 1000;
    }

    /** The check while connecting or disconnecting has its comparison the other way round: it gives up an
        attempt that is still within the timeout, and never one that is beyond it. Time is counted from the
        oldest unanswered request or, if one was answered while it waited, as can be when a TLS connection is
        shut down, from that one. */
    method PendingGivesUp(now: nat, timeout: nat) returns (closes: bool)
      requires Valid() && now >= clock
      ensures closes <==> times != [] &&
                          now - (if answered.Some? then answered.value else times[0]) <= timeout * 1000
      ensures times != [] && now - times[0] > timeout * 1000 ==> !closes
    {
      closes := count > 0 && timeout * 1000 >= now - older;
    }
  }

  datatype Op = Enqueue(now: nat) | Dequeue(now: nat) | Clear(now: nat)

  /** Over any sequence of operations, at times that do not go backwards: the count is the queue's length,
      the queue is sorted, and the monitored time is no later than the oldest unanswered request. */
  method RunPleas(p: ResponsePleas, ops: seq<Op>)
    requires p.Valid() && forall i | 0 <= i < |ops| :: ops[i].now >= p.clock
    requires forall i, j | 0 <= i < j < |ops| :: ops[i].now <= ops[j].now
    modifies p
    ensures p.Valid() && p.count == |p.times| && Sorted(p.times) && (p.times != [] ==> p.older <= p.times[0])
  {
    var i := 0;
    while i < |ops|
      invariant 0 <= i <= |ops| && p.Valid()
      invariant forall j | i <= j < |ops| :: ops[j].now >= p.clock
    {
      match ops[i] {
        case Enqueue(now) => p.Enqueue(now);
        case Dequeue(now) => var d := p.Dequeue(now);
        case Clear(now) => p.Clear(now);
      }
      i := i + 1;
    }
  }
}
