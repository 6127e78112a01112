/** Allocating and releasing the perf events of one cpu, in place in the policy's array. */
module PerfEvents {
  import opened Basics

  type EventId = nat

  /** The number of events created before the first failure. */
  function Created(results: seq<Option<EventId>>): (n: nat)
    ensures n <= |results|
    ensures forall i :: 0 <= i < n ==> results[i].Some?
    ensures n < |results| ==> results[n] == None
  {
    if results == [] || results[0] == None then 0 else 1 + Created(results[1..])
  }

  /** The array afterwards: all new events, or after a failure at n the first n entries
      null and the others as they were. */
  function AfterAllocation(before: seq<Option<EventId>>, results: seq<Option<EventId>>): seq<Option<EventId>>
    requires |before| == |results|
  {
    var n := Created(results);
    if n == |results| then results
    else seq(|before|, i requires 0 <= i < |before| => if i < n then None else before[i])
  }

  function Values(events: seq<Option<EventId>>): seq<EventId> {
    if events == [] then [] else (if events[0].Some? then [events[0].value] else []) + Values(events[1..])
  }

  function Reverse(s: seq<EventId>): seq<EventId> {
    if s == [] then [] else Reverse(s[1..]) + [s[0]]
  }

  lemma ValuesCons(event: Option<EventId>, events: seq<Option<EventId>>)
    ensures Values([event] + events) == (if event.Some? then [event.value] else []) + Values(events)
  {
    assert ([event] + events)[1..] == events;
  }

  lemma {:induction false} ValuesConcat(a: seq<Option<EventId>>, b: seq<Option<EventId>>)
    ensures Values(a + b) == Values(a) + Values(b)
  {
    if a == [] {
      assert a + b == b;
    } else {
      assert (a + b)[0] == a[0] && (a + b)[1..] == a[1..] + b;
      ValuesConcat(a[1..], b);
    }
  }

  /** Creating event n is the first that fails. */
  predicate FirstFailure(results: seq<Option<EventId>>, n: nat) {
    n < |results| && results[n] == None && forall i :: 0 <= i < n ==> results[i].Some?
  }

  lemma {:induction false} ValuesOfCreated(events: seq<Option<EventId>>)
    requires forall i :: 0 <= i < |events| ==> events[i].Some?
    ensures |Values(events)| == |events| && forall i :: 0 <= i < |events| ==> Values(events)[i] == events[i].value
  {
    if events != [] {
      ValuesOfCreated(events[1..]);
    }
  }

  lemma {:induction false} ReverseAt(s: seq<EventId>)
    ensures |Reverse(s)| == |s| && forall i :: 0 <= i < |s| ==> Reverse(s)[|s| - 1 - i] == s[i]
  {
    if s != [] {
      ReverseAt(s[1..]);
      forall i | 0 <= i < |s| ensures Reverse(s)[|s| - 1 - i] == s[i] {
        if i > 0 {
          assert Reverse(s[1..])[|s| - 2 - (i - 1)] == s[1..][i - 1];
        }
      }
    }
  }

  lemma ReleasedInReverse(results: seq<Option<EventId>>, n: nat)
    requires FirstFailure(results, n)
    ensures var released := Reverse(Values(results[..n]));
            |released| == n && forall i :: 0 <= i < n ==> released[n - 1 - i] == results[i].value
  {
    ValuesOfCreated(results[..n]);
    ReverseAt(Values(results[..n]));
    forall i | 0 <= i < n ensures Reverse(Values(results[..n]))[n - 1 - i] == results[i].value {
      assert Values(results[..n])[i] == results[..n][i].value;
    }
  }

  /** memutil_allocate_perf_counters_for_cpu; results[i] is what creating event i gives.
      On failure every event created so far has been released, last one first. */
  method AllocatePerfCountersForCpu(events: array<Option<EventId>>, results: seq<Option<EventId>>)
    returns (ok: bool, released: seq<EventId>)
    requires events.Length == |results|
    modifies events
    ensures ok <==> Created(results) == |results|
    ensures events[..] == AfterAllocation(old(events[..]), results)
    ensures released == if ok then [] else Reverse(Values(results[..Created(results)]))
    ensures ok <==> forall i :: 0 <= i < |results| ==> results[i].Some?
    ensures ok ==> forall i :: 0 <= i < |results| ==> events[i] == results[i]
    ensures !ok ==>
              exists n: nat :: && FirstFailure(results, n) && |released| == n
                               && (forall i :: 0 <= i < n ==>
                                     events[i] == None && released[n - 1 - i] == results[i].value)
                               && (forall i :: n <= i < events.Length ==> events[i] == old(events[i]))
  {
    ghost var before := events[..];
    var i := 0;
    while i < |results|
      invariant 0 <= i <= |results|
      invariant forall k :: 0 <= k < i ==> results[k].Some?
      invariant forall k :: 0 <= k < events.Length ==> events[k] == if k < i then results[k] else before[k]
    {
      if results[i] == None {
        CreatedUnique(results, i);
        assert events[..i] == results[..i];
        released := Cleanup(events, i);
        assert events[..] == AfterAllocation(before, results);
        ReleasedInReverse(results, i);
        assert FirstFailure(results, i);
        return false, released;
      }
      events[i] := results[i];
      i := i + 1;
    }
    CreatedUnique(results, i);
    assert events[..] == results;
    return true, [];
  }

  /** The cleanup loop: release and forget the first n entries, from the last to the first. */
  method Cleanup(events: array<Option<EventId>>, n: nat) returns (released: seq<EventId>)
    requires n <= events.Length && forall k :: 0 <= k < n ==> events[k].Some?
    modifies events
    ensures forall k :: 0 <= k < events.Length ==> events[k] == if k < n then None else old(events[k])
    ensures released == Reverse(Values(old(events[..n])))
  {
    ghost var before := events[..n];
    released := [];
    var i := n;
    assert before[n..] == [];
    while i > 0
      invariant 0 <= i <= n
      invariant forall k :: 0 <= k < events.Length ==> events[k] == if i <= k < n then None else old(events[k])
      invariant released == Reverse(Values(before[i..]))
    {
      i := i - 1;
      released := released + [events[i].value];
      assert before[i..] == [before[i]] + before[i + 1..];
      ValuesCons(before[i], before[i + 1..]);
      ReverseCons(before[i].value, Values(before[i + 1..]));
      events[i] := None;
    }
    assert before[0..] == before;
  }

  lemma ReverseCons(e: EventId, s: seq<EventId>)
    ensures Reverse([e] + s) == Reverse(s) + [e]
  {
    assert ([e] + s)[1..] == s;
  }

  lemma CreatedUnique(results: seq<Option<EventId>>, n: nat)
    requires n <= |results| && (forall k :: 0 <= k < n ==> results[k].Some?)
    requires n < |results| ==> results[n] == None
    ensures Created(results) == n
  {
  }

  /** memutil_release_perf_events: null entries are skipped, the pointers stay in place. */
  method ReleasePerfEvents(events: array<Option<EventId>>) returns (released: seq<EventId>)
    ensures released == Values(events[..])
  {
    released := [];
    var i := 0;
    while i < events.Length
      invariant 0 <= i <= events.Length && released == Values(events[..i])
    {
      assert events[..i + 1] == events[..i] + [events[i]];
      ValuesConcat(events[..i], [events[i]]);
      ValuesCons(events[i], []);
      assert [events[i]] + [] == [events[i]];
      if events[i].Some? {
        released := released + [events[i].value];
      }
      i := i + 1;
    }
    assert events[..i] == events[..];
  }

  lemma {:induction false} ReverseKeepsElements(s: seq<EventId>)
    ensures multiset(Reverse(s)) == multiset(s)
  {
    if s != [] {
      ReverseKeepsElements(s[1..]);
      assert s == [s[0]] + s[1..];
    }
  }
}
