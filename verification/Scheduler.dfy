/** The due times of the REST polling loop: spacing of polls and absence of starvation. */
module Scheduler {
  /** When `s` is next due, after the first `k` wake-ups. */
  function NextDue(interval: real, wakes: seq<real>, k: nat): real
    requires k <= |wakes|
  {
    if k == 0 then 0.0
    else
      var before := NextDue(interval, wakes, k - 1);
      if before <= wakes[k - 1] then wakes[k - 1] + interval else before
  }

  /** Whether a symbol with this interval is polled at wake-up `k`. */
  predicate Polled(interval: real, wakes: seq<real>, k: nat)
    requires k < |wakes|
  {
    NextDue(interval, wakes, k) <= wakes[k]
  }

  /** `due` holds exactly the symbols that wake-up `k` polls. */
  ghost predicate PolledAt(symbols: seq<string>, interval: map<string, real>, wakes: seq<real>, k: nat,
                           due: seq<string>) {
    && k < |wakes| && (forall s | s in symbols :: s in interval)
    && forall s :: s in due <==> s in symbols && Polled(interval[s], wakes, k)
  }

  /** One pass over the symbols per wake-up: the due ones are polled and rescheduled. */
  method PollLoop(symbols: seq<string>, interval: map<string, real>, wakes: seq<real>) returns (polls: seq<seq<string>>)
    requires forall s | s in symbols :: s in interval
    ensures |polls| == if symbols == [] then 0 else |wakes|
    ensures forall k | 0 <= k < |polls| :: PolledAt(symbols, interval, wakes, k, polls[k])
  {
    polls := [];
    if symbols == [] {
      return;
    }
    var nextDue := map s | s in symbols :: 0.0;
    for k := 0 to |wakes|
      invariant |polls| == k
      invariant forall s | s in symbols :: s in nextDue && nextDue[s] == NextDue(interval[s], wakes, k)
      invariant forall j | 0 <= j < k :: PolledAt(symbols, interval, wakes, j, polls[j])
    {
      var now := wakes[k];
      var due := DueAt(symbols, nextDue, now);
      assert PolledAt(symbols, interval, wakes, k, due);
      hide PolledAt;
      nextDue := Reschedule(nextDue, due, now, interval);
      polls := polls + [due];
    }
  }

  method Reschedule(nextDue: map<string, real>, due: seq<string>, now: real, interval: map<string, real>)
    returns (next: map<string, real>)
    requires forall s | s in due :: s in interval
    ensures forall s | s in nextDue :: s in next && next[s] == (if s in due then now + interval[s] else nextDue[s])
  {
    next := nextDue;
    for i := 0 to |due|
      invariant forall s | s in nextDue ::
                s in next && next[s] == (if s in due[..i] then now + interval[s] else nextDue[s])
    {
      next := next[due[i] := now + interval[due[i]]];
    }
    assert due[..|due|] == due;
  }

  function DueAt(symbols: seq<string>, nextDue: map<string, real>, now: real): (due: seq<string>)
    requires forall s | s in symbols :: s in nextDue
    ensures forall s :: s in due <==> s in symbols && nextDue[s] <= now
  {
    if symbols == [] then []
    else
      assert symbols[0] in symbols && forall s | s in symbols[1..] :: s in symbols;
      (if nextDue[symbols[0]] <= now then [symbols[0]] else []) + DueAt(symbols[1..], nextDue, now)
  }

  ghost predicate Clock(wakes: seq<real>) {
    && (forall i, j | 0 <= i < j < |wakes| :: wakes[i] <= wakes[j])
    && forall i | 0 <= i < |wakes| :: wakes[i] >= 0.0
  }

  /** After a poll the due time stands still until the next one. */
  lemma {:induction false} DueAfter(interval: real, wakes: seq<real>, a: nat, k: nat)
    requires a < k <= |wakes| && Polled(interval, wakes, a)
    requires forall j | a < j < k :: !Polled(interval, wakes, j)
    ensures NextDue(interval, wakes, k) == wakes[a] + interval
  {
    if k > a + 1 {
      DueAfter(interval, wakes, a, k - 1);
      assert !Polled(interval, wakes, k - 1);
    }
  }

  /** Consecutive polls are at least the interval apart, and less than the interval plus the last wake gap. */
  lemma Spacing(interval: real, wakes: seq<real>, a: nat, b: nat)
    requires interval > 0.0 && a < b < |wakes|
    requires Polled(interval, wakes, a) && Polled(interval, wakes, b)
    requires forall j | a < j < b :: !Polled(interval, wakes, j)
    ensures interval <= wakes[b] - wakes[a] < interval + (wakes[b] - wakes[b - 1])
  {
    DueAfter(interval, wakes, a, b);
    if b > a + 1 {
      DueAfter(interval, wakes, a, b - 1);
      assert !Polled(interval, wakes, b - 1);
    }
  }

  /**
   * Every symbol is polled at the first wake-up, and again within its interval plus one gap for as long as the
   * loop runs.
   */
  lemma NoStarvation(interval: real, wakes: seq<real>, gap: real, a: nat, m: nat)
    requires interval > 0.0 && Clock(wakes) && a < m < |wakes| && Polled(interval, wakes, a)
    requires forall j | 0 < j < |wakes| :: wakes[j] - wakes[j - 1] <= gap
    requires wakes[m] >= wakes[a] + interval
    ensures Polled(interval, wakes, 0)
    ensures exists b :: a < b <= m && Polled(interval, wakes, b) && wakes[b] - wakes[a] < interval + gap
  {
    var b := FirstPoll(interval, wakes, a, m);
    Spacing(interval, wakes, a, b);
    assert wakes[b] - wakes[b - 1] <= gap;
  }

  lemma FirstPoll(interval: real, wakes: seq<real>, a: nat, m: nat) returns (b: nat)
    requires a < m < |wakes| && Polled(interval, wakes, a) && wakes[m] >= wakes[a] + interval
    ensures a < b <= m && Polled(interval, wakes, b) && forall j | a < j < b :: !Polled(interval, wakes, j)
  {
    b := a + 1;
    while b < m && !Polled(interval, wakes, b)
      invariant a < b <= m && forall j | a < j < b :: !Polled(interval, wakes, j)
    {
      b := b + 1;
    }
    DueAfter(interval, wakes, a, b);
  }
}
