/**
 * Runs of the repository: any sequence of mutating calls, each applied
 * atomically in turn (the lock serialises them). Over a run, validity is
 * kept when the clock never goes backwards, and the ids handed out by the
 * run's `create` calls are strictly increasing and fresh.
 */
module Traces {
  import opened Storage

  /** One mutating call with the clock readings it takes. */
  datatype Call =
    | CreateCall(payload: CreatePayload, createdNow: nat, updatedNow: nat)
    | UpdateCall(id: int, patch: UpdatePayload, now: nat)
    | DeleteCall(id: int)

  function Apply(s: Repo, c: Call): Repo {
    match c
    case CreateCall(p, t0, t1) => Create(s, p, t0, t1).repo
    case UpdateCall(id, p, t) => Update(s, id, p, t).repo
    case DeleteCall(id) => Delete(s, id).repo
  }

  function Run(s: Repo, cs: seq<Call>): Repo
    decreases |cs|
  {
    if |cs| == 0 then s else Run(Apply(s, cs[0]), cs[1..])
  }

  /** `create`'s two readings are in order; `update`'s reading is not behind any stored note. */
  ghost predicate ClockOk(s: Repo, c: Call) {
    match c
    case CreateCall(_, t0, t1) => t0 <= t1
    case UpdateCall(_, _, t) => ClockNotBehind(s, t)
    case DeleteCall(_) => true
  }

  /** The clock never runs backwards along the run. */
  ghost predicate MonotoneClock(s: Repo, cs: seq<Call>)
    decreases |cs|
  {
    |cs| == 0 || (ClockOk(s, cs[0]) && MonotoneClock(Apply(s, cs[0]), cs[1..]))
  }

  /** The ids returned by the run's `create` calls, in call order. */
  function CreatedIds(s: Repo, cs: seq<Call>): seq<int>
    decreases |cs|
  {
    if |cs| == 0 then []
    else if cs[0].CreateCall? then [s.nextId] + CreatedIds(Apply(s, cs[0]), cs[1..])
    else CreatedIds(Apply(s, cs[0]), cs[1..])
  }

  /** Every call keeps the repository valid, given a monotone clock. */
  lemma ApplyKeepsValid(s: Repo, c: Call)
    requires Valid(s) && ClockOk(s, c)
    ensures Valid(Apply(s, c))
  {
    match c
    case CreateCall(p, t0, t1) => CreateKeepsValid(s, p, t0, t1);
    case UpdateCall(id, p, t) =>
    case DeleteCall(id) =>
  }

  /** Every repository reachable from `__init__` under a monotone clock is valid. */
  lemma {:induction false} RunKeepsValid(s: Repo, cs: seq<Call>)
    requires Valid(s) && MonotoneClock(s, cs)
    ensures Valid(Run(s, cs))
    decreases |cs|
  {
    if |cs| > 0 {
      ApplyKeepsValid(s, cs[0]);
      RunKeepsValid(Apply(s, cs[0]), cs[1..]);
    }
  }

  /** Every call keeps the repository structural, whatever the clock does. */
  lemma ApplyKeepsStructural(s: Repo, c: Call)
    requires Structural(s)
    ensures Structural(Apply(s, c))
  {
    match c
    case CreateCall(p, t0, t1) => CreateKeepsStructural(s, p, t0, t1);
    case UpdateCall(id, p, t) =>
    case DeleteCall(id) =>
  }

  /** Every repository reachable from `__init__` is structural, so `list` applies to it, whatever the clock does. */
  lemma {:induction false} RunKeepsStructural(s: Repo, cs: seq<Call>)
    requires Structural(s)
    ensures Structural(Run(s, cs))
    decreases |cs|
  {
    if |cs| > 0 {
      ApplyKeepsStructural(s, cs[0]);
      RunKeepsStructural(Apply(s, cs[0]), cs[1..]);
    }
  }

  /** Only `create` moves the id counter, by one. */
  lemma ApplyCounter(s: Repo, c: Call)
    ensures Apply(s, c).nextId == if c.CreateCall? then s.nextId + 1 else s.nextId
  {
  }

  /** Ids that are strictly increasing and packed into `[lo, hi)`, one per slot. */
  ghost predicate PackedIds(ids: seq<int>, lo: int, hi: int) {
    && (forall i, j :: 0 <= i < j < |ids| ==> ids[i] < ids[j])
    && (forall i :: 0 <= i < |ids| ==> lo <= ids[i] < hi)
    && hi == lo + |ids|
  }

  /** Handing out `lo` before a packed run from `lo + 1` gives a packed run from `lo`. */
  lemma PackedPrepend(lo: int, rest: seq<int>, hi: int)
    requires PackedIds(rest, lo + 1, hi)
    ensures PackedIds([lo] + rest, lo, hi)
  {
    var ids := [lo] + rest;
    assert forall i :: 0 < i < |ids| ==> ids[i] == rest[i - 1];
  }

  /** The ids a run's `create` calls would get from a counter starting at `n`. */
  function IdsFrom(n: int, cs: seq<Call>): seq<int>
    decreases |cs|
  {
    if |cs| == 0 then []
    else if cs[0].CreateCall? then [n] + IdsFrom(n + 1, cs[1..])
    else IdsFrom(n, cs[1..])
  }

  /** The counter's ids packed from `n` onward, one per `create`. */
  lemma {:induction false} IdsFromPacked(n: int, cs: seq<Call>)
    ensures PackedIds(IdsFrom(n, cs), n, n + |IdsFrom(n, cs)|)
    decreases |cs|
  {
    if |cs| > 0 {
      if cs[0].CreateCall? {
        IdsFromPacked(n + 1, cs[1..]);
        PackedPrepend(n, IdsFrom(n + 1, cs[1..]), n + 1 + |IdsFrom(n + 1, cs[1..])|);
      } else {
        IdsFromPacked(n, cs[1..]);
      }
    }
  }

  /** A run's created ids are the counter's ids from its start. */
  lemma {:induction false} CreatedIdsAreCounter(s: Repo, cs: seq<Call>)
    ensures CreatedIds(s, cs) == IdsFrom(s.nextId, cs)
    decreases |cs|
  {
    if |cs| > 0 {
      var t := Apply(s, cs[0]);
      ApplyCounter(s, cs[0]);
      CreatedIdsAreCounter(t, cs[1..]);
      if cs[0].CreateCall? {
        assert CreatedIds(s, cs) == [s.nextId] + CreatedIds(t, cs[1..]);
        assert IdsFrom(s.nextId, cs) == [s.nextId] + IdsFrom(t.nextId, cs[1..]);
      } else {
        assert CreatedIds(s, cs) == CreatedIds(t, cs[1..]);
        assert IdsFrom(s.nextId, cs) == IdsFrom(t.nextId, cs[1..]);
      }
    }
  }

  /** After a run the counter has moved past every id the run handed out. */
  lemma {:induction false} RunCounter(s: Repo, cs: seq<Call>)
    ensures Run(s, cs).nextId == s.nextId + |IdsFrom(s.nextId, cs)|
    decreases |cs|
  {
    if |cs| > 0 {
      var t := Apply(s, cs[0]);
      ApplyCounter(s, cs[0]);
      RunCounter(t, cs[1..]);
      assert Run(s, cs) == Run(t, cs[1..]);
      if cs[0].CreateCall? {
        assert t.nextId == s.nextId + 1;
        assert IdsFrom(s.nextId, cs) == [s.nextId] + IdsFrom(t.nextId, cs[1..]);
      } else {
        assert t.nextId == s.nextId;
        assert IdsFrom(s.nextId, cs) == IdsFrom(t.nextId, cs[1..]);
      }
    }
  }

  /**
   * The ids handed out over a run are strictly increasing, start at the
   * counter's value before the run, lie below its value after it, and there
   * is one per `create`: the counter moves only when a note is created.
   */
  lemma CreatedIdsIncrease(s: Repo, cs: seq<Call>)
    ensures PackedIds(CreatedIds(s, cs), s.nextId, Run(s, cs).nextId)
  {
    CreatedIdsAreCounter(s, cs);
    RunCounter(s, cs);
    IdsFromPacked(s.nextId, cs);
  }

  /**
   * No id is ever handed out twice, even after deletions: an id a run's
   * `create` returns is not stored in the repository the run starts
   * from, and no later `create` of the run returns it again.
   */
  lemma CreatedIdsFresh(s: Repo, cs: seq<Call>)
    requires KeysBelowCounter(s)
    ensures var ids := CreatedIds(s, cs);
      && (forall i :: 0 <= i < |ids| ==> ids[i] !in s.notes.entries)
      && (forall i, j :: 0 <= i < j < |ids| ==> ids[i] != ids[j])
  {
    CreatedIdsIncrease(s, cs);
  }
}
