/**
 * Properties of the repository that relate several operations: what `get`
 * sees after each mutation, that ids are never handed out twice, that
 * `delete` is idempotent in effect, and that search ignores letter case.
 */
module Laws {
  import opened Wrappers
  import opened PyStr
  import PyDict
  import opened Models
  import opened Listing
  import opened Storage

  /** `get` of the new id right after `create` returns what `create` returned. */
  lemma GetAfterCreate(s: Repo, p: CreatePayload, createdNow: nat, updatedNow: nat)
    ensures var r := Create(s, p, createdNow, updatedNow);
      Get(r.repo, s.nextId) == Some(r.out)
  {
    var r := Create(s, p, createdNow, updatedNow);
    var n := NewNote(s.nextId, p, createdNow, updatedNow);
    assert r.out == ToDict(n);
  }

  /** `get` right after a successful `update` returns what `update` returned. */
  lemma GetAfterUpdate(s: Repo, id: int, p: UpdatePayload, now: nat)
    requires id in s.notes.entries
    ensures var r := Update(s, id, p, now);
      Get(r.repo, id) == r.out
  {
    var r := Update(s, id, p, now);
    assert r.out == Some(ToDict(Merge(s.notes.entries[id], p, now)));
  }

  /** After `delete(id)`, `get(id)` is None and a second `delete(id)` returns false and changes nothing. */
  lemma DeleteThenGet(s: Repo, id: int)
    ensures var r := Delete(s, id);
      && Get(r.repo, id) == None
      && !Delete(r.repo, id).out
      && Delete(r.repo, id).repo == r.repo
  {
    var r := Delete(s, id);
    WithoutAbsent(r.repo.notes.order, id);
  }

  /** Removing a key that is not in the order leaves the order as it is. */
  lemma {:induction false} WithoutAbsent(ks: seq<int>, k: int)
    requires k !in ks
    ensures PyDict.Without(ks, k) == ks
  {
    if |ks| > 0 {
      assert k !in ks[1..];
      WithoutAbsent(ks[1..], k);
      assert ks == [ks[0]] + ks[1..];
    }
  }

  /**
   * Ids are never reused: whenever the stored keys are below the counter,
   * whatever the clock did, the id `create` hands out is larger than every id
   * stored now, and deleting a note first does not change it.
   */
  lemma IdsNeverReused(s: Repo, k: int, p: CreatePayload, createdNow: nat, updatedNow: nat)
    requires KeysBelowCounter(s)
    requires k in s.notes.entries
    ensures var d := Delete(s, k).repo;
      && Create(d, p, createdNow, updatedNow).repo.nextId == s.nextId + 1
      && OfDict(Create(d, p, createdNow, updatedNow).out).value.id == s.nextId
      && s.nextId > k
  {
  }

  /**
   * With a clock that does not run backwards, `update` only moves a note's
   * `updated_at` forward and keeps `created_at <= updated_at`.
   */
  lemma UpdateMovesForward(s: Repo, id: int, p: UpdatePayload, now: nat)
    requires Valid(s) && ClockNotBehind(s, now)
    requires id in s.notes.entries
    ensures var m := Update(s, id, p, now).repo.notes.entries[id];
      && s.notes.entries[id].updatedAt <= m.updatedAt
      && m.createdAt == s.notes.entries[id].createdAt
      && m.createdAt <= m.updatedAt
  {
  }

  /** An update with nothing supplied only refreshes `updated_at`. */
  lemma EmptyUpdateTouchesOnlyTimestamp(n: Note, now: nat)
    ensures Merge(n, UpdatePayload(Absent, Absent, None), now) == n.(updatedAt := now)
    ensures Merge(n, UpdatePayload(Null, Null, None), now) == n.(updatedAt := now)
  {
  }

  /** `update` applies no "Untitled" default: a blank title is stored as the empty string. */
  lemma UpdateMayBlankTitle(n: Note, now: nat)
    ensures Merge(n, UpdatePayload(Text("  "), Absent, None), now).title == ""
  {
    StripSurrounded("  ", "", "");
    assert "  " + "" + "" == "  ";
  }

  /** Updating twice with the same payload at the same time is the same as updating once. */
  lemma MergeIdempotent(n: Note, p: UpdatePayload, now: nat)
    ensures Merge(Merge(n, p, now), p, now) == Merge(n, p, now)
  {
    if p.title.Text? {
      StripIdempotent(p.title.s);
    }
    if p.content.Text? {
      StripIdempotent(p.content.s);
    }
  }

  /**
   * Search ignores letter case: two queries with the same lower-case form
   * list the same notes in the same order.
   */
  lemma SearchIgnoresCase(s: Repo, q1: string, q2: string, includeArchived: bool)
    requires Structural(s)
    requires Lower(q1) == Lower(q2)
    ensures Select(s, Some(q1), includeArchived) == Select(s, Some(q2), includeArchived)
  {
    LowerShape(q1);
    LowerShape(q2);
    assert HasQuery(Some(q1)) == HasQuery(Some(q2));
    var a := Select(s, Some(q1), includeArchived);
    var b := Select(s, Some(q2), includeArchived);
    NewestFirstUnique(a, b);
  }

  /**
   * Without a query and with archived notes included, `list` returns every
   * stored note; with archived notes excluded, exactly the unarchived ones.
   */
  lemma ListAllOrUnarchived(s: Repo)
    requires Structural(s)
    ensures forall n :: n in Select(s, None, true) <==> n.id in s.notes.entries && s.notes.entries[n.id] == n
    ensures forall n :: n in Select(s, None, false) <==> n.id in s.notes.entries && s.notes.entries[n.id] == n && !n.archived
  {
  }

  /** A note just created, unarchived, is listed whenever no query is given, whatever the clock readings. */
  lemma CreatedNoteIsListed(s: Repo, p: CreatePayload, createdNow: nat, updatedNow: nat, includeArchived: bool)
    requires Structural(s)
    ensures var r := Create(s, p, createdNow, updatedNow);
      Structural(r.repo) && NewNote(s.nextId, p, createdNow, updatedNow) in Select(r.repo, None, includeArchived)
  {
    CreateKeepsStructural(s, p, createdNow, updatedNow);
  }
}
