/**
 * The pieces of `InMemoryNotesRepository.list`: the archive filter, the
 * case-insensitive text filter, and Python's stable `sort(key=updated_at,
 * reverse=True)`, stated over notes whose ids ascend in the input.
 */
module Listing {
  import opened Wrappers
  import opened PyStr
  import opened Models

  /** Ids strictly ascending along the sequence, as in the repository's key order. */
  ghost predicate IdsAscending(ns: seq<Note>) {
    forall i, j :: 0 <= i < j < |ns| ==> ns[i].id < ns[j].id
  }

  /** `a` is listed before `b`: more recently updated, or equally recent and older id. */
  predicate Before(a: Note, b: Note) {
    a.updatedAt > b.updatedAt || (a.updatedAt == b.updatedAt && a.id < b.id)
  }

  /** Newest first, ties by ascending id. */
  ghost predicate NewestFirst(ns: seq<Note>) {
    forall i, j :: 0 <= i < j < |ns| ==> Before(ns[i], ns[j])
  }

  /** The archive filter: kept when archived notes are asked for or the note is not archived. */
  predicate PassesArchive(n: Note, includeArchived: bool) {
    includeArchived || !n.archived
  }

  /** `q` is present and non-empty, so it filters (Python's `if q:`). */
  predicate HasQuery(q: Option<string>) {
    q.Some? && q.value != ""
  }

  /** The text filter: lower(q) occurs in lower(title) or in lower(content). */
  ghost predicate MatchesQuery(n: Note, q: string) {
    IsInfix(Lower(q), Lower(n.title)) || IsInfix(Lower(q), Lower(n.content))
  }

  /** Both filters of `list(q, include_archived)`. */
  ghost predicate Listed(n: Note, q: Option<string>, includeArchived: bool) {
    PassesArchive(n, includeArchived) && (!HasQuery(q) || MatchesQuery(n, q.value))
  }

  /** `[n for n in notes if not n.archived]`. */
  function DropArchived(ns: seq<Note>): (r: seq<Note>)
    ensures forall n :: n in r <==> n in ns && !n.archived
    ensures IdsAscending(ns) ==> IdsAscending(r)
  {
    if |ns| == 0 then []
    else
      var rest := DropArchived(ns[1..]);
      assert forall n :: n in rest ==> n in ns[1..];
      if ns[0].archived then rest
      else
        assert IdsAscending(ns) ==> IdsAscending([ns[0]] + rest) by {
          if IdsAscending(ns) {
            HeadBelowRest(ns, rest);
          }
        }
        [ns[0]] + rest
  }

  /** The text test `list` applies to each note, with the query already lower-cased. */
  predicate Matches(n: Note, qLower: string) {
    Contains(Lower(n.title), qLower) || Contains(Lower(n.content), qLower)
  }

  /** The scanning test agrees with the substring specification. */
  lemma MatchesIsQuery(n: Note, q: string)
    ensures Matches(n, Lower(q)) <==> MatchesQuery(n, q)
  {
  }

  /** `[n for n in notes if qLower in n.title.lower() or qLower in n.content.lower()]`. */
  function KeepMatching(ns: seq<Note>, qLower: string): (r: seq<Note>)
    ensures forall n :: n in r <==> n in ns && Matches(n, qLower)
    ensures IdsAscending(ns) ==> IdsAscending(r)
  {
    if |ns| == 0 then []
    else
      var rest := KeepMatching(ns[1..], qLower);
      assert forall n :: n in rest ==> n in ns[1..];
      if Matches(ns[0], qLower) then
        assert IdsAscending(ns) ==> IdsAscending([ns[0]] + rest) by {
          if IdsAscending(ns) {
            HeadBelowRest(ns, rest);
          }
        }
        [ns[0]] + rest
      else rest
  }

  /** Prepending the head of an id-ascending sequence to a selection of its tail keeps ids ascending. */
  lemma HeadBelowRest(ns: seq<Note>, rest: seq<Note>)
    requires |ns| > 0 && IdsAscending(ns) && IdsAscending(rest)
    requires forall n :: n in rest ==> n in ns[1..]
    ensures IdsAscending([ns[0]] + rest)
  {
    var r := [ns[0]] + rest;
    forall i, j | 0 <= i < j < |r| ensures r[i].id < r[j].id {
      assert r[j] == rest[j - 1] && rest[j - 1] in rest;
      if i == 0 {
        var k :| 0 <= k < |ns[1..]| && ns[1..][k] == r[j];
        assert ns[k + 1] == r[j];
      } else {
        assert r[i] == rest[i - 1];
      }
    }
  }

  /**
   * One step of the stable descending sort: `x` arrives after every note
   * already placed, so it goes behind all notes updated at the same time or later.
   */
  function Insert(x: Note, acc: seq<Note>): (r: seq<Note>)
    ensures multiset(r) == multiset(acc) + multiset{x}
  {
    if |acc| == 0 then [x]
    else if acc[0].updatedAt >= x.updatedAt then
      assert acc == [acc[0]] + acc[1..];
      [acc[0]] + Insert(x, acc[1..])
    else [x] + acc
  }

  /** A note placed before every member of a newest-first sequence can head it. */
  lemma ConsNewestFirst(h: Note, t: seq<Note>)
    requires NewestFirst(t)
    requires forall y :: y in t ==> Before(h, y)
    ensures NewestFirst([h] + t)
  {
    var r := [h] + t;
    forall i, j | 0 <= i < j < |r| ensures Before(r[i], r[j]) {
      assert r[j] == t[j - 1] && t[j - 1] in t;
      if i > 0 {
        assert r[i] == t[i - 1];
      }
    }
  }

  /** The head of a newest-first sequence comes before every later member. */
  lemma HeadBeforeTail(ns: seq<Note>, y: Note)
    requires |ns| > 0 && NewestFirst(ns)
    requires y in ns[1..]
    ensures Before(ns[0], y)
  {
    var k :| 0 <= k < |ns[1..]| && ns[1..][k] == y;
    assert ns[k + 1] == y;
  }

  /** Inserting a note with a larger id than all placed ones keeps the sequence newest first. */
  lemma {:induction false} InsertNewestFirst(x: Note, acc: seq<Note>)
    requires NewestFirst(acc)
    requires forall y :: y in acc ==> y.id < x.id
    ensures NewestFirst(Insert(x, acc))
    decreases |acc|
  {
    if |acc| == 0 {
      assert Insert(x, acc) == [x];
    } else if acc[0].updatedAt >= x.updatedAt {
      var rest := Insert(x, acc[1..]);
      assert NewestFirst(acc[1..]);
      assert forall y :: y in acc[1..] ==> y in acc;
      InsertNewestFirst(x, acc[1..]);
      forall y | y in rest ensures Before(acc[0], y) {
        assert y in multiset(rest);
        if y != x {
          assert y in multiset(acc[1..]);
          HeadBeforeTail(acc, y);
        } else {
          assert acc[0] in acc;
        }
      }
      ConsNewestFirst(acc[0], rest);
    } else {
      forall y | y in acc ensures Before(x, y) {
        if y != acc[0] {
          assert acc == [acc[0]] + acc[1..];
          HeadBeforeTail(acc, y);
        }
      }
      ConsNewestFirst(x, acc);
    }
  }

  /** Sequences that are permutations of each other have the same members. */
  lemma SameMembers(a: seq<Note>, b: seq<Note>)
    requires multiset(a) == multiset(b)
    ensures forall n :: n in a <==> n in b
  {
    forall n ensures n in a <==> n in b {
      assert n in a <==> n in multiset(a);
      assert n in b <==> n in multiset(b);
    }
  }

  /** `notes.sort(key=lambda n: n.updated_at, reverse=True)`: stable, so equal keys keep input order. */
  function SortNewestFirst(ns: seq<Note>): (r: seq<Note>)
    ensures multiset(r) == multiset(ns)
    ensures forall n :: n in r <==> n in ns
    ensures IdsAscending(ns) ==> NewestFirst(r)
  {
    if |ns| == 0 then []
    else
      var sorted := SortNewestFirst(ns[..|ns| - 1]);
      SortStep(ns, sorted);
      Insert(ns[|ns| - 1], sorted)
  }

  /** Inserting the last note into the sorted prefix sorts the whole sequence. */
  lemma SortStep(ns: seq<Note>, sorted: seq<Note>)
    requires |ns| > 0
    requires multiset(sorted) == multiset(ns[..|ns| - 1])
    requires IdsAscending(ns[..|ns| - 1]) ==> NewestFirst(sorted)
    ensures multiset(Insert(ns[|ns| - 1], sorted)) == multiset(ns)
    ensures forall n :: n in Insert(ns[|ns| - 1], sorted) <==> n in ns
    ensures IdsAscending(ns) ==> NewestFirst(Insert(ns[|ns| - 1], sorted))
  {
    var init := ns[..|ns| - 1];
    var last := ns[|ns| - 1];
    var r := Insert(last, sorted);
    assert ns == init + [last];
    SameMembers(r, ns);
    if IdsAscending(ns) {
      assert IdsAscending(init);
      forall y | y in sorted ensures y.id < last.id {
        assert y in multiset(init);
        var k :| 0 <= k < |init| && init[k] == y;
        assert ns[k] == y;
      }
      InsertNewestFirst(last, sorted);
    }
  }

  lemma HeadIsMember(ns: seq<Note>)
    requires |ns| > 0
    ensures ns[0] in ns
  {
  }

  /**
   * The listing order is determined by the set of notes listed: two
   * newest-first sequences with the same members are equal.
   */
  lemma {:induction false} NewestFirstUnique(a: seq<Note>, b: seq<Note>)
    requires NewestFirst(a) && NewestFirst(b)
    requires forall n :: n in a <==> n in b
    ensures a == b
    decreases |a|
  {
    if |a| == 0 {
      if |b| > 0 {
        HeadIsMember(b);
        assert false;
      }
    } else {
      assert a[0] in b;
      assert |b| > 0;
      assert a[0] == b[0] by {
        assert b[0] in b;
      }
      forall n ensures n in a[1..] <==> n in b[1..] {
        if n in a[1..] {
          var k :| 0 <= k < |a[1..]| && a[1..][k] == n;
          assert Before(a[0], a[k + 1]);
          assert n in b && n != b[0];
          var m :| 0 <= m < |b| && b[m] == n;
          assert b[1..][m - 1] == n;
        }
        if n in b[1..] {
          var k :| 0 <= k < |b[1..]| && b[1..][k] == n;
          assert Before(b[0], b[k + 1]);
          assert n in a && n != a[0];
          var m :| 0 <= m < |a| && a[m] == n;
          assert a[1..][m - 1] == n;
        }
      }
      assert NewestFirst(a[1..]) && NewestFirst(b[1..]);
      NewestFirstUnique(a[1..], b[1..]);
      assert a == [a[0]] + a[1..] && b == [b[0]] + b[1..];
    }
  }
}
