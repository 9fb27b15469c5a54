/**
 * `InMemoryNotesRepository`: a dictionary from id to note plus the next id
 * to hand out. Every public operation runs under one lock, so each is one
 * atomic transition from a repository value to a repository value and a
 * result. `get` and `list` change nothing and return only their result.
 */
module Storage {
  import opened Wrappers
  import opened PyStr
  import opened PyDict
  import opened Models
  import opened Listing

  datatype Repo = Repo(notes: IntDict<Note>, nextId: int)

  /** The request body of `create`: `title` and `content`, each absent, null or text. */
  datatype CreatePayload = CreatePayload(title: Field, content: Field)

  /** The request body of `update`; a missing or null `archived` is `None`. */
  datatype UpdatePayload = UpdatePayload(title: Field, content: Field, archived: Option<bool>)

  /** The repository after an operation, and what the operation returned. */
  datatype Step<R> = Step(repo: Repo, out: R)

  const Untitled: string := "Untitled"

  lemma UntitledStripped()
    ensures Stripped(Untitled)
  {
  }

  /**
   * What every repository reachable from `Init` satisfies whatever the clock
   * does: the dictionary is well formed, each key is its note's id, every id is
   * positive and below `nextId`, and keys were inserted in increasing order.
   */
  ghost predicate Structural(s: Repo) {
    && KeysBelowCounter(s)
    && KeysAreIds(s)
    && Consistent(s.notes)
    && Ascending(s.notes.order)
  }

  /**
   * What every repository reachable from `Init` under a clock that never runs
   * backwards satisfies: it is structural, and every note is trimmed with
   * `created_at <= updated_at`.
   */
  ghost predicate Valid(s: Repo) {
    Structural(s) && AllWellFormed(s)
  }

  ghost predicate KeysBelowCounter(s: Repo) {
    s.nextId >= 1 && forall k :: k in s.notes.entries ==> 1 <= k < s.nextId
  }

  ghost predicate KeysAreIds(s: Repo) {
    forall k :: k in s.notes.entries ==> s.notes.entries[k].id == k
  }

  ghost predicate AllWellFormed(s: Repo) {
    forall k :: k in s.notes.entries ==> WellFormed(s.notes.entries[k])
  }

  /** No note carries a timestamp later than `t`: a clock reading `t` taken now is monotone. */
  ghost predicate ClockNotBehind(s: Repo, t: nat) {
    forall k :: k in s.notes.entries ==> s.notes.entries[k].updatedAt <= t
  }

  /** `__init__`: no notes, and the first id handed out is 1. */
  function Init(): (s: Repo)
    ensures Valid(s)
    ensures s.nextId == 1 && |s.notes.entries| == 0
  {
    Repo(Empty(), 1)
  }

  /** `get(id_)`: the snapshot of the note stored under `id`, or None. */
  function Get(s: Repo, id: int): (r: Option<Snapshot>)
    ensures r.Some? <==> id in s.notes.entries
    ensures r.Some? ==> r.value.Keys == FieldNames && OfDict(r.value) == Some(s.notes.entries[id])
  {
    match PyDict.Get(s.notes, id)
    case Some(n) => Some(ToDict(n))
    case None => None
  }

  // ---------------------------------------------------------------- create

  /** `str(payload.get(key, "")).strip()` when a JSON null is taken to mean "not given". */
  function GivenText(f: Field): string {
    if f.Text? then Strip(f.s) else ""
  }

  /**
   * The title and content `create` computes before taking the lock, as
   * written: a JSON null becomes the text "None". On every payload without a
   * null they are the corrected fields, "Untitled" default included.
   */
  function CreateFieldsAsWritten(p: CreatePayload): (r: (string, string))
    ensures Stripped(r.0) && Stripped(r.1)
    ensures !p.title.Null? && !p.content.Null? ==> r == CreateFields(p)
    ensures p.title.Null? ==> r.0 == "None"
    ensures p.content.Null? ==> r.1 == "None"
    ensures p.content.Null? && !p.title.Null? ==> r.0 == GivenText(p.title)
    ensures p.title.Null? && !p.content.Null? ==> r.1 == GivenText(p.content)
  {
    StripOfNone();
    var title := Strip(PayloadText(p.title));
    var content := Strip(PayloadText(p.content));
    StripOfEmpty();
    UntitledStripped();
    if title == "" && content == "" then (Untitled, content) else (title, content)
  }

  /**
   * The title and content `create` computes, with null treated as absent:
   * both trimmed, and a note with neither title nor content is titled "Untitled".
   */
  function CreateFields(p: CreatePayload): (r: (string, string))
    ensures Stripped(r.0) && Stripped(r.1)
    ensures r.1 == GivenText(p.content)
    ensures GivenText(p.title) == "" && GivenText(p.content) == "" ==> r.0 == Untitled
    ensures GivenText(p.title) != "" || GivenText(p.content) != "" ==> r.0 == GivenText(p.title)
  {
    var title := GivenText(p.title);
    var content := GivenText(p.content);
    UntitledStripped();
    if title == "" && content == "" then (Untitled, content) else (title, content)
  }

  /**
   * A JSON null title, which the request schema admits, is stored as the text
   * "None" by the code as written, where the empty payload it stands for gets "Untitled".
   */
  lemma NullTitleBecomesNone()
    ensures CreateFieldsAsWritten(CreatePayload(Null, Absent)) == ("None", "")
    ensures CreateFields(CreatePayload(Null, Absent)) == (Untitled, "")
    ensures CreateFields(CreatePayload(Null, Absent)) == CreateFields(CreatePayload(Absent, Absent))
  {
    StripOfNone();
    StripOfEmpty();
  }

  lemma StripOfNone()
    ensures Strip("None") == "None"
  {
    StripKeepsStripped("None");
  }

  lemma StripOfEmpty()
    ensures Strip("") == ""
  {
    StripKeepsStripped("");
  }

  /**
   * The note `create` builds with `Note.from_payload(new_id, ...)`: the given
   * id, not archived, the computed title and content (stripping them a second
   * time changes nothing) and the two clock readings.
   */
  function NewNote(id: int, p: CreatePayload, createdNow: nat, updatedNow: nat): (n: Note)
    ensures n.id == id && !n.archived
    ensures n.title == CreateFields(p).0 && n.content == CreateFields(p).1
    ensures n.createdAt == createdNow && n.updatedAt == updatedNow
    ensures createdNow <= updatedNow ==> WellFormed(n)
  {
    var fields := CreateFields(p);
    FromPayload(id, Text(fields.0), Text(fields.1), createdNow, updatedNow)
  }

  /**
   * `create(payload)`: the new note gets the current `nextId` as its id and the
   * counter moves up by one; it is stored under that id and its snapshot is
   * returned; no other key changes.
   */
  function Create(s: Repo, p: CreatePayload, createdNow: nat, updatedNow: nat): (r: Step<Snapshot>)
    ensures r.repo.nextId == s.nextId + 1
    ensures r.repo.notes.entries == s.notes.entries[s.nextId := NewNote(s.nextId, p, createdNow, updatedNow)]
    ensures OfDict(r.out) == Some(NewNote(s.nextId, p, createdNow, updatedNow))
  {
    var note := NewNote(s.nextId, p, createdNow, updatedNow);
    Step(Repo(Put(s.notes, s.nextId, note), s.nextId + 1), ToDict(note))
  }

  /** Every id other than the new one reads the same before and after `create`. */
  lemma CreateLeavesOthers(s: Repo, p: CreatePayload, createdNow: nat, updatedNow: nat, k: int)
    requires k != s.nextId
    ensures Get(Create(s, p, createdNow, updatedNow).repo, k) == Get(s, k)
  {
  }

  /** On a valid repository `create` adds exactly one key, the fresh id. */
  lemma CreateAddsOneKey(s: Repo, p: CreatePayload, createdNow: nat, updatedNow: nat)
    requires KeysBelowCounter(s)
    ensures s.nextId !in s.notes.entries
    ensures Create(s, p, createdNow, updatedNow).repo.notes.entries.Keys == s.notes.entries.Keys + {s.nextId}
  {
  }

  /** Whatever its clock readings, `create` takes a structural repository to a structural one. */
  lemma CreateKeepsStructural(s: Repo, p: CreatePayload, createdNow: nat, updatedNow: nat)
    requires Structural(s)
    ensures Structural(Create(s, p, createdNow, updatedNow).repo)
  {
    var r := Create(s, p, createdNow, updatedNow);
    var n := NewNote(s.nextId, p, createdNow, updatedNow);
    assert r.repo.notes == Put(s.notes, s.nextId, n);
    assert KeysBelowCounter(r.repo) by {
      forall k | k in r.repo.notes.entries ensures 1 <= k < r.repo.nextId {
        if k != s.nextId {
          assert k in s.notes.entries;
        }
      }
    }
    PutKeepsIds(s, s.nextId, n, r.repo);
    AppendLargerKeepsAscending(s.notes.order, s.nextId);
  }

  /** With its two clock readings in order, `create` takes a valid repository to a valid one. */
  lemma CreateKeepsValid(s: Repo, p: CreatePayload, createdNow: nat, updatedNow: nat)
    requires Valid(s)
    requires createdNow <= updatedNow
    ensures Valid(Create(s, p, createdNow, updatedNow).repo)
  {
    var r := Create(s, p, createdNow, updatedNow);
    var n := NewNote(s.nextId, p, createdNow, updatedNow);
    CreateKeepsStructural(s, p, createdNow, updatedNow);
    PutKeepsWellFormed(s, s.nextId, n, r.repo);
  }

  /** Storing a note under its own id keeps every key equal to its note's id. */
  lemma PutKeepsIds(s: Repo, id: int, n: Note, t: Repo)
    requires KeysAreIds(s) && n.id == id
    requires t.notes.entries == s.notes.entries[id := n]
    ensures KeysAreIds(t)
  {
  }

  /** Storing a well-formed note under its own id keeps every note well formed. */
  lemma PutKeepsWellFormed(s: Repo, id: int, n: Note, t: Repo)
    requires AllWellFormed(s) && WellFormed(n)
    requires t.notes.entries == s.notes.entries[id := n]
    ensures AllWellFormed(t)
  {
    forall k | k in t.notes.entries ensures WellFormed(t.notes.entries[k]) {
      if k != id {
        assert t.notes.entries[k] == s.notes.entries[k];
      }
    }
  }

  lemma AppendLargerKeepsAscending(ks: seq<int>, k: int)
    requires Ascending(ks)
    requires forall i :: 0 <= i < |ks| ==> ks[i] < k
    ensures Ascending(ks + [k])
  {
  }

  // ---------------------------------------------------------------- update

  /**
   * The partial merge of `update`: each of title, content and archived that is
   * given and not null overwrites the note's field (text trimmed, no "Untitled"
   * default); the rest are kept; id and `created_at` never change and
   * `updated_at` becomes `now`.
   */
  function Merge(n: Note, p: UpdatePayload, now: nat): (m: Note)
    ensures m.id == n.id && m.createdAt == n.createdAt && m.updatedAt == now
    ensures p.title.Text? ==> m.title == Strip(p.title.s)
    ensures !p.title.Text? ==> m.title == n.title
    ensures p.content.Text? ==> m.content == Strip(p.content.s)
    ensures !p.content.Text? ==> m.content == n.content
    ensures m.archived == p.archived.GetOr(n.archived)
    ensures WellFormed(n) && n.createdAt <= now ==> WellFormed(m)
  {
    var title := if p.title.Text? then Strip(p.title.s) else n.title;
    var content := if p.content.Text? then Strip(p.content.s) else n.content;
    var archived := if p.archived.Some? then p.archived.value else n.archived;
    n.(title := title, content := content, archived := archived, updatedAt := now)
  }

  /**
   * `update(id_, payload)`: an unknown id gives None and the same repository;
   * a known id is merged in place (same position in the dictionary), its new
   * snapshot returned, and nothing else changes.
   */
  function Update(s: Repo, id: int, p: UpdatePayload, now: nat): (r: Step<Option<Snapshot>>)
    ensures id !in s.notes.entries ==> r == Step(s, None)
    ensures id in s.notes.entries ==>
      && r.out.Some?
      && id in r.repo.notes.entries
      && r.repo.notes.entries == s.notes.entries[id := Merge(s.notes.entries[id], p, now)]
      && OfDict(r.out.value) == Some(r.repo.notes.entries[id])
      && r.repo.notes.order == s.notes.order
    ensures r.repo.nextId == s.nextId
    ensures Structural(s) ==> Structural(r.repo)
    ensures Valid(s) && ClockNotBehind(s, now) ==> Valid(r.repo)
  {
    match PyDict.Get(s.notes, id)
    case None => Step(s, None)
    case Some(n) =>
      var m := Merge(n, p, now);
      Step(Repo(Put(s.notes, id, m), s.nextId), Some(ToDict(m)))
  }

  // ---------------------------------------------------------------- delete

  /**
   * `delete(id_)`: true exactly when `id` was stored; afterwards it is not,
   * every other note is as before and the id counter is untouched.
   */
  function Delete(s: Repo, id: int): (r: Step<bool>)
    ensures r.out <==> id in s.notes.entries
    ensures id !in r.repo.notes.entries
    ensures r.repo.notes.entries == s.notes.entries - {id}
    ensures r.repo.nextId == s.nextId
    ensures Structural(s) ==> Structural(r.repo)
    ensures Valid(s) ==> Valid(r.repo)
  {
    var (notes, removed) := Pop(s.notes, id);
    Step(Repo(notes, s.nextId), removed.Some?)
  }

  // ---------------------------------------------------------------- list

  /** The notes in dictionary order, which for a structural repository is ascending id. */
  function StoredNotes(s: Repo): (r: seq<Note>)
    requires Structural(s)
    ensures forall n :: n in r <==> n.id in s.notes.entries && s.notes.entries[n.id] == n
    ensures IdsAscending(r)
  {
    ValuesAreStored(s);
    StoredAreValues(s);
    Values(s.notes)
  }

  /** Every value the dictionary lists is stored under its own id. */
  lemma ValuesAreStored(s: Repo)
    requires Structural(s)
    ensures forall n :: n in Values(s.notes) ==> n.id in s.notes.entries && s.notes.entries[n.id] == n
    ensures IdsAscending(Values(s.notes))
  {
    var r := Values(s.notes);
    forall n | n in r ensures n.id in s.notes.entries && s.notes.entries[n.id] == n {
      var i :| 0 <= i < |r| && r[i] == n;
      assert s.notes.order[i] in s.notes.entries;
    }
    forall i, j | 0 <= i < j < |r| ensures r[i].id < r[j].id {
      assert s.notes.order[i] in s.notes.entries && s.notes.order[j] in s.notes.entries;
    }
  }

  /** Every stored note is among the values the dictionary lists. */
  lemma StoredAreValues(s: Repo)
    requires Structural(s)
    ensures forall n: Note :: n.id in s.notes.entries && s.notes.entries[n.id] == n ==> n in Values(s.notes)
  {
    var r := Values(s.notes);
    forall n: Note | n.id in s.notes.entries && s.notes.entries[n.id] == n ensures n in r {
      var i :| 0 <= i < |s.notes.order| && s.notes.order[i] == n.id;
      assert r[i] == n;
    }
  }

  /**
   * The notes `list(q, include_archived)` returns: exactly the stored notes
   * that pass the archive filter and, for a non-empty query, the
   * case-insensitive text filter, newest `updated_at` first and ties in
   * ascending id.
   */
  function Select(s: Repo, q: Option<string>, includeArchived: bool): (r: seq<Note>)
    requires Structural(s)
    ensures forall n :: n in r <==> n.id in s.notes.entries && s.notes.entries[n.id] == n && Listed(n, q, includeArchived)
    ensures NewestFirst(r)
  {
    var stored := StoredNotes(s);
    var unarchived := if includeArchived then stored else DropArchived(stored);
    assert forall n :: n in unarchived <==> n in stored && PassesArchive(n, includeArchived);
    var matching := if HasQuery(q) then KeepMatching(unarchived, Lower(q.value)) else unarchived;
    assert forall n :: n in matching <==> n in unarchived && (!HasQuery(q) || MatchesQuery(n, q.value)) by {
      forall n | HasQuery(q) {
        MatchesIsQuery(n, q.value);
      }
    }
    SortNewestFirst(matching)
  }

  /** `list(q, include_archived)`: the snapshots of the selected notes, in the same order. */
  function List(s: Repo, q: Option<string>, includeArchived: bool): (r: seq<Snapshot>)
    requires Structural(s)
    ensures var ns := Select(s, q, includeArchived);
      |r| == |ns| && forall i :: 0 <= i < |r| ==> r[i].Keys == FieldNames && OfDict(r[i]) == Some(ns[i])
  {
    Snapshots(Select(s, q, includeArchived))
  }

  /** `[n.to_dict() for n in notes]`. */
  function Snapshots(ns: seq<Note>): (r: seq<Snapshot>)
    ensures |r| == |ns|
    ensures forall i :: 0 <= i < |r| ==> r[i].Keys == FieldNames && OfDict(r[i]) == Some(ns[i])
  {
    seq(|ns|, i requires 0 <= i < |ns| => ToDict(ns[i]))
  }
}
