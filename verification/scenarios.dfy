/**
 * Concrete runs of the repository: trimming a padded title, the "Untitled"
 * default, a content-only update, and the newest-first listing order after
 * three creates and an update.
 */
module Scenarios {
  import opened Wrappers
  import opened PyStr
  import opened Models
  import opened Listing
  import opened Storage

  /** `"  hello  "` is stored as `"hello"`. */
  lemma TrimExample()
    ensures Strip("  hello  ") == "hello"
  {
    StripSurrounded("  ", "hello", "  ");
    assert "  " + "hello" + "  " == "  hello  ";
  }

  /** Creating with no title and no content, or only blanks, gives the title "Untitled". */
  lemma UntitledExample()
    ensures CreateFields(CreatePayload(Absent, Absent)) == (Untitled, "")
    ensures CreateFields(CreatePayload(Text("   "), Absent)) == (Untitled, "")
  {
    StripSurrounded("   ", "", "");
    assert "   " + "" + "" == "   ";
  }

  /**
   * A note created from any payload and then updated with only a content at
   * a later time keeps its title, gets the trimmed new content, and has a
   * later `updated_at`.
   */
  lemma PartialUpdateExample(p: CreatePayload, t: nat, c: string, later: nat)
    requires t < later
    ensures var s := Create(Init(), p, t, t).repo;
      var n := Update(s, 1, UpdatePayload(Absent, Text(c), None), later).repo.notes.entries[1];
      && n.title == CreateFields(p).0
      && n.content == Strip(c)
      && n.updatedAt > s.notes.entries[1].updatedAt
  {
  }

  /** The repository after creating three notes at times `t1`, `t2`, `t3`. */
  function ThreeCreated(pa: CreatePayload, pb: CreatePayload, pc: CreatePayload, t1: nat, t2: nat, t3: nat): Repo {
    var s1 := Create(Init(), pa, t1, t1).repo;
    var s2 := Create(s1, pb, t2, t2).repo;
    Create(s2, pc, t3, t3).repo
  }

  /** ... and then touching the first one, with an empty update, at `t4`. */
  function ThreeNotes(pa: CreatePayload, pb: CreatePayload, pc: CreatePayload, t1: nat, t2: nat, t3: nat, t4: nat): Repo {
    Update(ThreeCreated(pa, pb, pc, t1, t2, t3), 1, UpdatePayload(Absent, Absent, None), t4).repo
  }

  lemma ThreeCreatedEntries(pa: CreatePayload, pb: CreatePayload, pc: CreatePayload, t1: nat, t2: nat, t3: nat)
    ensures ThreeCreated(pa, pb, pc, t1, t2, t3).notes.entries
      == map[1 := NewNote(1, pa, t1, t1), 2 := NewNote(2, pb, t2, t2), 3 := NewNote(3, pc, t3, t3)]
  {
    var s1 := Create(Init(), pa, t1, t1).repo;
    assert s1.nextId == 2 && s1.notes.entries == map[1 := NewNote(1, pa, t1, t1)];
    var s2 := Create(s1, pb, t2, t2).repo;
    assert s2.nextId == 3;
  }

  lemma ThreeCreatedValid(pa: CreatePayload, pb: CreatePayload, pc: CreatePayload, t1: nat, t2: nat, t3: nat)
    ensures Valid(ThreeCreated(pa, pb, pc, t1, t2, t3))
  {
    var s0 := Init();
    var s1 := Create(s0, pa, t1, t1).repo;
    CreateKeepsValid(s0, pa, t1, t1);
    var s2 := Create(s1, pb, t2, t2).repo;
    CreateKeepsValid(s1, pb, t2, t2);
    CreateKeepsValid(s2, pc, t3, t3);
  }

  /** Replacing the first of three entries keeps the other two. */
  lemma ReplaceFirst(e: map<int, Note>, a: Note, b: Note, c: Note, m: Note)
    requires e == map[1 := a, 2 := b, 3 := c]
    ensures e[1 := m] == map[1 := m, 2 := b, 3 := c]
  {
  }

  /** An empty update of the first of three entries only moves its `updated_at`. */
  lemma TouchFirst(s: Repo, a: Note, b: Note, c: Note, t: nat)
    requires s.notes.entries == map[1 := a, 2 := b, 3 := c]
    ensures Update(s, 1, UpdatePayload(Absent, Absent, None), t).repo.notes.entries
      == map[1 := a.(updatedAt := t), 2 := b, 3 := c]
  {
    var m := Merge(a, UpdatePayload(Absent, Absent, None), t);
    assert m == a.(updatedAt := t);
    ReplaceFirst(s.notes.entries, a, b, c, m);
  }

  lemma ThreeNotesEntries(pa: CreatePayload, pb: CreatePayload, pc: CreatePayload, t1: nat, t2: nat, t3: nat, t4: nat)
    ensures ThreeNotes(pa, pb, pc, t1, t2, t3, t4).notes.entries
      == map[1 := NewNote(1, pa, t1, t1).(updatedAt := t4), 2 := NewNote(2, pb, t2, t2), 3 := NewNote(3, pc, t3, t3)]
  {
    ThreeCreatedEntries(pa, pb, pc, t1, t2, t3);
    TouchFirst(ThreeCreated(pa, pb, pc, t1, t2, t3), NewNote(1, pa, t1, t1), NewNote(2, pb, t2, t2), NewNote(3, pc, t3, t3), t4);
  }

  /** Three entries whose update times are all at most `t` leave the clock at `t` not behind. */
  lemma ThreeNotBehind(s: Repo, a: Note, b: Note, c: Note, t: nat)
    requires s.notes.entries == map[1 := a, 2 := b, 3 := c]
    requires a.updatedAt <= t && b.updatedAt <= t && c.updatedAt <= t
    ensures ClockNotBehind(s, t)
  {
  }

  lemma ThreeNotesValid(pa: CreatePayload, pb: CreatePayload, pc: CreatePayload, t1: nat, t2: nat, t3: nat, t4: nat)
    requires t1 < t2 < t3 < t4
    ensures Valid(ThreeNotes(pa, pb, pc, t1, t2, t3, t4))
  {
    var s3 := ThreeCreated(pa, pb, pc, t1, t2, t3);
    ThreeCreatedValid(pa, pb, pc, t1, t2, t3);
    ThreeCreatedEntries(pa, pb, pc, t1, t2, t3);
    ThreeNotBehind(s3, NewNote(1, pa, t1, t1), NewNote(2, pb, t2, t2), NewNote(3, pc, t3, t3), t4);
  }

  /** In a valid repository each of the three entries carries its own key as id. */
  lemma ThreeIds(s: Repo, a: Note, b: Note, c: Note)
    requires KeysAreIds(s)
    requires s.notes.entries == map[1 := a, 2 := b, 3 := c]
    ensures a.id == 1 && b.id == 2 && c.id == 3
  {
    assert 1 in s.notes.entries && 2 in s.notes.entries && 3 in s.notes.entries;
  }

  /** A note is stored under its id in the three-entry map exactly when it is one of the three. */
  lemma StoredAmongThree(e: map<int, Note>, a: Note, b: Note, c: Note, n: Note)
    requires e == map[1 := a, 2 := b, 3 := c]
    requires a.id == 1 && b.id == 2 && c.id == 3
    ensures (n.id in e && e[n.id] == n) <==> (n == a || n == b || n == c)
  {
  }

  /** The unfiltered listing of a valid repository holding three unarchived notes has exactly them. */
  lemma ListedThree(s: Repo, a: Note, b: Note, c: Note)
    requires Valid(s)
    requires s.notes.entries == map[1 := a, 2 := b, 3 := c]
    requires !a.archived && !b.archived && !c.archived
    ensures forall n :: n in Select(s, None, false) <==> n == a || n == b || n == c
  {
    ThreeIds(s, a, b, c);
    var l := Select(s, None, false);
    forall n ensures n in l <==> n == a || n == b || n == c {
      StoredAmongThree(s.notes.entries, a, b, c, n);
    }
  }

  /**
   * A valid repository holding three unarchived notes whose update times
   * order them `a`, `c`, `b` lists exactly them, in that order.
   */
  lemma ListThree(s: Repo, a: Note, b: Note, c: Note)
    requires Valid(s)
    requires s.notes.entries == map[1 := a, 2 := b, 3 := c]
    requires !a.archived && !b.archived && !c.archived
    requires Before(a, c) && Before(c, b)
    ensures Select(s, None, false) == [a, c, b]
  {
    ListedThree(s, a, b, c);
    var expected := [a, c, b];
    assert NewestFirst(expected) by {
      assert Before(a, b);
    }
    assert forall n :: n in expected <==> n == a || n == b || n == c;
    NewestFirstUnique(Select(s, None, false), expected);
  }

  /** Notes created in order A, B, C and then A updated are listed as A, C, B. */
  lemma NewestFirstExample(pa: CreatePayload, pb: CreatePayload, pc: CreatePayload, t1: nat, t2: nat, t3: nat, t4: nat)
    requires t1 < t2 < t3 < t4
    ensures Valid(ThreeNotes(pa, pb, pc, t1, t2, t3, t4))
    ensures var l := Select(ThreeNotes(pa, pb, pc, t1, t2, t3, t4), None, false);
      |l| == 3 && l[0].id == 1 && l[1].id == 3 && l[2].id == 2
  {
    var s := ThreeNotes(pa, pb, pc, t1, t2, t3, t4);
    var a := NewNote(1, pa, t1, t1).(updatedAt := t4);
    var b := NewNote(2, pb, t2, t2);
    var c := NewNote(3, pc, t3, t3);
    ThreeNotesEntries(pa, pb, pc, t1, t2, t3, t4);
    ThreeNotesValid(pa, pb, pc, t1, t2, t3, t4);
    ListThree(s, a, b, c);
  }
}
