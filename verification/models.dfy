/**
 * The `Note` record: six fields, a constructor from a request payload, and
 * the plain-dictionary snapshot handed back to callers. Timestamps are
 * abstract clock readings (`nat`) rather than ISO-8601 strings.
 */
module Models {
  import opened Wrappers
  import opened PyStr

  datatype Note = Note(
    id: int,
    title: string,
    content: string,
    createdAt: nat,
    updatedAt: nat,
    archived: bool)

  /** The value found under one key of a request payload. */
  datatype Field = Absent | Null | Text(s: string)

  /** What a stored note always satisfies: trimmed text, and creation no later than the last update. */
  predicate WellFormed(n: Note) {
    Stripped(n.title) && Stripped(n.content) && n.createdAt <= n.updatedAt
  }

  /**
   * `str(payload.get(key, ""))`: a missing key reads as the empty string, a
   * JSON null reads as Python's `str(None)`, the text "None".
   */
  function PayloadText(f: Field): (r: string)
    ensures f.Absent? ==> r == ""
    ensures f.Null? ==> r == "None"
    ensures f.Text? ==> r == f.s
  {
    match f
    case Absent => ""
    case Null => "None"
    case Text(s) => s
  }

  /**
   * `Note.from_payload(id_, payload)`: both texts are `str(...).strip()` of the
   * payload's value (a null reads as "None"), the id is the given one, the
   * note is not archived, and the two timestamps are the two clock readings
   * taken for `created_at` and then `updated_at`.
   */
  function FromPayload(id: int, title: Field, content: Field, createdNow: nat, updatedNow: nat): (n: Note)
    ensures n.id == id
    ensures !n.archived
    ensures Stripped(n.title) && Stripped(n.content)
    ensures title.Absent? ==> n.title == ""
    ensures content.Absent? ==> n.content == ""
    ensures title.Text? ==> n.title == Strip(title.s)
    ensures content.Text? ==> n.content == Strip(content.s)
    ensures title.Null? ==> n.title == "None"
    ensures content.Null? ==> n.content == "None"
    ensures title.Text? && Stripped(title.s) ==> n.title == title.s
    ensures content.Text? && Stripped(content.s) ==> n.content == content.s
    ensures n.createdAt == createdNow && n.updatedAt == updatedNow
    ensures createdNow <= updatedNow ==> WellFormed(n)
  {
    var t := Strip(PayloadText(title));
    var c := Strip(PayloadText(content));
    StripKeepsStripped("None");
    assert title.Text? && Stripped(title.s) ==> t == title.s by {
      if title.Text? && Stripped(title.s) {
        StripKeepsStripped(title.s);
      }
    }
    assert content.Text? && Stripped(content.s) ==> c == content.s by {
      if content.Text? && Stripped(content.s) {
        StripKeepsStripped(content.s);
      }
    }
    Note(id, t, c, createdNow, updatedNow, false)
  }

  /** A field value of a snapshot dictionary. */
  datatype Value = IntValue(i: int) | StrValue(s: string) | TimeValue(t: nat) | BoolValue(b: bool)

  /** The six keys of a snapshot dictionary. */
  datatype FieldName = IdKey | TitleKey | ContentKey | CreatedAtKey | UpdatedAtKey | ArchivedKey

  /** The dictionary key each field is stored under. */
  function Name(f: FieldName): string {
    match f
    case IdKey => "id"
    case TitleKey => "title"
    case ContentKey => "content"
    case CreatedAtKey => "created_at"
    case UpdatedAtKey => "updated_at"
    case ArchivedKey => "archived"
  }

  /** `asdict(note)`: a dictionary keyed by field name. */
  type Snapshot = map<FieldName, Value>

  const FieldNames: set<FieldName> := {IdKey, TitleKey, ContentKey, CreatedAtKey, UpdatedAtKey, ArchivedKey}

  /** `note.to_dict()`: an independent copy of exactly the six fields, which reads back as the same note. */
  function ToDict(n: Note): (d: Snapshot)
    ensures d.Keys == FieldNames
    ensures OfDict(d) == Some(n)
  {
    map[
      IdKey := IntValue(n.id),
      TitleKey := StrValue(n.title),
      ContentKey := StrValue(n.content),
      CreatedAtKey := TimeValue(n.createdAt),
      UpdatedAtKey := TimeValue(n.updatedAt),
      ArchivedKey := BoolValue(n.archived)]
  }

  /** Reads a snapshot back into a note, or None when a field is missing or of the wrong kind. */
  function OfDict(d: Snapshot): Option<Note> {
    if FieldNames <= d.Keys
       && d[IdKey].IntValue? && d[TitleKey].StrValue? && d[ContentKey].StrValue?
       && d[CreatedAtKey].TimeValue? && d[UpdatedAtKey].TimeValue? && d[ArchivedKey].BoolValue?
    then
      Some(Note(d[IdKey].i, d[TitleKey].s, d[ContentKey].s,
                d[CreatedAtKey].t, d[UpdatedAtKey].t, d[ArchivedKey].b))
    else None
  }

  /** The snapshot's keys, written as `asdict` writes them, are exactly the six field names of `Note`. */
  lemma SnapshotKeyNames(n: Note)
    ensures (set f | f in ToDict(n) :: Name(f)) == {"id", "title", "content", "created_at", "updated_at", "archived"}
  {
    var names := set f | f in ToDict(n) :: Name(f);
    assert Name(IdKey) in names && Name(TitleKey) in names && Name(ContentKey) in names;
    assert Name(CreatedAtKey) in names && Name(UpdatedAtKey) in names && Name(ArchivedKey) in names;
  }

  /** Two notes have the same snapshot exactly when they are the same note. */
  lemma ToDictInjective(a: Note, b: Note)
    ensures ToDict(a) == ToDict(b) <==> a == b
  {
    if ToDict(a) == ToDict(b) {
      assert OfDict(ToDict(a)) == OfDict(ToDict(b));
    }
  }
}
