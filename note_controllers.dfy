/** The in-memory notes handlers of src/controllers/noteControllers.js, which the
    notes router wires in: a module-level `notes` array and a `noteId` counter
    changed by `push`, a postfix increment, field assignment on a found note and
    `splice`. `NoteBoard` holds that module state; the clock is a parameter. */
module NoteControllers {
  import opened Js

  datatype Note = Note(id: nat, title: JsValue, content: JsValue, createdAt: string)

  /** What a handler sends: a note, the list, an empty 204 or an `{ error }`. */
  datatype NotesReply =
    | NoteJson(status: nat, note: Note)
    | NoteList(status: nat, notes: seq<Note>)
    | NoContent(status: nat)
    | NotFound(status: nat, error: string)

  const MsgNotFound := "Note not found"

  /** The first index whose note has exactly the id (strict equality), with
      `None` where `findIndex` gives -1. */
  function FindIndex(notes: seq<Note>, id: int): (r: Option<nat>)
    ensures r.Some? ==> r.value < |notes| && notes[r.value].id == id
    ensures r.Some? ==> forall j :: 0 <= j < r.value ==> notes[j].id != id
    ensures r.None? <==> forall j :: 0 <= j < |notes| ==> notes[j].id != id
  {
    if |notes| == 0 then None
    else if notes[0].id == id then Some(0)
    else
      match FindIndex(notes[1..], id)
      case None => None
      case Some(k) => Some(k + 1)
  }

  /** The index of the note a route parameter designates: `Number(param)` and
      then the first note with that id; a parameter that is not a number
      designates nothing. */
  function Lookup(notes: seq<Note>, param: string): (r: Option<nat>)
    ensures r.Some? ==> r.value < |notes| && NumberOf(param) == Some(notes[r.value].id as int)
    ensures r.None? <==> NumberOf(param).None? || forall j :: 0 <= j < |notes| ==> notes[j].id != NumberOf(param).value
  {
    match NumberOf(param)
    case None => None
    case Some(id) => FindIndex(notes, id)
  }

  /** The in-place edit of `updateNotes`: each field is replaced only by a truthy
      value, and the id and timestamp are never touched. */
  function Patch(note: Note, title: JsValue, content: JsValue): Note {
    Note(note.id,
         if Truthy(title) then title else note.title,
         if Truthy(content) then content else note.content,
         note.createdAt)
  }

  /** A patch keeps the note's identity and timestamp, changes nothing when both
      fields are falsy, and applying it twice is applying it once. */
  lemma PatchProperties(note: Note, title: JsValue, content: JsValue)
    ensures Patch(note, title, content).id == note.id
    ensures Patch(note, title, content).createdAt == note.createdAt
    ensures !Truthy(title) && !Truthy(content) ==> Patch(note, title, content) == note
    ensures Patch(Patch(note, title, content), title, content) == Patch(note, title, content)
  {
  }

  /** Ids strictly increase along the list, so they are unique. */
  ghost predicate IdsIncreasing(notes: seq<Note>) {
    forall i, j :: 0 <= i < j < |notes| ==> notes[i].id < notes[j].id
  }

  class NoteBoard {
    var notes: seq<Note>
    var noteId: nat
    /** Every id ever handed out, deleted notes' included. */
    ghost var issued: set<nat>

    ghost predicate Valid()
      reads this
    {
      && noteId >= 1
      && (forall id :: id in issued ==> 1 <= id < noteId)
      && (forall i :: 0 <= i < |notes| ==> notes[i].id in issued)
      && IdsIncreasing(notes)
    }

    /** The module's initial state: no notes, and the counter at 1. */
    constructor ()
      ensures Valid() && notes == [] && noteId == 1 && issued == {}
    {
      notes := [];
      noteId := 1;
      issued := {};
    }

    /** `createNotes`: the note takes the current counter as its id, the counter
        moves on, and the note is appended. The id was never handed out before,
        even to a note since deleted. */
    method CreateNotes(title: JsValue, content: JsValue, now: string) returns (reply: NotesReply)
      requires Valid()
      modifies this
      ensures Valid()
      ensures old(noteId) !in old(issued) && issued == old(issued) + {old(noteId)}
      ensures noteId == old(noteId) + 1
      ensures notes == old(notes) + [Note(old(noteId), title, content, now)]
      ensures reply == NoteJson(201, Note(old(noteId), title, content, now))
    {
      var newNote := Note(noteId, title, content, now);
      issued := issued + {noteId};
      noteId := noteId + 1;
      notes := notes + [newNote];
      reply := NoteJson(201, newNote);
    }

    /** `getNotes`: the whole list, in insertion order. */
    method GetNotes() returns (reply: NotesReply)
      ensures reply == NoteList(200, notes)
    {
      reply := NoteList(200, notes);
    }

    /** `getNotesById`: the note with id `Number(param)`, or 404. */
    method GetNotesById(param: string) returns (reply: NotesReply)
      ensures reply.NoteJson? || reply == NotFound(404, MsgNotFound)
      ensures reply.NoteJson? ==>
        reply.status == 200 && reply.note in notes && NumberOf(param) == Some(reply.note.id as int)
      ensures reply.NoteJson? ==> Lookup(notes, param).Some? && reply.note == notes[Lookup(notes, param).value]
      ensures reply.NotFound? <==>
        NumberOf(param).None? || forall i :: 0 <= i < |notes| ==> notes[i].id != NumberOf(param).value
    {
      var index := Lookup(notes, param);
      if index.None? {
        return NotFound(404, MsgNotFound);
      }
      reply := NoteJson(200, notes[index.value]);
    }

    /** `updateNotes`: patch the designated note in place with the truthy fields
        of the body; every other note, and the counter, stay as they were. */
    method UpdateNotes(param: string, title: JsValue, content: JsValue) returns (reply: NotesReply)
      requires Valid()
      modifies this
      ensures Valid()
      ensures Lookup(old(notes), param).None? ==> reply == NotFound(404, MsgNotFound) && unchanged(this)
      ensures Lookup(old(notes), param).Some? ==>
        var i := Lookup(old(notes), param).value;
        && notes == old(notes)[i := Patch(old(notes)[i], title, content)]
        && noteId == old(noteId) && issued == old(issued)
        && reply == NoteJson(200, notes[i])
    {
      var index := Lookup(notes, param);
      if index.None? {
        return NotFound(404, MsgNotFound);
      }
      var i := index.value;
      notes := notes[i := Patch(notes[i], title, content)];
      reply := NoteJson(200, notes[i]);
    }

    /** `deleteNotes`: splice out exactly the designated note; the others keep
        their order. The counter is not touched, so no id is ever reused. */
    method DeleteNotes(param: string) returns (reply: NotesReply)
      requires Valid()
      modifies this
      ensures Valid()
      ensures Lookup(old(notes), param).None? ==> reply == NotFound(404, MsgNotFound) && unchanged(this)
      ensures Lookup(old(notes), param).Some? ==>
        var i := Lookup(old(notes), param).value;
        && notes == old(notes)[..i] + old(notes)[i + 1..]
        && |notes| == |old(notes)| - 1
        && noteId == old(noteId) && issued == old(issued)
        && reply == NoContent(204)
        && forall j :: 0 <= j < |notes| ==> notes[j].id != old(notes)[i].id
    {
      var index := Lookup(notes, param);
      if index.None? {
        return NotFound(404, MsgNotFound);
      }
      var i := index.value;
      notes := notes[..i] + notes[i + 1..];
      reply := NoContent(204);
    }
  }

  /** In a list with unique ids, the route `/notes/<id>` designates the note with
      that id. */
  lemma {:induction false} LookupDecimal(notes: seq<Note>, k: nat)
    requires IdsIncreasing(notes) && k < |notes|
    ensures Lookup(notes, DecimalString(notes[k].id)) == Some(k)
  {
    NumberOfDecimal(notes[k].id);
  }

  /** A parameter that is not a number designates no note. */
  lemma NonNumericMatchesNothing(notes: seq<Note>, param: string)
    requires NumberOf(param).None?
    ensures Lookup(notes, param).None?
  {
  }
}
