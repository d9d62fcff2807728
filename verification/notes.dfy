/** The note routes (backend/src/routes/notes.ts). Every query is filtered by
    the requester's id, which `requireAuth` put on the request, so a user can
    only list, read, change or delete their own notes. */
module Notes {
  import opened Wrappers
  import opened Text
  import Users

  type NoteId = nat

  datatype Note = Note(owner: Users.UserId, title: string, content: string)

  /** The note collection and the next fresh id. */
  datatype Store = Store(notes: map<NoteId, Note>, nextId: NoteId)

  /** Every id in use is below the counter, so a new note never reuses one. */
  predicate Valid(s: Store) {
    forall id :: id in s.notes ==> id < s.nextId
  }

  const UntitledTitle: string := "Untitled Note"
  const NotFoundMessage: string := "Note not found"
  const MissingUserMessage: string := "User ID not found in token."

  /** The notes a user owns. */
  function View(s: Store, user: Users.UserId): map<NoteId, Note> {
    map id | id in s.notes && s.notes[id].owner == user :: s.notes[id]
  }

  /** A route's JSON reply. */
  datatype Response =
    | Listed(notes: map<NoteId, Note>)
    | Created(id: NoteId, note: Note)
    | Found(id: NoteId, note: Note)
    | Updated(id: NoteId, note: Note)
    | DeletedOk
    | Failed(status: nat, message: string)

  datatype Outcome = Outcome(store: Store, response: Response)

  /** `GET /notes`: `Note.find({ userId })`, exactly the requester's notes. */
  function List(s: Store, requester: Users.UserId): (o: Outcome)
    ensures o.store == s && o.response.Listed?
    ensures forall id :: id in o.response.notes <==> id in s.notes && s.notes[id].owner == requester
    ensures forall id :: id in o.response.notes ==> o.response.notes[id] == s.notes[id]
  {
    Outcome(s, Listed(View(s, requester)))
  }

  /** `POST /notes`: without a requester id, 400; otherwise a fresh note
      owned by the requester, titled "Untitled Note" when the title is falsy
      and with empty content when the content is falsy. */
  function Create(s: Store, requester: Option<Users.UserId>, title: Option<string>, content: Option<string>): (o: Outcome)
    requires Valid(s)
    ensures Valid(o.store)
    ensures requester.None? ==> o == Outcome(s, Failed(400, MissingUserMessage))
    ensures requester.Some? ==>
              && o.response.Created?
              && var id := o.response.id;
                 var note := o.response.note;
                 && id !in s.notes
                 && o.store.notes == s.notes[id := note]
                 && note.owner == requester.value
                 && note.title == (if IsTruthy(title) then title.value else UntitledTitle)
                 && note.content == (if IsTruthy(content) then content.value else "")
  {
    match requester
    case None => Outcome(s, Failed(400, MissingUserMessage))
    case Some(user) =>
      var note := Note(user, if IsTruthy(title) then title.value else UntitledTitle,
                       if IsTruthy(content) then content.value else "");
      Outcome(Store(s.notes[s.nextId := note], s.nextId + 1), Created(s.nextId, note))
  }

  /** The note `id` exists and belongs to `requester`: the filter
      `{ _id: id, userId }` every single-note route uses. */
  predicate Owns(s: Store, requester: Users.UserId, id: NoteId) {
    id in s.notes && s.notes[id].owner == requester
  }

  /** `GET /notes/:id`: the note when the requester owns it, otherwise the
      same 404 whether the note is missing or someone else's. */
  function Get(s: Store, requester: Users.UserId, id: NoteId): (o: Outcome)
    ensures o.store == s
    ensures Owns(s, requester, id) ==> o.response == Found(id, s.notes[id])
    ensures !Owns(s, requester, id) ==> o.response == Failed(404, NotFoundMessage)
  {
    if Owns(s, requester, id) then Outcome(s, Found(id, s.notes[id]))
    else Outcome(s, Failed(404, NotFoundMessage))
  }

  /** `PUT /notes/:id { title, content }`: `findOneAndUpdate` on the owned
      note, returning the updated document. A field absent from the body is
      left as it was; every other note is unchanged; otherwise 404. */
  function Update(s: Store, requester: Users.UserId, id: NoteId, title: Option<string>, content: Option<string>): (o: Outcome)
    requires Valid(s)
    ensures Valid(o.store) && o.store.nextId == s.nextId
    ensures !Owns(s, requester, id) ==> o == Outcome(s, Failed(404, NotFoundMessage))
    ensures Owns(s, requester, id) ==>
              && o.store.notes.Keys == s.notes.Keys
              && o.response == Updated(id, o.store.notes[id])
              && o.store.notes[id].owner == requester
              && o.store.notes[id].title == title.GetOr(s.notes[id].title)
              && o.store.notes[id].content == content.GetOr(s.notes[id].content)
    ensures forall other :: other in s.notes && other != id ==> o.store.notes[other] == s.notes[other]
  {
    if !Owns(s, requester, id) then Outcome(s, Failed(404, NotFoundMessage))
    else
      var prev := s.notes[id];
      var note := prev.(title := title.GetOr(prev.title), content := content.GetOr(prev.content));
      Outcome(s.(notes := s.notes[id := note]), Updated(id, note))
  }

  /** `Note.deleteOne({ _id: id, userId })`: removes the note if the requester
      owns it, and reports how many documents went (0 or 1). */
  function DeleteOne(s: Store, requester: Users.UserId, id: NoteId): (r: (Store, nat))
    ensures r.1 <= 1
    ensures r.1 == 1 <==> Owns(s, requester, id)
    ensures r.0.nextId == s.nextId
    ensures r.0.notes.Keys == s.notes.Keys - (if r.1 == 1 then {id} else {})
    ensures forall other :: other in r.0.notes ==> r.0.notes[other] == s.notes[other]
  {
    if Owns(s, requester, id) then (s.(notes := s.notes - {id}), 1) else (s, 0)
  }

  /** `DELETE /notes/:id`: a deleted count of 0 gives 404, otherwise
      `{ ok: true }`. */
  function Delete(s: Store, requester: Users.UserId, id: NoteId): (o: Outcome)
    requires Valid(s)
    ensures Valid(o.store)
    ensures !Owns(s, requester, id) ==> o == Outcome(s, Failed(404, NotFoundMessage))
    ensures Owns(s, requester, id) ==> o.response == DeletedOk && o.store.notes == s.notes - {id}
  {
    var (s', count) := DeleteOne(s, requester, id);
    if count == 0 then Outcome(s', Failed(404, NotFoundMessage)) else Outcome(s', DeletedOk)
  }

  // ---------------------------------------------------------------------------
  // Isolation between users
  // ---------------------------------------------------------------------------

  /** A request to the note routes, as made by an authenticated user. */
  datatype Request =
    | ListRequest
    | CreateRequest(title: Option<string>, content: Option<string>)
    | GetRequest(id: NoteId)
    | UpdateRequest(id: NoteId, title: Option<string>, content: Option<string>)
    | DeleteRequest(id: NoteId)

  function Handle(s: Store, requester: Users.UserId, r: Request): (o: Outcome)
    requires Valid(s)
    ensures Valid(o.store)
  {
    match r
    case ListRequest => List(s, requester)
    case CreateRequest(title, content) => Create(s, Some(requester), title, content)
    case GetRequest(id) => Get(s, requester, id)
    case UpdateRequest(id, title, content) => Update(s, requester, id, title, content)
    case DeleteRequest(id) => Delete(s, requester, id)
  }

  /** Every note a response carries belongs to the requester. */
  predicate OnlyOwnNotes(resp: Response, requester: Users.UserId) {
    match resp
    case Listed(notes) => forall id :: id in notes ==> notes[id].owner == requester
    case Created(_, note) => note.owner == requester
    case Found(_, note) => note.owner == requester
    case Updated(_, note) => note.owner == requester
    case _ => true
  }

  /** No request observes or changes another user's notes: the reply only
      carries the requester's notes, and every other user's view is exactly
      as it was. */
  lemma NoCrossUserEffect(s: Store, requester: Users.UserId, r: Request, other: Users.UserId)
    requires Valid(s) && other != requester
    ensures OnlyOwnNotes(Handle(s, requester, r).response, requester)
    ensures View(Handle(s, requester, r).store, other) == View(s, other)
  {
    var s' := Handle(s, requester, r).store;
    match r
    case CreateRequest(title, content) =>
      assert s.nextId !in s.notes;
      assert View(s', other) == View(s, other);
    case UpdateRequest(id, title, content) =>
      assert View(s', other) == View(s, other);
    case DeleteRequest(id) =>
      assert View(s', other) == View(s, other);
    case _ =>
  }

  /** Serve requests `(user, request)` in order. */
  function Run(s: Store, rs: seq<(Users.UserId, Request)>): (s': Store)
    requires Valid(s)
    ensures Valid(s')
    decreases |rs|
  {
    if |rs| == 0 then s else Run(Handle(s, rs[0].0, rs[0].1).store, rs[1..])
  }

  /** However many requests other users make, a user's notes stay exactly as
      they were. */
  lemma {:induction false} OthersNeverTouchMyNotes(s: Store, rs: seq<(Users.UserId, Request)>, me: Users.UserId)
    requires Valid(s)
    requires forall i :: 0 <= i < |rs| ==> rs[i].0 != me
    ensures View(Run(s, rs), me) == View(s, me)
    decreases |rs|
  {
    if |rs| > 0 {
      NoCrossUserEffect(s, rs[0].0, rs[0].1, me);
      OthersNeverTouchMyNotes(Handle(s, rs[0].0, rs[0].1).store, rs[1..], me);
    }
  }
}
