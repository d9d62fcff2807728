/** The dashboard's pure logic (frontend/src/pages/NotesPage.tsx): masking the
    email for display, the welcome name, and the optimistic note deletion
    that rolls back when the request fails. */
module NotesPage {
  import opened Wrappers
  import opened Text
  import Notes
  import Users
  import opened AuthClient

  // ---------------------------------------------------------------------------
  // maskEmail
  // ---------------------------------------------------------------------------

  /** `"*".repeat(n)`. */
  function Stars(n: nat): (r: string)
    ensures |r| == n && forall i :: 0 <= i < n ==> r[i] == '*'
  {
    seq(n, _ => '*')
  }

  /** The local part as displayed: kept whole up to 2 characters, otherwise
      its first 2 characters followed by one '*' per hidden character. */
  function MaskLocal(local: string): (r: string)
    ensures |r| == |local|
    ensures forall i :: 0 <= i < |r| ==> r[i] == (if i < 2 then local[i] else '*')
  {
    if |local| <= 2 then local else local[..2] + Stars(|local| - 2)
  }

  /** `maskEmail(email)`: with `[local, domain] = email.split("@")`, the
      input itself when either is empty or missing, else the masked local
      part, '@' and `domain`, which stops at a second '@'. */
  function MaskEmail(email: string): (r: string)
    ensures var parts := Split(email, '@');
            parts[0] == "" || |parts| < 2 || parts[1] == "" ==> r == email
    ensures var parts := Split(email, '@');
            parts[0] != "" && |parts| >= 2 && parts[1] != "" ==>
              && |r| == |parts[0]| + 1 + |parts[1]|
              && r[..|parts[0]|] == MaskLocal(parts[0])
              && r[|parts[0]|] == '@'
              && r[|parts[0]| + 1..] == parts[1]
  {
    var parts := Split(email, '@');
    if parts[0] == "" || |parts| < 2 || parts[1] == "" then email
    else MaskLocal(parts[0]) + "@" + parts[1]
  }

  /** With exactly one '@' and both sides non-empty, masking keeps the length
      and the domain, keeps the first 2 characters, and turns every other
      character of the local part into '*'. */
  lemma MaskKeepsShape(email: string)
    requires |Split(email, '@')| == 2
    requires Split(email, '@')[0] != "" && Split(email, '@')[1] != ""
    ensures var local := Split(email, '@')[0];
            var r := MaskEmail(email);
            && |r| == |email|
            && forall i :: 0 <= i < |r| ==> r[i] == (if 2 <= i < |local| then '*' else email[i])
  {
    SecondOfSplit(email, '@');
  }

  /** With a second '@', everything from it onwards is lost: the output is
      shorter than the input and holds a single '@'. */
  lemma MaskDropsAfterSecondAt(email: string)
    requires |Split(email, '@')| > 2
    requires Split(email, '@')[0] != "" && Split(email, '@')[1] != ""
    ensures |MaskEmail(email)| < |email|
    ensures var r := MaskEmail(email);
            var local := Split(email, '@')[0];
            '@' !in r[..|local|] && '@' !in r[|local| + 1..]
  {
    SecondOfSplit(email, '@');
    var local := Split(email, '@')[0];
    assert '@' !in MaskLocal(local) by {
      assert forall i :: 0 <= i < |local| ==> local[i] != '@';
    }
  }

  /** Masking an already masked address changes nothing. */
  lemma MaskIdempotent(email: string)
    ensures MaskEmail(MaskEmail(email)) == MaskEmail(email)
  {
    var parts := Split(email, '@');
    if parts[0] != "" && |parts| >= 2 && parts[1] != "" {
      var m := MaskLocal(parts[0]);
      assert '@' !in m by {
        assert forall i :: 0 <= i < |parts[0]| ==> parts[0][i] != '@';
      }
      SplitJoin([m, parts[1]], '@');
      assert Join([m, parts[1]], '@') == m + "@" + parts[1];
      assert MaskLocal(m) == m;
    }
  }

  // ---------------------------------------------------------------------------
  // Welcome name
  // ---------------------------------------------------------------------------

  /** The user as the page holds it after `/auth/me`; either field may be
      missing. */
  datatype PageUser = PageUser(name: Option<string>, email: Option<string>)

  /** `user?.name || (user?.email ? getNameFromEmail(user.email) : "User")`. */
  function WelcomeName(user: Option<PageUser>): (r: string)
    ensures user.Some? && IsTruthy(user.value.name) ==> r == user.value.name.value
    ensures user.Some? && !IsTruthy(user.value.name) && IsTruthy(user.value.email) ==>
              r == LocalPart(user.value.email.value)
    ensures user.None? || (!IsTruthy(user.value.name) && !IsTruthy(user.value.email)) ==> r == "User"
  {
    if user.Some? && IsTruthy(user.value.name) then user.value.name.value
    else if user.Some? && IsTruthy(user.value.email) then LocalPart(user.value.email.value)
    else "User"
  }

  /** The greeting is empty only for a nameless user whose email starts with
      '@'. */
  lemma WelcomeNameEmptyIff(user: Option<PageUser>)
    ensures WelcomeName(user) == "" <==>
              && user.Some? && !IsTruthy(user.value.name) && IsTruthy(user.value.email)
              && user.value.email.value[0] == '@'
  {
    if user.Some? && !IsTruthy(user.value.name) && IsTruthy(user.value.email) {
      var e := user.value.email.value;
      if e[0] == '@' {
        assert LocalPart(e) <= e;
      }
    }
  }

  // ---------------------------------------------------------------------------
  // Optimistic delete with rollback
  // ---------------------------------------------------------------------------

  /** A note as the dashboard lists it. */
  datatype ListedNote = ListedNote(id: Notes.NoteId, title: string)

  /** `notes.filter((n) => n._id !== id)`. */
  function RemoveById(notes: seq<ListedNote>, id: Notes.NoteId): (r: seq<ListedNote>)
    ensures |r| <= |notes|
    ensures forall i :: 0 <= i < |r| ==> r[i].id != id && r[i] in notes
    ensures forall n :: n in notes && n.id != id ==> n in r
    decreases |notes|
  {
    if |notes| == 0 then []
    else (if notes[0].id == id then [] else [notes[0]]) + RemoveById(notes[1..], id)
  }

  /** Filtering distributes over concatenation, so the remaining notes keep
      their order. */
  lemma {:induction false} RemoveByIdAppend(a: seq<ListedNote>, b: seq<ListedNote>, id: Notes.NoteId)
    ensures RemoveById(a + b, id) == RemoveById(a, id) + RemoveById(b, id)
    decreases |a|
  {
    if |a| == 0 {
      assert a + b == b;
    } else {
      var ab := a + b;
      assert ab[0] == a[0] && ab[1..] == a[1..] + b;
      var head := if a[0].id == id then [] else [a[0]];
      var ra := RemoveById(a[1..], id);
      var rb := RemoveById(b, id);
      calc {
        RemoveById(ab, id);
        head + RemoveById(a[1..] + b, id);
        { RemoveByIdAppend(a[1..], b, id); }
        head + (ra + rb);
        (head + ra) + rb;
      }
    }
  }

  /** Filtering twice is filtering once. */
  lemma {:induction false} RemoveByIdIdempotent(a: seq<ListedNote>, id: Notes.NoteId)
    ensures RemoveById(RemoveById(a, id), id) == RemoveById(a, id)
    decreases |a|
  {
    if |a| > 0 {
      var head := if a[0].id == id then [] else [a[0]];
      var rest := RemoveById(a[1..], id);
      RemoveByIdIdempotent(a[1..], id);
      RemoveByIdAppend(head, rest, id);
      if head != [] {
        assert head[1..] == [];
      }
      assert RemoveById(head, id) == head;
    }
  }

  /** The ids listed. */
  function Ids(notes: seq<ListedNote>): set<Notes.NoteId> {
    set i | 0 <= i < |notes| :: notes[i].id
  }

  /** `handleDeleteNote(id)`: nothing happens unless the user confirms;
      otherwise the note is removed at once and the list restored exactly as
      it was unless the request resolves with a truthy `ok`. */
  function HandleDeleteNote(notes: seq<ListedNote>, id: Notes.NoteId, confirmed: bool, result: Settled<bool>)
    : (r: seq<ListedNote>)
    ensures !confirmed ==> r == notes
    ensures confirmed && result == Resolved(true) ==> r == RemoveById(notes, id)
    ensures confirmed && result != Resolved(true) ==> r == notes
  {
    if !confirmed then notes
    else
      var prevNotes := notes;
      var optimistic := RemoveById(notes, id);
      match result
      case Resolved(ok) => if ok then optimistic else prevNotes
      case Rejected => prevNotes
  }

  /** The dialog state after `confirmDelete`: the list and `noteToDelete`. */
  datatype DialogState = DialogState(notes: seq<ListedNote>, noteToDelete: Option<Notes.NoteId>)

  /** `confirmDelete()`: without a pending note nothing happens; otherwise
      the note is removed at once, the list rolled back only when the request
      rejects (a resolved reply counts as success whatever its body), and the
      dialog closes either way. */
  function ConfirmDelete(st: DialogState, result: Settled<bool>): (r: DialogState)
    ensures st.noteToDelete.None? ==> r == st
    ensures st.noteToDelete.Some? ==> r.noteToDelete.None?
    ensures st.noteToDelete.Some? && result.Resolved? ==> r.notes == RemoveById(st.notes, st.noteToDelete.value)
    ensures st.noteToDelete.Some? && result.Rejected? ==> r.notes == st.notes
  {
    match st.noteToDelete
    case None => st
    case Some(id) =>
      var prevNotes := st.notes;
      var optimistic := RemoveById(st.notes, id);
      match result
      case Resolved(_) => DialogState(optimistic, None)
      case Rejected => DialogState(prevNotes, None)
  }

  /** A delete split at its `await`: the copy of the list taken before the
      request, and the id being deleted. Other updates to the list can run
      while the request is in flight. */
  datatype PendingDelete = PendingDelete(snapshot: seq<ListedNote>, id: Notes.NoteId)

  /** The part of either delete handler before the `await`: copy the list,
      then drop the note from the list current at that moment. */
  function BeginDelete(notes: seq<ListedNote>, id: Notes.NoteId): (r: (seq<ListedNote>, PendingDelete))
    ensures r.1 == PendingDelete(notes, id)
    ensures forall n :: n in r.0 <==> n in notes && n.id != id
  {
    (RemoveById(notes, id), PendingDelete(notes, id))
  }

  /** The part after the `await`: a successful delete leaves the list as it
      is by then; a failed one sets it back to the copy, whatever other
      updates ran in between. */
  function SettleDelete(current: seq<ListedNote>, pending: PendingDelete, failed: bool): (r: seq<ListedNote>)
    ensures !failed ==> r == current
    ensures failed ==> r == pending.snapshot
  {
    if failed then pending.snapshot else current
  }

  /** With nothing in between, the two halves are exactly the two handlers:
      `handleDeleteNote` fails unless the reply's `ok` is truthy,
      `confirmDelete` only when the request rejects. */
  lemma SplitDeleteIsHandler(notes: seq<ListedNote>, id: Notes.NoteId, result: Settled<bool>)
    ensures var b := BeginDelete(notes, id);
            && SettleDelete(b.0, b.1, result != Resolved(true)) == HandleDeleteNote(notes, id, true, result)
            && SettleDelete(b.0, b.1, result.Rejected?) == ConfirmDelete(DialogState(notes, Some(id)), result).notes
  {
  }

  /** Two deletes in flight at once break the sync: the second note is
      deleted on the server, then the first request fails and its rollback
      puts back the copy taken before either delete, so the second note is
      listed again although the server no longer has it. */
  lemma StaleRollbackRestoresOtherDelete(store: Notes.Store, me: Users.UserId, a: ListedNote, b: ListedNote)
    requires Notes.Valid(store)
    requires Notes.Owns(store, me, a.id) && Notes.Owns(store, me, b.id) && a.id != b.id
    ensures var first := BeginDelete([a, b], a.id);
            var second := BeginDelete(first.0, b.id);
            var o := Notes.Delete(store, me, b.id);
            var afterSecond := SettleDelete(second.0, second.1, DeleteNote(o.response) != Resolved(true));
            var afterFirst := SettleDelete(afterSecond, first.1, true);
            && afterSecond == []
            && afterFirst == [a, b]
            && b.id in Ids(afterFirst) && b.id !in Notes.View(o.store, me).Keys
  {
    var first := BeginDelete([a, b], a.id);
    assert first.0 == [b] by {
      assert [a, b][1..] == [b];
      assert [b][1..] == [];
    }
    assert BeginDelete(first.0, b.id).0 == [] by {
      assert [b][1..] == [];
    }
    assert [a, b][1].id == b.id;
  }

  /** When the list shows exactly the user's notes on the server, it still
      does after either delete path runs against the server's `DELETE`:
      an owned note disappears from both, and any other id leaves both as
      they were. */
  lemma DeleteKeepsListInSync(store: Notes.Store, me: Users.UserId, notes: seq<ListedNote>, id: Notes.NoteId)
    requires Notes.Valid(store)
    requires Ids(notes) == Notes.View(store, me).Keys
    ensures var o := Notes.Delete(store, me, id);
            && Ids(HandleDeleteNote(notes, id, true, DeleteNote(o.response))) == Notes.View(o.store, me).Keys
            && Ids(ConfirmDelete(DialogState(notes, Some(id)), DeleteNote(o.response)).notes) == Notes.View(o.store, me).Keys
  {
    var o := Notes.Delete(store, me, id);
    if Notes.Owns(store, me, id) {
      var r := RemoveById(notes, id);
      assert Ids(r) == Ids(notes) - {id} by {
        forall x | x in Ids(notes) - {id} ensures x in Ids(r) {
          var i :| 0 <= i < |notes| && notes[i].id == x;
          assert notes[i] in r;
        }
      }
      assert Notes.View(o.store, me).Keys == Notes.View(store, me).Keys - {id};
    }
  }
}
