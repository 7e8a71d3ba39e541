/** The one-shot messages the scripts exchange over the runtime channel. A
    message is an object whose string `action` selects the handler; only
    `saveNote` carries a payload (the note). */
module Messages {
  import opened NotesStore

  const SaveNoteAction: string := "saveNote"
  const AddNoteFromContextMenuAction: string := "addNoteFromContextMenu"
  const GetAuthTokenAction: string := "getAuthToken"
  const SyncNotesAction: string := "syncNotes"
  const LogErrorAction: string := "logError"

  datatype Payload = NoPayload | NotePayload(note: Note)

  datatype Request = Request(action: string, payload: Payload)
}
