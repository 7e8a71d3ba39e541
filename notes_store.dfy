/** The one piece of state the three scripts share: the extension's local
    storage bucket with its two keys, `notes` (folder name to the folder's list
    of notes) and `folders` (the folder names, in order). Either key may be
    absent before the bucket is first initialised. */
module NotesStore {
  import opened JsBuiltins

  /** The distinguished folder: always present, never deletable. */
  const DefaultFolder: string := "Default"

  /** A note. `folder` is the legacy field the page dialog writes (`'Default'`);
      notes made in the popup have none. Notes have no identifier: within a
      folder a note is known by its position. */
  datatype Note = Note(timestamp: nat, description: string, createdAt: string, folder: Option<string>)

  type Notes = map<string, seq<Note>>

  /** The storage bucket as `chrome.storage.local.get(['notes', 'folders'])`
      returns it. */
  datatype Store = Store(notes: Option<Notes>, folders: Option<seq<string>>)

  function Elements(xs: seq<string>): set<string> {
    set x | x in xs
  }

  lemma ElementsAppend(xs: seq<string>, x: string)
    ensures Elements(xs + [x]) == Elements(xs) + {x}
  {
  }

  /** Both keys present, the folder list and the keys of the notes map name
      the same folders, "Default" is one of them, and no folder is listed twice. */
  predicate Consistent(s: Store) {
    && s.notes.Some? && s.folders.Some?
    && s.notes.value.Keys == Elements(s.folders.value)
    && DefaultFolder in s.folders.value
    && NoDuplicates(s.folders.value)
  }

  /** "Default" heads the folder list. Every store the extension writes keeps
      this, and the popup's folder dropdown relies on it. */
  predicate DefaultFirst(s: Store) {
    s.folders.Some? && |s.folders.value| > 0 && s.folders.value[0] == DefaultFolder
  }

  /** `{notes: {Default: []}, folders: ['Default']}`, the value both the
      background's install handler and the popup's first-run set-up write. */
  const InitialStore: Store := Store(Some(map[DefaultFolder := []]), Some([DefaultFolder]))

  lemma InitialStoreIsConsistent()
    ensures Consistent(InitialStore) && DefaultFirst(InitialStore)
  {
    assert Elements([DefaultFolder]) == {DefaultFolder};
  }

  /** `data.notes || { 'Default': [] }` */
  function NotesOrDefault(s: Store): Notes {
    if s.notes.Some? then s.notes.value else map[DefaultFolder := []]
  }

  /** `data.folders || ['Default']` */
  function FoldersOrDefault(s: Store): seq<string> {
    if s.folders.Some? then s.folders.value else [DefaultFolder]
  }

  /** The folder's list, or the empty list when the map has no such key. */
  function ListOrEmpty(m: Notes, folder: string): seq<Note> {
    if folder in m then m[folder] else []
  }

  /** `after` agrees with `before` on every folder other than `folder`:
      same keys and same lists. */
  ghost predicate SameOutside(before: Notes, after: Notes, folder: string) {
    forall f :: f != folder ==>
      (f in before <==> f in after) && (f in before ==> before[f] == after[f])
  }

  /** Setting one folder's list leaves every other folder as it was. */
  lemma UpdateKeepsOthers(m: Notes, folder: string, list: seq<Note>)
    ensures m[folder := list].Keys == m.Keys + {folder}
    ensures SameOutside(m, m[folder := list], folder)
  {
  }

  /** The store-update half of saving a note: read `notes` (falling back to
      `{Default: []}`), create the folder's list if it has none, push the note
      onto its end, write `notes` back. `folders` is not written. */
  function AppendNote(s: Store, folder: string, note: Note): (r: Store)
    ensures r.folders == s.folders
    ensures r.notes.Some? && r.notes.value.Keys == NotesOrDefault(s).Keys + {folder}
    ensures r.notes.value[folder] == ListOrEmpty(NotesOrDefault(s), folder) + [note]
    ensures |r.notes.value[folder]| == |ListOrEmpty(NotesOrDefault(s), folder)| + 1
    ensures SameOutside(NotesOrDefault(s), r.notes.value, folder)
  {
    var updated := NotesOrDefault(s);
    var updated := if folder !in updated then updated[folder := []] else updated;
    Store(Some(updated[folder := updated[folder] + [note]]), s.folders)
  }

  /** Appending to a listed folder keeps the store consistent and "Default"
      at the head of the list. */
  lemma AppendNotePreservesConsistency(s: Store, folder: string, note: Note)
    requires Consistent(s) && folder in s.folders.value
    ensures Consistent(AppendNote(s, folder, note))
    ensures DefaultFirst(s) ==> DefaultFirst(AppendNote(s, folder, note))
  {
  }
}
