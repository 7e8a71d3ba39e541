/** The popup page as an object: the storage bucket it reads and writes, the
    folder dropdown's selection, the delete-folder button, the two text inputs,
    the note dialog and the list of notes it shows. Each method is one of the
    page's handlers run to completion, its storage callbacks included; what it
    writes to the bucket is the matching function of module Popup. */
module PopupUi {
  import opened JsBuiltins
  import opened NotesStore
  import opened NoteOrder
  import Popup

  class PopupPage {
    /** The bucket's two keys. */
    var notes: Option<Notes>
    var folders: Option<seq<string>>
    /** `folderSelect.value` */
    var selected: string
    /** `deleteFolderButton.disabled` */
    var deleteDisabled: bool
    /** `newFolderName.value` and `noteText.value` */
    var folderNameInput: string
    var noteText: string
    /** Whether the note dialog is open. */
    var dialogOpen: bool
    /** The notes the list shows, top to bottom. */
    var shown: seq<Note>

    function Stored(): Store
      reads this
    {
      Store(notes, folders)
    }

    /** The bucket is consistent with "Default" first, the selection is a
        listed folder, the delete button is disabled exactly on "Default", and
        the list shows the selected folder in display order. */
    ghost predicate Valid()
      reads this
    {
      && Consistent(Stored()) && DefaultFirst(Stored())
      && selected in folders.value
      && deleteDisabled == Popup.DeleteButtonDisabled(selected)
      && shown == Popup.Displayed(Stored(), selected)
    }

    /** The page opening on the bucket `stored` (initExtension): the initial
        bucket is written when a key is absent, then the dropdown is filled and
        the first folder shown. */
    constructor (stored: Store)
      ensures Stored() == Popup.Initialize(stored)
      ensures folders.Some? && selected == Popup.FirstOption(folders.value)
      ensures deleteDisabled == Popup.DeleteButtonDisabled(selected)
      ensures shown == Popup.Displayed(Stored(), selected)
      ensures folderNameInput == "" && noteText == "" && !dialogOpen
      ensures stored.notes.None? || stored.folders.None? || (Consistent(stored) && DefaultFirst(stored)) ==> Valid()
    {
      notes, folders := stored.notes, stored.folders;
      selected, deleteDisabled := "", false;
      folderNameInput, noteText, dialogOpen, shown := "", "", false, [];
      new;
      if notes.None? || folders.None? {
        notes, folders := InitialStore.notes, InitialStore.folders;
        ShowFolders(InitialStore.folders.value, DefaultFolder);
      } else {
        PopulateFolderDropdown(folders.value);
        LoadNotes(selected);
      }
      Popup.InitializeEstablishesConsistency(stored);
    }

    /** The dropdown filled with `options` and `folder` shown. */
    method ShowFolders(options: seq<string>, folder: string)
      modifies this`selected, this`deleteDisabled, this`shown
      ensures selected == Popup.FirstOption(options)
      ensures deleteDisabled == Popup.DeleteButtonDisabled(selected)
      ensures shown == Popup.Displayed(Stored(), folder)
    {
      PopulateFolderDropdown(options);
      LoadNotes(folder);
    }

    /** populateFolderDropdown: the options are rebuilt, which leaves the
        first one selected, and the button follows that selection. */
    method PopulateFolderDropdown(options: seq<string>)
      modifies this`selected, this`deleteDisabled
      ensures selected == Popup.FirstOption(options)
      ensures deleteDisabled == Popup.DeleteButtonDisabled(selected)
    {
      selected := Popup.FirstOption(options);
      deleteDisabled := selected == DefaultFolder;
    }

    /** `folderSelect.value = v` from a script: no change event fires, so the
        button is not updated. */
    method SetSelection(options: seq<string>, v: string)
      modifies this`selected
      ensures selected == Popup.SelectValue(options, v)
    {
      selected := if v in options then v else "";
    }

    /** loadNotes followed by renderNotes: the folder's stored list is copied
        out of the bucket, sorted in place and shown. */
    method LoadNotes(folder: string)
      modifies this`shown
      ensures shown == Popup.Displayed(Stored(), folder)
    {
      var list := if notes.Some? && folder in notes.value then notes.value[folder] else [];
      var a := new Note[|list|](k requires 0 <= k < |list| => list[k]);
      assert a[..] == list;
      SortNotesInPlace(a);
      shown := a[..];
    }

    /** Typing into the new-folder input. */
    method EnterFolderName(text: string)
      modifies this`folderNameInput
      ensures folderNameInput == text
    {
      folderNameInput := text;
    }

    /** Typing into the note dialog's text area. */
    method EnterNoteText(text: string)
      modifies this`noteText
      ensures noteText == text
    {
      noteText := text;
    }

    /** The create-folder button. On success the new folder is selected and
        shown (empty), the input is cleared, and the button is enabled for it:
        this class updates the button after the selection, as the change
        handler would. */
    method CreateFolder()
      modifies this
      ensures Stored() == Popup.CreateFolder(old(Stored()), old(folderNameInput))
      ensures noteText == old(noteText) && dialogOpen == old(dialogOpen)
      ensures Popup.CreateFolderRejected(old(Stored()), old(folderNameInput)) ==>
        && selected == old(selected) && deleteDisabled == old(deleteDisabled)
        && shown == old(shown) && folderNameInput == old(folderNameInput)
      ensures !Popup.CreateFolderRejected(old(Stored()), old(folderNameInput)) ==>
        && selected == Trim(old(folderNameInput))
        && deleteDisabled == Popup.DeleteButtonDisabled(selected)
        && shown == [] && folderNameInput == ""
      ensures old(Valid()) ==> Valid()
      ensures old(Valid()) && !Popup.CreateFolderRejected(old(Stored()), old(folderNameInput)) ==> !deleteDisabled
    {
      ghost var s0, valid0, input0 := Stored(), Valid(), folderNameInput;
      var folderName := Trim(folderNameInput);
      if folderName == [] {
        return;
      }
      var currentFolders := FoldersOrDefault(Stored());
      var currentNotes := NotesOrDefault(Stored());
      if folderName in currentFolders {
        return;
      }
      CommitNewFolder(currentFolders + [folderName], currentNotes[folderName := []], folderName);
      if valid0 {
        Popup.CreateFolderPreservesConsistency(s0, input0);
      }
    }

    /** createFolder's storage callback: the bucket written, the dropdown
        rebuilt with the new folder selected, the input cleared and the new
        folder shown. */
    method CommitNewFolder(updatedFolders: seq<string>, updatedNotes: Notes, folderName: string)
      modifies this
      ensures notes == Some(updatedNotes) && folders == Some(updatedFolders)
      ensures selected == Popup.SelectValue(updatedFolders, folderName)
      ensures deleteDisabled == Popup.DeleteButtonDisabled(selected)
      ensures shown == Popup.Displayed(Stored(), folderName)
      ensures folderNameInput == "" && noteText == old(noteText) && dialogOpen == old(dialogOpen)
    {
      notes, folders := Some(updatedNotes), Some(updatedFolders);
      PopulateFolderDropdown(updatedFolders);
      SetSelection(updatedFolders, folderName);
      deleteDisabled := selected == DefaultFolder;
      folderNameInput := "";
      LoadNotes(folderName);
    }

    /** The delete-folder button, `confirmed` being the user's answer to the
        confirmation. On success the dropdown is rebuilt and "Default" is
        selected and shown. */
    method DeleteFolder(confirmed: bool)
      modifies this
      ensures Stored() == Popup.DeleteFolder(old(Stored()), old(selected), confirmed)
      ensures folderNameInput == old(folderNameInput) && noteText == old(noteText) && dialogOpen == old(dialogOpen)
      ensures Popup.DeleteFolderRejected(old(Stored()), old(selected), confirmed) ==>
        selected == old(selected) && deleteDisabled == old(deleteDisabled) && shown == old(shown)
      ensures !Popup.DeleteFolderRejected(old(Stored()), old(selected), confirmed) ==>
        && folders.Some? && selected == Popup.SelectValue(folders.value, DefaultFolder)
        && deleteDisabled == Popup.DeleteButtonDisabled(Popup.FirstOption(folders.value))
        && shown == Popup.Displayed(Stored(), DefaultFolder)
      ensures old(Valid()) ==> Valid()
    {
      ghost var s0, valid0 := Stored(), Valid();
      var folderToDelete := selected;
      if folderToDelete == DefaultFolder || !confirmed || folders.None? {
        return;
      }
      var updatedNotes := if notes.Some? then notes.value else map[];
      CommitFolderDeletion(RemoveAll(folders.value, folderToDelete), updatedNotes - {folderToDelete}, DefaultFolder);
      if valid0 {
        Popup.DeleteFolderPreservesConsistency(s0, folderToDelete, confirmed);
      }
    }

    /** deleteFolder's storage callback: the bucket written, the dropdown
        rebuilt, "Default" selected and shown. */
    method CommitFolderDeletion(updatedFolders: seq<string>, updatedNotes: Notes, home: string)
      modifies this
      ensures notes == Some(updatedNotes) && folders == Some(updatedFolders)
      ensures selected == Popup.SelectValue(updatedFolders, home)
      ensures deleteDisabled == Popup.DeleteButtonDisabled(Popup.FirstOption(updatedFolders))
      ensures shown == Popup.Displayed(Stored(), home)
      ensures folderNameInput == old(folderNameInput) && noteText == old(noteText) && dialogOpen == old(dialogOpen)
    {
      notes, folders := Some(updatedNotes), Some(updatedFolders);
      PopulateFolderDropdown(updatedFolders);
      SetSelection(updatedFolders, home);
      LoadNotes(home);
    }

    /** The add-note button: the text area is cleared and the dialog opened. */
    method OpenNoteDialog()
      modifies this`noteText, this`dialogOpen
      ensures noteText == "" && dialogOpen
    {
      noteText := "";
      dialogOpen := true;
    }

    /** The dialog's cancel button. */
    method CancelNoteDialog()
      modifies this`dialogOpen
      ensures !dialogOpen
    {
      dialogOpen := false;
    }

    /** The dialog's save button, given the active tab's id and what the page
        script reports. On success the note is appended to the selected
        folder, the dialog closes and the folder is shown again. Only a read
        timestamp lets the save proceed. */
    method SaveNewNote(tabId: Option<int>, probe: Popup.Probe, createdAt: string)
      modifies this`notes, this`dialogOpen, this`shown
      ensures Stored() == Popup.SaveNewNote(old(Stored()), selected, noteText, tabId, probe, createdAt)
      ensures Popup.SaveNewNoteRejected(noteText, tabId, probe) ==>
        dialogOpen == old(dialogOpen) && shown == old(shown)
      ensures !Popup.SaveNewNoteRejected(noteText, tabId, probe) ==>
        !dialogOpen && shown == Popup.Displayed(Stored(), selected)
      ensures old(Valid()) ==> Valid()
    {
      var noteDescription := Trim(noteText);
      if noteDescription == [] || !TruthyId(tabId) || !probe.At? {
        return;
      }
      CommitNote(selected, Note(probe.seconds, noteDescription, createdAt, None));
    }

    /** saveNewNote's storage step and its callback: the note pushed onto the
        folder's list (created empty if missing), the dialog closed, the folder
        shown again. */
    method CommitNote(currentFolder: string, newNote: Note)
      modifies this`notes, this`dialogOpen, this`shown
      ensures Stored() == AppendNote(old(Stored()), currentFolder, newNote)
      ensures !dialogOpen && shown == Popup.Displayed(Stored(), currentFolder)
      ensures old(Valid()) && currentFolder == selected ==> Valid()
    {
      if Valid() && currentFolder == selected {
        AppendNotePreservesConsistency(Stored(), currentFolder, newNote);
      }
      var updatedNotes := NotesOrDefault(Stored());
      if currentFolder !in updatedNotes {
        updatedNotes := updatedNotes[currentFolder := []];
      }
      ghost var expected := AppendNote(Stored(), currentFolder, newNote);
      notes := Some(updatedNotes[currentFolder := updatedNotes[currentFolder] + [newNote]]);
      assert Stored() == expected;
      dialogOpen := false;
      LoadNotes(currentFolder);
    }

    /** A note's delete button, `index` being the note's position in the
        list shown. When the bucket has no list for the folder the handler
        throws: nothing is written or redrawn. */
    method DeleteNote(index: nat)
      modifies this`notes, this`shown
      ensures Stored() == Popup.DeleteNote(old(Stored()), selected, index)
      ensures old(notes).Some? && selected in old(notes).value ==> shown == Popup.Displayed(Stored(), selected)
      ensures !(old(notes).Some? && selected in old(notes).value) ==> shown == old(shown)
      ensures old(Valid()) ==> Valid()
    {
      ghost var s0, valid0 := Stored(), Valid();
      var currentFolder := selected;
      if notes.None? || currentFolder !in notes.value {
        return;
      }
      CommitNoteDeletion(currentFolder, index);
      if valid0 {
        Popup.DeleteNotePreservesConsistency(s0, currentFolder, index);
      }
    }

    /** deleteNote's storage step and its callback: position `index` cut out
        of the folder's list, the folder shown again. */
    method CommitNoteDeletion(currentFolder: string, index: nat)
      requires notes.Some? && currentFolder in notes.value
      modifies this`notes, this`shown
      ensures Stored() == Popup.DeleteNote(old(Stored()), currentFolder, index)
      ensures shown == Popup.Displayed(Stored(), currentFolder)
    {
      var updatedNotes := notes.value;
      notes := Some(updatedNotes[currentFolder := RemoveAt(updatedNotes[currentFolder], index)]);
      LoadNotes(currentFolder);
    }

    /** The user picks a listed folder in the dropdown (its change event). */
    method SelectFolder(name: string)
      requires folders.Some? && name in folders.value
      modifies this`selected, this`shown, this`deleteDisabled
      ensures selected == name && shown == Popup.Displayed(Stored(), name)
      ensures deleteDisabled == Popup.DeleteButtonDisabled(name)
      ensures old(Valid()) ==> Valid()
    {
      selected := name;
      LoadNotes(selected);
      deleteDisabled := selected == DefaultFolder;
    }
  }
}
