/** What the popup's handlers do to the storage bucket, as whole-value
    transformations: each handler reads the bucket, computes a new value and
    writes it back (or writes nothing when it rejects its input). Also the
    folder's display order and the `M:SS` timestamp format. The handlers
    themselves, with the popup's UI state, are the class in module PopupUi. */
module Popup {
  import opened JsBuiltins
  import opened NotesStore
  import opened NoteOrder

  // ---------------------------------------------------------------------------
  // initExtension

  /** initExtension's storage step: the initial bucket when either key is
      absent, otherwise the bucket as it is (nothing is written). */
  function Initialize(s: Store): (r: Store)
    ensures s.notes.None? || s.folders.None? ==> r == InitialStore
    ensures s.notes.Some? && s.folders.Some? ==> r == s
  {
    if s.notes.None? || s.folders.None? then InitialStore else s
  }

  /** After initialisation both keys are present. From a missing key, or from
      a consistent bucket with "Default" first, the bucket is consistent with
      "Default" first; a second run writes nothing. */
  lemma InitializeEstablishesConsistency(s: Store)
    ensures s.notes.None? || s.folders.None? || (Consistent(s) && DefaultFirst(s)) ==>
      Consistent(Initialize(s)) && DefaultFirst(Initialize(s))
    ensures Initialize(Initialize(s)) == Initialize(s)
  {
    InitialStoreIsConsistent();
  }

  /** Consistency alone is not enough: an existing folder list is kept as it
      is, so a consistent bucket that lists "Work" before "Default" still does
      after initialisation. */
  lemma InitializeKeepsFolderOrder()
    ensures var s := Store(Some(map["Work" := [], DefaultFolder := []]), Some(["Work", DefaultFolder]));
      Consistent(s) && !DefaultFirst(Initialize(s))
  {
    var folders := ["Work", DefaultFolder];
    assert folders[0] != folders[1];
    assert Elements(folders) == {"Work", DefaultFolder};
  }

  // ---------------------------------------------------------------------------
  // The folder dropdown

  /** `folderSelect.value` right after the options are rebuilt: the first
      option is selected, or none (value `""`) when there are no options. */
  function FirstOption(options: seq<string>): (v: string)
    ensures options != [] ==> v == options[0] && v in options
    ensures options == [] ==> v == ""
  {
    if options == [] then "" else options[0]
  }

  /** `folderSelect.value = v`: selects the option with value `v`, or none
      (value `""`) when there is no such option. */
  function SelectValue(options: seq<string>, v: string): (r: string)
    ensures v in options ==> r == v
    ensures v !in options ==> r == ""
  {
    if v in options then v else ""
  }

  /** The delete-folder button is disabled exactly when "Default" is selected. */
  predicate DeleteButtonDisabled(selection: string) {
    selection == DefaultFolder
  }

  // ---------------------------------------------------------------------------
  // createFolder

  /** createFolder writes nothing when the trimmed name is empty or already
      listed. */
  predicate CreateFolderRejected(s: Store, rawName: string) {
    var name := Trim(rawName);
    name == [] || name in FoldersOrDefault(s)
  }

  /** createFolder's write: the trimmed name appended to the folder list and an
      empty list under it in the notes map, both on top of the `||` fallbacks. */
  function CreateFolder(s: Store, rawName: string): (r: Store)
    ensures CreateFolderRejected(s, rawName) ==> r == s
    ensures !CreateFolderRejected(s, rawName) ==>
      var name := Trim(rawName);
      && r.folders == Some(FoldersOrDefault(s) + [name])
      && r.notes.Some? && r.notes.value.Keys == NotesOrDefault(s).Keys + {name}
      && r.notes.value[name] == []
      && SameOutside(NotesOrDefault(s), r.notes.value, name)
  {
    var name := Trim(rawName);
    if name == [] then s
    else
      var folders := FoldersOrDefault(s);
      var notes := NotesOrDefault(s);
      if name in folders then s
      else
        UpdateKeepsOthers(notes, name, []);
        Store(Some(notes[name := []]), Some(folders + [name]))
  }

  /** Creating a folder keeps the bucket consistent and "Default" first, and
      the new name is then listed. */
  lemma CreateFolderPreservesConsistency(s: Store, rawName: string)
    requires Consistent(s)
    ensures Consistent(CreateFolder(s, rawName))
    ensures DefaultFirst(s) ==> DefaultFirst(CreateFolder(s, rawName))
    ensures !CreateFolderRejected(s, rawName) ==> Trim(rawName) in CreateFolder(s, rawName).folders.value
  {
    if !CreateFolderRejected(s, rawName) {
      var name, fs := Trim(rawName), s.folders.value;
      assert CreateFolder(s, rawName).folders.value == fs + [name];
      AppendFresh(fs, name);
      ElementsAppend(fs, name);
    }
  }

  /** As written, the delete button's state after a successful createFolder
      is the one populateFolderDropdown computed from the first option, before
      the new folder was selected. */
  function DeleteDisabledAfterCreateAsWritten(updatedFolders: seq<string>): bool {
    DeleteButtonDisabled(FirstOption(updatedFolders))
  }

  /** The discrepancy: on every bucket the extension writes, creating a folder
      selects it (it is not "Default") while the button is left disabled. */
  lemma CreateFolderLeavesDeleteButtonDisabled(s: Store, rawName: string)
    requires Consistent(s) && DefaultFirst(s) && !CreateFolderRejected(s, rawName)
    ensures var folders' := CreateFolder(s, rawName).folders.value;
      && DeleteDisabledAfterCreateAsWritten(folders')
      && !DeleteButtonDisabled(SelectValue(folders', Trim(rawName)))
  {
    var name, fs := Trim(rawName), s.folders.value;
    assert CreateFolder(s, rawName).folders.value == fs + [name];
    assert (fs + [name])[0] == DefaultFolder;
    assert name != DefaultFolder;
  }

  // ---------------------------------------------------------------------------
  // deleteFolder

  /** deleteFolder writes nothing when the selection is "Default", when the
      user declines the confirmation, or when `folders` is absent (the
      `data.folders.filter` call throws inside the storage callback). */
  predicate DeleteFolderRejected(s: Store, selected: string, confirmed: bool) {
    selected == DefaultFolder || !confirmed || s.folders.None?
  }

  /** deleteFolder's write: the selected name filtered out of the folder list
      and its key deleted from a copy of the notes map. */
  function DeleteFolder(s: Store, selected: string, confirmed: bool): (r: Store)
    ensures DeleteFolderRejected(s, selected, confirmed) ==> r == s
    ensures !DeleteFolderRejected(s, selected, confirmed) ==>
      && r.folders.Some? && r.notes.Some?
      && (forall f :: f in r.folders.value <==> f in s.folders.value && f != selected)
      && r.notes.value.Keys == (if s.notes.Some? then s.notes.value.Keys else {}) - {selected}
      && (forall f :: f in r.notes.value ==> s.notes.Some? && r.notes.value[f] == s.notes.value[f])
  {
    if selected == DefaultFolder || !confirmed || s.folders.None? then s
    else
      var updatedFolders := RemoveAll(s.folders.value, selected);
      var updatedNotes := if s.notes.Some? then s.notes.value else map[];
      Store(Some(updatedNotes - {selected}), Some(updatedFolders))
  }

  /** Deleting a folder keeps the bucket consistent and "Default" first; the
      remaining names keep their order (the deleted name is cut out of its
      position). */
  lemma DeleteFolderPreservesConsistency(s: Store, selected: string, confirmed: bool)
    requires Consistent(s)
    ensures Consistent(DeleteFolder(s, selected, confirmed))
    ensures DefaultFirst(s) ==> DefaultFirst(DeleteFolder(s, selected, confirmed))
    ensures !DeleteFolderRejected(s, selected, confirmed) ==>
      forall k :: 0 <= k < |s.folders.value| && s.folders.value[k] == selected ==>
        DeleteFolder(s, selected, confirmed).folders.value == s.folders.value[..k] + s.folders.value[k + 1..]
  {
    if !DeleteFolderRejected(s, selected, confirmed) {
      var fs := s.folders.value;
      RemoveAllNoDuplicates(fs, selected);
      assert Elements(RemoveAll(fs, selected)) == Elements(fs) - {selected};
      forall k | 0 <= k < |fs| && fs[k] == selected
        ensures RemoveAll(fs, selected) == fs[..k] + fs[k + 1..]
      {
        RemoveAllUnique(fs, k);
      }
    }
  }

  // ---------------------------------------------------------------------------
  // saveNewNote

  /** What the page script in the active tab reports: the script could not
      run (no results), there is no video element (`null`), or the floored
      playback position. */
  datatype Probe = ScriptFailed | NoVideo | At(seconds: nat)

  /** As written, the callback goes on to write unless the reported value is
      `null`: a failed script yields `undefined`, which `=== null` lets through. */
  predicate SaveProceedsAsWrittenFor(p: Probe) {
    !p.NoVideo?
  }

  /** The as-written guard proceeds on a failed script, though no timestamp
      was read. */
  lemma FailedScriptPassesSaveGuard()
    ensures SaveProceedsAsWrittenFor(ScriptFailed) && !ScriptFailed.At?
  {
  }

  /** saveNewNote writes nothing when the trimmed text is empty, when there is
      no active tab id, or when no timestamp was read. */
  predicate SaveNewNoteRejected(rawText: string, tabId: Option<int>, probe: Probe) {
    Trim(rawText) == [] || !TruthyId(tabId) || !probe.At?
  }

  /** saveNewNote's write: the note (read timestamp, trimmed text, creation
      instant) appended to the folder's list. Only a read timestamp proceeds. */
  function SaveNewNote(s: Store, folder: string, rawText: string, tabId: Option<int>,
                       probe: Probe, createdAt: string): (r: Store)
    ensures !probe.At? || Trim(rawText) == [] || !TruthyId(tabId) ==> r == s
    ensures !SaveNewNoteRejected(rawText, tabId, probe) ==>
      r == AppendNote(s, folder, Note(probe.seconds, Trim(rawText), createdAt, None))
  {
    var description := Trim(rawText);
    if description == [] || !TruthyId(tabId) || !probe.At? then s
    else AppendNote(s, folder, Note(probe.seconds, description, createdAt, None))
  }

  /** Saving into a listed folder keeps the bucket consistent; the folder's
      list grows by one note at its end and no other folder changes. */
  lemma SaveNewNotePreservesConsistency(s: Store, folder: string, rawText: string,
                                        tabId: Option<int>, probe: Probe, createdAt: string)
    requires Consistent(s) && folder in s.folders.value
    ensures var r := SaveNewNote(s, folder, rawText, tabId, probe, createdAt);
      && Consistent(r) && (DefaultFirst(s) ==> DefaultFirst(r))
      && (!SaveNewNoteRejected(rawText, tabId, probe) ==>
            |r.notes.value[folder]| == |s.notes.value[folder]| + 1
            && r.notes.value[folder][..|s.notes.value[folder]|] == s.notes.value[folder]
            && SameOutside(s.notes.value, r.notes.value, folder))
  {
    if !SaveNewNoteRejected(rawText, tabId, probe) {
      AppendNotePreservesConsistency(s, folder, Note(probe.seconds, Trim(rawText), createdAt, None));
    }
  }

  // ---------------------------------------------------------------------------
  // deleteNote

  /** deleteNote's write: position `index` cut out of the folder's stored list.
      An absent `notes` key or folder key makes `.filter` throw: nothing is
      written. */
  function DeleteNote(s: Store, folder: string, index: nat): (r: Store)
    ensures r.folders == s.folders
    ensures s.notes.None? || folder !in s.notes.value ==> r == s
    ensures s.notes.Some? && folder in s.notes.value ==>
      && r.notes.Some? && r.notes.value.Keys == s.notes.value.Keys
      && r.notes.value[folder] == RemoveAt(s.notes.value[folder], index)
      && SameOutside(s.notes.value, r.notes.value, folder)
  {
    if s.notes.None? || folder !in s.notes.value then s
    else
      var updatedNotes := s.notes.value;
      Store(Some(updatedNotes[folder := RemoveAt(updatedNotes[folder], index)]), s.folders)
  }

  lemma DeleteNotePreservesConsistency(s: Store, folder: string, index: nat)
    requires Consistent(s)
    ensures Consistent(DeleteNote(s, folder, index))
    ensures DefaultFirst(s) ==> DefaultFirst(DeleteNote(s, folder, index))
  {
  }

  // ---------------------------------------------------------------------------
  // loadNotes and renderNotes

  /** `data.notes?.[folder] || []` */
  function NotesOf(s: Store, folder: string): (r: seq<Note>)
    ensures s.notes.None? || folder !in s.notes.value ==> r == []
    ensures s.notes.Some? && folder in s.notes.value ==> r == s.notes.value[folder]
  {
    if s.notes.Some? && folder in s.notes.value then s.notes.value[folder] else []
  }

  /** The list renderNotes draws: the folder's stored notes (or none) sorted
      by timestamp. */
  function Displayed(s: Store, folder: string): seq<Note> {
    SortByTimestamp(NotesOf(s, folder))
  }

  /** The list shown is the folder's notes, each as often as stored, ascending
      by timestamp, with notes of equal timestamp in their stored order. */
  lemma DisplayedIsStableSort(s: Store, folder: string)
    ensures SortedByTime(Displayed(s, folder))
    ensures multiset(Displayed(s, folder)) == multiset(NotesOf(s, folder))
    ensures forall t :: WithTimestamp(Displayed(s, folder), t) == WithTimestamp(NotesOf(s, folder), t)
  {
    SortIsStable(NotesOf(s, folder));
    SortByTimestampSorts(NotesOf(s, folder));
    SortByTimestampPermutes(NotesOf(s, folder));
  }

  /** The position the delete button passes is a position in the displayed
      (sorted) list, but deleteNote cuts that position out of the stored
      list. The note removed is the note clicked exactly when the stored list
      holds that note at that position. */
  lemma DeleteRemovesClickedNoteIff(stored: seq<Note>, i: nat)
    requires i < |stored|
    ensures multiset(RemoveAt(stored, i)) == multiset(stored) - multiset{SortByTimestamp(stored)[i]}
        <==> stored[i] == SortByTimestamp(stored)[i]
  {
    SortByTimestampPermutes(stored);
    var clicked := SortByTimestamp(stored)[i];
    assert clicked in multiset(SortByTimestamp(stored));
    if stored[i] != clicked {
      var m := multiset(stored);
      assert (m - multiset{stored[i]})[clicked] == m[clicked];
      assert (m - multiset{clicked})[clicked] == m[clicked] - 1;
    }
  }

  /** When the stored list is already in display order, the clicked note is
      the one removed, and the display afterwards is the old display without it. */
  lemma DeleteInSortedFolderRemovesClickedNote(stored: seq<Note>, i: nat)
    requires SortedByTime(stored) && i < |stored|
    ensures SortByTimestamp(stored)[i] == stored[i]
    ensures SortByTimestamp(RemoveAt(stored, i)) == RemoveAt(SortByTimestamp(stored), i)
  {
    SortSorted(stored);
    RemoveAtKeepsSorted(stored, i);
    SortSorted(RemoveAt(stored, i));
  }

  lemma RemoveAtKeepsSorted(s: seq<Note>, i: nat)
    requires SortedByTime(s) && i < |s|
    ensures SortedByTime(RemoveAt(s, i))
  {
    var r := RemoveAt(s, i);
    forall a, b | 0 <= a < b < |r| ensures r[a].timestamp <= r[b].timestamp {
      var a', b' := if a < i then a else a + 1, if b < i then b else b + 1;
      assert r[a] == s[a'] && r[b] == s[b'];
    }
  }

  /** Two notes stored latest first: the first delete button shown belongs to
      the 5-second note, yet it removes the 10-second note. */
  lemma DeleteFromUnsortedFolderRemovesAnotherNote()
    ensures var late, early := Note(10, "late", "", None), Note(5, "early", "", None);
      && SortByTimestamp([late, early]) == [early, late]
      && RemoveAt([late, early], 0) == [early]
  {
    var late, early := Note(10, "late", "", None), Note(5, "early", "", None);
    assert [late, early][..1] == [late];
    assert SortByTimestamp([late]) == [late];
  }

  // ---------------------------------------------------------------------------
  // formatTimestamp

  /** `seconds.toString().padStart(2, '0')` for seconds below 100: exactly two
      digits denoting `n`. */
  lemma PaddedTwoDigits(n: nat)
    requires n < 100
    ensures var p := PadStart(NatToString(n), 2, '0');
      |p| == 2 && AllDigits(p) && DigitsValue(p) == n
  {
    var d := NatToString(n);
    if |d| == 1 {
      assert PadStart(d, 2, '0') == "0" + d;
      LeadingZeroValue(d);
    }
  }

  /** formatTimestamp: the whole minutes in decimal, a colon, and the seconds
      within the minute as exactly two digits. */
  function FormatTimestamp(timestamp: nat): (r: string)
    ensures |r| >= 4 && r[|r| - 3] == ':'
    ensures r[..|r| - 3] == NatToString(timestamp / 60)
    ensures AllDigits(r[|r| - 2..]) && DigitsValue(r[|r| - 2..]) == timestamp % 60 < 60
  {
    var minutes, seconds := timestamp / 60, timestamp % 60;
    var m, p := NatToString(minutes), PadStart(NatToString(seconds), 2, '0');
    PaddedTwoDigits(seconds);
    ColonLayout(m, p);
    m + ":" + p
  }

  /** Where the parts of `m + ":" + p` sit when `p` has two characters. */
  lemma ColonLayout(m: string, p: string)
    requires |m| >= 1 && |p| == 2
    ensures var r := m + ":" + p;
      |r| >= 4 && r[|r| - 3] == ':' && r[..|r| - 3] == m && r[|r| - 2..] == p
  {
    var r := m + ":" + p;
    assert r[..|r| - 3] == m;
    assert r[|r| - 2..] == p;
  }

  /** Reads an `M:SS` string back (the inverse of FormatTimestamp). */
  function ParseTimestamp(text: string): Option<nat> {
    if |text| < 4 || text[|text| - 3] != ':' then None
    else
      var minutes, seconds := text[..|text| - 3], text[|text| - 2..];
      if AllDigits(minutes) && AllDigits(seconds) && DigitsValue(seconds) < 60
      then Some(DigitsValue(minutes) * 60 + DigitsValue(seconds))
      else None
  }

  /** Formatting loses nothing: the timestamp can be read back. */
  lemma ParseFormatRoundTrip(timestamp: nat)
    ensures ParseTimestamp(FormatTimestamp(timestamp)) == Some(timestamp)
  {
    var r := FormatTimestamp(timestamp);
    assert r[..|r| - 3] == NatToString(timestamp / 60);
  }

  /** Different timestamps are shown differently. */
  lemma FormatTimestampInjective(a: nat, b: nat)
    requires FormatTimestamp(a) == FormatTimestamp(b)
    ensures a == b
  {
    ParseFormatRoundTrip(a);
    ParseFormatRoundTrip(b);
  }

  /** formatTimestamp spelled out for a timestamp: the pieces it joins. */
  lemma FormatTimestampPieces(timestamp: nat)
    ensures FormatTimestamp(timestamp)
         == NatToString(timestamp / 60) + ":" + PadStart(NatToString(timestamp % 60), 2, '0')
  {
  }

  /** 125 seconds is "2:05" (formatTime's doc comment, content.js:33). */
  lemma FormatTimestampExample()
    ensures FormatTimestamp(125) == "2:05"
  {
    FormatTimestampPieces(125);
    ExamplePieces();
  }

  lemma ExamplePieces()
    ensures NatToString(125 / 60) + ":" + PadStart(NatToString(125 % 60), 2, '0') == "2:05"
  {
    assert 125 / 60 == 2 && 125 % 60 == 5;
    OneDigit(2);
    OneDigit(5);
    assert PadStart("5", 2, '0') == "05";
  }

  lemma OneDigit(n: nat)
    requires n < 10
    ensures NatToString(n) == [DigitChar(n)]
  {
  }

  /** Within the first minute the minutes field is "0". */
  lemma FormatTimestampFirstMinute(timestamp: nat)
    requires timestamp < 60
    ensures FormatTimestamp(timestamp) == "0:" + PadStart(NatToString(timestamp), 2, '0')
  {
    FormatTimestampPieces(timestamp);
    NoMinutes(timestamp);
  }

  lemma NoMinutes(timestamp: nat)
    requires timestamp < 60
    ensures NatToString(timestamp / 60) + ":" == "0:" && timestamp % 60 == timestamp
  {
    assert NatToString(0) == "0";
  }

  /** The last second of the first minute is "0:59". */
  lemma FormatTimestampLastSecond()
    ensures FormatTimestamp(59) == "0:59"
  {
    FormatTimestampFirstMinute(59);
    FiftyNine();
  }

  lemma FiftyNine()
    ensures "0:" + PadStart(NatToString(59), 2, '0') == "0:59"
  {
    assert NatToString(59) == NatToString(5) + [DigitChar(9)];
    OneDigit(5);
    assert PadStart("59", 2, '0') == "59";
  }

  /** Whole minutes render with a "00" seconds field, and minutes are never
      carried into hours: 3600 seconds is minute 60. */
  lemma FormatTimestampWholeMinutes(timestamp: nat)
    requires timestamp % 60 == 0
    ensures FormatTimestamp(timestamp) == NatToString(timestamp / 60) + ":00"
  {
    FormatTimestampPieces(timestamp);
    ZeroPadded();
  }

  /** An hour is minute 60: "60:00". */
  lemma FormatTimestampHour()
    ensures FormatTimestamp(3600) == "60:00"
  {
    FormatTimestampWholeMinutes(3600);
    assert NatToString(60) == NatToString(6) + [DigitChar(0)];
  }

  lemma ZeroPadded()
    ensures PadStart(NatToString(0), 2, '0') == "00"
  {
    assert NatToString(0) == "0";
  }

  // ---------------------------------------------------------------------------
  // Save, then list

  /** Saving a note into a folder that shows nothing, then listing that
      folder, shows exactly the saved note: its timestamp, its trimmed text
      and its creation instant. */
  lemma SaveThenListShowsThatNote(s: Store, folder: string, rawText: string,
                                  tabId: Option<int>, probe: Probe, createdAt: string)
    requires NotesOf(s, folder) == [] && !SaveNewNoteRejected(rawText, tabId, probe)
    ensures Displayed(SaveNewNote(s, folder, rawText, tabId, probe, createdAt), folder)
         == [Note(probe.seconds, Trim(rawText), createdAt, None)]
  {
    var note := Note(probe.seconds, Trim(rawText), createdAt, None);
    assert ListOrEmpty(NotesOrDefault(s), folder) == [];
    assert NotesOf(SaveNewNote(s, folder, rawText, tabId, probe, createdAt), folder) == [note];
    SortSorted([note]);
  }

  // ---------------------------------------------------------------------------
  // A folder's life on the initial bucket

  /** Creating a folder on the bucket written at install or first run lists
      its trimmed name after "Default", with an empty list of its own. */
  lemma CreateOnInitialStore(rawName: string)
    requires !Blank(rawName) && Trim(rawName) != DefaultFolder
    ensures CreateFolder(InitialStore, rawName)
         == Store(Some(map[DefaultFolder := [], Trim(rawName) := []]), Some([DefaultFolder, Trim(rawName)]))
  {
    CreateOnInitialAccepted(rawName);
    CreateOnInitialFolders(rawName);
    CreateOnInitialNotes(rawName);
  }

  /** On the initial bucket a non-blank name other than "Default" is new. */
  lemma CreateOnInitialAccepted(rawName: string)
    requires !Blank(rawName) && Trim(rawName) != DefaultFolder
    ensures !CreateFolderRejected(InitialStore, rawName)
  {
    assert Trim(rawName) != [] && FoldersOrDefault(InitialStore) == [DefaultFolder];
  }

  lemma CreateOnInitialFolders(rawName: string)
    requires !CreateFolderRejected(InitialStore, rawName)
    ensures CreateFolder(InitialStore, rawName).folders == Some([DefaultFolder, Trim(rawName)])
  {
    assert FoldersOrDefault(InitialStore) + [Trim(rawName)] == [DefaultFolder, Trim(rawName)];
  }

  lemma CreateOnInitialNotes(rawName: string)
    requires !CreateFolderRejected(InitialStore, rawName)
    ensures CreateFolder(InitialStore, rawName).notes == Some(map[DefaultFolder := [], Trim(rawName) := []])
  {
    var name, m := Trim(rawName), CreateFolder(InitialStore, rawName).notes.value;
    assert m.Keys == {DefaultFolder, name} && m[name] == [] && m[DefaultFolder] == [] by {
      assert NotesOrDefault(InitialStore) == map[DefaultFolder := []];
    }
    TwoEmptyLists(m, DefaultFolder, name);
  }

  /** A map with exactly two keys, both holding the empty list. */
  lemma TwoEmptyLists(m: Notes, a: string, b: string)
    requires m.Keys == {a, b} && m[a] == [] && m[b] == []
    ensures m == map[a := [], b := []]
  {
  }

  /** Deleting that folder again, whatever notes it holds, brings the bucket
      back to the initial one: its notes are discarded. */
  lemma DeleteBackToInitialStore(name: string, list: seq<Note>)
    requires name != DefaultFolder
    ensures DeleteFolder(Store(Some(map[DefaultFolder := [], name := list]), Some([DefaultFolder, name])), name, true)
         == InitialStore
  {
    var s := Store(Some(map[DefaultFolder := [], name := list]), Some([DefaultFolder, name]));
    assert [DefaultFolder, name] == [DefaultFolder] + [name];
    RemoveAllConcat([DefaultFolder], [name], name);
    RemoveAllSingle(DefaultFolder, name);
    RemoveAllSingle(name, name);
    assert s.notes.value - {name} == map[DefaultFolder := []];
  }

  /** Creating "Lectures" on the initial bucket. */
  lemma LecturesCreated()
    ensures CreateFolder(InitialStore, "Lectures")
         == Store(Some(map[DefaultFolder := [], "Lectures" := []]), Some([DefaultFolder, "Lectures"]))
  {
    TrimUnpadded("Lectures");
    assert Trim("Lectures") != [];
    CreateOnInitialStore("Lectures");
  }

  /** Deleting "Lectures" while it holds that note leaves the initial bucket. */
  lemma LecturesDeleted(createdAt: string)
    ensures DeleteFolder(Store(Some(map[DefaultFolder := [], "Lectures" := [Note(90, "intro", createdAt, None)]]),
                               Some([DefaultFolder, "Lectures"])), "Lectures", true)
         == InitialStore
  {
    DeleteBackToInitialStore("Lectures", [Note(90, "intro", createdAt, None)]);
  }

  // ---------------------------------------------------------------------------
  // Any run of folder operations

  datatype FolderCommand = Create(rawName: string) | Delete(selected: string, confirmed: bool)

  function ApplyFolderCommand(s: Store, c: FolderCommand): Store {
    match c
    case Create(rawName) => CreateFolder(s, rawName)
    case Delete(selected, confirmed) => DeleteFolder(s, selected, confirmed)
  }

  function ApplyFolderCommands(s: Store, cmds: seq<FolderCommand>): Store
    decreases |cmds|
  {
    if cmds == [] then s else ApplyFolderCommands(ApplyFolderCommand(s, cmds[0]), cmds[1..])
  }

  /** After any sequence of folder creations and deletions, whatever the names
      and selections, the folder list and the notes keys still match, "Default"
      is still listed first, and no folder is listed twice. */
  lemma {:induction false} FolderCommandsPreserveConsistency(s: Store, cmds: seq<FolderCommand>)
    requires Consistent(s) && DefaultFirst(s)
    ensures Consistent(ApplyFolderCommands(s, cmds)) && DefaultFirst(ApplyFolderCommands(s, cmds))
    decreases |cmds|
  {
    if cmds != [] {
      match cmds[0] {
        case Create(rawName) => CreateFolderPreservesConsistency(s, rawName);
        case Delete(selected, confirmed) => DeleteFolderPreservesConsistency(s, selected, confirmed);
      }
      FolderCommandsPreserveConsistency(ApplyFolderCommand(s, cmds[0]), cmds[1..]);
    }
  }
}
