# YouTube Notes Pro — a Dafny model of its notes store and handlers

YouTube Notes Pro is a browser extension for timestamped notes on YouTube
videos. Notes are kept in folders. Three scripts share one local-storage
bucket with two keys:

- `notes` maps each folder name to that folder's list of notes;
- `folders` lists the folder names in order.

This project models what the three scripts compute and proves properties of
that model:

- the popup's handlers (`popup.js`), which read the bucket, compute a new one
  and write it back;
- the page script (`content.js`), which captures a note in a dialog on the
  video page and sends it to the extension;
- the background worker (`background.js`), which initialises the bucket at
  install time, guards the context-menu click and routes runtime messages.

Platform calls are not modelled. Their results are inputs:

- the bucket as read;
- the active tab's id;
- what the page script reports about the video;
- the user's answer to a confirmation;
- the creation instant.

## Modules

- `JsBuiltins` (`js_builtins.dfy`) holds the JavaScript built-ins the scripts
  lean on:
  - `trim`, with ECMAScript's whitespace set;
  - `toString` for whole numbers;
  - `padStart`;
  - a regular expression of literal alternatives, modelled as substring search;
  - the two uses of `filter`;
  - `tab?.id` truthiness.
- `NotesStore` (`notes_store.dfy`) holds the bucket `Store`, with both keys
  optional because the scripts treat an absent key specially. It defines:
  - `Consistent`: the keys of `notes` are exactly the listed folders,
    "Default" is listed, and no name is listed twice;
  - `DefaultFirst`: "Default" heads the list;
  - the initial bucket;
  - the note-append step.
- `NoteOrder` (`note_order.dfy`) holds the display order. `SortByTimestamp` is
  a stable insertion sort on sequences: ascending timestamps, with notes of
  equal timestamp kept in stored order. `SortNotesInPlace` is the in-place
  array sort `renderNotes` performs, proved equal to it.
- `Popup` (`popup.dfy`) holds each popup handler's write as a function from
  bucket to bucket:
  - initialise, create folder, delete folder, save note, delete note;
  - each with its rejection cases and its preservation lemma;
  - the displayed list;
  - the `M:SS` timestamp format and its inverse.
- `PopupUi` (`popup_page.dfy`) holds the popup page as a class. Its fields are:
  - the bucket's two keys;
  - the dropdown selection;
  - the delete-folder button's `disabled` flag;
  - the two text inputs;
  - the dialog;
  - the list shown.

  Each handler is a method, with its storage callback, proved against the
  matching `Popup` function. Each method also preserves the page invariant
  `Valid`.
- `Messages` (`messages.dfy`) holds the runtime messages: an `action` tag and
  an optional note payload.
- `Content` (`content.dfy`) holds the page script:
  - the page is a value: the dialog, if one is shown, and the messages sent;
  - the handlers are functions on it;
  - `Run` plays any sequence of page events.
- `Background` (`background.dfy`) holds the install
  listener, the click guard, the router and the URL check.
- `Extension` (`extension.dfy`) relates the scripts. Every message the page
  script can ever send lands in the router's default branch.

## The context-menu message is never sent

Nothing in the three scripts sends `addNoteFromContextMenu`. The
context-menu click handler (`background.js:53-71`) only injects `content.js`
into the tab. `Background.OnMenuClicked` therefore decides only whether to
inject, and the capture branch of `Content.OnMessage` is never reached in the
extension as written. It is modelled as the listener's code says.

## Model

| member | source | states |
|---|---|---|
| JsBuiltins.Trim | popup.js:82 | `s.trim()` is a slice of `s` between two (possibly empty) runs of JavaScript whitespace; it neither starts nor ends with whitespace; it is empty exactly when `s` is blank |
| JsBuiltins.TrimIdempotent | content.js:112 | trimming an already trimmed text changes nothing |
| JsBuiltins.NatToString | popup.js:212 | `toString` of a whole number: a non-empty digit string that denotes the number, with no leading zero, and at most two digits below 100 |
| JsBuiltins.PadStart | popup.js:212 | `padStart(n, fill)`: the length is the larger of `n` and the input's length; the input is at the end; only `fill` precedes it |
| JsBuiltins.Contains | background.js:109 | a literal pattern's `test` is true exactly when the pattern occurs at some position of the string |
| JsBuiltins.RemoveAll | popup.js:126 | `filter(f => f !== x)` keeps exactly the elements other than `x`; it is the identity when `x` is absent; it keeps the head when the head is not `x`; how often each element is kept and in what order is stated by the next three rows |
| JsBuiltins.RemoveAllCounts | popup.js:126 | filtering keeps every other element exactly as often as it occurs and drops every copy of `x` (multiset equality) |
| JsBuiltins.RemoveAllConcat | popup.js:126 | filtering works in list order: the filter of a concatenation is the concatenation of the filters |
| JsBuiltins.RemoveAllSingle | popup.js:126 | a single element is kept exactly when it is not `x`; with RemoveAllConcat this fixes the result of `filter` on every list |
| JsBuiltins.RemoveAllUnique | popup.js:126 | on a duplicate-free list, filtering out the name at position `k` cuts out exactly that position and keeps the order of the rest |
| JsBuiltins.RemoveAllNoDuplicates | popup.js:126 | filtering keeps a list free of duplicates |
| JsBuiltins.RemoveAt | popup.js:223 | `filter((_, index) => index !== n)` cuts out position `n`, keeps every other element in order and removes one copy of `xs[n]` from the multiset; an out-of-range `n` leaves the list unchanged |
| JsBuiltins.TruthyId | background.js:55 | `tab?.id` as a condition: the id is present and not 0 (also `tabs[0]?.id` at popup.js:262); no contract of its own, it is the guard in `Background.OnMenuClicked` and `Popup.SaveNewNote` |
| NotesStore.InitialStoreIsConsistent | background.js:23-26 | `{notes: {Default: []}, folders: ['Default']}` is consistent, with "Default" first |
| NotesStore.UpdateKeepsOthers | popup.js:98 | helper: a general fact about one-key map updates (the spread `{ ...notes, [folderName]: [] }`): that key is added and every other folder's key and list stay as they were |
| NotesStore.NotesOrDefault | popup.js:90 | the fallback for a missing `notes` key: the stored notes map, or `{Default: []}` when the key is absent (also popup.js:288); no contract of its own, it is used by `Popup.CreateFolder` and `NotesStore.AppendNote` |
| NotesStore.FoldersOrDefault | popup.js:89 | the fallback for a missing `folders` key: the stored folder list, or `["Default"]` when the key is absent; no contract of its own, it is used by `Popup.CreateFolder` |
| NotesStore.AppendNote | popup.js:287-295 | saving writes `notes` only: it falls back to `{Default: []}` under `notes`, creates the folder's list if missing, puts the note at its end (one longer), adds at most the folder's key, and changes no other folder |
| NotesStore.AppendNotePreservesConsistency | popup.js:287-297 | appending to a listed folder keeps the bucket consistent, with "Default" first |
| NoteOrder.InsertPermutes | popup.js:175 | one insertion step adds exactly the inserted note to the multiset |
| NoteOrder.InsertSorted | popup.js:175 | inserting into a list sorted by timestamp keeps it sorted |
| NoteOrder.Insert | popup.js:175 | one step of the stable sort, one note longer than its input; where the note goes (after every note of no greater timestamp) is stated by InsertPermutes, InsertSorted and InsertStable |
| NoteOrder.InsertStable | popup.js:175 | inserting into a sorted list keeps the order of the notes of each timestamp, the inserted note going after those of its own timestamp |
| NoteOrder.SortByTimestamp | popup.js:175 | the comparator sort `(a, b) => a.timestamp - b.timestamp` on a list, as long as its input; that it is a sorted, stable permutation is stated by SortByTimestampPermutes, SortByTimestampSorts and SortIsStable |
| NoteOrder.SortByTimestampPermutes | popup.js:175 | the sorted list is a permutation of the stored one |
| NoteOrder.SortByTimestampSorts | popup.js:175 | the sorted list ascends by timestamp |
| NoteOrder.SortIsStable | popup.js:175 | for every timestamp, the notes with that timestamp appear in the sorted list in their stored order |
| NoteOrder.SortSorted | popup.js:175 | sorting a list already in timestamp order returns it unchanged |
| NoteOrder.SortNotesInPlace | popup.js:175 | `notes.sort((a, b) => a.timestamp - b.timestamp)` on an array leaves the stable timestamp sort of its old contents |
| NoteOrder.InsertionSort | popup.js:175 | the loop that sorts the array prefix by prefix ends with the stable sort of the original contents |
| NoteOrder.InsertLast | popup.js:175 | shifting an element into an already sorted prefix makes the prefix that element's sorted insertion, and leaves the rest of the array alone |
| Popup.Initialize | popup.js:39-54 | the initial bucket is written when `notes` or `folders` is absent; otherwise the bucket is left as it is |
| Popup.InitializeEstablishesConsistency | popup.js:39-54 | after initialisation, starting from a missing key, or from a consistent bucket with "Default" first, the bucket is consistent with "Default" first (an existing folder list is kept as it is, so a consistent list that does not start with "Default" stays that way); a second initialisation writes nothing |
| Popup.InitializeKeepsFolderOrder | popup.js:39-54 | consistency alone is not enough for "Default" first: a consistent bucket that lists "Work" before "Default" keeps that order, because an existing folder list is left as it is |
| Popup.FirstOption | popup.js:66-74 | once the options are rebuilt, the first option is selected, or none when there are no options |
| Popup.SelectValue | popup.js:105 | assigning `folderSelect.value` selects that option when it is listed and none otherwise |
| Popup.DeleteButtonDisabled | popup.js:315 | the delete-folder button is disabled exactly when the selection is "Default" (also popup.js:74); no contract of its own, it is what `PopupUi.PopupPage.Valid` and the page methods keep the button equal to |
| Popup.CreateFolder | popup.js:81-110 | an empty trimmed name or a listed name writes nothing. Otherwise the trimmed name is appended to the folder list, under the `||` fallbacks, and gets an empty list in `notes`; every other folder is unchanged |
| Popup.CreateFolderPreservesConsistency | popup.js:97-102 | creating a folder keeps the bucket consistent and "Default" first, and the new name is then listed |
| Popup.DeleteDisabledAfterCreateAsWritten | popup.js:104-105 | the button as written after a create: `populateFolderDropdown` sets it from the first option (popup.js:74), and the later `folderSelect.value = folderName` leaves it alone; no contract of its own, it is the as-written half of Finding C, used by `Popup.CreateFolderLeavesDeleteButtonDisabled` |
| Popup.CreateFolderLeavesDeleteButtonDisabled | popup.js:104-105 | as written, after a successful create the button keeps the state computed for the first option ("Default": disabled), though the new selection is not "Default" |
| Popup.DeleteFolder | popup.js:116-140 | selecting "Default", declining the confirmation or an absent `folders` writes nothing. Otherwise exactly the other names stay listed, the selected key leaves `notes`, and every other list is kept |
| Popup.DeleteFolderPreservesConsistency | popup.js:126-132 | deleting a folder keeps the bucket consistent and "Default" first; the remaining names keep their order, the deleted one cut out of its position |
| Popup.SaveProceedsAsWrittenFor | popup.js:274-278 | the guard as written, `timestamp === null`: the save goes on for every probe except the one where the page reports no video; no contract of its own, it is the as-written half of Finding A, used by `Popup.FailedScriptPassesSaveGuard` |
| Popup.FailedScriptPassesSaveGuard | popup.js:274-278 | as written, the `=== null` guard lets a failed script through, though no timestamp was read |
| Popup.SaveNewNote | popup.js:254-304 | empty trimmed text, no truthy tab id, or no read timestamp writes nothing. Otherwise the note (read timestamp, trimmed text, creation instant) is appended to the folder |
| Popup.SaveNewNotePreservesConsistency | popup.js:287-297 | saving into a listed folder keeps the bucket consistent; on success that folder's list grows by one note at its end, its old contents form the prefix, and no other folder changes |
| Popup.DeleteNote | popup.js:219-229 | position `index` is cut out of the folder's stored list, and nothing else changes. Without `notes` or without the folder's key the handler throws, and nothing is written |
| Popup.DeleteNotePreservesConsistency | popup.js:222-225 | deleting a note keeps the bucket consistent with "Default" first |
| Popup.NotesOf | popup.js:152 | loading a folder that is absent, or a bucket without `notes`, gives the empty list; otherwise it gives the stored list |
| Popup.Displayed | popup.js:150-175 | the list renderNotes draws for a folder: loadNotes' list sorted by timestamp; no contract of its own, its properties are Popup.DisplayedIsStableSort |
| Popup.DisplayedIsStableSort | popup.js:175 | the list shown is the stored list (as many copies of each note), ascending by timestamp, with equal timestamps in stored order |
| Popup.DeleteRemovesClickedNoteIff | popup.js:177-193 | the note removed by the button at displayed position `i` is the one clicked exactly when the stored list holds that note at position `i` |
| Popup.DeleteInSortedFolderRemovesClickedNote | popup.js:223 | when the stored list is already in display order, the clicked note is the one removed, and the new display is the old one without it |
| Popup.RemoveAtKeepsSorted | popup.js:223 | cutting a position out of a sorted list keeps it sorted |
| Popup.DeleteFromUnsortedFolderRemovesAnotherNote | popup.js:223 | with two notes stored latest first, the first delete button shown belongs to the earlier note but removes the later one |
| Popup.SaveThenListShowsThatNote | popup.js:281-299 | saving a note into a folder that shows nothing and listing that folder shows exactly the saved note: its timestamp, trimmed text and creation instant |
| Popup.PaddedTwoDigits | popup.js:212 | for seconds below 100, `toString().padStart(2, '0')` has exactly two digits, denoting the number |
| Popup.FormatTimestamp | popup.js:209-213 | the rendering is the minutes `t div 60` in decimal, a colon, and exactly two digits denoting `t mod 60`, which is below 60 |
| Popup.ParseFormatRoundTrip | popup.js:209-213 | reading the `M:SS` text back gives the timestamp |
| Popup.FormatTimestampInjective | popup.js:209-213 | different timestamps render differently |
| Popup.FormatTimestampPieces | popup.js:210-212 | helper: unfolds the rendering into the template's three pieces joined, for the example lemmas below |
| Popup.FormatTimestampExample | popup.js:209-213 | 125 renders as "2:05" |
| Popup.FormatTimestampFirstMinute | popup.js:210-212 | below 60 seconds the minutes field is "0" |
| Popup.FormatTimestampLastSecond | popup.js:209-213 | 59 renders as "0:59" |
| Popup.FormatTimestampWholeMinutes | popup.js:210-212 | a whole number of minutes renders with seconds "00", and minutes are never carried into hours |
| Popup.FormatTimestampHour | popup.js:209-213 | 3600 renders as "60:00" |
| Popup.CreateOnInitialStore | popup.js:89-102 | creating a folder from any non-blank raw name whose trimmed form is not "Default", on the initial bucket, gives exactly the folders `["Default", name]` and the notes `{Default: [], name: []}` for the trimmed name |
| Popup.CreateOnInitialAccepted | popup.js:82-95 | on the initial bucket such a name is neither empty after trimming nor already listed, so the create goes ahead |
| Popup.CreateOnInitialFolders | popup.js:88-97 | an accepted create on the initial bucket writes the folder list `["Default", name]` |
| Popup.CreateOnInitialNotes | popup.js:88-98 | an accepted create on the initial bucket writes the notes map `{Default: [], name: []}` |
| Popup.DeleteBackToInitialStore | popup.js:126-132 | deleting that folder again, whatever notes it holds, gives back the initial bucket: its notes are discarded |
| Popup.LecturesCreated | popup.js:97-98 | creating "Lectures" on the initial bucket gives folders `["Default", "Lectures"]` and notes `{Default: [], Lectures: []}` |
| Popup.LecturesDeleted | popup.js:126-128 | deleting "Lectures" while it holds one note gives back `{notes: {Default: []}, folders: ["Default"]}` |
| Popup.FolderCommandsPreserveConsistency | popup.js:81-140 | after any sequence of folder creations and deletions, with any names, selections and answers, the bucket stays consistent with "Default" first |
| PopupUi.PopupPage.constructor | popup.js:38-56 | opening the popup writes what `Initialize` writes, selects the first folder, sets the button from it and shows that folder; the inputs are empty and the dialog is closed; the page is valid when a key is missing, or when the bucket is consistent with "Default" first |
| PopupUi.PopupPage.ShowFolders | popup.js:47-48 | after the first-run set-up the first option is selected, the button follows it and the given folder is shown |
| PopupUi.PopupPage.PopulateFolderDropdown | popup.js:66-75 | the first option is selected and the button is disabled exactly when that option is "Default" |
| PopupUi.PopupPage.SetSelection | popup.js:105 | a scripted `folderSelect.value` assignment changes the selection only and does not touch the button |
| PopupUi.PopupPage.LoadNotes | popup.js:150-155 | the list shown is the folder's stored list (or none), sorted in place by timestamp |
| PopupUi.PopupPage.CreateFolder | popup.js:81-110 | the bucket becomes `Popup.CreateFolder` of the old bucket and input. A rejected name changes nothing on the page. On success the new folder is selected and shown empty, the input is cleared and the button is enabled (corrected update). The page invariant is kept |
| PopupUi.PopupPage.CommitNewFolder | popup.js:100-108 | createFolder's callback writes both keys, rebuilds the dropdown, selects the new folder, clears the input and shows the folder |
| PopupUi.PopupPage.DeleteFolder | popup.js:116-140 | the bucket becomes `Popup.DeleteFolder` of the old bucket. A rejected deletion changes nothing on the page. On success "Default" is selected and shown and the button follows the first option. The page invariant is kept |
| PopupUi.PopupPage.CommitFolderDeletion | popup.js:130-137 | deleteFolder's callback writes both keys, rebuilds the dropdown, selects "Default" and shows it |
| PopupUi.PopupPage.OpenNoteDialog | popup.js:319-322 | the add-note button empties the text area and opens the dialog |
| PopupUi.PopupPage.CancelNoteDialog | popup.js:323 | the cancel button closes the dialog |
| PopupUi.PopupPage.SaveNewNote | popup.js:254-304 | the bucket becomes `Popup.SaveNewNote` for the selected folder. A rejected save leaves the dialog and the list as they were. A successful one closes the dialog and shows the folder again. The page invariant is kept |
| PopupUi.PopupPage.CommitNote | popup.js:287-300 | the note is appended to the folder's list, the dialog closes and the folder is shown again; this keeps the page invariant when the folder is the selected one |
| PopupUi.PopupPage.DeleteNote | popup.js:219-229 | the bucket becomes `Popup.DeleteNote` for the selected folder and that folder is shown again; when the handler throws, the list is not redrawn; the page invariant is kept |
| PopupUi.PopupPage.CommitNoteDeletion | popup.js:221-227 | deleteNote's storage step cuts the position out of the folder's list and shows it again |
| PopupUi.PopupPage.SelectFolder | popup.js:313-316 | picking a listed folder selects and shows it, and the button is disabled exactly when it is "Default"; the page invariant is kept |
| Content.FormatTime | content.js:35-39 | formatTime agrees with the popup's formatTimestamp on every whole number of seconds |
| Content.FormatTimeExample | content.js:33 | `formatTime(125)` is "2:05", as documented |
| Content.ShowNoteInput | content.js:50-76 | a dialog for the timestamp is shown with an empty text area, and nothing is sent |
| Content.HandleContextMenuNote | content.js:161-168 | a dialog is shown exactly when a video time was read; without a video the page is unchanged; nothing is sent |
| Content.TypeNote | content.js:58-62 | typing changes only the dialog's text |
| Content.SaveNote | content.js:125-135 | the message is a `saveNote` carrying the captured timestamp, the given text and folder "Default" |
| Content.OnSaveClick | content.js:111-117 | a blank text area sends nothing and keeps the dialog. Otherwise one `saveNote` with the trimmed text and the dialog's timestamp is sent, and the dialog is removed |
| Content.OnCancelClick | content.js:106-109 | cancel removes the dialog and sends nothing |
| Content.OnMessage | content.js:146-156 | only `addNoteFromContextMenu` does anything, and it does what handleContextMenuNote does; no message is sent |
| Content.Step | content.js:105-156 | one event of the modelled page handlers: a runtime message goes to the listener; typing, save and cancel act on the dialog and do nothing without one; its properties are Content.StepSendsWellFormed |
| Content.Run | content.js:105-156 | the page after any sequence of those events, one after another; its properties are Content.RunSendsWellFormed |
| Content.SaveClickSendsWellFormed | content.js:111-117 | a save click sends at most one message, without touching earlier ones; a message sent is a `saveNote` in "Default" with non-empty, trimmed text |
| Content.StepSendsWellFormed | content.js:105-156 | any single page event keeps the messages already sent and sends at most one, well-formed |
| Content.RunSendsWellFormed | content.js:105-156 | after any sequence of events of the modelled handlers (runtime message, typing, save, cancel), messages once sent stay sent, and every message those handlers sent is well-formed; the error listener is not among them |
| Background.OnInstalled | background.js:21-41 | the install listener writes exactly `{notes: {Default: []}, folders: ['Default']}`, whatever the bucket and the reason; that bucket is consistent with "Default" first |
| Background.UpdateWipesNotes | background.js:21-26 | as written, a bucket holding a note in "Default" comes back from the listener with "Default" empty, whatever the reason |
| Background.OnInstalledKeepingData | background.js:21-26 | the corrected listener writes the initial bucket only when a key is missing and otherwise keeps the bucket |
| Background.KeepingDataIsSafe | background.js:21-26 | from a missing key, or from a consistent bucket with "Default" first, the corrected listener leaves a consistent bucket with "Default" first, and it keeps every note of a bucket that has both keys |
| Background.OnMenuClicked | background.js:53-71 | injection is requested exactly when the item is "addYouTubeNote" and the tab has a truthy id, and it targets that id |
| Background.Route | background.js:82-97 | the router always returns true; exactly `getAuthToken` takes the first stub, exactly `syncNotes` the second, and every other action the default branch |
| Background.SaveNoteIsUnhandled | background.js:83-94 | `saveNote` and `logError` fall to the default branch, whatever their payload |
| Background.IsValidYouTubeUrl | background.js:108-110 | a URL is valid exactly when "youtube.com" or "youtu.be" occurs somewhere in it |
| Background.ShortLinkIsValid | background.js:109 | a `youtu.be` short link is accepted |
| Background.LookalikeHostIsValid | background.js:109 | the pattern is not anchored to the host, so "https://notyoutube.com/" is accepted |
| Extension.PageNotesAreNeverStored | content.js:125-135 | after any sequence of events of the modelled page handlers, every message they have sent reaches the background router's default branch, so no note captured on the page is stored |

## Left out

- Platform I/O is not modelled: `chrome.storage`, `chrome.tabs`, `chrome.scripting`, `chrome.contextMenus` and `chrome.runtime` messaging. Each handler takes what these calls return as inputs: the bucket, the tab id, the page script's report, the video time.
- `new Date().toISOString()` and `Date.now()` are opaque strings passed in (`createdAt`).
- Reading `video.currentTime` and flooring it is not modelled, because it is floating point on the host page. It is an input, either a whole number of seconds or none. `getTimestamp` (`content.js:23-26`) is therefore that input. JavaScript numbers are doubles: integers above 2^53 are not exact and `toString` writes 1e21 and above in exponent form. Timestamps are taken to be below these bounds, so `JsBuiltins.NatToString` and `Popup.FormatTimestamp` give plain decimal digits.
- `seekToTimestamp` (`popup.js:235-248`) is not modelled: it only runs a script in the page, with no effect on the bucket or the popup.
- Callbacks that interleave, or run concurrently with other scripts, are not modelled. Each handler runs to completion, its callbacks included. The model therefore does not capture:
  - a selection changed between clicking save and the storage callback (`popup.js:280`);
  - updates lost between the popup and other contexts.
- DOM markup and styling are not modelled: `renderNotes`' markup and empty-list message, `createDialogElement`, and the option elements `populateFolderDropdown` builds. Only the selection and the button state those produce are kept.
- `alert`, `confirm` and `console` logging are not modelled. A rejection writes nothing, and the confirmation answer is an input.
- The menu item registration (`contextMenus.create`, `background.js:32-40`) is not modelled, only its id. Its URL patterns and contexts belong to the browser.
- The script injection on click and its failure (`background.js:60-69`) are not modelled. `Background.OnMenuClicked` decides whether to inject.
- The page script's global error listener (`content.js:175-185`) is not modelled. It logs the error and sends a `logError` runtime message (`content.js:177-184`). `Background.SaveNoteIsUnhandled` shows that the router does not handle `logError`. The well-formedness of sent messages (`Content.RunSendsWellFormed`) covers only the modelled page handlers, not this listener.
- The regular expression in `isValidYouTubeUrl` is a substring test of its two literal alternatives. There is no general regex engine.
- Content.HandleContextMenuNote: a second capture while a dialog is on the page adds a second dialog. The model keeps one dialog, and the newer one replaces the older. So the model does not capture the following, and `Content.SaveClickSendsWellFormed` and `Content.StepSendsWellFormed` hold for this model, not for the source on that branch. `setupDialogEvents` finds the buttons and the text area by id (`content.js:105-118`), and the first element with an id wins. So the second dialog's listeners attach to the first dialog's buttons, and the second dialog's own buttons do nothing. One click on the first dialog's Save runs every save listener attached to it, and each reads whichever text area is first on the page at that moment, so one click can send more than one `saveNote`. The same happens after Esc, which closes a dialog without removing it: its buttons keep the ids, and the next dialog's listeners attach to them. The branch is unreachable, because nothing sends `addNoteFromContextMenu` (see "The context-menu message is never sent").
- Popup.SaveNewNote: as written, a failed page script stores a note whose timestamp is `undefined`. A `nat` timestamp cannot hold that note. The model states the guard's discrepancy (`Popup.FailedScriptPassesSaveGuard`) and uses the corrected guard.
- PopupUi.PopupPage.SaveNewNote: inherits the corrected guard of `Popup.SaveNewNote`, so a failed page script writes nothing and leaves the dialog open.
- PopupUi.PopupPage.CreateFolder: the class updates the delete button after the new folder is selected, which is the corrected behaviour. The as-written state is stated by `Popup.CreateFolderLeavesDeleteButtonDisabled`.
- PopupUi.PopupPage.CommitNewFolder: sets the delete button from the new selection after `SetSelection`, which `popup.js:103-108` does not do; this is where the corrected update of `PopupUi.PopupPage.CreateFolder` lives.

## Findings

| source | as written | input that shows it | evidently intended | confidence | as-written member | corrected member |
|---|---|---|---|---|---|---|
| popup.js:274-278 | `results?.[0]?.result` is `undefined` when the page script yields no result, and `undefined === null` is false, so the save goes on without a timestamp | the script fails to run in the active tab: `results` is empty or undefined | only a read timestamp lets the save proceed | not executed | Popup.FailedScriptPassesSaveGuard | Popup.SaveNewNote |
| popup.js:104-105 | `populateFolderDropdown` sets the delete button from the first option ("Default": disabled); the following `folderSelect.value = folderName` fires no change event, so the button stays disabled for the new folder | creating the folder "Work" on the initial bucket | the button is enabled for the newly selected non-Default folder, as the change handler at popup.js:313-316 would set it | not executed | Popup.CreateFolderLeavesDeleteButtonDisabled | PopupUi.PopupPage.CreateFolder |
| background.js:21-26 | the install listener overwrites the bucket whatever the install reason; `onInstalled` also fires on an extension or browser update, so every note is lost | extension update on a bucket holding one note in "Default" | initial values written only where a key is missing (the popup's first-run rule at popup.js:40) | not executed | Background.UpdateWipesNotes | Background.OnInstalledKeepingData |
