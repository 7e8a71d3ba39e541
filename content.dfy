/** The content script on a YouTube page: the timestamp format, the note
    dialog it shows when asked to capture a note, its save and cancel buttons,
    and the messages it sends to the extension. The page is a value: the
    dialog (if one is shown) and the messages sent so far. The video's floored
    current time and the creation time of a note are inputs. */
module Content {
  import opened JsBuiltins
  import opened NotesStore
  import opened Messages
  import Popup

  /** formatTime: the same rendering as the popup's formatTimestamp. */
  function FormatTime(seconds: nat): (r: string)
    ensures r == Popup.FormatTimestamp(seconds)
  {
    var mins, secs := seconds / 60, seconds % 60;
    NatToString(mins) + ":" + PadStart(NatToString(secs), 2, '0')
  }

  /** The example in formatTime's documentation. */
  lemma FormatTimeExample()
    ensures FormatTime(125) == "2:05"
  {
    Popup.FormatTimestampExample();
  }

  /** The dialog showNoteInput adds: the timestamp it was opened at and what
      its text area holds. */
  datatype NoteDialog = NoteDialog(timestamp: nat, text: string)

  /** The page as the content script sees it. */
  datatype Page = Page(dialog: Option<NoteDialog>, sent: seq<Request>)

  /** showNoteInput: a dialog for `timestamp` with an empty text area. */
  function ShowNoteInput(page: Page, timestamp: nat): (r: Page)
    ensures r.dialog == Some(NoteDialog(timestamp, "")) && r.sent == page.sent
  {
    page.(dialog := Some(NoteDialog(timestamp, "")))
  }

  /** handleContextMenuNote, given the floored video time or None when the
      page has no video: a dialog is shown only for a video; nothing is ever
      sent. */
  function HandleContextMenuNote(page: Page, videoTime: Option<nat>): (r: Page)
    ensures r.sent == page.sent
    ensures videoTime.None? ==> r == page
    ensures videoTime.Some? ==> r.dialog == Some(NoteDialog(videoTime.value, ""))
  {
    if videoTime.Some? then ShowNoteInput(page, videoTime.value) else page
  }

  /** Typing into the dialog's text area. */
  function TypeNote(page: Page, text: string): (r: Page)
    requires page.dialog.Some?
    ensures r.dialog == Some(page.dialog.value.(text := text)) && r.sent == page.sent
  {
    page.(dialog := Some(page.dialog.value.(text := text)))
  }

  /** saveNote: the `saveNote` message carrying the note, filed under
      "Default". */
  function SaveNote(timestamp: nat, text: string, createdAt: string): (r: Request)
    ensures r.action == SaveNoteAction && r.payload.NotePayload?
    ensures r.payload.note.folder == Some(DefaultFolder)
    ensures r.payload.note.timestamp == timestamp && r.payload.note.description == text
  {
    Request(SaveNoteAction, NotePayload(Note(timestamp, text, createdAt, Some(DefaultFolder))))
  }

  /** The dialog's save button. A blank text area sends nothing and leaves
      the dialog as it is; otherwise the trimmed text is sent as a note at the
      dialog's timestamp and the dialog is removed. */
  function OnSaveClick(page: Page, createdAt: string): (r: Page)
    requires page.dialog.Some?
    ensures Blank(page.dialog.value.text) ==> r == page
    ensures !Blank(page.dialog.value.text) ==>
      && r.dialog.None?
      && r.sent == page.sent + [SaveNote(page.dialog.value.timestamp, Trim(page.dialog.value.text), createdAt)]
  {
    var text := Trim(page.dialog.value.text);
    if text != [] then
      Page(None, page.sent + [SaveNote(page.dialog.value.timestamp, text, createdAt)])
    else
      page
  }

  /** The dialog's cancel button: the dialog is closed and removed, nothing is
      sent. */
  function OnCancelClick(page: Page): (r: Page)
    requires page.dialog.Some?
    ensures r.dialog.None? && r.sent == page.sent
  {
    page.(dialog := None)
  }

  /** The runtime message listener, `videoTime` being what getTimestamp would
      read: only `addNoteFromContextMenu` does anything. */
  function OnMessage(page: Page, request: Request, videoTime: Option<nat>): (r: Page)
    ensures r.sent == page.sent
    ensures request.action != AddNoteFromContextMenuAction ==> r == page
    ensures request.action == AddNoteFromContextMenuAction ==> r == HandleContextMenuNote(page, videoTime)
  {
    match request.action
    case "addNoteFromContextMenu" => HandleContextMenuNote(page, videoTime)
    case _ => page
  }

  /** What can happen on the page: a runtime message arrives, the user types
      into the dialog, or presses one of its buttons. Typing and clicking do
      nothing while no dialog is shown. */
  datatype PageEvent =
    | Message(request: Request, videoTime: Option<nat>)
    | Type(text: string)
    | SaveClick(createdAt: string)
    | CancelClick

  function Step(page: Page, e: PageEvent): Page {
    match e
    case Message(request, videoTime) => OnMessage(page, request, videoTime)
    case Type(text) => if page.dialog.Some? then TypeNote(page, text) else page
    case SaveClick(createdAt) => if page.dialog.Some? then OnSaveClick(page, createdAt) else page
    case CancelClick => if page.dialog.Some? then OnCancelClick(page) else page
  }

  function Run(page: Page, events: seq<PageEvent>): Page
    decreases |events|
  {
    if events == [] then page else Run(Step(page, events[0]), events[1..])
  }

  /** A message the content script may send: a `saveNote` whose note is
      filed under "Default" and whose description is non-empty and already
      trimmed. */
  predicate WellFormedSend(r: Request) {
    && r.action == SaveNoteAction && r.payload.NotePayload?
    && r.payload.note.folder == Some(DefaultFolder)
    && r.payload.note.description != []
    && Trim(r.payload.note.description) == r.payload.note.description
  }

  predicate AllWellFormed(sent: seq<Request>) {
    forall i :: 0 <= i < |sent| ==> WellFormedSend(sent[i])
  }

  /** Saving sends at most one message, and that one is well-formed. */
  lemma SaveClickSendsWellFormed(page: Page, createdAt: string)
    requires page.dialog.Some? && AllWellFormed(page.sent)
    ensures var r := OnSaveClick(page, createdAt);
      && AllWellFormed(r.sent)
      && |page.sent| <= |r.sent| <= |page.sent| + 1
      && r.sent[..|page.sent|] == page.sent
  {
    var d := page.dialog.value;
    if !Blank(d.text) {
      var m := SaveNote(d.timestamp, Trim(d.text), createdAt);
      TrimIdempotent(d.text);
      assert WellFormedSend(m);
      AppendWellFormed(page.sent, m);
    }
  }

  lemma AppendWellFormed(sent: seq<Request>, m: Request)
    requires AllWellFormed(sent) && WellFormedSend(m)
    ensures AllWellFormed(sent + [m]) && (sent + [m])[..|sent|] == sent
  {
    forall i | 0 <= i < |sent| + 1 ensures WellFormedSend((sent + [m])[i]) {
      if i < |sent| {
        assert (sent + [m])[i] == sent[i];
      }
    }
  }

  /** One event keeps what was sent and sends at most one well-formed note. */
  lemma StepSendsWellFormed(page: Page, e: PageEvent)
    requires AllWellFormed(page.sent)
    ensures var r := Step(page, e);
      && AllWellFormed(r.sent)
      && |page.sent| <= |r.sent| <= |page.sent| + 1
      && r.sent[..|page.sent|] == page.sent
  {
    if e.SaveClick? && page.dialog.Some? {
      SaveClickSendsWellFormed(page, e.createdAt);
    } else {
      assert Step(page, e).sent == page.sent;
    }
  }

  /** Whatever happens on the page, messages once sent stay sent, and every
      message the content script sends is a well-formed note. */
  lemma {:induction false} RunSendsWellFormed(page: Page, events: seq<PageEvent>)
    requires AllWellFormed(page.sent)
    ensures var r := Run(page, events);
      && AllWellFormed(r.sent)
      && |page.sent| <= |r.sent| && r.sent[..|page.sent|] == page.sent
    decreases |events|
  {
    if events != [] {
      var next := Step(page, events[0]);
      StepSendsWellFormed(page, events[0]);
      RunSendsWellFormed(next, events[1..]);
      var r := Run(next, events[1..]);
      assert r.sent[..|page.sent|] == r.sent[..|next.sent|][..|page.sent|];
    }
  }
}
