/** The background service worker: the bucket its install listener writes,
    the context-menu click guard, the runtime message router, and the URL
    check. Storage, tabs, script injection and menus are platform calls; each
    handler is modelled by what it decides. */
module Background {
  import opened JsBuiltins
  import opened NotesStore
  import opened Messages
  import Popup

  // ---------------------------------------------------------------------------
  // onInstalled

  /** Why chrome.runtime.onInstalled fired. The listener ignores it. */
  datatype InstallReason = Install | Update | ChromeUpdate | SharedModuleUpdate

  /** The id of the "Add YouTube Note" menu item the install listener creates. */
  const MenuItemId: string := "addYouTubeNote"

  /** The bucket after the install listener: `{notes: {Default: []}, folders:
      ['Default']}` whatever it held before and whatever the reason, which is
      a consistent bucket with "Default" first. */
  function OnInstalled(s: Store, reason: InstallReason): (r: Store)
    ensures r.notes == Some(map[DefaultFolder := []]) && r.folders == Some([DefaultFolder])
    ensures Consistent(r) && DefaultFirst(r)
  {
    InitialStoreIsConsistent();
    InitialStore
  }

  /** As written, an extension or browser update wipes the notes: a bucket
      holding a note in "Default" comes back with that folder empty. */
  lemma UpdateWipesNotes(s: Store, reason: InstallReason)
    requires s.notes.Some? && DefaultFolder in s.notes.value && s.notes.value[DefaultFolder] != []
    ensures OnInstalled(s, reason).notes.value[DefaultFolder] == []
    ensures OnInstalled(s, reason) != s
  {
    assert OnInstalled(s, reason).notes.value != s.notes.value;
  }

  /** The install listener as evidently intended: the initial bucket only
      where a key is missing, an existing bucket kept (the popup's first-run
      rule). */
  function OnInstalledKeepingData(s: Store, reason: InstallReason): (r: Store)
    ensures s.notes.None? || s.folders.None? ==> r == OnInstalled(s, reason)
    ensures s.notes.Some? && s.folders.Some? ==> r == s
  {
    Popup.Initialize(s)
  }

  /** The corrected listener never loses a note and always leaves a
      consistent bucket with "Default" first when it starts from one (or from
      a fresh install). */
  lemma KeepingDataIsSafe(s: Store, reason: InstallReason)
    requires s.notes.None? || s.folders.None? || (Consistent(s) && DefaultFirst(s))
    ensures Consistent(OnInstalledKeepingData(s, reason)) && DefaultFirst(OnInstalledKeepingData(s, reason))
    ensures s.notes.Some? && s.folders.Some? ==> OnInstalledKeepingData(s, reason).notes == s.notes
  {
    Popup.InitializeEstablishesConsistency(s);
  }

  // ---------------------------------------------------------------------------
  // contextMenus.onClicked

  /** The tab a click came from; `id` may be missing. */
  datatype Tab = Tab(id: Option<int>)

  /** The click guard: the id of the tab to inject the content script into, or
      None when nothing happens. Injection needs our menu item and a tab with
      a truthy id (0 is falsy). */
  function OnMenuClicked(menuItemId: string, tab: Option<Tab>): (target: Option<int>)
    ensures target.Some? <==> menuItemId == MenuItemId && tab.Some? && TruthyId(tab.value.id)
    ensures target.Some? ==> target == tab.value.id && target.value != 0
  {
    if menuItemId == MenuItemId && tab.Some? && TruthyId(tab.value.id) then tab.value.id else None
  }

  // ---------------------------------------------------------------------------
  // runtime.onMessage

  /** The branch of the router's switch a request lands in. The two named
      branches are empty stubs. */
  datatype Branch = AuthTokenStub | SyncNotesStub | Unhandled

  /** What the listener does with a request: the branch it takes and whether
      it keeps the response channel open (its return value). No branch
      touches storage, so the bucket is not part of it. */
  datatype Reply = Reply(branch: Branch, keepChannelOpen: bool)

  function Route(request: Request): (r: Reply)
    ensures r.keepChannelOpen
    ensures r.branch == AuthTokenStub <==> request.action == GetAuthTokenAction
    ensures r.branch == SyncNotesStub <==> request.action == SyncNotesAction
  {
    var branch := match request.action
      case "getAuthToken" => AuthTokenStub
      case "syncNotes" => SyncNotesStub
      case _ => Unhandled;
    Reply(branch, true)
  }

  /** A `saveNote` or `logError` request falls to the default branch, which
      only logs: the note or error it carries is not stored. */
  lemma SaveNoteIsUnhandled(payload: Payload)
    ensures Route(Request(SaveNoteAction, payload)) == Reply(Unhandled, true)
    ensures Route(Request(LogErrorAction, payload)) == Reply(Unhandled, true)
  {
    assert SaveNoteAction != GetAuthTokenAction && SaveNoteAction != SyncNotesAction;
    assert LogErrorAction != GetAuthTokenAction && LogErrorAction != SyncNotesAction;
  }

  // ---------------------------------------------------------------------------
  // isValidYouTubeUrl

  /** `/youtube\.com|youtu\.be/.test(url)`: one of the two host names occurs
      somewhere in `url`. */
  function IsValidYouTubeUrl(url: string): (r: bool)
    ensures r <==> (exists i :: OccursAt(url, "youtube.com", i)) || (exists i :: OccursAt(url, "youtu.be", i))
  {
    Contains(url, "youtube.com") || Contains(url, "youtu.be")
  }

  /** A short link is accepted. */
  lemma ShortLinkIsValid()
    ensures IsValidYouTubeUrl("https://youtu.be/x")
  {
    assert OccursAt("https://youtu.be/x", "youtu.be", 8);
  }

  /** The pattern is not anchored to the host: a look-alike host passes. */
  lemma LookalikeHostIsValid()
    ensures IsValidYouTubeUrl("https://notyoutube.com/")
  {
    assert OccursAt("https://notyoutube.com/", "youtube.com", 11);
  }
}
