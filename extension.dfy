/** Properties of the scripts together: what becomes of the notes the page
    dialog sends. */
module Extension {
  import Content
  import Background

  /** Whatever happens on a page, every message its content script sends
      lands in the background router's default branch: a note saved from the
      page dialog never reaches the bucket. */
  lemma PageNotesAreNeverStored(page: Content.Page, events: seq<Content.PageEvent>)
    requires Content.AllWellFormed(page.sent)
    ensures var sent := Content.Run(page, events).sent;
      forall i :: 0 <= i < |sent| ==> Background.Route(sent[i]) == Background.Reply(Background.Unhandled, true)
  {
    Content.RunSendsWellFormed(page, events);
    var sent := Content.Run(page, events).sent;
    forall i | 0 <= i < |sent|
      ensures Background.Route(sent[i]) == Background.Reply(Background.Unhandled, true)
    {
      assert Content.WellFormedSend(sent[i]);
      Background.SaveNoteIsUnhandled(sent[i].payload);
    }
  }
}
