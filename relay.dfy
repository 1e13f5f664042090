/**
 * The two halves together: a message sent by a click on the content
 * script's button, received by the background script.
 */
module Relay {
  import opened Wrappers
  import opened JsValues
  import opened JsStrings
  import opened UriComponent
  import opened BrowserTabs
  import opened ContentScript
  import Background

  /**
   * A click that sends a message makes background.js open exactly one tab:
   * with the results URL for the trimmed query, not focused, right after the
   * sending tab (or at the end of the tab strip).
   */
  lemma ClickOpensOneTabNextToSender(l: ClickListener, elements: map<NodeId, Element>, senderIndex: int, tabCount: nat)
    requires |ListenerMessages(l, elements)| == 1
    ensures l.searchInput.Some? && ResultsUrl(ValueOf(elements, l.searchInput.value)).Some?
    ensures var url := ResultsUrl(ValueOf(elements, l.searchInput.value)).value;
      ListenerMessages(l, elements)[0] == Message(Str(url))
      && Decode(url[|RESULTS_URL|..]) == Some(Trim(ValueOf(elements, l.searchInput.value)))
    ensures var calls := Background.OnMessage(ListenerMessages(l, elements)[0], Some(Sender(Some(Tab(Some(senderIndex))))), tabCount);
      calls != [] && calls[0] == QueryAllTabs
      && Creates(calls) == [CreateProperties(ListenerMessages(l, elements)[0].url, Some(false), Some(Int(Background.NextIndex(senderIndex, tabCount))))]
  {
    var m := ListenerMessages(l, elements)[0];
    assert |RESULTS_URL| > 0;
    assert Truthy(m.url);
  }
}
