/**
 * eventPage.js: the older background page. Its listener reads
 * `sender.tab.index` without any check and creates a tab for every message.
 */
module EventPage {
  import opened Wrappers
  import opened JsValues
  import opened BrowserTabs
  import Background

  /** The listener either returns, having made its calls, or throws on reading a property of undefined. */
  datatype Outcome = Returned(calls: seq<TabsCall>) | ThrewTypeError

  /** `activeTabIndex + 1`, moved to the end when it is at or past `tabs.length`; NaN stays NaN. */
  function NextTabIndex(activeTabIndex: Num, tabCount: nat): (r: Num)
    ensures activeTabIndex == NaN <==> r == NaN
    ensures r.Int? ==> r.n <= tabCount && r.n <= activeTabIndex.n + 1
    ensures r.Int? ==> r.n == activeTabIndex.n + 1 || r.n == tabCount
  {
    match activeTabIndex
    case NaN => NaN
    case Int(i) =>
      var nextTabIndex := i + 1;
      if nextTabIndex >= tabCount then Int(tabCount) else Int(nextTabIndex)
  }

  /** openTabRightNextToActiveTab: an undefined `isActive` becomes false; then query, then create. */
  function OpenTabRightNextToActiveTab(url: JsValue, activeTabIndex: Num, isActive: Option<bool>, tabCount: nat): (calls: seq<TabsCall>)
    ensures |calls| == 2 && calls[0] == QueryAllTabs && calls[1].CreateTab?
    ensures calls[1].props == CreateProperties(url, Some(isActive.GetOr(false)), Some(NextTabIndex(activeTabIndex, tabCount)))
  {
    var active := if isActive == None then false else isActive.value;
    [QueryAllTabs, CreateTab(CreateProperties(url, Some(active), Some(NextTabIndex(activeTabIndex, tabCount))))]
  }

  /** `sender.tab.index`: a non-numeric index (read as undefined) turns into NaN once 1 is added to it. */
  function IndexValue(index: Option<int>): (r: Num)
    ensures r == NaN <==> index.None?
    ensures index.Some? ==> r == Int(index.value)
  {
    if index.Some? then Int(index.value) else NaN
  }

  /** The runtime.onMessage listener. */
  function OnMessage(request: Message, sender: Option<Sender>, tabCount: nat): (r: Outcome)
    ensures r == ThrewTypeError <==> sender.None? || sender.value.tab.None?
    ensures r.Returned? ==> |r.calls| == 2 && r.calls[0] == QueryAllTabs && r.calls[1].CreateTab?
    ensures r.Returned? ==> |Creates(r.calls)| == 1
    ensures r.Returned? ==> Creates(r.calls)[0].url == request.url && Creates(r.calls)[0].active == Some(false)
    ensures r.Returned? ==> Creates(r.calls)[0].index == Some(NextTabIndex(IndexValue(sender.value.tab.value.index), tabCount))
  {
    if sender.None? || sender.value.tab.None? then ThrewTypeError
    else Returned(OpenTabRightNextToActiveTab(request.url, IndexValue(sender.value.tab.value.index), None, tabCount))
  }

  /** The two copies of the placement rule agree on every numeric index. */
  lemma NextTabIndexAgrees(activeTabIndex: int, tabCount: nat)
    ensures NextTabIndex(Int(activeTabIndex), tabCount) == Int(Background.NextIndex(activeTabIndex, tabCount))
  {
  }

  /**
   * Where background.js would open a tab next to the sender, this listener makes
   * exactly the same calls; it differs only for a falsy url (it still creates a
   * tab), a sender without a numeric tab index (NaN index instead of default
   * placement) and a sender without a tab (it throws).
   */
  lemma ListenersAgree(message: Message, sender: Option<Sender>, tabCount: nat)
    ensures Truthy(message.url) && Background.HasTabIndex(sender) ==>
      OnMessage(message, sender, tabCount) == Returned(Background.OnMessage(message, sender, tabCount))
    ensures !Truthy(message.url) && sender.Some? && sender.value.tab.Some? ==>
      Background.OnMessage(message, sender, tabCount) == [] && |Creates(OnMessage(message, sender, tabCount).calls)| == 1
    ensures sender.Some? && sender.value.tab.Some? && sender.value.tab.value.index.None? ==>
      Creates(OnMessage(message, sender, tabCount).calls)[0].index == Some(NaN)
  {
    if Truthy(message.url) && Background.HasTabIndex(sender) {
      NextTabIndexAgrees(sender.value.tab.value.index.value, tabCount);
    }
  }
}
