/**
 * background.js: the message listener that opens a search-results tab next
 * to the tab that asked for it. The callback of `tabs.query` runs with the
 * number of open tabs, given here as `tabCount`.
 */
module Background {
  import opened Wrappers
  import opened JsValues
  import opened BrowserTabs

  /** What the listener does with one message. */
  datatype Action =
    | Ignore
    | OpenNextTo(url: JsValue, activeTabIndex: int)
    | OpenWithDefaults(url: JsValue)

  /** The index right after the active tab, but never past the end of the tab strip. */
  function NextIndex(activeTabIndex: int, tabCount: nat): (r: int)
    ensures r <= tabCount
    ensures r <= activeTabIndex + 1
    ensures r == activeTabIndex + 1 || r == tabCount
    ensures activeTabIndex >= 0 ==> 0 <= r
    ensures activeTabIndex + 1 < tabCount ==> r == activeTabIndex + 1
  {
    var nextIndex := activeTabIndex + 1;
    if nextIndex >= tabCount then tabCount else nextIndex
  }

  /**
   * openTabNextToActive: query all tabs, then create the tab at NextIndex;
   * `isActive` defaults to false when it is not passed.
   */
  function OpenTabNextToActive(url: JsValue, activeTabIndex: int, isActive: Option<bool>, tabCount: nat): (calls: seq<TabsCall>)
    ensures |calls| == 2 && calls[0] == QueryAllTabs && calls[1].CreateTab?
    ensures calls[1].props.url == url
    ensures calls[1].props.active == Some(isActive.GetOr(false))
    ensures calls[1].props.index == Some(Int(NextIndex(activeTabIndex, tabCount)))
  {
    var active := if isActive.None? then false else isActive.value;
    [QueryAllTabs, CreateTab(CreateProperties(url, Some(active), Some(Int(NextIndex(activeTabIndex, tabCount)))))]
  }

  /** The listener's decision: ignore a falsy url, place next to a sender tab with a numeric index, else use the defaults. */
  function Decide(message: Message, sender: Option<Sender>): (a: Action)
    ensures a.Ignore? <==> !Truthy(message.url)
    ensures a.OpenNextTo? <==> Truthy(message.url) && HasTabIndex(sender)
    ensures a.OpenNextTo? ==> a.url == message.url && a.activeTabIndex == sender.value.tab.value.index.value
    ensures a.OpenWithDefaults? ==> a.url == message.url
  {
    if Truthy(message.url) then
      if HasTabIndex(sender) then
        OpenNextTo(message.url, sender.value.tab.value.index.value)
      else
        OpenWithDefaults(message.url)
    else
      Ignore
  }

  /** `sender && sender.tab && typeof sender.tab.index === "number"` */
  predicate HasTabIndex(sender: Option<Sender>) {
    sender.Some? && sender.value.tab.Some? && sender.value.tab.value.index.Some?
  }

  /** The calls an action makes; the listener never passes `isActive`. */
  function Perform(a: Action, tabCount: nat): (calls: seq<TabsCall>)
    ensures a.Ignore? <==> calls == []
    ensures !a.Ignore? ==> |Creates(calls)| == 1 && Creates(calls)[0].url == a.url
    ensures a.OpenNextTo? ==>
      |calls| == 2 && calls[0] == QueryAllTabs && calls[1].CreateTab? && Creates(calls)[0].active == Some(false)
      && Creates(calls)[0].index == Some(Int(NextIndex(a.activeTabIndex, tabCount)))
    ensures a.OpenWithDefaults? ==> Creates(calls)[0].active == None && Creates(calls)[0].index == None
    ensures a.OpenWithDefaults? ==> calls == [CreateTab(CreateProperties(a.url, None, None))]
  {
    match a
    case Ignore => []
    case OpenNextTo(url, i) => OpenTabNextToActive(url, i, None, tabCount)
    case OpenWithDefaults(url) => [CreateTab(CreateProperties(url, None, None))]
  }

  /**
   * The runtime.onMessage listener, given the tab count its query would report:
   * nothing for a falsy url; otherwise exactly one tabs.create, preceded by the
   * query and placed at NextIndex, inactive, when the sender tab's index is
   * known, or carrying only the url when it is not.
   */
  function OnMessage(message: Message, sender: Option<Sender>, tabCount: nat): (calls: seq<TabsCall>)
    ensures !Truthy(message.url) ==> calls == []
    ensures Truthy(message.url) ==> |Creates(calls)| == 1 && Creates(calls)[0].url == message.url
    ensures Truthy(message.url) && HasTabIndex(sender) ==>
      |calls| == 2 && calls[0] == QueryAllTabs && calls[1].CreateTab?
      && Creates(calls)[0].active == Some(false)
      && Creates(calls)[0].index == Some(Int(NextIndex(sender.value.tab.value.index.value, tabCount)))
    ensures Truthy(message.url) && !HasTabIndex(sender) ==>
      calls == [CreateTab(CreateProperties(message.url, None, None))]
    ensures forall p :: p in Creates(calls) ==> p.active != Some(true)
  {
    Perform(Decide(message, sender), tabCount)
  }
}
