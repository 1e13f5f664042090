/**
 * The part of the browser's extension API the background scripts use,
 * as values: the message and its sender, and the calls made to the tabs API.
 * The browser itself is not modelled; a call is recorded, not performed.
 */
module BrowserTabs {
  import opened Wrappers
  import opened JsValues

  /** The runtime message; only its `url` property is ever read. */
  datatype Message = Message(url: JsValue)

  /** The sending tab; `index` is None when it is not a number. */
  datatype Tab = Tab(index: Option<int>)

  /** The sender descriptor; `tab` is None for a sender that is not a tab. */
  datatype Sender = Sender(tab: Option<Tab>)

  /** The argument of tabs.create; None leaves a property out, so the browser picks its default. */
  datatype CreateProperties = CreateProperties(url: JsValue, active: Option<bool>, index: Option<Num>)

  /** A call into the tabs API: `tabs.query({})` over all tabs, or `tabs.create(props)`. */
  datatype TabsCall = QueryAllTabs | CreateTab(props: CreateProperties)

  /** The tabs.create calls among a sequence of calls, in order. */
  function Creates(calls: seq<TabsCall>): (r: seq<CreateProperties>)
    ensures |r| <= |calls|
  {
    if calls == [] then []
    else (if calls[0].CreateTab? then [calls[0].props] else []) + Creates(calls[1..])
  }
}
