/**
 * main.js: the content script. It finds the site's search box, puts an
 * "open in new tab" button right after it, and on a click sends the
 * background script a message with the results URL for the trimmed query.
 *
 * The page is a Document object whose state is a set of maps: the elements
 * and their attributes, each node's child list and parent, which nodes are
 * connected to the document, and each element's click listeners.
 */
module ContentScript {
  import opened Wrappers
  import opened JsValues
  import opened JsStrings
  import opened UriComponent
  import opened BrowserTabs

  type NodeId = nat

  /** The attributes of an element that the script reads or writes. */
  datatype Element = Element(tag: string, id: string, name: string, value: string)

  /** The two kinds of lookup the script makes: getElementById and querySelector('input[name="…"]'). */
  datatype Selector = ById(id: string) | InputByName(name: string)

  predicate Matches(e: Element, sel: Selector) {
    match sel
    case ById(id) => e.id == id
    case InputByName(name) => e.tag == "input" && e.name == name
  }

  /** The search element's lookups, in priority order. */
  const SEARCH_ICON_LEGACY := ById("search-icon-legacy")
  const SEARCH_BTN := ById("search-btn")
  const SEARCH_INPUT := InputByName("search_query")

  const NEW_TAB_BUTTON_ID := "button-newTab"
  const NEW_TAB_BUTTON := ById(NEW_TAB_BUTTON_ID)
  const RESULTS_URL := "https://www.youtube.com/results?search_query="

  /** The click listener addNewTabButton adds; it keeps the search input found during that call. */
  datatype ClickListener = OpenResultsInNewTab(searchInput: Option<NodeId>)

  /**
   * The URL a click opens for the search box's text: nothing when the trimmed
   * text is empty, otherwise the results URL followed by the encoded trimmed
   * text, which decodes back to that text and holds no query delimiter.
   */
  function ResultsUrl(query: string): (url: Option<string>)
    ensures url.None? <==> forall k :: 0 <= k < |query| ==> IsJsWhitespace(query[k])
    ensures url.Some? ==> |RESULTS_URL| <= |url.value| && url.value[..|RESULTS_URL|] == RESULTS_URL
    ensures url.Some? ==> Decode(url.value[|RESULTS_URL|..]) == Some(Trim(query))
    ensures url.Some? ==> forall k :: |RESULTS_URL| <= k < |url.value| ==> IsUnreserved(url.value[k]) || url.value[k] == '%'
  {
    var queryTerm := Trim(query);
    TrimEmptyIffBlank(query);
    if queryTerm == [] then None
    else
      PrefixedEncoding(queryTerm);
      Some(RESULTS_URL + Encode(queryTerm))
  }

  /** The results URL for a term: the prefix, then text that decodes to the term and holds no delimiter. */
  lemma PrefixedEncoding(term: string)
    ensures var url := RESULTS_URL + Encode(term);
      url[..|RESULTS_URL|] == RESULTS_URL
      && Decode(url[|RESULTS_URL|..]) == Some(term)
      && forall k :: |RESULTS_URL| <= k < |url| ==> IsUnreserved(url[k]) || url[k] == '%'
  {
    var encoded := Encode(term);
    var url := RESULTS_URL + encoded;
    DecodeEncode(term);
    EncodeHasNoDelimiters(term);
    assert url[|RESULTS_URL|..] == encoded;
    forall k | |RESULTS_URL| <= k < |url| ensures IsUnreserved(url[k]) || url[k] == '%' {
      assert url[k] == encoded[k - |RESULTS_URL|];
    }
  }

  /** The value of an input element (an element without a value reads as empty). */
  function ValueOf(elements: map<NodeId, Element>, n: NodeId): string {
    if n in elements then elements[n].value else ""
  }

  /**
   * The message one click listener sends: none when it found no search input,
   * none for a blank query, otherwise a message carrying only the results URL.
   */
  function ListenerMessages(l: ClickListener, elements: map<NodeId, Element>): (msgs: seq<Message>)
    ensures |msgs| <= 1
    ensures |msgs| == 1 <==> l.searchInput.Some? && ResultsUrl(ValueOf(elements, l.searchInput.value)).Some?
    ensures |msgs| == 1 ==> msgs[0] == Message(Str(ResultsUrl(ValueOf(elements, l.searchInput.value)).value))
  {
    match l.searchInput
    case None => []
    case Some(input) =>
      match ResultsUrl(ValueOf(elements, input))
      case None => []
      case Some(url) => [Message(Str(url))]
  }

  /** The messages a click sends: each listener in the order it was added. */
  function Dispatch(listeners: seq<ClickListener>, elements: map<NodeId, Element>): (msgs: seq<Message>)
    ensures |msgs| <= |listeners|
    ensures |listeners| == 1 ==> msgs == ListenerMessages(listeners[0], elements)
  {
    if listeners == [] then []
    else ListenerMessages(listeners[0], elements) + Dispatch(listeners[1..], elements)
  }

  /** The listeners added first send their messages first: dispatch distributes over concatenation. */
  lemma {:induction false} DispatchAppend(xs: seq<ClickListener>, ys: seq<ClickListener>, elements: map<NodeId, Element>)
    ensures Dispatch(xs + ys, elements) == Dispatch(xs, elements) + Dispatch(ys, elements)
  {
    if xs != [] {
      assert xs + ys == [xs[0]] + (xs[1..] + ys);
      assert xs == [xs[0]] + xs[1..];
      DispatchAppend(xs[1..], ys, elements);
      DispatchCons(xs[0], xs[1..] + ys, elements);
      DispatchCons(xs[0], xs[1..], elements);
      ConcatAssoc(ListenerMessages(xs[0], elements), Dispatch(xs[1..], elements), Dispatch(ys, elements));
    } else {
      assert xs + ys == ys;
    }
  }

  lemma ConcatAssoc<T>(a: seq<T>, b: seq<T>, c: seq<T>)
    ensures a + (b + c) == (a + b) + c
  {
  }

  /** A listener put in front sends its messages before the rest. */
  lemma DispatchCons(l: ClickListener, rest: seq<ClickListener>, elements: map<NodeId, Element>)
    ensures Dispatch([l] + rest, elements) == ListenerMessages(l, elements) + Dispatch(rest, elements)
  {
    assert ([l] + rest)[1..] == rest;
  }

  /**
   * k listeners that all read the same non-blank search input send k equal
   * messages on one click: nothing removes the listeners of earlier calls.
   */
  lemma {:induction false} OneMessagePerListener(listeners: seq<ClickListener>, elements: map<NodeId, Element>, input: NodeId)
    requires forall k :: 0 <= k < |listeners| ==> listeners[k] == OpenResultsInNewTab(Some(input))
    requires ResultsUrl(ValueOf(elements, input)).Some?
    ensures |Dispatch(listeners, elements)| == |listeners|
    ensures forall k :: 0 <= k < |listeners| ==>
      Dispatch(listeners, elements)[k] == Message(Str(ResultsUrl(ValueOf(elements, input)).value))
  {
    var m := Message(Str(ResultsUrl(ValueOf(elements, input)).value));
    forall k | 0 <= k < |listeners| ensures ListenerMessages(listeners[k], elements) == [m] {
      assert listeners[k].searchInput == Some(input);
    }
    DispatchAllSame(listeners, elements, m);
  }

  /** Listeners that each send the same one message send it once apiece, in order. */
  lemma {:induction false} DispatchAllSame(listeners: seq<ClickListener>, elements: map<NodeId, Element>, m: Message)
    requires forall k :: 0 <= k < |listeners| ==> ListenerMessages(listeners[k], elements) == [m]
    ensures |Dispatch(listeners, elements)| == |listeners|
    ensures forall k :: 0 <= k < |listeners| ==> Dispatch(listeners, elements)[k] == m
  {
    if listeners != [] {
      assert forall k :: 0 <= k < |listeners[1..]| ==> listeners[1..][k] == listeners[k + 1];
      DispatchAllSame(listeners[1..], elements, m);
    }
  }

  /** The first position of x in s. */
  function IndexOf(s: seq<NodeId>, x: NodeId): (i: nat)
    requires x in s
    ensures i < |s| && s[i] == x && x !in s[..i]
  {
    if s[0] == x then 0
    else
      var i := 1 + IndexOf(s[1..], x);
      assert s[..i] == [s[0]] + s[1..][..i - 1];
      i
  }

  predicate Distinct(s: seq<NodeId>) {
    forall i, j :: 0 <= i < j < |s| ==> s[i] != s[j]
  }

  /**
   * `parent.insertBefore(node, reference.nextSibling)` on the parent's child
   * list: the node lands right after the reference, and taking it out again
   * gives back the old list, so every other child keeps its place and order.
   */
  function InsertedAfter(children: seq<NodeId>, reference: NodeId, node: NodeId): (r: seq<NodeId>)
    requires reference in children
    ensures |r| == |children| + 1
    ensures r[IndexOf(children, reference)] == reference && r[IndexOf(children, reference) + 1] == node
    ensures r[..IndexOf(children, reference) + 1] + r[IndexOf(children, reference) + 2..] == children
  {
    var i := IndexOf(children, reference);
    InsertAt(children, i + 1, node)
  }

  /** The sequence with x put at position i. */
  function InsertAt(s: seq<NodeId>, i: nat, x: NodeId): (r: seq<NodeId>)
    requires i <= |s|
    ensures |r| == |s| + 1 && r[i] == x
    ensures forall k :: 0 <= k < i ==> r[k] == s[k]
    ensures forall k :: i < k < |r| ==> r[k] == s[k - 1]
    ensures r[..i] + r[i + 1..] == s
  {
    var r := s[..i] + [x] + s[i..];
    assert r[..i] == s[..i];
    assert r[i + 1..] == s[i..];
    r
  }

  /** Every element of the new list is the inserted node or an old child. */
  lemma InsertedAfterMembers(children: seq<NodeId>, reference: NodeId, node: NodeId)
    requires reference in children
    ensures forall k :: 0 <= k < |InsertedAfter(children, reference, node)| ==>
      InsertedAfter(children, reference, node)[k] == node || InsertedAfter(children, reference, node)[k] in children
  {
    var i := IndexOf(children, reference) + 1;
    var r := InsertAt(children, i, node);
    forall k | 0 <= k < |r| ensures r[k] == node || r[k] in children {
      if k < i {
        assert r[k] == children[k];
      } else if k > i {
        assert r[k] == children[k - 1];
      }
    }
  }

  /** Inserting a node that is not yet a child keeps the child list free of repeats. */
  lemma InsertedAfterDistinct(children: seq<NodeId>, reference: NodeId, node: NodeId)
    requires reference in children
    requires Distinct(children) && node !in children
    ensures Distinct(InsertedAfter(children, reference, node))
  {
    var i := IndexOf(children, reference) + 1;
    var r := InsertAt(children, i, node);
    forall a, b | 0 <= a < b < |r| ensures r[a] != r[b] {
      var ca := if a < i then a else a - 1;
      var cb := if b < i then b else b - 1;
      if a != i && b != i {
        assert r[a] == children[ca] && r[b] == children[cb];
      } else if a == i {
        assert r[b] == children[cb];
      } else {
        assert r[a] == children[ca];
      }
    }
  }

  /** The document's invariant, on the values of its fields. */
  ghost predicate DomValid(root: NodeId, elements: map<NodeId, Element>, children: map<NodeId, seq<NodeId>>,
                           parentOf: map<NodeId, NodeId>, connected: set<NodeId>, nextNode: NodeId) {
    children.Keys == elements.Keys
    && parentOf.Keys <= elements.Keys
    && connected <= elements.Keys
    && (forall n :: n in elements ==> n < nextNode)
    && LinksAgree(children, parentOf)
    && ConnectedByLinks(root, parentOf, connected)
  }

  /** Each node with a parent is in that parent's child list, each child names its list's owner as parent, and no list repeats a node. */
  ghost predicate LinksAgree(children: map<NodeId, seq<NodeId>>, parentOf: map<NodeId, NodeId>) {
    (forall c :: c in parentOf ==> parentOf[c] in children && c in children[parentOf[c]])
    && (forall p, i :: p in children && 0 <= i < |children[p]| ==> children[p][i] in parentOf && parentOf[children[p][i]] == p)
    && (forall p :: p in children ==> Distinct(children[p]))
  }

  /** The root is connected; any other node is connected exactly when its parent is. */
  ghost predicate ConnectedByLinks(root: NodeId, parentOf: map<NodeId, NodeId>, connected: set<NodeId>) {
    root in connected && root !in parentOf
    && (forall c :: c in connected && c != root ==> c in parentOf && parentOf[c] in connected)
    && (forall c :: c in parentOf && parentOf[c] in connected ==> c in connected)
  }

  /** Putting a parentless, childless node after a child of p keeps the links in agreement. */
  lemma InsertKeepsLinks(children: map<NodeId, seq<NodeId>>, parentOf: map<NodeId, NodeId>,
                         p: NodeId, reference: NodeId, node: NodeId)
    requires LinksAgree(children, parentOf)
    requires p in children && reference in children[p]
    requires node !in parentOf && node != p
    ensures LinksAgree(children[p := InsertedAfter(children[p], reference, node)], parentOf[node := p])
  {
    var siblings := InsertedAfter(children[p], reference, node);
    var children', parentOf' := children[p := siblings], parentOf[node := p];
    assert node !in children[p];
    InsertedAfterMembers(children[p], reference, node);
    InsertedAfterDistinct(children[p], reference, node);
    forall c | c in parentOf' ensures parentOf'[c] in children' && c in children'[parentOf'[c]] {
      if c != node && parentOf[c] == p {
        var j := IndexOf(children[p], reference) + 1;
        assert siblings[..j] + siblings[j + 1..] == children[p];
        assert c in siblings[..j] + siblings[j + 1..];
      }
    }
    forall q, i | q in children' && 0 <= i < |children'[q]|
      ensures children'[q][i] in parentOf' && parentOf'[children'[q][i]] == q
    {
      if q == p {
        if siblings[i] != node {
          assert siblings[i] in children[p];
        }
      } else {
        assert children[q][i] in parentOf;
      }
    }
  }

  /** The inserted node is connected exactly when its new parent is; nothing else changes. */
  lemma InsertKeepsConnected(root: NodeId, parentOf: map<NodeId, NodeId>, connected: set<NodeId>, p: NodeId, node: NodeId)
    requires ConnectedByLinks(root, parentOf, connected)
    requires node !in parentOf && node !in connected && node != root
    requires forall c :: c in parentOf ==> parentOf[c] != node
    ensures ConnectedByLinks(root, parentOf[node := p], if p in connected then connected + {node} else connected)
  {
  }

  /** A detached, childless element put after a node that has a parent leaves a valid document. */
  lemma InsertKeepsValid(root: NodeId, elements: map<NodeId, Element>, children: map<NodeId, seq<NodeId>>,
                         parentOf: map<NodeId, NodeId>, connected: set<NodeId>, nextNode: NodeId,
                         reference: NodeId, node: NodeId)
    requires DomValid(root, elements, children, parentOf, connected, nextNode)
    requires node in elements && node !in parentOf && node !in connected && children[node] == []
    requires reference in parentOf
    ensures reference in children[parentOf[reference]]
    ensures var p := parentOf[reference];
      DomValid(root, elements, children[p := InsertedAfter(children[p], reference, node)], parentOf[node := p],
               if p in connected then connected + {node} else connected, nextNode)
  {
    var p := parentOf[reference];
    assert node != p by {
      assert reference in children[p];
    }
    assert forall c :: c in parentOf ==> parentOf[c] != node by {
      forall c | c in parentOf ensures parentOf[c] != node {
        assert c in children[parentOf[c]];
      }
    }
    InsertKeepsLinks(children, parentOf, p, reference, node);
    InsertKeepsConnected(root, parentOf, connected, p, node);
  }

  class Document {
    var root: NodeId
    var elements: map<NodeId, Element>
    var children: map<NodeId, seq<NodeId>>
    var parentOf: map<NodeId, NodeId>
    /** The nodes the lookups see: they contain the root and are closed under parent links. */
    var connected: set<NodeId>
    var clickListeners: map<NodeId, seq<ClickListener>>
    /** The identity the next created element gets. */
    var nextNode: NodeId

    /** A page holding only its root element, with no click listeners. */
    constructor(rootElement: Element)
      ensures Valid()
      ensures root == 0 && elements == map[0 := rootElement] && children == map[0 := []]
      ensures parentOf == map[] && connected == {0} && clickListeners == map[] && nextNode == 1
    {
      root := 0;
      elements := map[0 := rootElement];
      children := map[0 := []];
      parentOf := map[];
      connected := {0};
      clickListeners := map[];
      nextNode := 1;
    }

    /** Parent and child lists agree, child lists have no repeats, and connectedness follows the parent links. */
    ghost predicate Valid()
      reads this`root, this`elements, this`children, this`parentOf, this`connected, this`nextNode
    {
      DomValid(root, elements, children, parentOf, connected, nextNode)
    }

    /** Some connected element matches the selector. */
    predicate AnyMatch(sel: Selector)
      reads this`connected, this`elements
    {
      exists n :: n in connected && n in elements && Matches(elements[n], sel)
    }

    function ListenersOf(n: NodeId): seq<ClickListener>
      reads this`clickListeners
    {
      if n in clickListeners then clickListeners[n] else []
    }

    /** The messages one click on the element sends. */
    function Click(target: NodeId): (msgs: seq<Message>)
      reads this`clickListeners, this`elements
      ensures |msgs| <= |ListenersOf(target)|
    {
      Dispatch(ListenersOf(target), elements)
    }

    /** getElementById / querySelector: some connected matching element, or none when there is none. */
    method QuerySelector(sel: Selector) returns (r: Option<NodeId>)
      requires Valid()
      ensures r.Some? ==> r.value in connected && Matches(elements[r.value], sel)
      ensures r.None? <==> !AnyMatch(sel)
    {
      if n :| n in connected && n in elements && Matches(elements[n], sel) {
        r := Some(n);
      } else {
        r := None;
      }
    }

    /** The search element: the first lookup of three, in priority order, that finds anything. */
    method FindSearchButton() returns (r: Option<NodeId>)
      requires Valid()
      ensures r.Some? ==> r.value in connected
      ensures AnyMatch(SEARCH_ICON_LEGACY) ==> r.Some? && Matches(elements[r.value], SEARCH_ICON_LEGACY)
      ensures !AnyMatch(SEARCH_ICON_LEGACY) && AnyMatch(SEARCH_BTN) ==>
        r.Some? && Matches(elements[r.value], SEARCH_BTN)
      ensures !AnyMatch(SEARCH_ICON_LEGACY) && !AnyMatch(SEARCH_BTN) ==>
        (r.Some? <==> AnyMatch(SEARCH_INPUT)) && (r.Some? ==> Matches(elements[r.value], SEARCH_INPUT))
    {
      r := QuerySelector(SEARCH_ICON_LEGACY);
      if r.None? {
        r := QuerySelector(SEARCH_BTN);
      }
      if r.None? {
        r := QuerySelector(SEARCH_INPUT);
      }
    }

    /** document.createElement(tag): a new element, in no list and connected to nothing. */
    method CreateElement(tag: string) returns (n: NodeId)
      requires Valid()
      modifies this`elements, this`children, this`nextNode
      ensures Valid()
      ensures n == old(nextNode) && n !in old(elements) && nextNode == n + 1
      ensures elements == old(elements)[n := Element(tag, "", "", "")]
      ensures children == old(children)[n := []]
      ensures parentOf == old(parentOf) && connected == old(connected)
      ensures unchanged(this`clickListeners, this`root)
    {
      n := nextNode;
      nextNode := nextNode + 1;
      elements := elements[n := Element(tag, "", "", "")];
      children := children[n := []];
    }

    /**
     * insertAfter: without a reference node, or with one that has no parent,
     * nothing changes; otherwise the node joins the reference's parent right
     * after the reference, and is connected when that parent is.
     */
    method InsertAfter(newNode: NodeId, referenceNode: Option<NodeId>)
      requires Valid()
      requires newNode in elements && newNode !in parentOf && newNode !in connected && children[newNode] == []
      requires referenceNode.Some? ==> referenceNode.value in elements
      modifies this`children, this`parentOf, this`connected
      ensures Valid()
      ensures referenceNode.None? || referenceNode.value !in old(parentOf) ==>
        children == old(children) && parentOf == old(parentOf) && connected == old(connected)
      ensures referenceNode.Some? && referenceNode.value in old(parentOf) ==>
        var p := old(parentOf)[referenceNode.value];
        children == old(children)[p := InsertedAfter(old(children)[p], referenceNode.value, newNode)]
        && parentOf == old(parentOf)[newNode := p]
        && connected == if p in old(connected) then old(connected) + {newNode} else old(connected)
      ensures unchanged(this`elements, this`clickListeners, this`nextNode, this`root)
    {
      if referenceNode.Some? && referenceNode.value in parentOf {
        AttachAfter(newNode, referenceNode.value);
      }
    }

    /** parentNode.insertBefore(newNode, referenceNode.nextSibling), for a reference that has a parent. */
    method AttachAfter(newNode: NodeId, reference: NodeId)
      requires Valid()
      requires newNode in elements && newNode !in parentOf && newNode !in connected && children[newNode] == []
      requires reference in parentOf
      modifies this`children, this`parentOf, this`connected
      ensures Valid()
      ensures var p := old(parentOf)[reference];
        children == old(children)[p := InsertedAfter(old(children)[p], reference, newNode)]
        && parentOf == old(parentOf)[newNode := p]
        && connected == if p in old(connected) then old(connected) + {newNode} else old(connected)
    {
      var p := parentOf[reference];
      InsertKeepsValid(root, elements, children, parentOf, connected, nextNode, reference, newNode);
      children, parentOf, connected :=
        children[p := InsertedAfter(children[p], reference, newNode)],
        parentOf[newNode := p],
        if p in connected then connected + {newNode} else connected;
    }

    /** A new div with the button's id (and its aria-label, not modelled), put right after the search element. */
    method CreateNewTabButton(searchButton: NodeId) returns (n: NodeId)
      requires Valid()
      requires searchButton in elements
      modifies this`elements, this`children, this`nextNode, this`parentOf, this`connected
      ensures Valid()
      ensures n == old(nextNode) && n !in old(elements) && nextNode == n + 1
      ensures elements == old(elements)[n := Element("div", NEW_TAB_BUTTON_ID, "", "")]
      ensures searchButton in old(parentOf) ==>
        var p := old(parentOf)[searchButton];
        parentOf == old(parentOf)[n := p]
        && children == old(children)[n := []][p := InsertedAfter(old(children)[p], searchButton, n)]
        && connected == if p in old(connected) then old(connected) + {n} else old(connected)
      ensures searchButton !in old(parentOf) ==>
        parentOf == old(parentOf) && children == old(children)[n := []] && connected == old(connected)
      ensures unchanged(this`clickListeners, this`root)
    {
      n := CreateElement("div");
      elements := elements[n := elements[n].(id := NEW_TAB_BUTTON_ID)];
      InsertAfter(n, Some(searchButton));
    }

    /** addEventListener("click", l) with a listener made afresh, so it is always added. */
    method AddClickListener(target: NodeId, l: ClickListener)
      modifies this`clickListeners
      ensures ListenersOf(target) == old(ListenersOf(target)) + [l]
      ensures forall n :: n != target ==> ListenersOf(n) == old(ListenersOf(n))
    {
      clickListeners := clickListeners[target := ListenersOf(target) + [l]];
    }

    /**
     * The page after addNewTabButton has given the search element its button
     * b, which carries the id button-newTab. A connected button found by id
     * is reused and the document does not change. Otherwise b is a new div
     * with the next identity: with a parent for the search element it joins
     * that parent's children right after it and is connected exactly when
     * the parent is; without one it stays detached and nothing else changes.
     * With a connected parent, the id lookup finds a button afterwards.
     */
    twostate predicate ButtonPlaced(searchButton: NodeId, b: NodeId)
      requires old(Valid())
      reads this`elements, this`children, this`nextNode, this`parentOf, this`connected, this`root
    {
      && b in elements && elements[b].id == NEW_TAB_BUTTON_ID
      && (old(AnyMatch(NEW_TAB_BUTTON)) ==>
            b in old(connected)
            && elements == old(elements) && children == old(children) && parentOf == old(parentOf)
            && connected == old(connected) && nextNode == old(nextNode))
      && (!old(AnyMatch(NEW_TAB_BUTTON)) ==>
            b == old(nextNode) && nextNode == old(nextNode) + 1
            && elements == old(elements)[b := Element("div", NEW_TAB_BUTTON_ID, "", "")])
      && (!old(AnyMatch(NEW_TAB_BUTTON)) && searchButton in old(parentOf) ==>
            var p := old(parentOf)[searchButton];
            parentOf == old(parentOf)[b := p]
            && children == old(children)[b := []][p := InsertedAfter(old(children)[p], searchButton, b)]
            && connected == if p in old(connected) then old(connected) + {b} else old(connected))
      && (!old(AnyMatch(NEW_TAB_BUTTON)) && searchButton !in old(parentOf) ==>
            parentOf == old(parentOf) && children == old(children)[b := []] && connected == old(connected))
      && (searchButton in old(parentOf) && old(parentOf)[searchButton] in old(connected) ==>
            AnyMatch(NEW_TAB_BUTTON))
    }

    /**
     * The element b has one more click listener, appended after the ones it
     * had, and bound to the search input the page held before (none when
     * there was none); no other element's listeners change.
     */
    twostate predicate ListenerAdded(b: NodeId)
      requires old(Valid())
      reads this`clickListeners, this`connected, this`elements, this`root, this`children, this`parentOf, this`nextNode
    {
      && |ListenersOf(b)| == |old(ListenersOf(b))| + 1
      && ListenersOf(b)[..|old(ListenersOf(b))|] == old(ListenersOf(b))
      && (var input := ListenersOf(b)[|old(ListenersOf(b))|].searchInput;
          (input.None? <==> !old(AnyMatch(SEARCH_INPUT)))
          && (input.Some? ==> input.value in old(connected) && Matches(old(elements)[input.value], SEARCH_INPUT)))
      && (forall n :: n != b ==> ListenersOf(n) == old(ListenersOf(n)))
    }

    /**
     * The part of addNewTabButton that decides which element is the button:
     * the connected one getElementById finds, or else a new div put right
     * after the search element.
     */
    method UseOrCreateButton(searchButton: NodeId) returns (b: NodeId)
      requires Valid()
      requires searchButton in elements
      modifies this`elements, this`children, this`nextNode, this`parentOf, this`connected
      ensures Valid()
      ensures ButtonPlaced(searchButton, b)
      ensures unchanged(this`clickListeners, this`root)
    {
      var existing := QuerySelector(NEW_TAB_BUTTON);
      if existing.Some? {
        return existing.value;
      }
      b := CreateNewTabButton(searchButton);
    }

    /**
     * addNewTabButton: with a search element, reuse the connected element
     * whose id is button-newTab or create one and put it right after the
     * search element; either way add one more click listener, bound to the
     * search input found now. A button that found a parent is connected
     * afterwards, so later calls reuse it.
     */
    method AddNewTabButton(searchButton: Option<NodeId>) returns (button: Option<NodeId>)
      requires Valid()
      requires searchButton.Some? ==> searchButton.value in elements
      modifies this`elements, this`children, this`nextNode, this`parentOf, this`connected, this`clickListeners
      ensures Valid()
      ensures unchanged(this`root)
      ensures searchButton.None? ==> button.None? && unchanged(this)
      ensures searchButton.Some? ==> button.Some? && ButtonPlaced(searchButton.value, button.value)
      ensures searchButton.Some? ==> ListenerAdded(button.value)
    {
      if searchButton.None? {
        return None;
      }
      var searchInput := QuerySelector(SEARCH_INPUT);
      var b := UseOrCreateButton(searchButton.value);
      AddClickListener(b, OpenResultsInNewTab(searchInput));
      button := Some(b);
    }

    /**
     * One tick of the search-element poll: look the search element up and,
     * once found, add the button to it; a button returned stops the poll.
     */
    method PollForSearchButtonTick() returns (searchButton: Option<NodeId>, button: Option<NodeId>)
      requires Valid()
      modifies this`elements, this`children, this`nextNode, this`parentOf, this`connected, this`clickListeners
      ensures Valid()
      ensures unchanged(this`root)
      ensures searchButton.Some? ==> searchButton.value in old(connected)
      ensures old(AnyMatch(SEARCH_ICON_LEGACY)) ==>
        searchButton.Some? && Matches(old(elements)[searchButton.value], SEARCH_ICON_LEGACY)
      ensures !old(AnyMatch(SEARCH_ICON_LEGACY)) && old(AnyMatch(SEARCH_BTN)) ==>
        searchButton.Some? && Matches(old(elements)[searchButton.value], SEARCH_BTN)
      ensures !old(AnyMatch(SEARCH_ICON_LEGACY)) && !old(AnyMatch(SEARCH_BTN)) ==>
        (searchButton.Some? <==> old(AnyMatch(SEARCH_INPUT)))
        && (searchButton.Some? ==> Matches(old(elements)[searchButton.value], SEARCH_INPUT))
      ensures button.Some? <==> searchButton.Some?
      ensures button.None? ==> unchanged(this)
      ensures button.Some? ==> ButtonPlaced(searchButton.value, button.value)
      ensures button.Some? ==> ListenerAdded(button.value)
    {
      searchButton := FindSearchButton();
      button := AddNewTabButton(searchButton);
    }
  }
}
