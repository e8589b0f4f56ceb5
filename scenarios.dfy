/**
 * Client sequences over a fresh session, each stating the behaviour the
 * session promises across several calls: the handshake retry, tab
 * rediscovery, the end of a session when its last tab detaches, and the
 * routing of debugger traffic to discovered tabs.
 */
module Scenarios {
  import opened Protocol
  import opened Browser

  /** A session whose handshake with a compatible server succeeded. */
  method ConnectedSession(v: Version, compatible: Version -> bool) returns (s: Session)
    requires compatible(v)
    ensures fresh(s) && s.Valid() && s.connected && s.hasServiceHandler && s.tabs == map[]
  {
    s := new Session();
    var r := s.Connect(StartOk, VersionAnswer(Some(v)), compatible);
  }

  /**
   * A server with an unsupported version fails the first handshake, but the
   * connection it started stays open, so a second `connect` returns
   * normally without asking for the version again; it only sets the network
   * up anew (a second service handler and listener registration).
   */
  method RetryAfterUnsupportedVersion(v: Version, compatible: Version -> bool)
    returns (first: ConnectOutcome, second: ConnectOutcome, open: bool,
             ghost requests: nat, ghost handlers: nat)
    requires !compatible(v)
    ensures first == UnsupportedVersion(ProtocolVersion, Some(v))
    ensures second == Connected && open
    ensures requests == 1 && handlers == 2
  {
    var s := new Session();
    first := s.Connect(StartOk, VersionAnswer(Some(v)), compatible);
    second := s.Connect(StartOk, VersionAnswer(Some(v)), compatible);
    open := s.CheckConnection();
    requests := s.versionRequests;
    handlers := s.handlersCreated;
  }

  /** `getTabs` on a disconnected session fails with an IllegalStateException. */
  method TabsNeedConnection(entries: seq<TabIdAndUrl>) returns (r: Fetched)
    ensures r == IllegalState
  {
    var s := new Session();
    r := s.GetTabs(entries);
  }

  /**
   * A tab attached through its connector is handed out again by the next
   * discovery, keeping the url it was created with even when the list now
   * reports another one.
   */
  method RediscoverAttachedTab(v: Version, compatible: Version -> bool, e: TabIdAndUrl, newUrl: string, l: Listener)
    returns (first: BrowserTab, second: BrowserTab, id: int, url: string)
    requires compatible(v)
    ensures first == second && first.attached && first.listener == Some(l)
    ensures id == e.id && url == e.url
  {
    var s := ConnectedSession(v, compatible);
    var r := s.GetTabs([e]);
    first := ConnectorAttach(r.connectors[0], Some(l), AttachReturned(ResultOk));
    var r' := s.GetTabs([TabIdAndUrl(e.id, newUrl)]);
    second := r'.connectors[0].tab;
    id := second.GetId();
    url := second.GetUrl();
  }

  /**
   * A tab whose attach failed is not reused: the next discovery registers a
   * new tab for its id, with the url the list now reports.
   */
  method ReplaceFailedTab(v: Version, compatible: Version -> bool, e: TabIdAndUrl, newUrl: string, l: Listener,
                          reply: AttachReply)
    returns (first: BrowserTab, second: BrowserTab, url: string)
    requires compatible(v) && reply != AttachReturned(ResultOk)
    ensures first != second && !first.attached && first.listener == Some(l)
    ensures second.id == e.id && url == newUrl && !second.attached
  {
    var s := ConnectedSession(v, compatible);
    var r := s.GetTabs([e]);
    first := ConnectorAttach(r.connectors[0], Some(l), reply);
    var r' := s.GetTabs([TabIdAndUrl(e.id, newUrl)]);
    second := r'.connectors[0].tab;
    url := second.GetUrl();
  }

  /**
   * A list naming a new id twice yields two distinct new tabs, and the
   * registry keeps the second: traffic for the id reaches the tab of the
   * last entry.
   */
  method DuplicateEntry(v: Version, compatible: Version -> bool, e: TabIdAndUrl)
    returns (first: BrowserTab, second: BrowserTab, registered: BrowserTab)
    requires compatible(v)
    ensures first != second && registered == second
    ensures first.id == e.id && second.id == e.id
  {
    var s := ConnectedSession(v, compatible);
    var r := s.GetTabs([e, e]);
    first, second := r.connectors[0].tab, r.connectors[1].tab;
    assert [e, e][0].id in s.tabs;
    assert !LastFor([e, e], 0, e.id);
    registered := s.tabs[e.id];
  }

  /** A connected session that discovered two tabs and attached both. */
  method TwoAttachedTabs(v: Version, compatible: Version -> bool, a: TabIdAndUrl, b: TabIdAndUrl)
    returns (s: Session, ta: BrowserTab, tb: BrowserTab)
    requires compatible(v) && a.id != b.id
    ensures fresh(s) && fresh(ta) && fresh(tb) && s.Valid() && s.connected
    ensures ta.id == a.id && tb.id == b.id && ta.owner == s && tb.owner == s
    ensures ta.attached && tb.attached
    ensures s.tabs == map[a.id := ta, b.id := tb]
  {
    s := ConnectedSession(v, compatible);
    var r := s.GetTabs([a, b]);
    ta := ConnectorAttach(r.connectors[0], None, AttachReturned(ResultOk));
    tb := ConnectorAttach(r.connectors[1], None, AttachReturned(ResultOk));
    assert s.tabs.Keys == {a.id, b.id};
  }

  /**
   * Two tabs attached; when the first detaches and reports its session
   * terminated the connection stays open, and when the second does too the
   * session disconnects with an empty registry.
   */
  method LastDetachDisconnects(v: Version, compatible: Version -> bool, a: TabIdAndUrl, b: TabIdAndUrl)
    returns (openAfterFirst: bool, openAfterLast: bool, left: set<int>)
    requires compatible(v) && a.id != b.id
    ensures openAfterFirst && !openAfterLast && left == {}
  {
    var s, ta, tb := TwoAttachedTabs(v, compatible, a, b);
    var ok := ta.Detach(ResultOk);
    ta.SessionTerminated();
    assert s.tabs == map[b.id := tb];
    openAfterFirst := s.CheckConnection();
    ok := tb.Detach(ResultOk);
    tb.SessionTerminated();
    openAfterLast := s.CheckConnection();
    left := s.tabs.Keys;
  }

  /**
   * After discovery, debugger traffic for a listed tab reaches that tab,
   * traffic for an unknown tab reaches no handler, and service traffic
   * reaches the service handler.
   */
  method RouteAfterDiscovery(v: Version, compatible: Version -> bool, e: TabIdAndUrl, other: int, payload: string)
    returns (toTab: Delivery, toOther: Delivery, toService: Delivery)
    requires compatible(v) && other != e.id
    ensures toTab == ToTab(e.id)
    ensures toOther == Dropped(NullHandler)
    ensures toService == ToServiceHandler
  {
    var s := ConnectedSession(v, compatible);
    var r := s.GetTabs([e]);
    assert [e][0].id in s.tabs;
    toTab := s.MessageReceived(Message(Some(V8Debugger), e.id, payload));
    toOther := s.MessageReceived(Message(Some(V8Debugger), other, payload));
    toService := s.MessageReceived(Message(Some(DevToolsService), e.id, payload));
  }
}
