/**
 * The browser session and its tabs. A `Session` owns the connection state,
 * the registry from tab id to `BrowserTab`, and the lazily created DevTools
 * service handler; a `BrowserTab` is the per-tab attach/detach wrapper
 * whose owner is the session that created it.
 *
 * External collaborators are abstracted: the transport connection is the
 * `connected` flag, the service handler is `hasServiceHandler` plus reply
 * oracles passed to the operations that talk to it, and the per-tab session
 * manager is the tab's `attached` flag plus attach/detach reply oracles.
 */
module Browser {
  import opened Protocol

  /** The attach capability returned for each listed tab. */
  datatype TabConnector = TabConnector(tab: BrowserTab)

  /** The result of `getTabs`: the connectors, or an IllegalStateException. */
  datatype Fetched = Tabs(connectors: seq<TabConnector>) | IllegalState

  /** The ids named by a tab list. */
  ghost function Ids(entries: seq<TabIdAndUrl>): set<int>
  {
    set j | 0 <= j < |entries| :: entries[j].id
  }

  /** Entry `j` is the last entry of the list that names id `k`. */
  ghost predicate LastFor(entries: seq<TabIdAndUrl>, j: int, k: int)
  {
    0 <= j < |entries| && entries[j].id == k &&
    forall j' :: j < j' < |entries| ==> entries[j'].id != k
  }

  /**
   * After the `getTabs` loop: every id of the list is registered, and every
   * id registered beyond `before` holds the tab of the connector for the
   * last entry with that id (the entry `at` names).
   */
  lemma RegistryCoversList(entries: seq<TabIdAndUrl>, before: map<int, BrowserTab>, reg: map<int, BrowserTab>,
                           out: seq<TabConnector>, at: map<int, nat>)
    requires |out| == |entries|
    requires forall j :: 0 <= j < |entries| ==> entries[j].id in reg
    requires forall k :: k in before ==> k in reg
    requires forall k :: k in reg && k !in before ==>
               k in at && at[k] < |entries| && entries[at[k]].id == k && reg[k] == out[at[k]].tab &&
               (forall j :: at[k] < j < |entries| ==> entries[j].id != k)
    ensures reg.Keys == before.Keys + Ids(entries)
    ensures forall k :: k in reg && k !in before ==> exists j :: LastFor(entries, j, k) && reg[k] == out[j].tab
  {
    forall k | k in reg && k !in before
      ensures k in Ids(entries)
      ensures exists j :: LastFor(entries, j, k) && reg[k] == out[j].tab
    {
      assert LastFor(entries, at[k], k);
    }
    forall k | k in Ids(entries)
      ensures k in reg
    {
      var j :| 0 <= j < |entries| && entries[j].id == k;
    }
    assert forall k :: k in reg.Keys <==> k in before.Keys + Ids(entries);
  }

  /** The registry entries whose tab is attached. */
  ghost function AttachedPart(m: map<int, BrowserTab>): map<int, BrowserTab>
    reads m.Values
  {
    map k | k in m && m[k].attached :: m[k]
  }

  /** A non-empty set of ids has a member to pick. */
  lemma HasMember(s: set<int>)
    requires s != {}
    ensures exists k :: k in s
  {
    if forall k :: k !in s {
      assert false;
    }
  }

  /**
   * The attach operation of a tab connector: it attaches the tab, ignores
   * whether that succeeded, and hands the tab to the caller.
   */
  method ConnectorAttach(c: TabConnector, l: Option<Listener>, reply: AttachReply) returns (tab: BrowserTab)
    modifies c.tab
    ensures tab == c.tab
    ensures tab.listener == l
    ensures tab.attached == (old(tab.attached) || reply == AttachReturned(ResultOk))
  {
    var _ := c.tab.Attach(l, reply);
    tab := c.tab;
  }

  class BrowserTab {
    /** The id the server's tab list gave this tab. */
    const id: int
    /** The url the tab list reported when this tab was created. */
    const url: string
    /** The session that created this tab. */
    const owner: Session
    /** Who receives this tab's debug events, once a client has attached. */
    var listener: Option<Listener>
    /** The session manager's attachment state. */
    var attached: bool

    constructor (id: int, url: string, owner: Session)
      ensures this.id == id && this.url == url && this.owner == owner
      ensures listener == None && !attached
    {
      this.id := id;
      this.url := url;
      this.owner := owner;
      listener := None;
      attached := false;
    }

    method GetId() returns (r: int)
      ensures r == id
    {
      r := id;
    }

    method GetUrl() returns (r: string)
      ensures r == url
    {
      r := url;
    }

    /**
     * Runs the attach handshake. The listener is recorded whatever the
     * outcome; a thrown AttachmentFailureException becomes `false`.
     */
    method Attach(l: Option<Listener>, reply: AttachReply) returns (ok: bool)
      modifies this
      ensures listener == l
      ensures ok <==> reply == AttachReturned(ResultOk)
      ensures attached == (old(attached) || ok)
    {
      var result: Option<ManagerResult> := None;
      match reply {
        case AttachReturned(r) =>
          result := Some(r);
          // the session manager is attached once its handshake reports OK
          if r == ResultOk { attached := true; }
        case AttachmentFailure =>
      }
      listener := l;
      ok := result == Some(ResultOk);
    }

    /** Runs the detach handshake; true only when it reports OK. */
    method Detach(reply: ManagerResult) returns (ok: bool)
      modifies this`attached
      ensures ok <==> reply == ResultOk
      ensures attached == (old(attached) && !ok)
    {
      // the session manager is detached once its handshake reports OK
      if reply == ResultOk { attached := false; }
      ok := reply == ResultOk;
    }

    /** The session manager's state, whatever the listener is. */
    method IsAttached() returns (b: bool)
      ensures b == attached
    {
      b := attached;
    }

    /** Asks the owning session to drop exactly this tab's id. */
    method SessionTerminated()
      requires owner.Valid()
      modifies owner`tabs, owner`connected
      ensures owner.Valid()
      ensures owner.tabs == old(owner.tabs) - {id}
      ensures owner.connected == (old(owner.connected) && owner.HasAttached())
    {
      owner.SessionTerminated(id);
    }

    /**
     * The debug context's reaction to the debugger going away: the session
     * manager becomes detached and reports the termination to the session.
     */
    method DebuggerDetached()
      requires owner.Valid()
      modifies this`attached, owner`tabs, owner`connected
      ensures !attached
      ensures owner.Valid()
      ensures owner.tabs == old(owner.tabs) - {id}
      ensures owner.connected == (old(owner.connected) && owner.HasAttached())
    {
      attached := false;
      owner.SessionTerminated(id);
    }
  }

  class Session {
    /** Tab id to tab. */
    var tabs: map<int, BrowserTab>
    /** Whether the DevTools service handler object exists. */
    var hasServiceHandler: bool
    var networkSetUp: bool
    /** The transport connection's `isConnected`. */
    var connected: bool

    ghost var handlersCreated: nat
    ghost var listenerRegistrations: nat
    ghost var startCalls: nat
    ghost var versionRequests: nat
    ghost var serviceDetachNotices: nat

    ghost predicate Valid()
      reads this
    {
      (forall k :: k in tabs ==> tabs[k].id == k && tabs[k].owner == this) &&
      (networkSetUp ==> hasServiceHandler) &&
      (connected ==> hasServiceHandler)
    }

    /** Some registered tab is attached. */
    ghost predicate HasAttached()
      reads this, tabs.Values
    {
      exists k :: k in tabs && tabs[k].attached
    }

    constructor ()
      ensures Valid()
      ensures tabs == map[] && !connected && !networkSetUp && !hasServiceHandler
      ensures handlersCreated == 0 && listenerRegistrations == 0 && startCalls == 0
      ensures versionRequests == 0 && serviceDetachNotices == 0
    {
      tabs := map[];
      hasServiceHandler := false;
      networkSetUp := false;
      connected := false;
      handlersCreated := 0;
      listenerRegistrations := 0;
      startCalls := 0;
      versionRequests := 0;
      serviceDetachNotices := 0;
    }

    method HasAttachedTabs() returns (b: bool)
      ensures b <==> exists k :: k in tabs && tabs[k].attached
    {
      var rest := tabs.Keys;
      while rest != {}
        invariant rest <= tabs.Keys
        invariant forall k :: k in tabs && k !in rest ==> !tabs[k].attached
        decreases rest
      {
        HasMember(rest);
        var k :| k in rest;
        if tabs[k].attached {
          return true;
        }
        rest := rest - {k};
      }
      return false;
    }

    /** Drops every registry entry whose tab is no longer attached. */
    method RemoveDetachedTabs()
      requires Valid()
      modifies this`tabs
      ensures Valid()
      ensures forall k :: k in tabs <==> k in old(tabs) && old(tabs)[k].attached
      ensures forall k :: k in tabs ==> tabs[k] == old(tabs)[k]
      ensures tabs == AttachedPart(old(tabs))
    {
      var rest := tabs.Keys;
      while rest != {}
        invariant rest <= old(tabs).Keys
        invariant forall k :: k in tabs <==> k in old(tabs) && (k in rest || old(tabs)[k].attached)
        invariant forall k :: k in tabs ==> tabs[k] == old(tabs)[k]
        invariant Valid()
        decreases rest
      {
        HasMember(rest);
        var k :| k in rest;
        if !tabs[k].attached {
          tabs := tabs - {k};
        }
        rest := rest - {k};
      }
    }

    method Disconnect()
      modifies this`connected
      ensures !connected
    {
      connected := false;
    }

    /**
     * Removes `tabId` from the registry, then closes the connection when it
     * is open and no remaining tab is attached.
     */
    method SessionTerminated(tabId: int)
      requires Valid()
      modifies this`tabs, this`connected
      ensures Valid()
      ensures tabs == old(tabs) - {tabId}
      ensures connected == (old(connected) && HasAttached())
    {
      tabs := tabs - {tabId};
      var has := HasAttachedTabs();
      if !has && connected {
        Disconnect();
      }
    }

    /**
     * Creates the service handler and registers the inbound listener unless
     * the network is already set up, then starts the connection if it is
     * not open. `wasConnected` is the connection's state on entry;
     * `ioFailure` reports that starting it threw an IOException.
     */
    method EnsureService(start: StartReply) returns (wasConnected: bool, ioFailure: bool)
      requires Valid()
      modifies this`hasServiceHandler, this`networkSetUp, this`connected,
               this`handlersCreated, this`listenerRegistrations, this`startCalls
      ensures Valid()
      ensures wasConnected == old(connected)
      ensures ioFailure <==> !old(connected) && start == StartIoError
      ensures networkSetUp && hasServiceHandler
      ensures handlersCreated == old(handlersCreated) + (if old(networkSetUp) then 0 else 1)
      ensures listenerRegistrations == old(listenerRegistrations) + (if old(networkSetUp) then 0 else 1)
      ensures startCalls == old(startCalls) + (if old(connected) then 0 else 1)
      ensures connected == (old(connected) || start == StartOk)
    {
      if !networkSetUp {
        hasServiceHandler := true;
        handlersCreated := handlersCreated + 1;
        listenerRegistrations := listenerRegistrations + 1;
        networkSetUp := true;
      }
      wasConnected := connected;
      ioFailure := false;
      if !wasConnected {
        startCalls := startCalls + 1;
        if start == StartOk {
          connected := true;
        } else {
          ioFailure := true;
        }
      }
    }

    /**
     * The handshake. On an open connection it returns at once, without a
     * version request; otherwise it starts the connection, asks for the
     * server version and checks it with `compatible`.
     */
    method Connect(start: StartReply, reply: VersionReply, compatible: Version -> bool) returns (r: ConnectOutcome)
      requires Valid()
      modifies this`hasServiceHandler, this`networkSetUp, this`connected,
               this`handlersCreated, this`listenerRegistrations, this`startCalls, this`versionRequests
      ensures Valid()
      ensures r == (if old(connected) then Connected
                    else if start == StartIoError then IoFailure(StartFailed)
                    else VersionVerdict(reply, compatible))
      ensures versionRequests == old(versionRequests) + (if old(connected) || start == StartIoError then 0 else 1)
      ensures networkSetUp == !r.UnsupportedVersion?
      ensures connected == (old(connected) || start == StartOk)
      ensures handlersCreated == old(handlersCreated) + (if old(networkSetUp) then 0 else 1)
      ensures listenerRegistrations == old(listenerRegistrations) + (if old(networkSetUp) then 0 else 1)
      ensures startCalls == old(startCalls) + (if old(connected) then 0 else 1)
    {
      var wasConnected, ioFailure := EnsureService(start);
      if wasConnected {
        return Connected;
      }
      if ioFailure {
        return IoFailure(StartFailed);
      }
      versionRequests := versionRequests + 1;
      r := VersionVerdict(reply, compatible);
      if r.UnsupportedVersion? {
        networkSetUp := false;
      }
    }

    /** True when the connection is open; `getTabs` fails otherwise. */
    method CheckConnection() returns (ok: bool)
      ensures ok <==> connected
    {
      ok := connected;
    }

    /**
     * Tab discovery over the tab list `entries` the service handler
     * returned. Prunes detached tabs, then yields one connector per entry,
     * in order, reusing the registered tab for an id only when it is
     * attached and registering a fresh tab otherwise.
     */
    method GetTabs(entries: seq<TabIdAndUrl>) returns (r: Fetched)
      requires Valid()
      modifies this`tabs
      ensures Valid()
      ensures r.IllegalState? <==> !connected
      ensures r.IllegalState? ==> tabs == old(tabs)
      ensures r.Tabs? ==> |r.connectors| == |entries|
      ensures r.Tabs? ==> forall j :: 0 <= j < |entries| ==>
                r.connectors[j].tab.id == entries[j].id && r.connectors[j].tab.owner == this
      ensures r.Tabs? ==> forall j :: 0 <= j < |entries| ==>
                if entries[j].id in AttachedPart(old(tabs)) then r.connectors[j].tab == old(tabs)[entries[j].id]
                else fresh(r.connectors[j].tab) && r.connectors[j].tab.url == entries[j].url &&
                     !r.connectors[j].tab.attached && r.connectors[j].tab.listener == None
      ensures r.Tabs? ==> forall a, b :: 0 <= a < b < |entries| && entries[a].id !in AttachedPart(old(tabs)) ==>
                r.connectors[a].tab != r.connectors[b].tab
      ensures r.Tabs? ==> tabs.Keys == AttachedPart(old(tabs)).Keys + Ids(entries)
      ensures r.Tabs? ==> forall j :: 0 <= j < |entries| ==> entries[j].id in tabs
      ensures r.Tabs? ==> forall k :: k in AttachedPart(old(tabs)) ==> tabs[k] == old(tabs)[k]
      ensures r.Tabs? ==> forall k :: k in tabs && k !in AttachedPart(old(tabs)) ==>
                exists j :: LastFor(entries, j, k) && tabs[k] == r.connectors[j].tab
    {
      var ok := CheckConnection();
      if !ok {
        return IllegalState;
      }
      RemoveDetachedTabs();
      var out := RegisterListed(entries);
      r := Tabs(out);
    }

    /**
     * The loop of `getTabs` over a registry of attached tabs: one connector
     * per entry, reusing an attached tab and registering a fresh one for
     * every other id.
     */
    method RegisterListed(entries: seq<TabIdAndUrl>) returns (out: seq<TabConnector>)
      requires Valid()
      requires forall k :: k in tabs ==> tabs[k].attached
      modifies this`tabs
      ensures Valid()
      ensures |out| == |entries|
      ensures forall j :: 0 <= j < |entries| ==> out[j].tab.id == entries[j].id && out[j].tab.owner == this
      ensures forall j :: 0 <= j < |entries| ==>
                if entries[j].id in old(tabs) then out[j].tab == old(tabs)[entries[j].id]
                else fresh(out[j].tab) && out[j].tab.url == entries[j].url &&
                     !out[j].tab.attached && out[j].tab.listener == None
      ensures forall a, b :: 0 <= a < b < |entries| && entries[a].id !in old(tabs) ==> out[a].tab != out[b].tab
      ensures tabs.Keys == old(tabs).Keys + Ids(entries)
      ensures forall k :: k in old(tabs) ==> tabs[k] == old(tabs)[k]
      ensures forall k :: k in tabs && k !in old(tabs) ==>
                exists j :: LastFor(entries, j, k) && tabs[k] == out[j].tab
    {
      var reg: map<int, BrowserTab>;
      ghost var at: map<int, nat>, made: set<BrowserTab>;
      out, reg, at, made := ListedTabs(entries);
      RegistryCoversList(entries, tabs, reg, out, at);
      tabs := reg;
    }

    /**
     * The loop of `getTabs`, on a copy of the registry: one connector per
     * entry, in order, with the registry copy it leaves and, for each newly
     * registered id, the last entry naming it.
     */
    method ListedTabs(entries: seq<TabIdAndUrl>)
      returns (out: seq<TabConnector>, reg: map<int, BrowserTab>, ghost at: map<int, nat>, ghost made: set<BrowserTab>)
      requires Valid()
      requires forall k :: k in tabs ==> tabs[k].attached
      ensures Indexed(entries, |entries|, out, reg, tabs, at)
      ensures Created(entries, |entries|, out, tabs, made)
      ensures forall t :: t in made ==> fresh(t) && !t.attached && t.listener == None
    {
      out, reg := [], tabs;
      var i := 0;
      // for each freshly registered id, the last entry so far naming it, whose connector holds its tab
      at := map[];
      // the tabs this loop created
      made := {};
      while i < |entries|
        invariant Indexed(entries, i, out, reg, tabs, at)
        invariant Created(entries, i, out, tabs, made)
        invariant forall t :: t in made ==> fresh(t) && !t.attached && t.listener == None
      {
        var e := entries[i];
        if e.id in reg && e.id !in tabs {
          assert reg[e.id] in made;
        }
        var tab, reg' := TabFor(reg, e);
        StepIndexed(entries, i, out, reg, tabs, at, tab, reg');
        StepCreated(entries, i, out, tabs, made, tab);
        if e.id !in tabs {
          at, made := at[e.id := i], made + {tab};
        }
        out, reg := out + [TabConnector(tab)], reg';
        i := i + 1;
      }
    }

    /**
     * The tabs `made` that the `getTabs` loop created, after `i` entries:
     * each entry whose id `before` lacks got one of them, with the entry's
     * url, and none of them is handed out for a later entry.
     */
    ghost predicate Created(entries: seq<TabIdAndUrl>, i: nat, out: seq<TabConnector>,
                            before: map<int, BrowserTab>, made: set<BrowserTab>)
    {
      i <= |entries| && |out| == i &&
      (forall j :: 0 <= j < i && entries[j].id !in before ==>
         out[j].tab in made && out[j].tab.url == entries[j].url) &&
      (forall a, b :: 0 <= a < b < i && entries[a].id !in before ==> out[a].tab != out[b].tab)
    }

    /**
     * One step of the `getTabs` loop keeps `Created`: the step hands out a
     * tab not created before it, a new one for an id `before` lacks.
     */
    lemma StepCreated(entries: seq<TabIdAndUrl>, i: nat, out: seq<TabConnector>,
                      before: map<int, BrowserTab>, made: set<BrowserTab>, tab: BrowserTab)
      requires Created(entries, i, out, before, made) && i < |entries|
      requires tab !in made
      requires entries[i].id !in before ==> tab.url == entries[i].url
      ensures Created(entries, i + 1, out + [TabConnector(tab)], before,
                      if entries[i].id in before then made else made + {tab})
    {
      var out' := out + [TabConnector(tab)];
      forall a, b | 0 <= a < b < i + 1 && entries[a].id !in before
        ensures out'[a].tab != out'[b].tab
      {
        if b == i {
          assert out'[a].tab in made;
        }
      }
    }

    /**
     * The bookkeeping of the `getTabs` loop after `i` entries, against the
     * registry `before` it started from: `out` holds one connector per
     * entry, for a tab of this session with the entry's id (the registered
     * one when `before` had the id); every id seen is registered, `before`
     * is kept, and `at` names, for each newly registered id, the entry
     * whose connector holds its tab, the last entry so far with that id.
     */
    ghost predicate Indexed(entries: seq<TabIdAndUrl>, i: nat, out: seq<TabConnector>, reg: map<int, BrowserTab>,
                            before: map<int, BrowserTab>, at: map<int, nat>)
    {
      i <= |entries| && |out| == i &&
      (forall j :: 0 <= j < i ==>
         entries[j].id in reg && out[j].tab.id == entries[j].id && out[j].tab.owner == this &&
         (entries[j].id in before ==> out[j].tab == before[entries[j].id])) &&
      (forall k :: k in before ==> k in reg) &&
      (forall k :: k in reg ==>
         reg[k].id == k && reg[k].owner == this &&
         (k in before ==> reg[k] == before[k]) &&
         (k !in before ==> k in at && at[k] < i && entries[at[k]].id == k && reg[k] == out[at[k]].tab &&
                           (forall j :: at[k] < j < i ==> entries[j].id != k)))
    }

    /**
     * One step of the `getTabs` loop keeps its bookkeeping: an id of
     * `before` keeps its tab, any other id is (re)registered to the tab of
     * the new connector.
     */
    lemma StepIndexed(entries: seq<TabIdAndUrl>, i: nat, out: seq<TabConnector>, reg: map<int, BrowserTab>,
                      before: map<int, BrowserTab>, at: map<int, nat>, tab: BrowserTab, reg': map<int, BrowserTab>)
      requires Indexed(entries, i, out, reg, before, at) && i < |entries|
      requires tab.id == entries[i].id && tab.owner == this
      requires entries[i].id in before ==> tab == reg[entries[i].id] && reg' == reg
      requires entries[i].id !in before ==> reg' == reg[entries[i].id := tab]
      ensures Indexed(entries, i + 1, out + [TabConnector(tab)], reg', before,
                      if entries[i].id in before then at else at[entries[i].id := i])
    {
    }

    /**
     * One step of the `getTabs` loop on registry `reg`: the tab registered
     * under the entry's id when it is attached, or else a fresh tab,
     * registered in its place.
     */
    method TabFor(reg: map<int, BrowserTab>, e: TabIdAndUrl) returns (tab: BrowserTab, reg': map<int, BrowserTab>)
      requires forall k :: k in reg ==> reg[k].id == k && reg[k].owner == this
      ensures tab.id == e.id && tab.owner == this
      ensures e.id in reg && reg[e.id].attached ==> tab == reg[e.id] && reg' == reg
      ensures !(e.id in reg && reg[e.id].attached) ==>
                fresh(tab) && tab.url == e.url && !tab.attached && tab.listener == None &&
                reg' == reg[e.id := tab]
    {
      var found: BrowserTab? := if e.id in reg then reg[e.id] else null;
      if found == null || !found.attached {
        tab := new BrowserTab(e.id, e.url, this);
        reg' := reg[e.id := tab];
      } else {
        tab, reg' := found, reg;
      }
    }

    /** Routes an inbound message; the registry is only read. */
    method MessageReceived(m: Message) returns (d: Delivery)
      requires Valid()
      ensures d == Route(m.tool, m.destination, tabs.Keys, hasServiceHandler)
      ensures d.ToTab? ==> d.id in tabs && tabs[d.id].id == m.destination
    {
      d := Route(m.tool, m.destination, tabs.Keys, hasServiceHandler);
    }

    /** A copy of the registry's tabs, each once. */
    method Snapshot() returns (s: seq<BrowserTab>)
      requires Valid()
      ensures forall k :: k in tabs ==> tabs[k] in s
      ensures forall j :: 0 <= j < |s| ==> s[j].id in tabs && tabs[s[j].id] == s[j]
      ensures forall a, b :: 0 <= a < b < |s| ==> s[a] != s[b]
    {
      s := [];
      var rest := tabs.Keys;
      while rest != {}
        invariant rest <= tabs.Keys
        invariant forall k :: k in tabs && k !in rest ==> tabs[k] in s
        invariant forall j :: 0 <= j < |s| ==> s[j].id in tabs && tabs[s[j].id] == s[j] && s[j].id !in rest
        invariant forall a, b :: 0 <= a < b < |s| ==> s[a] != s[b]
        decreases rest
      {
        HasMember(rest);
        var k :| k in rest;
        s := s + [tabs[k]];
        rest := rest - {k};
      }
    }

    /**
     * The transport reports the connection closed: the service handler is
     * told, then every tab of a snapshot of the registry learns that the
     * debugger detached, which removes it from the live registry.
     */
    method ConnectionClosed()
      requires Valid() && !connected && hasServiceHandler
      modifies this`tabs, this`connected, this`serviceDetachNotices, tabs.Values`attached
      ensures Valid() && !connected
      ensures serviceDetachNotices == old(serviceDetachNotices) + 1
      ensures tabs == map[]
      ensures forall k :: k in old(tabs) ==> !old(tabs)[k].attached
    {
      serviceDetachNotices := serviceDetachNotices + 1;
      var snapshot := Snapshot();
      var i := 0;
      while i < |snapshot|
        invariant 0 <= i <= |snapshot|
        invariant Valid() && !connected
        invariant serviceDetachNotices == old(serviceDetachNotices) + 1
        invariant forall k :: k in tabs ==> k in old(tabs) && tabs[k] == old(tabs)[k]
        invariant forall j :: 0 <= j < |snapshot| ==> snapshot[j] in old(tabs).Values && snapshot[j].owner == this
        invariant forall j :: i <= j < |snapshot| ==> snapshot[j].id in tabs
        invariant forall j :: 0 <= j < i ==> snapshot[j].id !in tabs && !snapshot[j].attached
      {
        snapshot[i].DebuggerDetached();
        i := i + 1;
      }
      forall k | k in old(tabs)
        ensures k !in tabs && !old(tabs)[k].attached
      {
        var j :| 0 <= j < |snapshot| && snapshot[j] == old(tabs)[k];
      }
      assert forall k :: k !in tabs;
      assert tabs == map[];
    }
  }
}
