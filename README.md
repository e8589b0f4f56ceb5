# Browser session of the Chrome DevTools SDK, in Dafny

This project models the browser-side core of the Chrome DevTools SDK (Java). A
`Session` keeps the connection to the browser and a registry that maps tab ids
to `BrowserTab` objects. It creates the DevTools service handler lazily and
registers itself as the connection's listener. A `BrowserTab` wraps one tab's
attach/detach handshake with the tab's session manager.

The model has three modules:

- `Protocol` (`protocol.dfy`) holds the value types: versions, tools, inbound
  messages, tab list entries, and the replies of the external collaborators. It
  also holds the two decisions the session makes on pure data:
  - `Route` says which handler an inbound message goes to;
  - `VersionVerdict` says what a version answer means for `connect`.
- `Browser` (`browser.dfy`) holds the two classes, `Session` and `BrowserTab`.
  Their fields change in place as they do in the Java classes, and their
  methods are proved against the functions above and against the state they
  leave behind.
- `Scenarios` (`scenarios.dfy`) holds client call sequences on a fresh
  session. Each one proves a behaviour that spans several calls: retrying the
  handshake, rediscovering tabs, disconnecting after the last detach, and
  routing to discovered tabs.

How the collaborators the core calls into are represented:

- **Transport connection** (`Connection`): the session's `connected` flag.
  `start` can fail with an `IOException`, so the outcome of `start` is an
  argument, `StartReply`.
- **DevTools service handler**: the flag `hasServiceHandler`. Its `version` and
  `listTabs` answers are arguments: `VersionReply`, and the `entries` passed to
  `GetTabs`.
- **Per-tab session manager** (`ChromeDevToolSessionManager`): the tab's
  `attached` flag. Its attach and detach results are arguments (`AttachReply`,
  `ManagerResult`). An `OK` result attaches or detaches the manager, and any
  other result leaves it as it was.
- **Version compatibility**: `PROTOCOL_VERSION.isCompatibleWithServer` is the
  function argument `compatible`.
- **Calls to collaborators that have no visible effect here**: ghost counters
  on the session (`handlersCreated`, `listenerRegistrations`, `startCalls`,
  `versionRequests`, `serviceDetachNotices`).

Where the Java source disagrees with itself:

- **Who owns a tab.** `BrowserTabImpl` stores a `BrowserImpl` and calls
  `browserImpl.sessionTerminated(tabId)` (`BrowserTabImpl.java:25,35,86`).
  However, `getTabs` constructs each tab with `Session.this`
  (`BrowserImpl.java:240`), and `sessionTerminated` is a method of `Session`
  (`BrowserImpl.java:119`). The model follows the call sites: a tab's `owner`
  is the `Session` that created it.
- **How a tab learns the debugger detached.** `connectionClosed` calls
  `getDebugSession().onDebuggerDetached()` on each tab
  (`BrowserImpl.java:185`). Neither `BrowserTabImpl` nor `JavascriptVmImpl`
  defines `getDebugSession`; they offer `getSessionManager` and
  `getDebugContext`. The model reads the call as going to the tab's session
  manager. `Browser.BrowserTab.DebuggerDetached` stands for it: the manager
  becomes detached, and the tab reports its session terminated to its owner.
- **State after an unsupported version.** `connect` does not close the
  connection when the version is unsupported (the TODO at
  `BrowserImpl.java:135`). It only clears `isNetworkSetUp`. So a second
  `connect` finds the connection open and returns normally without checking the
  version again. It does rebuild the service handler and the listener
  registration. `Scenarios.RetryAfterUnsupportedVersion` proves this sequence.

## Model

Source paths below are relative to the repository root. `BrowserImpl.java` stands for
`plugins/org.chromium.sdk/src/org/chromium/sdk/internal/BrowserImpl.java` and is cited in full in the table.

| member | source | states |
|---|---|---|
| Protocol.Route | plugins/org.chromium.sdk/src/org/chromium/sdk/internal/BrowserImpl.java:189-218 | A message goes to the service handler exactly when its tool is DevToolsService and the handler exists. It goes to a tab exactly when its tool is V8Debugger and its destination is a registered tab id, and then to that id. Otherwise it is dropped, and each drop reason (bad tool header, unregistered tool, null handler) is characterised in both directions. |
| Protocol.VersionVerdict | plugins/org.chromium.sdk/src/org/chromium/sdk/internal/BrowserImpl.java:141-151 | A version timeout becomes an IOException, and nothing else does. The handshake succeeds exactly when the server reports a version that `compatible` accepts. A missing or incompatible version yields UnsupportedVersion carrying PROTOCOL_VERSION 0.1 and the server's version. |
| Browser.Session.constructor | plugins/org.chromium.sdk/src/org/chromium/sdk/internal/BrowserImpl.java:89-91 | A new session has an empty registry, no service handler, the network not set up and the connection not started. |
| Browser.Session.RemoveDetachedTabs | plugins/org.chromium.sdk/src/org/chromium/sdk/internal/BrowserImpl.java:97-105 | An id stays registered exactly when it was registered and its tab is attached. Kept entries keep their tab, and the registry invariant is preserved. |
| Browser.Session.Disconnect | plugins/org.chromium.sdk/src/org/chromium/sdk/internal/BrowserImpl.java:115-117 | Afterwards the connection is closed. |
| Browser.Session.SessionTerminated | plugins/org.chromium.sdk/src/org/chromium/sdk/internal/BrowserImpl.java:119-124 | Exactly `tabId` leaves the registry. The connection stays open exactly when it was open and some remaining tab is attached. |
| Browser.Session.HasAttachedTabs | plugins/org.chromium.sdk/src/org/chromium/sdk/internal/BrowserImpl.java:126-133 | The answer is true exactly when some registered tab is attached. |
| Browser.Session.Connect | plugins/org.chromium.sdk/src/org/chromium/sdk/internal/BrowserImpl.java:135-152 | See the breakdown after this table. |
| Browser.Session.EnsureService | plugins/org.chromium.sdk/src/org/chromium/sdk/internal/BrowserImpl.java:154-165 | Creates the handler and registers the listener exactly when the network was not set up; afterwards both are set up. Starts the connection exactly when it was closed. Reports the connection's state on entry, and reports an I/O failure exactly when a start was attempted and failed. |
| Browser.Session.CheckConnection | plugins/org.chromium.sdk/src/org/chromium/sdk/internal/BrowserImpl.java:172-176 | Passes exactly when the connection is open. |
| Browser.Session.ConnectionClosed | plugins/org.chromium.sdk/src/org/chromium/sdk/internal/BrowserImpl.java:179-187 | The service handler is notified once. Every tab registered on entry ends detached, and only the tabs' attachment state may change, so their listeners stay. The registry ends empty, and the connection stays closed. |
| Browser.Session.Snapshot | plugins/org.chromium.sdk/src/org/chromium/sdk/internal/BrowserImpl.java:183 | The copy holds every registered tab, only registered tabs, and each one once. |
| Browser.Session.MessageReceived | plugins/org.chromium.sdk/src/org/chromium/sdk/internal/BrowserImpl.java:189-218 | The delivery equals `Route` applied to the message's tool, its destination, the registered ids and the handler's existence. A delivery to a tab names a registered tab with the destination id. |
| Browser.Session.GetTabs | plugins/org.chromium.sdk/src/org/chromium/sdk/internal/BrowserImpl.java:232-246 | See the breakdown after this table. |
| Browser.Session.RegisterListed | plugins/org.chromium.sdk/src/org/chromium/sdk/internal/BrowserImpl.java:236-245 | Over a registry of attached tabs: one connector per entry, reusing the registered tab for a known id and creating a fresh tab for every entry with any other id, so an id listed twice gets two distinct tabs. The final registry is the old one plus the listed ids. Every new entry holds the tab of the connector for the last entry that lists its id, as the repeated `put` leaves it. |
| Browser.Session.TabFor | plugins/org.chromium.sdk/src/org/chromium/sdk/internal/BrowserImpl.java:238-242 | For a registered, attached id: that tab, with the registry unchanged. Otherwise: a fresh unattached tab with the entry's id and url, registered under the id. |
| Browser.RegistryCoversList | plugins/org.chromium.sdk/src/org/chromium/sdk/internal/BrowserImpl.java:237-242 | After the discovery loop, the registered ids are exactly the old ids plus the listed ids. Each newly registered id holds the tab of the connector for the last entry with that id. |
| Browser.ConnectorAttach | plugins/org.chromium.sdk/src/org/chromium/sdk/internal/BrowserImpl.java:265-268 | Attaches the connector's tab and returns that same tab, whatever the handshake's result. The listener is recorded, and the tab is attached exactly when it already was or the handshake returned OK. |
| Browser.BrowserTab.constructor | plugins/org.chromium.sdk/src/org/chromium/sdk/internal/BrowserTabImpl.java:35-41 | Sets the given id, url and owner, with no listener and the session manager not attached. |
| Browser.BrowserTab.GetUrl | plugins/org.chromium.sdk/src/org/chromium/sdk/internal/BrowserTabImpl.java:43-45 | Returns the url the tab was created with; the url never changes afterwards. |
| Browser.BrowserTab.GetId | plugins/org.chromium.sdk/src/org/chromium/sdk/internal/BrowserTabImpl.java:47-49 | Returns the id the tab was created with; the id never changes afterwards. |
| Browser.BrowserTab.Attach | plugins/org.chromium.sdk/src/org/chromium/sdk/internal/BrowserTabImpl.java:65-74 | The listener is recorded in every case, including a thrown AttachmentFailureException. The result is true exactly when the manager returned OK. The tab is attached exactly when it was already attached or the result is true. |
| Browser.BrowserTab.Detach | plugins/org.chromium.sdk/src/org/chromium/sdk/internal/BrowserTabImpl.java:76-79 | The result is true exactly when the manager returned OK. The tab stays attached exactly when it was attached and the detach did not succeed. |
| Browser.BrowserTab.IsAttached | plugins/org.chromium.sdk/src/org/chromium/sdk/internal/BrowserTabImpl.java:81-83 | Reports the session manager's attachment state. |
| Browser.BrowserTab.SessionTerminated | plugins/org.chromium.sdk/src/org/chromium/sdk/internal/BrowserTabImpl.java:85-87 | Exactly this tab's id leaves its owner's registry. The owner stays connected exactly when it was connected and still has an attached tab. |
| Browser.BrowserTab.DebuggerDetached | plugins/org.chromium.sdk/src/org/chromium/sdk/internal/BrowserImpl.java:181-185 | The tab ends detached and leaves its owner's registry, and the owner disconnects when no attached tab remains. |
| Scenarios.ConnectedSession | plugins/org.chromium.sdk/src/org/chromium/sdk/internal/BrowserImpl.java:136-165 | A handshake that starts the connection and meets a compatible version leaves the session connected, with a service handler and an empty registry. |
| Scenarios.RetryAfterUnsupportedVersion | plugins/org.chromium.sdk/src/org/chromium/sdk/internal/BrowserImpl.java:135-165 | On an incompatible server the first `connect` fails with UnsupportedVersion(0.1, v). The second returns normally on the still-open connection. The version was requested only once, and the service handler was created twice. |
| Scenarios.TabsNeedConnection | plugins/org.chromium.sdk/src/org/chromium/sdk/internal/BrowserImpl.java:172-176 | `getTabs` on a session that was never connected throws IllegalStateException, whatever the tab list. |
| Scenarios.RediscoverAttachedTab | plugins/org.chromium.sdk/src/org/chromium/sdk/internal/BrowserImpl.java:237-243 | A tab attached through its connector is handed out again by the next discovery, with its listener, its id and its original url, even when the list now reports another url. |
| Scenarios.ReplaceFailedTab | plugins/org.chromium.sdk/src/org/chromium/sdk/internal/BrowserImpl.java:238-242 | A tab whose attach did not return OK is not reused. The next discovery hands out a different, unattached tab with the id and the newly listed url. |
| Browser.Session.ListedTabs | plugins/org.chromium.sdk/src/org/chromium/sdk/internal/BrowserImpl.java:237-244 | The loop on a copy of the registry. Each entry whose id the registry lacks gets its own tab: it is created by the loop, fresh, unattached, without a listener and with the entry's url, and it is never handed out for a later entry. The registry copy covers the listed ids, and each new id maps to its last entry's tab. |
| Scenarios.DuplicateEntry | plugins/org.chromium.sdk/src/org/chromium/sdk/internal/BrowserImpl.java:237-242 | A list naming a new id twice yields two distinct tabs with that id, and the registry keeps the second one. |
| Scenarios.TwoAttachedTabs | plugins/org.chromium.sdk/src/org/chromium/sdk/internal/BrowserImpl.java:232-246 | Discovering two distinct ids and attaching both leaves exactly those two tabs registered, both attached. |
| Scenarios.LastDetachDisconnects | plugins/org.chromium.sdk/src/org/chromium/sdk/internal/BrowserImpl.java:119-124 | When the first of two attached tabs detaches and terminates, the connection stays open. When the second does too, the connection closes and the registry is empty. |
| Scenarios.RouteAfterDiscovery | plugins/org.chromium.sdk/src/org/chromium/sdk/internal/BrowserImpl.java:196-205 | After discovery, debugger traffic reaches the listed tab. Traffic for an unlisted id reaches no handler, and service traffic reaches the service handler. |

What `Browser.Session.Connect` states:

- On an open connection it returns normally and sends no version request.
- If starting the connection fails, the result is an IOException.
- Otherwise the result is `VersionVerdict` of the server's answer, after exactly one version request.
- The network ends set up exactly when the result is not UnsupportedVersion.
- The connection is open afterwards exactly when it was open before or starting it succeeded.

What `Browser.Session.GetTabs` states:

- On a closed connection it throws IllegalStateException and leaves the registry unchanged.
- Otherwise it returns one connector per listed entry, in order, each for a tab of this session with the entry's id.
- An id that was registered and attached keeps its tab.
- Any other listed id gets a fresh, unattached tab with no listener and the entry's url. Each such entry gets a tab of its own, even when the id is listed again.
- Registered but unattached tabs are dropped.
- The registry ends as the attached old ids plus the listed ids.
- A newly registered id holds the tab of the connector for the last entry that lists it. This matters when an unattached id is listed twice.

## Left out

- The transport: sockets, the handshake bytes, message framing, and parsing of the "Tool" and "Destination" headers. `ToolName.forString` becomes `Message.tool` (`None` stands for an unknown name). `Integer.valueOf` becomes the integer `Message.destination`. A non-numeric destination, which throws NumberFormatException in Java, is not modelled.
- `DevToolsServiceHandler`, `ChromeDevToolSessionManager` and `DebugContextImpl` are not part of this model. Their replies are arguments, and their internal effects are ghost counters or the tab's `attached` flag. Delivering a message to its handler (`handleMessage`) is represented by the `Delivery` value alone.
- Threads, `synchronized`, `volatile` and the synchronized map: the model is sequential.
- Logging of dropped messages: only the reason is kept, as `DropReason`.
- `Version.isCompatibleWithServer`: its rule is not in the modelled files, so it is a function argument.
- The `BrowserImpl` facade (`connect`, `disconnect`, `createTabFetcher`), `getTabFetcher`, `getBrowserTab`, `getConnection`, `getBrowser`, `getPermanentSessionForTest` and `getDevToolsServiceHandler` only forward or expose fields. `TabFetcherImpl.dismiss` is an empty TODO. `TabConnectorImpl.getUrl` forwards to the tab's url.
- `BrowserTabImpl.getDebugContext`, `getDebugEventListener`, `getV8ToolHandler` and `getSessionManager` return collaborators that are not modelled. Everything the tab inherits from `JavascriptVmImpl` (breakpoints, scripts) is not part of this model.
- `Browser.Session.CheckConnection`: the `connection == null` test is left out, because the connection is always present in the model.
- `Browser.Session.ConnectionClosed` requires a closed connection and an existing service handler. The transport reports a close only after the connection is closed. The listener that receives the report is registered only after the handler is created (`BrowserImpl.java:155-158`).
- `Browser.BrowserTab.DebuggerDetached`: the debug session's `onDebuggerDetached` lives in code that is not part of this model. It is modelled from the comment at `BrowserImpl.java:181-182`: the tab's session manager becomes detached, and the tab reports its session terminated to its owner.
- `Browser.BrowserTab.Detach`: the session manager's teardown (`detachFromTab`) is not part of this model, so a detach is not modelled as reporting `sessionTerminated`. In response to a detach, the registry and the connection change only when `SessionTerminated` or `DebuggerDetached` is called, as `Scenarios.LastDetachDisconnects` does after each detach.
