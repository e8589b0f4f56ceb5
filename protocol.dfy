/**
 * Value types of the DevTools client protocol: versions, tool names,
 * inbound messages, the replies of the external collaborators (transport,
 * DevTools service handler, per-tab session manager), and the two pure
 * decisions the session makes on them: where an inbound message goes and
 * what a version answer means for `connect`.
 */
module Protocol {

  datatype Option<+T> = None | Some(value: T)

  /** A protocol version, a (major, minor) pair. */
  datatype Version = Version(major: nat, minor: nat)

  /**
   * Timeout of every request/response exchange with the browser. It mirrors
   * the source's constant only: a timeout is a reply the model is given.
   */
  const OperationTimeoutMs: nat := 3000

  /** Mirrors the source's placeholder version; no operation of the model uses it. */
  const InvalidVersion: Version := Version(0, 0)

  /** The protocol version this client implements. */
  const ProtocolVersion: Version := Version(0, 1)

  /** The tools a "Tool" header can name. */
  datatype Tool = DevToolsService | V8Debugger | OtherTool(name: string)

  /**
   * An inbound message with its headers already parsed: `tool` is None when
   * the "Tool" header names no known tool; `destination` is the tab id.
   */
  datatype Message = Message(tool: Option<Tool>, destination: int, payload: string)

  /** Why a message reached no handler. */
  datatype DropReason =
    | BadToolHeader      // the "Tool" header named no tool
    | UnregisteredTool   // a tool without a handler in the session
    | NullHandler        // a known tool, but no handler object for it

  /** The handler an inbound message is delivered to, if any. */
  datatype Delivery = ToServiceHandler | ToTab(id: int) | Dropped(reason: DropReason)

  /** One entry of the browser's tab list. */
  datatype TabIdAndUrl = TabIdAndUrl(id: int, url: string)

  /** What `Connection.start` did. */
  datatype StartReply = StartOk | StartIoError

  /** What the DevTools service handler's version request produced. */
  datatype VersionReply = VersionTimeout | VersionAnswer(server: Option<Version>)

  datatype IoCause = StartFailed | VersionTimedOut

  /** How `connect` ends: normally, with an IOException, or with an UnsupportedVersionException. */
  datatype ConnectOutcome =
    | Connected
    | IoFailure(cause: IoCause)
    | UnsupportedVersion(expected: Version, actual: Option<Version>)

  /** The session manager's `Result` of an attach or detach handshake. */
  datatype ManagerResult = ResultOk | ResultOther(code: nat)

  /** What `attachToTab` did: returned a result or threw AttachmentFailureException. */
  datatype AttachReply = AttachReturned(result: ManagerResult) | AttachmentFailure

  /** A debug event listener, identified by a handle. */
  datatype Listener = Listener(handle: nat)

  /**
   * Routing of an inbound message: DevToolsService messages go to the
   * service handler, V8Debugger messages to the tab registered under the
   * destination id, and everything else is dropped for the reason logged.
   */
  function Route(tool: Option<Tool>, destination: int, registered: set<int>, hasServiceHandler: bool): (d: Delivery)
    ensures d.ToServiceHandler? <==> tool == Some(DevToolsService) && hasServiceHandler
    ensures d.ToTab? <==> tool == Some(V8Debugger) && destination in registered
    ensures d.ToTab? ==> d.id == destination
    ensures d == Dropped(BadToolHeader) <==> tool.None?
    ensures d == Dropped(UnregisteredTool) <==> tool.Some? && tool.value.OtherTool?
    ensures d == Dropped(NullHandler) <==>
              (tool == Some(DevToolsService) && !hasServiceHandler) ||
              (tool == Some(V8Debugger) && destination !in registered)
  {
    match tool
    case None => Dropped(BadToolHeader)
    case Some(DevToolsService) => if hasServiceHandler then ToServiceHandler else Dropped(NullHandler)
    case Some(V8Debugger) => if destination in registered then ToTab(destination) else Dropped(NullHandler)
    case Some(OtherTool(_)) => Dropped(UnregisteredTool)
  }

  /**
   * The outcome of `connect` once a version request was issued on a freshly
   * started connection: a timeout is an I/O failure; a missing or
   * incompatible server version is unsupported; a compatible one succeeds.
   * `compatible` is `PROTOCOL_VERSION.isCompatibleWithServer`.
   */
  function VersionVerdict(reply: VersionReply, compatible: Version -> bool): (r: ConnectOutcome)
    ensures r != IoFailure(StartFailed)
    ensures r == IoFailure(VersionTimedOut) <==> reply == VersionTimeout
    ensures r == Connected <==> reply.VersionAnswer? && reply.server.Some? && compatible(reply.server.value)
    ensures r.UnsupportedVersion? <==>
              reply.VersionAnswer? && (reply.server.None? || !compatible(reply.server.value))
    ensures r.UnsupportedVersion? ==> r.expected == ProtocolVersion && r.actual == reply.server
  {
    match reply
    case VersionTimeout => IoFailure(VersionTimedOut)
    case VersionAnswer(server) =>
      if server.None? || !compatible(server.value) then UnsupportedVersion(ProtocolVersion, server)
      else Connected
  }
}
