/** The debug adapter's "scopes" request handler. Given a frame id, it
    answers with the four scopes visible in that frame (locals,
    superglobals, user-defined constants, system constants), or with none
    when the frame no longer resolves.

    The command object's one piece of mutable state, the memoised frame
    pointer, is a field of the `Command` value that every operation takes
    and returns. */
module Scopes {
  import opened Wrappers
  import opened Session

  /** The `arguments` member of a request; `frameId` is `None` when absent. */
  datatype Arguments = Arguments(frameId: Option<int>)

  /** An incoming request; `arguments` is `None` when absent. */
  datatype Request = Request(arguments: Option<Arguments>)

  /** The message of the exception a rejected construction throws. */
  const InvalidFrameId: string := "Invalid frameId specified."

  /** A constructed scopes command: the frame id it was built with, the
      memoised frame (`None` while nothing non-null has been looked up),
      and, as a record for the model only, every frame id it has passed to
      the session's frame lookup, oldest first. */
  datatype Command = Command(frameId: int, frameObj: Option<FrameObject>, frameQueries: seq<int>)

  /** The state every reachable command is in: the frame id is positive,
      every session lookup it made used that frame id, and a memoised frame
      implies that at least one lookup was made. */
  predicate Valid(cmd: Command)
  {
    && cmd.frameId > 0
    && (forall i :: 0 <= i < |cmd.frameQueries| ==> cmd.frameQueries[i] == cmd.frameId)
    && (cmd.frameObj.Some? ==> |cmd.frameQueries| > 0)
  }

  /** A descriptor of one scope in the response body. */
  datatype Descriptor = Descriptor(
    name: string,
    variablesReference: ScopeId,
    expensive: bool,
    namedVariables: int)

  /** The response body; `scopes` is always present. */
  datatype Body = Body(scopes: seq<Descriptor>)

  datatype Response = Response(body: Body)

  /** The frame a lookup produced, and the command after it. */
  datatype Lookup = Lookup(frame: Option<FrameObject>, cmd: Command)

  /** The thread id a request is routed to, and the command after it. */
  datatype Routing = Routing(threadId: int, cmd: Command)

  /** One descriptor, and the command after building it. */
  datatype Described = Described(desc: Descriptor, cmd: Command)

  /** The outcome of executing the command: the response, whether the
      paused target is resumed, and the command afterwards. */
  datatype Execution = Execution(response: Response, resumeTarget: bool, cmd: Command)

  /** The scope kinds in the order the response lists them. */
  const ScopeOrder: seq<ScopeKind> := [Locals, Superglobals, UserDefinedConstants, CoreConstants]

  /** The name the response shows for each scope kind. */
  function DisplayName(kind: ScopeKind): string
  {
    match kind
    case Locals => "Locals"
    case Superglobals => "Superglobals"
    case UserDefinedConstants => "User Defined Constants"
    case CoreConstants => "System Constants"
  }

  /** The frame id a request carries, with -1 standing in for a missing
      `arguments` object or a missing `frameId` member. */
  function RequestedFrameId(req: Request): (id: int)
    ensures req.arguments.None? ==> id == -1
    ensures req.arguments.Some? && req.arguments.value.frameId.None? ==> id == -1
    ensures req.arguments.Some? && req.arguments.value.frameId.Some? ==> id == req.arguments.value.frameId.value
  {
    match req.arguments
    case None => -1
    case Some(args) => args.frameId.GetOr(-1)
  }

  /** Construction: a request whose frame id is not positive is rejected;
      otherwise the command keeps that frame id and has looked nothing up. */
  function Create(req: Request): (r: Result<Command, string>)
    ensures r.Failure? <==> RequestedFrameId(req) <= 0
    ensures r.Failure? ==> r.error == InvalidFrameId
    ensures req.arguments.None? || req.arguments.value.frameId.None? ==> r.Failure?
    ensures r.Success? ==> r.value.frameId == RequestedFrameId(req) && r.value.frameId > 0
    ensures r.Success? ==> r.value.frameObj.None? && r.value.frameQueries == []
    ensures r.Success? ==> Valid(r.value)
  {
    var frameId := RequestedFrameId(req);
    if frameId <= 0 then Failure(InvalidFrameId)
    else Success(Command(frameId, None, []))
  }

  /** The memoised frame lookup: a non-null memo is returned without asking
      the session; otherwise the session is asked for the command's frame
      id and its answer, null or not, becomes the memo. */
  function GetFrameObject(cmd: Command, lookup: FrameLookup): (r: Lookup)
    ensures cmd.frameObj.Some? ==> r.frame == cmd.frameObj && r.cmd == cmd
    ensures cmd.frameObj.None? ==> r.frame == lookup(cmd.frameId)
    ensures cmd.frameObj.None? ==> r.cmd.frameQueries == cmd.frameQueries + [cmd.frameId]
    ensures r.cmd.frameObj == r.frame && r.cmd.frameId == cmd.frameId
    ensures Valid(cmd) ==> Valid(r.cmd)
  {
    if cmd.frameObj.Some? then Lookup(cmd.frameObj, cmd)
    else
      var frame := lookup(cmd.frameId);
      Lookup(frame, cmd.(frameObj := frame, frameQueries := cmd.frameQueries + [cmd.frameId]))
  }

  /** The thread a request is routed to: the resolved frame's request id,
      or 0 when the frame does not resolve. */
  function TargetThreadId(cmd: Command, lookup: FrameLookup): (r: Routing)
    ensures var m := GetFrameObject(cmd, lookup);
      && (m.frame.None? ==> r.threadId == 0)
      && (m.frame.Some? ==> r.threadId == m.frame.value.requestId)
      && r.cmd == m.cmd
    ensures Valid(cmd) ==> Valid(r.cmd)
  {
    var m := GetFrameObject(cmd, lookup);
    match m.frame
    case None => Routing(0, m.cmd)
    case Some(frame) => Routing(frame.requestId, m.cmd)
  }

  /** One scope's descriptor, built from the frame the command resolves:
      its id comes from the session's generator for the frame's request,
      depth and the scope kind, its variable count from the session's
      object for that id, and it is always marked expensive. The caller
      guarantees that the frame resolves. */
  function GetScopeDescription(
    cmd: Command, s: Session, count: VariableCounter, displayName: string, kind: ScopeKind
  ): (r: Described)
    requires GetFrameObject(cmd, s.getFrameObject).frame.Some?
    ensures var frame := GetFrameObject(cmd, s.getFrameObject).frame.value;
      && r.desc.name == displayName
      && r.desc.expensive
      && r.desc.variablesReference == s.generateScopeId(frame.requestId, frame.frameDepth, kind)
      && r.desc.namedVariables == count(s.getScopeObject(r.desc.variablesReference))
    ensures r.cmd == GetFrameObject(cmd, s.getFrameObject).cmd
    ensures Valid(cmd) ==> Valid(r.cmd)
  {
    var m := GetFrameObject(cmd, s.getFrameObject);
    var frame := m.frame.value;
    var scopeId := s.generateScopeId(frame.requestId, frame.frameDepth, kind);
    var scopeObj := s.getScopeObject(scopeId);
    Described(Descriptor(displayName, scopeId, true, count(scopeObj)), m.cmd)
  }

  /** Executes the command: when the frame resolves, the body lists the
      four scopes in the fixed order, and otherwise no scope at all. The
      frame is looked up at most once, and the target is never resumed. */
  function ExecuteImpl(cmd: Command, s: Session, count: VariableCounter): (r: Execution)
    ensures !r.resumeTarget
    ensures var m := GetFrameObject(cmd, s.getFrameObject);
      && r.cmd == m.cmd
      && (m.frame.None? <==> r.response.body.scopes == [])
      && (m.frame.Some? ==> |r.response.body.scopes| == |ScopeOrder|)
    ensures var frame := GetFrameObject(cmd, s.getFrameObject).frame;
      frame.Some? ==>
        forall i :: 0 <= i < |r.response.body.scopes| ==>
          var d := r.response.body.scopes[i];
          && i < |ScopeOrder|
          && d.name == DisplayName(ScopeOrder[i])
          && d.expensive
          && d.variablesReference == s.generateScopeId(frame.value.requestId, frame.value.frameDepth, ScopeOrder[i])
          && d.namedVariables == count(s.getScopeObject(d.variablesReference))
    ensures Valid(cmd) ==> Valid(r.cmd)
  {
    var m := GetFrameObject(cmd, s.getFrameObject);
    if m.frame.None? then Execution(Response(Body([])), false, m.cmd)
    else
      var locals := GetScopeDescription(m.cmd, s, count, "Locals", Locals);
      var globals := GetScopeDescription(locals.cmd, s, count, "Superglobals", Superglobals);
      var user := GetScopeDescription(globals.cmd, s, count, "User Defined Constants", UserDefinedConstants);
      var core := GetScopeDescription(user.cmd, s, count, "System Constants", CoreConstants);
      Execution(Response(Body([locals.desc, globals.desc, user.desc, core.desc])), false, core.cmd)
  }
}
