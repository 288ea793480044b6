/** Worked examples of the scopes request against one concrete session:
    frame 7 belongs to request 3 at depth 0, and its scopes hold 2 locals,
    no superglobals, 1 user constant and 5 system constants. */
module ScopesExamples {
  import opened Wrappers
  import opened Session
  import opened Scopes

  /** Scope ids 1 to 4, one per kind, for every frame. */
  function ExampleScopeId(requestId: int, depth: int, kind: ScopeKind): ScopeId
  {
    match kind
    case Locals => 1
    case Superglobals => 2
    case UserDefinedConstants => 3
    case CoreConstants => 4
  }

  /** Only frame 7 resolves. */
  function ExampleFrames(id: int): Option<FrameObject>
  {
    if id == 7 then Some(FrameObject(3, 0)) else None
  }

  /** The superglobals scope has no object; the others hold their id. */
  function ExampleScopeObject(id: ScopeId): Option<ScopeObject>
  {
    if id == 2 then None else Some(ScopeObject(id))
  }

  /** Two locals, one user constant, five system constants; a null scope
      object counts as none. */
  function ExampleCount(scope: Option<ScopeObject>): int
  {
    match scope
    case None => 0
    case Some(o) => if o.handle == 1 then 2 else if o.handle == 3 then 1 else if o.handle == 4 then 5 else 0
  }

  function ExampleSession(): Session
  {
    Session(ExampleFrames, ExampleScopeId, ExampleScopeObject)
  }

  function FrameRequest(id: int): Request
  {
    Request(Some(Arguments(Some(id))))
  }

  /** A request for frame 7 lists the four scopes with their counts. */
  lemma KnownFrameListsFourScopes()
    ensures Create(FrameRequest(7)).Success?
    ensures var e := ExecuteImpl(Create(FrameRequest(7)).value, ExampleSession(), ExampleCount);
      && e.response.body.scopes == [
        Descriptor("Locals", 1, true, 2),
        Descriptor("Superglobals", 2, true, 0),
        Descriptor("User Defined Constants", 3, true, 1),
        Descriptor("System Constants", 4, true, 5)]
      && !e.resumeTarget
  {
  }

  /** A request for frame -1, or one without a frame id, is rejected. */
  lemma NonPositiveFrameIsRejected()
    ensures Create(FrameRequest(-1)) == Failure(InvalidFrameId)
    ensures Create(FrameRequest(0)) == Failure(InvalidFrameId)
    ensures Create(Request(None)) == Failure(InvalidFrameId)
    ensures Create(Request(Some(Arguments(None)))) == Failure(InvalidFrameId)
  {
  }

  /** A request for the unknown frame 999 lists no scopes and routes to 0. */
  lemma UnknownFrameListsNoScopes()
    ensures Create(FrameRequest(999)).Success?
    ensures var cmd := Create(FrameRequest(999)).value;
      && ExecuteImpl(cmd, ExampleSession(), ExampleCount).response.body.scopes == []
      && TargetThreadId(cmd, ExampleFrames).threadId == 0
  {
  }
}
