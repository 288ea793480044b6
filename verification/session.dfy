/** The collaborators the scopes command consumes: the debugger session's
    frame lookup, scope-id generator and scope-object lookup, and the
    variable counter of the variables command. Their internals are not part
    of this model, so each is an arbitrary total function supplied by the
    caller, and nothing is assumed about it. */
module Session {
  import opened Wrappers

  /** The scope kinds, declared in the order the adapter presents them. */
  datatype ScopeKind = Locals | Superglobals | UserDefinedConstants | CoreConstants

  /** A resolved stack frame: the request (thread) that owns it and its
      0-based depth on that request's stack. */
  datatype FrameObject = FrameObject(requestId: int, frameDepth: int)

  /** The session's object for one scope's variables. Its contents belong to
      the session; the model sees only an opaque handle. */
  datatype ScopeObject = ScopeObject(handle: int)

  /** A scope id as the command holds it: a 32-bit `unsigned int`. */
  type ScopeId = x: int | 0 <= x < 0x1_0000_0000

  /** The session's frame lookup at one moment; `None` is a null frame. */
  type FrameLookup = int -> Option<FrameObject>

  /** What the command counts the variables of a (possibly null) scope
      object with. */
  type VariableCounter = Option<ScopeObject> -> int

  /** One snapshot of the debugger session, as far as the command sees it. */
  datatype Session = Session(
    getFrameObject: FrameLookup,
    generateScopeId: (int, int, ScopeKind) -> ScopeId,
    getScopeObject: ScopeId -> Option<ScopeObject>)
}
