# Scopes request of the HHVM debug adapter, modelled in Dafny

This project models `ScopesCommand`, the handler of the debug adapter's
"scopes" request. A client names a stack frame of a paused request by its
frame id. The command answers with the scopes visible in that frame:
locals, superglobals, user-defined constants and system constants. Each
scope gets a display name, a scope id the client can pass to a later
"variables" request, an `expensive` flag and a count of named variables.

The model covers the whole command:

- construction, which rejects a missing or non-positive `frameId`;
- the memoised frame lookup;
- routing of the request to the thread that owns the frame;
- response assembly in a fixed order;
- building of each scope descriptor.

The debugger session and the variable counter are external collaborators
whose code is not part of this model. `Session.Session` holds the
session's three lookups (frame lookup, scope-id generator, scope-object
lookup) as arbitrary total functions. The variable counter is a separate
function parameter. Nothing is assumed about what they compute. Each
operation runs against one unchanging snapshot of the session (see
"## Left out").

The command's one mutable field, the memoised frame pointer `m_frameObj`,
becomes the `frameObj` field of the `Scopes.Command` value. Every operation
takes that value and returns it updated. `Command` also records, for the
model only, every frame id the command has passed to the session's frame
lookup (`frameQueries`). This record is how the contracts say which lookups
happen and when. A null C++ pointer is `None`, and the exception thrown by
the constructor is a `Failure` result.

Files:

- `wrappers.dfy`: `Option` and `Result`.
- `session.dfy`: scope kinds, frame and scope objects, and the session interface.
- `scopes_command.dfy`: the command itself.
- `scopes_properties.dfy`: properties relating several calls. They are
  stated against the independent reference definitions `FirstHit`,
  `Expected` and `QueryCount`.
- `scopes_examples.dfy`: worked examples on a concrete session.

## Model

| member | source | states |
|---|---|---|
| Scopes.Create | hphp/runtime/ext/vsdebug/scopes_command.cpp:25-38 | Construction fails, with the message "Invalid frameId specified.", exactly when the requested frame id is at most 0. A missing `arguments` object or `frameId` member is always rejected. On success the command keeps the requested positive frame id, has no memoised frame and has made no lookup. |
| Scopes.RequestedFrameId | hphp/runtime/ext/vsdebug/scopes_command.cpp:31-32 | The frame id is the request's `arguments.frameId`. It is -1 when either member is missing. |
| Scopes.GetFrameObject | hphp/runtime/ext/vsdebug/scopes_command.cpp:43-50 | A memoised frame is returned and the session is not asked. Without a memo, the session is asked once for the command's own frame id and its answer is returned. The memo afterwards holds exactly the returned frame, so a null answer leaves it empty. The command invariant `Valid` is preserved. |
| Scopes.TargetThreadId | hphp/runtime/ext/vsdebug/scopes_command.cpp:52-59 | The request is routed to the resolved frame's request id, or to 0 when the frame does not resolve. The command afterwards is the one the frame lookup left. |
| Scopes.GetScopeDescription | hphp/runtime/ext/vsdebug/scopes_command.cpp:89-111 | Requires that the frame resolves, as the source's assertion does. The descriptor has the given name and `expensive = true`. Its `variablesReference` is the session's scope id for the frame's request id, the frame's depth and the kind. Its `namedVariables` is the count of the session's scope object for that id. No new lookup is made once the frame is memoised. |
| Scopes.ExecuteImpl | hphp/runtime/ext/vsdebug/scopes_command.cpp:61-87 | The target is never resumed. The scope list is empty exactly when the frame does not resolve. Otherwise it has four entries, in the order of `ScopeOrder`, named by `DisplayName`, each expensive, with the scope id generated for that kind and that id's variable count. The frame is looked up at most once. |
| ScopesProperties.CallsFollowFirstHit | hphp/runtime/ext/vsdebug/scopes_command.cpp:43-50 | Take a series of lookups against a session whose frame table may change between calls. The k-th call returns the memo if there was one. Otherwise it returns the first non-null answer among the first k+1 snapshots, or null if there was none. Once the frame has resolved it never changes, and a null answer is never kept. The memoised frame is held by value (see "## Left out"). |
| ScopesProperties.CallsQueryUntilResolved | hphp/runtime/ext/vsdebug/scopes_command.cpp:43-50 | A series of lookups asks the session once per call, up to and including the first non-null answer, and never again after that. It never asks when a memo was already set. Every query uses the command's frame id. |
| ScopesProperties.MemoisedFrameIsKept | hphp/runtime/ext/vsdebug/scopes_command.cpp:44-46 | After a lookup has returned a frame, the next lookup against any session returns the same frame and leaves the command unchanged. |
| ScopesProperties.NullIsNotMemoised | hphp/runtime/ext/vsdebug/scopes_command.cpp:48-49 | After a null answer, the next lookup asks the session again, for the same frame id, and returns the new answer. |
| ScopesProperties.RoutedFrameIsExecuted | hphp/runtime/ext/vsdebug/scopes_command.cpp:52-101 | Once routing has resolved the frame, execution lists four scopes. Every scope id is generated for the routed thread id and the routed frame's depth, whatever the session's frame lookup answers by then. No new lookup is made. The memoised frame is held by value, and request ids are mathematical integers, so the `int` narrowing at line 97 is not modelled (see "## Left out"). |
| ScopesProperties.UnroutedFrameIsLookedUpAgain | hphp/runtime/ext/vsdebug/scopes_command.cpp:52-69 | A request routed to 0 because its frame did not resolve looks the frame up again when executed. It lists no scopes exactly when that second lookup is null too. |
| ScopesProperties.ReExecutionIsIdentical | hphp/runtime/ext/vsdebug/scopes_command.cpp:61-111 | After an execution that found the frame, executing again gives an identical response and makes no new frame lookup. The session's scope ids and scope objects must be unchanged, but its frame lookup may differ. The memoised frame is held by value (see "## Left out"). |
| ScopesProperties.ScopeNamesAreDistinct | hphp/runtime/ext/vsdebug/scopes_command.cpp:70-79 | The scopes of a response carry pairwise different names. |
| ScopesExamples.KnownFrameListsFourScopes | hphp/runtime/ext/vsdebug/scopes_command.cpp:61-111 | Frame 7 belongs to request 3 at depth 0 and has 2 locals, no superglobals object, 1 user constant and 5 system constants. Its request lists exactly those four descriptors, in order, and does not resume the target. |
| ScopesExamples.NonPositiveFrameIsRejected | hphp/runtime/ext/vsdebug/scopes_command.cpp:31-35 | Frame ids -1 and 0, a missing `frameId` and a missing `arguments` object are all rejected. |
| ScopesExamples.UnknownFrameListsNoScopes | hphp/runtime/ext/vsdebug/scopes_command.cpp:52-82 | A request for the unknown frame 999 is accepted. It lists no scopes and is routed to thread 0. |

## Left out

- JSON handling: `folly::dynamic` and the `tryGetObject`/`tryGetInt` helpers are not part of this model. The request is an optional `arguments` record with an optional integer `frameId`. A `frameId` that is present but not an integer is not distinguished from a missing one. The response is only its `body`, a sequence of descriptor records. The rest of `responseMsg` is not modelled.
- Scopes.RequestedFrameId: does not model the narrowing of the value read at line 32 to a C++ `int`, because the return type of `tryGetInt` is not part of this model. Frame ids are mathematical integers.
- Scopes.GetScopeDescription: does not model the narrowing of `m_requestId` and `m_frameDepth` to `int` at lines 97-98, because the field types are not part of this model. Request ids and depths are mathematical integers. The scope id is modelled as a 32-bit unsigned value, the type of the local that holds it at line 101.
- The session's frame lookup, scope-id generator and scope-object lookup, and `VariablesCommand::countScopeVariables`, are not part of this model. They are arbitrary functions. So nothing is claimed about scope-id injectivity or decoding, and nothing about a null scope object counting as zero variables. The worked example chooses a counter with that behaviour, but the general model does not.
- The C++ exception `DebuggerCommandException` becomes a `Failure` result of `Scopes.Create`. The `VSCommand` base class, its dispatch, the destructor, threading and session locking are left out. None of them is sequential logic of this command.
- Frame ownership: the source's memo is a pointer to a `FrameObject` owned by the session. The model keeps a copy of the frame's value instead. The properties that let the session's frame table change between calls (`ScopesProperties.CallsFollowFirstHit`, `ScopesProperties.RoutedFrameIsExecuted`, `ScopesProperties.ReExecutionIsIdentical`) therefore assume the memoised frame stays alive and unchanged. A frame the session has replaced or freed, read through the stored pointer at lines 58 and 97-98, is not modelled.
- The initial value of `m_frameObj` is set in the class declaration, which is not part of this model. The model takes it to be null, so a new command starts with no memoised frame.
- Each operation runs against one fixed `Session` value. Any effect the session's own calls, such as `generateScopeId`, have on the session is not modelled.
- The claim that a frame id resolved to null never resolves later in the same paused state is an invariant of the session, not of this command. The model does not assume it. Instead it shows that the command asks the session again after every null answer.
