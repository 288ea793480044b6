/** Properties of the scopes command that relate several calls: how the
    memoised frame lookup behaves over a series of calls against a session
    whose frame table may change in between, how routing and execution
    agree on the frame, and what re-executing a command yields. */
module ScopesProperties {
  import opened Wrappers
  import opened Session
  import opened Scopes

  /** The frames a series of GetFrameObject calls returned, one per
      session snapshot, and the command after the last call. */
  datatype Run = Run(frames: seq<Option<FrameObject>>, cmd: Command)

  /** Calls GetFrameObject once per snapshot, in order, threading the
      command through. */
  function Calls(cmd: Command, snapshots: seq<FrameLookup>): (r: Run)
    ensures |r.frames| == |snapshots|
    ensures r.cmd.frameId == cmd.frameId
    ensures Valid(cmd) ==> Valid(r.cmd)
    decreases |snapshots|
  {
    if snapshots == [] then Run([], cmd)
    else
      var m := GetFrameObject(cmd, snapshots[0]);
      var rest := Calls(m.cmd, snapshots[1..]);
      Run([m.frame] + rest.frames, rest.cmd)
  }

  /** The index of the first snapshot that resolves `id`, if any. */
  function FirstHit(id: int, snapshots: seq<FrameLookup>): (r: Option<nat>)
    ensures r.Some? ==> r.value < |snapshots| && snapshots[r.value](id).Some?
    ensures r.Some? ==> forall j :: 0 <= j < r.value ==> snapshots[j](id).None?
    ensures r.None? ==> forall j :: 0 <= j < |snapshots| ==> snapshots[j](id).None?
    decreases |snapshots|
  {
    if snapshots == [] then None
    else if snapshots[0](id).Some? then Some(0)
    else
      match FirstHit(id, snapshots[1..])
      case Some(i) => Some(i + 1)
      case None => None
  }

  /** Reference answer of the last of a series of lookups of `id` over the
      snapshots `seen`, starting from memo `memo`: the memo if there is
      one, else the first non-null answer, else null. */
  function Expected(memo: Option<FrameObject>, id: int, seen: seq<FrameLookup>): Option<FrameObject>
  {
    if memo.Some? then memo
    else
      match FirstHit(id, seen)
      case Some(i) => seen[i](id)
      case None => None
  }

  /** Reference number of session queries a series of lookups of `id` over
      `snapshots` makes from memo `memo`: none when memoised, else one per
      call up to and including the first non-null answer. */
  function QueryCount(memo: Option<FrameObject>, id: int, snapshots: seq<FrameLookup>): nat
  {
    if memo.Some? then 0
    else
      match FirstHit(id, snapshots)
      case Some(i) => i + 1
      case None => |snapshots|
  }

  /** Dropping a null first snapshot shifts the first hit by one. */
  lemma FirstHitAfterMiss(id: int, snapshots: seq<FrameLookup>)
    requires |snapshots| > 0 && snapshots[0](id).None?
    ensures FirstHit(id, snapshots).None? <==> FirstHit(id, snapshots[1..]).None?
    ensures FirstHit(id, snapshots).Some? ==>
      && FirstHit(id, snapshots[1..]).Some?
      && FirstHit(id, snapshots).value == FirstHit(id, snapshots[1..]).value + 1
  {
  }

  /** The k-th of a series of lookups returns the memo if one was set,
      otherwise the first non-null answer any snapshot up to the k-th gave,
      otherwise null: once non-null, the answer never changes, and a null
      answer is never kept. */
  lemma {:induction false} CallsFollowFirstHit(cmd: Command, snapshots: seq<FrameLookup>, k: nat)
    requires k < |snapshots|
    ensures Calls(cmd, snapshots).frames[k] == Expected(cmd.frameObj, cmd.frameId, snapshots[..k + 1])
    decreases |snapshots|
  {
    var id := cmd.frameId;
    var m := GetFrameObject(cmd, snapshots[0]);
    var rest := Calls(m.cmd, snapshots[1..]);
    var r := Calls(cmd, snapshots);
    assert r.frames == [m.frame] + rest.frames;
    var seen := snapshots[..k + 1];
    assert seen[0] == snapshots[0];
    if k == 0 {
      assert r.frames[0] == m.frame;
      if cmd.frameObj.None? && snapshots[0](id).None? {
        assert FirstHit(id, seen) == FirstHit(id, seen[1..]);
      }
    } else {
      CallsFollowFirstHit(m.cmd, snapshots[1..], k - 1);
      assert r.frames[k] == rest.frames[k - 1];
      assert seen[1..] == snapshots[1..][..(k - 1) + 1];
      if cmd.frameObj.None? && m.frame.None? {
        FirstHitAfterMiss(id, seen);
        match FirstHit(id, seen[1..])
        case Some(i) =>
          assert seen[i + 1] == seen[1..][i];
        case None =>
      } else if cmd.frameObj.None? {
        assert FirstHit(id, seen) == Some(0);
      }
    }
  }

  /** A series of lookups asks the session exactly QueryCount times, every
      time for the command's own frame id. */
  lemma {:induction false} CallsQueryUntilResolved(cmd: Command, snapshots: seq<FrameLookup>)
    ensures Calls(cmd, snapshots).cmd.frameQueries
      == cmd.frameQueries + seq(QueryCount(cmd.frameObj, cmd.frameId, snapshots), _ => cmd.frameId)
    decreases |snapshots|
  {
    var id := cmd.frameId;
    if snapshots == [] {
      assert seq(QueryCount(cmd.frameObj, id, snapshots), _ => id) == [];
    } else {
      var m := GetFrameObject(cmd, snapshots[0]);
      CallsQueryUntilResolved(m.cmd, snapshots[1..]);
      var n := QueryCount(cmd.frameObj, id, snapshots);
      if cmd.frameObj.Some? {
        assert seq(n, _ => id) == [];
      } else if m.frame.Some? {
        assert n == 1;
        assert seq(QueryCount(m.cmd.frameObj, id, snapshots[1..]), _ => id) == [];
        assert seq(n, _ => id) == [id];
      } else {
        FirstHitAfterMiss(id, snapshots);
        assert n == QueryCount(m.cmd.frameObj, id, snapshots[1..]) + 1;
        assert seq(n, _ => id) == [id] + seq(n - 1, _ => id);
      }
    }
  }

  /** Once a lookup has returned a frame, a later lookup against any
      session returns that same frame without asking the session. */
  lemma MemoisedFrameIsKept(cmd: Command, first: FrameLookup, later: FrameLookup)
    requires GetFrameObject(cmd, first).frame.Some?
    ensures var m := GetFrameObject(cmd, first);
      GetFrameObject(m.cmd, later) == m
  {
  }

  /** A null answer is not memoised: the next lookup asks the session again,
      for the same frame id, and returns its new answer. */
  lemma NullIsNotMemoised(cmd: Command, first: FrameLookup, later: FrameLookup)
    requires GetFrameObject(cmd, first).frame.None?
    ensures var m := GetFrameObject(cmd, first);
      var m' := GetFrameObject(m.cmd, later);
      && m'.frame == later(cmd.frameId)
      && m'.cmd.frameQueries == m.cmd.frameQueries + [cmd.frameId]
  {
  }

  /** A request routed to a thread by its resolved frame is executed
      against that same memoised frame, whatever the session's frame lookup
      answers by then: every scope id is generated for the routed thread id.
      Request ids are mathematical integers here, so the narrowing of the
      request id to `int` when a descriptor is built is not modelled. */
  lemma RoutedFrameIsExecuted(cmd: Command, routedBy: FrameLookup, s: Session, count: VariableCounter)
    requires GetFrameObject(cmd, routedBy).frame.Some?
    ensures var route := TargetThreadId(cmd, routedBy);
      var frame := GetFrameObject(cmd, routedBy).frame.value;
      var e := ExecuteImpl(route.cmd, s, count);
      && |e.response.body.scopes| == 4
      && e.cmd == route.cmd
      && forall i :: 0 <= i < 4 ==>
        e.response.body.scopes[i].variablesReference
          == s.generateScopeId(route.threadId, frame.frameDepth, ScopeOrder[i])
  {
  }

  /** A request that could not be routed (thread id 0) looks the frame up
      again when executed. */
  lemma UnroutedFrameIsLookedUpAgain(cmd: Command, routedBy: FrameLookup, s: Session, count: VariableCounter)
    requires GetFrameObject(cmd, routedBy).frame.None?
    ensures var route := TargetThreadId(cmd, routedBy);
      var e := ExecuteImpl(route.cmd, s, count);
      && route.threadId == 0
      && e.cmd.frameQueries == route.cmd.frameQueries + [cmd.frameId]
      && (e.response.body.scopes == [] <==> s.getFrameObject(cmd.frameId).None?)
  {
  }

  /** Executing a command a second time, against a session whose scope ids
      and scope objects are unchanged, gives a structurally identical
      response once the first execution found the frame, and makes no new
      frame lookup. */
  lemma ReExecutionIsIdentical(cmd: Command, s1: Session, s2: Session, count: VariableCounter)
    requires s1.generateScopeId == s2.generateScopeId && s1.getScopeObject == s2.getScopeObject
    requires ExecuteImpl(cmd, s1, count).response.body.scopes != []
    ensures var e1 := ExecuteImpl(cmd, s1, count);
      var e2 := ExecuteImpl(e1.cmd, s2, count);
      e2.response == e1.response && e2.cmd == e1.cmd && !e2.resumeTarget
  {
  }

  /** The four scopes of a response carry four different names. */
  lemma ScopeNamesAreDistinct(cmd: Command, s: Session, count: VariableCounter)
    ensures var scopes := ExecuteImpl(cmd, s, count).response.body.scopes;
      forall i, j :: 0 <= i < j < |scopes| ==> scopes[i].name != scopes[j].name
  {
  }
}
