/**
 * The main process's single generation slot, `zImageChild`: start (kill the
 * occupant, spawn a new child), the child's output and close events, and
 * explicit kill.
 *
 * Besides the slot itself the state records what the slot cannot see: which
 * spawned children are still running (have not closed) and which have been
 * sent a kill. Children are numbered in spawn order.
 */
module ZImageProcess {
  import opened Wrappers
  import opened ZImage

  /** What `spawn` was called with. */
  datatype Spawn = Spawn(id: nat, exe: string, args: seq<string>, cwd: string)

  /** What the main process sends to the renderer. */
  datatype Message = Stdout(chunk: string) | Stderr(chunk: string) | Closed(code: Option<int>)

  datatype Effect = Killed(id: nat) | Spawned(spawn: Spawn) | Sent(msg: Message)

  datatype Controller = Controller(child: Option<nat>, running: set<nat>, signalled: set<nat>, next: nat)

  datatype Outcome = Outcome(after: Controller, effects: seq<Effect>)

  const Idle: Controller := Controller(None, {}, {}, 0)

  /**
   * Every running child is either the one in the slot or has been sent a
   * kill; the slot only holds a running child; ids are handed out fresh.
   */
  predicate Tracked(c: Controller) {
    && (forall p | p in c.running :: p < c.next)
    && (c.child.Some? ==> c.child.value in c.running)
    && (forall p | p in c.running :: c.child == Some(p) || p in c.signalled)
  }

  /** `runZImageCommand`: kill the occupant if any, then spawn in the executable's directory. */
  function Start(c: Controller, exe: string, o: Options): (r: Outcome)
    ensures r.after.child == Some(c.next) && c.next in r.after.running
    ensures c.child.Some? ==> |r.effects| == 2 && r.effects[0] == Killed(c.child.value)
    ensures c.child.None? ==> |r.effects| == 1
    ensures r.effects[|r.effects| - 1] == Spawned(Spawn(c.next, exe, Args(o, exe), ExecutableDir(exe)))
    ensures r.after.running == c.running + {c.next}
  {
    var kill := if c.child.Some? then [Killed(c.child.value)] else [];
    var signalled := if c.child.Some? then c.signalled + {c.child.value} else c.signalled;
    Outcome(Controller(Some(c.next), c.running + {c.next}, signalled, c.next + 1),
            kill + [Spawned(Spawn(c.next, exe, Args(o, exe), ExecutableDir(exe)))])
  }

  /** `killZImageProcess`: kill the occupant and empty the slot; nothing when empty. */
  function Kill(c: Controller): (r: Outcome)
    ensures r.after.child == None
    ensures c.child.None? ==> r == Outcome(c, [])
    ensures c.child.Some? ==> r.effects == [Killed(c.child.value)] && c.child.value in r.after.signalled
    ensures r.after.running == c.running
  {
    if c.child.Some? then
      Outcome(c.(child := None, signalled := c.signalled + {c.child.value}), [Killed(c.child.value)])
    else Outcome(c, [])
  }

  /** A data event on a child's stdout or stderr is forwarded as one chunk. */
  function Output(c: Controller, id: nat, chunk: string, stderr: bool): (r: Outcome)
    ensures r.after == c
    ensures id in c.running ==> r.effects == [Sent(if stderr then Stderr(chunk) else Stdout(chunk))]
    ensures id !in c.running ==> r.effects == []
  {
    if id in c.running then Outcome(c, [Sent(if stderr then Stderr(chunk) else Stdout(chunk))])
    else Outcome(c, [])
  }

  /**
   * A child's close handler as written: report the exit code and empty the
   * slot, whichever child the slot holds.
   */
  function Exit(c: Controller, id: nat, code: Option<int>): (r: Outcome)
    ensures id in c.running ==> r.effects == [Sent(Closed(code))] && r.after.child == None
    ensures id in c.running ==> r.after.running == c.running - {id}
    ensures id !in c.running ==> r == Outcome(c, [])
  {
    if id in c.running then Outcome(c.(child := None, running := c.running - {id}), [Sent(Closed(code))])
    else Outcome(c, [])
  }

  /** The close handler corrected: the slot is emptied only if it holds this child. */
  function ExitOwned(c: Controller, id: nat, code: Option<int>): (r: Outcome)
    ensures id in c.running ==> r.effects == [Sent(Closed(code))]
    ensures id in c.running ==> r.after.running == c.running - {id}
    ensures id in c.running ==> r.after.child == if c.child == Some(id) then None else c.child
    ensures id !in c.running ==> r == Outcome(c, [])
  {
    if id in c.running then
      Outcome(c.(child := if c.child == Some(id) then None else c.child, running := c.running - {id}),
              [Sent(Closed(code))])
    else Outcome(c, [])
  }

  datatype Event =
    | Execute(options: Options)
    | KillRequest
    | Data(id: nat, chunk: string, stderr: bool)
    | Close(id: nat, code: Option<int>)

  /** One event, with the close handler as written. */
  function StepAsWritten(c: Controller, exe: string, e: Event): Outcome {
    match e
    case Execute(o) => Start(c, exe, o)
    case KillRequest => Kill(c)
    case Data(id, chunk, err) => Output(c, id, chunk, err)
    case Close(id, code) => Exit(c, id, code)
  }

  /** One event, with the corrected close handler. */
  function StepOwned(c: Controller, exe: string, e: Event): Outcome {
    match e
    case Execute(o) => Start(c, exe, o)
    case KillRequest => Kill(c)
    case Data(id, chunk, err) => Output(c, id, chunk, err)
    case Close(id, code) => ExitOwned(c, id, code)
  }

  function RunOwned(c: Controller, exe: string, events: seq<Event>): Controller
    decreases |events|
  {
    if |events| == 0 then c else RunOwned(StepOwned(c, exe, events[0]).after, exe, events[1..])
  }

  // ---------------------------------------------------------------------------
  // Single flight

  /** A tracked controller has at most one running child that was never sent a kill. */
  lemma TrackedSingleFlight(c: Controller, p: nat, q: nat)
    requires Tracked(c)
    requires p in c.running && p !in c.signalled
    requires q in c.running && q !in c.signalled
    ensures p == q
  {
  }

  lemma StepOwnedKeepsTracked(c: Controller, exe: string, e: Event)
    requires Tracked(c)
    ensures Tracked(StepOwned(c, exe, e).after)
  {
  }

  /** With the corrected handler, every run from the idle slot stays tracked. */
  lemma {:induction false} RunOwnedTracked(c: Controller, exe: string, events: seq<Event>)
    requires Tracked(c)
    ensures Tracked(RunOwned(c, exe, events))
    decreases |events|
  {
    if |events| > 0 {
      StepOwnedKeepsTracked(c, exe, events[0]);
      RunOwnedTracked(StepOwned(c, exe, events[0]).after, exe, events[1..]);
    }
  }

  /**
   * As written, the close of any child other than the occupant empties the
   * slot while the occupant keeps running unsignalled: it can no longer be
   * killed.
   */
  lemma StaleCloseOrphans(c: Controller, id: nat, code: Option<int>)
    requires Tracked(c) && c.child.Some? && c.child.value !in c.signalled
    requires id in c.running && id != c.child.value
    ensures Exit(c, id, code).after.child == None
    ensures c.child.value in Exit(c, id, code).after.running
    ensures !Tracked(Exit(c, id, code).after)
    ensures Kill(Exit(c, id, code).after).effects == []
  {
  }

  /**
   * The concrete schedule: start, start again (the first child is sent a
   * kill), the first child closes. As written the second child is orphaned
   * and a third start runs beside it; corrected, the slot still holds it.
   */
  lemma StaleCloseSchedule(exe: string, o: Options, code: Option<int>)
    ensures var c2 := Start(Start(Idle, exe, o).after, exe, o).after;
      && Exit(c2, 0, code).after.child == None
      && Kill(Exit(c2, 0, code).after).effects == []
      && (var c4 := Start(Exit(c2, 0, code).after, exe, o).after;
          1 in c4.running && 2 in c4.running && 1 !in c4.signalled && 2 !in c4.signalled)
      && ExitOwned(c2, 0, code).after.child == Some(1)
      && Kill(ExitOwned(c2, 0, code).after).effects == [Killed(1)]
  {
  }

  /** Each child reports its exit once: a repeated close does nothing. */
  lemma ExitReportedOnce(c: Controller, id: nat, code: Option<int>, code2: Option<int>)
    ensures Exit(Exit(c, id, code).after, id, code2).effects == []
    ensures ExitOwned(ExitOwned(c, id, code).after, id, code2).effects == []
  {
  }

  /**
   * The two handlers differ exactly on a close from a running child that is
   * not the occupant, when the slot is occupied.
   */
  lemma AsWrittenDiffersOnlyOnStaleClose(c: Controller, exe: string, e: Event)
    ensures StepAsWritten(c, exe, e) != StepOwned(c, exe, e) <==>
      e.Close? && e.id in c.running && c.child.Some? && c.child.value != e.id
  {
    if e.Close? && e.id in c.running && c.child.Some? && c.child.value != e.id {
      assert StepAsWritten(c, exe, e).after.child != StepOwned(c, exe, e).after.child;
    }
  }
}
