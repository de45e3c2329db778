/** Scoped cleanup: an object that runs a cleanup action when the scope that
    owns it ends, unless the action was cancelled first.  The action itself
    (closing a socket, freeing a cipher context) is not modelled; the object
    counts how many times it has run. */
module Cleanup {

  class ContextManager {
    /** The action still runs at scope exit. */
    var enabled: bool
    /** How many times the action has run. */
    var runs: nat
    /** The scope has ended (the destructor has run). */
    var exited: bool

    /** A new manager is enabled and has not run its action. */
    constructor ()
      ensures enabled && runs == 0 && !exited
    {
      enabled := true;
      runs := 0;
      exited := false;
    }

    /** Cancel the action; calling it again changes nothing more. */
    method Disable()
      modifies this
      ensures !enabled
      ensures runs == old(runs) && exited == old(exited)
    {
      enabled := false;
    }

    /** The end of the scope: the action runs once if the manager is still
        enabled, and not at all otherwise. */
    method Exit()
      requires !exited
      modifies this
      ensures exited && enabled == old(enabled)
      ensures runs == old(runs) + (if old(enabled) then 1 else 0)
    {
      if enabled {
        runs := runs + 1;
      }
      exited := true;
    }
  }

  /** The shape of create_server_socket and create_aes_context: acquire a
      resource (which may fail before anything needs cleaning up), guard it
      with a manager, then run fallible set-up steps in order, returning on
      the first failure; on success the guard is disabled and the resource
      handed to the caller.  `steps[i]` says whether step i succeeds.  The
      resource is released exactly when it was acquired and a step failed,
      and then exactly once. */
  method GuardedSetup(acquired: bool, steps: seq<bool>) returns (ok: bool, releases: nat)
    ensures ok <==> acquired && forall i :: 0 <= i < |steps| ==> steps[i]
    ensures releases == if acquired && !ok then 1 else 0
  {
    if !acquired {
      return false, 0;
    }
    var guard := new ContextManager();
    var i := 0;
    while i < |steps|
      invariant 0 <= i <= |steps|
      invariant forall k :: 0 <= k < i ==> steps[k]
      invariant guard.enabled && guard.runs == 0 && !guard.exited
    {
      if !steps[i] {
        guard.Exit();
        return false, guard.runs;
      }
      i := i + 1;
    }
    guard.Disable();
    guard.Exit();
    return true, guard.runs;
  }

  /** Disabling twice is the same as disabling once: the second call leaves
      the flag and the run count as the first left them, and the action then
      does not run at scope exit. */
  method DisableTwice(m: ContextManager) returns (once: (bool, nat), twice: (bool, nat))
    requires !m.exited
    modifies m
    ensures twice == once == (false, old(m.runs))
    ensures !m.enabled && m.exited && m.runs == old(m.runs)
  {
    m.Disable();
    once := (m.enabled, m.runs);
    m.Disable();
    twice := (m.enabled, m.runs);
    m.Exit();
  }
}
