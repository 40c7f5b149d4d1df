/** Sequences of events on one `Preferences` instance: loads (the first one and the
    reloads a caller may ask for) and update broadcasts, applied one after another. */
module Traces {
  import opened Wrappers
  import opened Values
  import opened Preferences

  /** Something that changes the instance. Reads change nothing and are not events. */
  datatype Event =
    | LoadEvent(q: Query)
    | Broadcast(intent: Option<Intent>, disk: map<string, Value>)

  function Step(p: Prefs, env: Env, e: Event): Prefs {
    match e
    case LoadEvent(q) => Load(p, env, q)
    case Broadcast(intent, disk) => OnReceive(p, env, intent, disk)
  }

  function Run(p: Prefs, env: Env, events: seq<Event>): Prefs
    decreases |events|
  {
    if |events| == 0 then p else Run(Step(p, env, events[0]), env, events[1..])
  }

  /** What holds of every instance reachable from `New`: a legacy handle exists only
      once loading is done and always reads the instance's own file, and only
      watched keys are ever cached. */
  predicate Wellformed(p: Prefs, env: Env) {
    && (p.legacy.Some? ==> p.done && p.legacy.value.file == LegacyFile(env, p.name))
    && (forall k :: k in p.listCache ==> k in env.stringListKeys)
  }

  lemma NewWellformed(name: string, env: Env)
    ensures Wellformed(New(name), env)
  {
  }

  lemma StepWellformed(p: Prefs, env: Env, e: Event)
    requires Wellformed(p, env)
    ensures Wellformed(Step(p, env, e), env)
    ensures Step(p, env, e).name == p.name
  {
  }

  /** Every reachable instance is well formed. */
  lemma {:induction false} RunWellformed(p: Prefs, env: Env, events: seq<Event>)
    requires Wellformed(p, env)
    ensures Wellformed(Run(p, env, events), env)
    ensures Run(p, env, events).name == p.name
    decreases |events|
  {
    if |events| > 0 {
      StepWellformed(p, env, events[0]);
      RunWellformed(Step(p, env, events[0]), env, events[1..]);
    }
  }

  /** Once a legacy handle exists it is never dropped or swapped for another file,
      and the load channel stays done, whatever events follow. */
  lemma {:induction false} LegacySticky(p: Prefs, env: Env, events: seq<Event>)
    requires Wellformed(p, env) && p.legacy.Some?
    ensures var r := Run(p, env, events);
      r.legacy.Some? && r.legacy.value.file == p.legacy.value.file && r.done
    decreases |events|
  {
    if |events| > 0 {
      StepWellformed(p, env, events[0]);
      LegacySticky(Step(p, env, events[0]), env, events[1..]);
    }
  }

  /** On a reachable instance with a legacy handle, a `SecurityException` only
      reloads that handle: the branch that builds a new handle is never taken. */
  lemma DeniedAfterLegacyOnlyReloads(name: string, env: Env, events: seq<Event>, disk: map<string, Value>)
    ensures var p := Run(New(name), env, events);
      p.legacy.Some? ==>
        && PathOf(p, Denied(disk)) == ReloadLegacy
        && Load(p, env, Denied(disk)).legacy == Some(p.legacy.value.(data := disk))
  {
    NewWellformed(name, env);
    RunWellformed(New(name), env, events);
  }

  /** With a legacy handle, broadcasts and denied loads never write `content`; only
      a provider query that answers can. */
  lemma {:induction false} LegacyModeKeepsContent(p: Prefs, env: Env, events: seq<Event>)
    requires p.legacy.Some?
    requires forall i :: 0 <= i < |events| ==> !(events[i].LoadEvent? && events[i].q.Answered?)
    ensures Run(p, env, events).content == p.content
    decreases |events|
  {
    if |events| > 0 {
      var next := Step(p, env, events[0]);
      assert next.legacy.Some? && next.content == p.content;
      assert forall i :: 0 <= i < |events[1..]| ==> events[1..][i] == events[i + 1];
      LegacyModeKeepsContent(next, env, events[1..]);
    }
  }

  /** With a legacy handle every event leaves the cache coherent with the handle, so
      after any non-empty run `getStringList` agrees with `getString`. */
  lemma {:induction false} LegacyModeKeepsCacheCoherent(p: Prefs, env: Env, events: seq<Event>)
    requires p.legacy.Some? && |events| > 0
    ensures CacheCoherent(Run(p, env, events), env)
    decreases |events|
  {
    var next := Step(p, env, events[0]);
    assert CacheCoherent(next, env) && next.legacy.Some?;
    if |events| > 1 {
      LegacyModeKeepsCacheCoherent(next, env, events[1..]);
    }
  }

  /** Loading completes for good: after any run containing a load, the load channel
      is done and stays so. */
  lemma {:induction false} DoneAfterLoad(p: Prefs, env: Env, events: seq<Event>, i: nat)
    requires i < |events| && events[i].LoadEvent?
    ensures Run(p, env, events).done
    decreases |events|
  {
    var next := Step(p, env, events[0]);
    if i == 0 {
      DoneStays(next, env, events[1..]);
    } else {
      DoneAfterLoad(next, env, events[1..], i - 1);
    }
  }

  lemma {:induction false} DoneStays(p: Prefs, env: Env, events: seq<Event>)
    requires p.done
    ensures Run(p, env, events).done
    decreases |events|
  {
    if |events| > 0 {
      DoneStays(Step(p, env, events[0]), env, events[1..]);
    }
  }
}
