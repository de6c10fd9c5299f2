/**
 This module models `SchedulerHandle`: the list of current schedule definitions and the
 `up` reconciliation that makes the schedule storage agree with it, plus the two lookups
 `get_change_set` and `get_schedule_def_by_name`.

 The storage of one repository is a map from schedule name to stored schedule. The calls
 `up` makes on the instance to stop, start and end schedules are recorded, in order, as an
 append-only trace of events; ending a schedule also removes it from the storage.
 */
module SchedulerHandles {
  import opened Wrappers
  import opened Schedules
  import opened ChangeSets

  /** The schedule storage of one repository, keyed by schedule name. */
  type Store = map<string, Schedule>

  /** Every stored schedule sits under its own name. */
  predicate KeyedByName(store: Store)
  {
    forall n | n in store :: store[n].Name() == n
  }

  /** `all` lists the schedules of `store`, each once: what `all_schedules` returns. */
  predicate Enumerates(all: seq<Schedule>, store: Store)
  {
    && UniqueScheduleNames(all)
    && ScheduleNames(all) == store.Keys
    && forall s | s in all :: s.Name() in store && store[s.Name()] == s
  }

  /** A side effect `up` asks of the instance. */
  datatype Event = StopEvent(name: string) | StartEvent(name: string) | EndEvent(name: string)

  predicate DistinctEvents(t: seq<Event>)
  {
    forall i, j | 0 <= i < j < |t| :: t[i] != t[j]
  }

  /** Every stop is immediately followed by the start of the same schedule, and every start
      immediately follows the stop of the same schedule. */
  predicate StopStartPaired(t: seq<Event>)
  {
    && (forall i | 0 <= i < |t| && t[i].StopEvent? :: i + 1 < |t| && t[i + 1] == StartEvent(t[i].name))
    && (forall i | 0 <= i < |t| && t[i].StartEvent? :: 0 < i && t[i - 1] == StopEvent(t[i].name))
  }

  datatype SchedulerHandle = SchedulerHandle(scheduleDefs: seq<ScheduleDefinition>)

  /** Position of the first definition called `name`. */
  function FirstIndexNamed(defs: seq<ScheduleDefinition>, name: string): (k: nat)
    requires name in DefNames(defs)
    ensures k < |defs| && defs[k].Name() == name
    ensures forall j | 0 <= j < k :: defs[j].Name() != name
  {
    if defs[0].Name() == name then 0
    else
      assert forall d | d in defs && d != defs[0] :: d in defs[1..];
      1 + FirstIndexNamed(defs[1..], name)
  }

  /** The first definition called `name`. A missing name is excluded by the precondition. */
  function GetScheduleDefByName(handle: SchedulerHandle, name: string): (d: ScheduleDefinition)
    requires name in DefNames(handle.scheduleDefs)
    ensures d in handle.scheduleDefs && d.Name() == name
    ensures exists k | 0 <= k < |handle.scheduleDefs| ::
              && handle.scheduleDefs[k] == d
              && forall j | 0 <= j < k :: handle.scheduleDefs[j].Name() != name
    ensures UniqueDefNames(handle.scheduleDefs) ==> d == DefDict(handle.scheduleDefs)[name]
  {
    var d := handle.scheduleDefs[FirstIndexNamed(handle.scheduleDefs, name)];
    DefDictOf(handle.scheduleDefs, d);
    d
  }

  /** The change set between the stored schedules `allSchedules` and the handle's definitions. */
  function GetChangeSet(handle: SchedulerHandle, allSchedules: seq<Schedule>): (r: seq<ChangeEntry>)
    requires UniqueScheduleNames(allSchedules) && UniqueDefNames(handle.scheduleDefs)
    ensures r == [] <==> InSync(allSchedules, handle.scheduleDefs)
    ensures forall e | e in r :: Expected(allSchedules, handle.scheduleDefs, e)
  {
    ChangeSetEmptyIff(allSchedules, handle.scheduleDefs);
    GetScheduleChangeSet(allSchedules, handle.scheduleDefs)
  }

  /** What `up` stores for definition `d`: the definition's data and the given paths, with
      the stored status kept, or STOPPED for a schedule not stored before. */
  function ReconciledSchedule(d: ScheduleDefinition, store0: Store,
                              pythonPath: Option<string>, repositoryPath: Option<string>): Schedule
  {
    var status := if d.Name() in store0 then store0[d.Name()].status else Stopped;
    Schedule(d.scheduleDefinitionData, status, pythonPath, repositoryPath)
  }

  /** Reference description of the storage after `up`: exactly one schedule per definition. */
  function ReconciledStore(defs: seq<ScheduleDefinition>, store0: Store,
                           pythonPath: Option<string>, repositoryPath: Option<string>): (r: Store)
    ensures r.Keys == DefNames(defs)
    ensures KeyedByName(r)
  {
    map n | n in DefNames(defs) :: ReconciledSchedule(DefDict(defs)[n], store0, pythonPath, repositoryPath)
  }

  /** The schedules `up` updates in place, in definition order: its `schedules_to_restart`. */
  function KeptSchedules(defs: seq<ScheduleDefinition>, store0: Store,
                         pythonPath: Option<string>, repositoryPath: Option<string>): seq<Schedule>
  {
    if |defs| == 0 then []
    else
      var d := defs[|defs| - 1];
      KeptSchedules(defs[..|defs| - 1], store0, pythonPath, repositoryPath)
        + (if d.Name() in store0 then [ReconciledSchedule(d, store0, pythonPath, repositoryPath)] else [])
  }

  /** The kept schedules are exactly the definitions already stored, each with its stored
      status, and with unique definition names they have unique names. */
  lemma {:induction false} KeptSchedulesFacts(defs: seq<ScheduleDefinition>, store0: Store,
                                              pythonPath: Option<string>, repositoryPath: Option<string>)
    ensures forall s | s in KeptSchedules(defs, store0, pythonPath, repositoryPath) ::
              s.Name() in DefNames(defs) && s.Name() in store0 && s.status == store0[s.Name()].status
    ensures forall d | d in defs && d.Name() in store0 ::
              ReconciledSchedule(d, store0, pythonPath, repositoryPath) in KeptSchedules(defs, store0, pythonPath, repositoryPath)
    ensures UniqueDefNames(defs) ==> UniqueScheduleNames(KeptSchedules(defs, store0, pythonPath, repositoryPath))
  {
    if |defs| > 0 {
      var d := defs[|defs| - 1];
      var prefix := defs[..|defs| - 1];
      assert defs == prefix + [d];
      DefNamesSnoc(prefix, d);
      KeptSchedulesFacts(prefix, store0, pythonPath, repositoryPath);
      var rest := KeptSchedules(prefix, store0, pythonPath, repositoryPath);
      assert forall x | x in defs :: x in prefix || x == d;
      if d.Name() in store0 {
        var s := ReconciledSchedule(d, store0, pythonPath, repositoryPath);
        assert KeptSchedules(defs, store0, pythonPath, repositoryPath) == rest + [s];
        if UniqueDefNames(defs) {
          assert d.Name() !in DefNames(prefix);
          forall i | 0 <= i < |rest| ensures rest[i].Name() != s.Name() {
            assert rest[i] in rest;
          }
        }
      } else {
        assert KeptSchedules(defs, store0, pythonPath, repositoryPath) == rest;
      }
    }
  }

  /** Names of the running schedules among `ss`. */
  function RunningNames(ss: seq<Schedule>): set<string>
  {
    set s | s in ss && s.status == Running :: s.Name()
  }

  /** Names `up` must restart: defined now, stored before, and running. */
  function RestartedNames(defs: seq<ScheduleDefinition>, store0: Store): set<string>
  {
    set n | n in DefNames(defs) && n in store0 && store0[n].status == Running
  }

  /** The stop and start events of the restart loop over `ss`: a stop and a start for every
      running schedule, in list order. */
  function RestartEvents(ss: seq<Schedule>): seq<Event>
  {
    if |ss| == 0 then []
    else
      var s := ss[|ss| - 1];
      RestartEvents(ss[..|ss| - 1]) + (if s.status == Running then [StopEvent(s.Name()), StartEvent(s.Name())] else [])
  }

  /** In the restart events every stop is paired with the start right after it, and no
      schedule is ended. */
  lemma {:induction false} RestartEventsPaired(ss: seq<Schedule>)
    ensures StopStartPaired(RestartEvents(ss))
    ensures forall e | e in RestartEvents(ss) :: !e.EndEvent?
  {
    if |ss| > 0 {
      var s := ss[|ss| - 1];
      RestartEventsPaired(ss[..|ss| - 1]);
      if s.status == Running {
        PairedSnoc(RestartEvents(ss[..|ss| - 1]), s.Name());
      }
    }
  }

  /** The restart events name exactly the running schedules: each one gets a stop and a
      start, and no other schedule is mentioned. */
  lemma {:induction false} RestartEventsNames(ss: seq<Schedule>)
    ensures forall e | e in RestartEvents(ss) :: e.name in RunningNames(ss)
    ensures forall s | s in ss && s.status == Running :: StopEvent(s.Name()) in RestartEvents(ss)
  {
    if |ss| > 0 {
      var s := ss[|ss| - 1];
      var prefix := ss[..|ss| - 1];
      assert ss == prefix + [s];
      RestartEventsNames(prefix);
      assert forall x | x in prefix :: x in ss;
      assert forall x | x in ss :: x in prefix || x == s;
    }
  }

  /** With unique schedule names no restart event is repeated. */
  lemma {:induction false} RestartEventsDistinct(ss: seq<Schedule>)
    requires UniqueScheduleNames(ss)
    ensures DistinctEvents(RestartEvents(ss))
  {
    if |ss| > 0 {
      var s := ss[|ss| - 1];
      var prefix := ss[..|ss| - 1];
      RestartEventsDistinct(prefix);
      if s.status == Running {
        RestartEventsNames(prefix);
        assert s.Name() !in RunningNames(prefix);
        DistinctSnoc(RestartEvents(prefix), s.Name());
      }
    }
  }

  lemma PairedSnoc(t: seq<Event>, n: string)
    requires StopStartPaired(t)
    ensures StopStartPaired(t + [StopEvent(n), StartEvent(n)])
  {
    var u := t + [StopEvent(n), StartEvent(n)];
    assert forall i | 0 <= i < |t| :: u[i] == t[i];
  }

  lemma DistinctSnoc(t: seq<Event>, n: string)
    requires DistinctEvents(t)
    requires forall e | e in t :: e.name != n
    ensures DistinctEvents(t + [StopEvent(n), StartEvent(n)])
  {
    var u := t + [StopEvent(n), StartEvent(n)];
    forall i, j | 0 <= i < j < |u|
      ensures u[i] != u[j]
    {
      if j >= |t| && i < |t| {
        assert u[i] in t;
      }
    }
  }

  lemma KeptRunningNames(defs: seq<ScheduleDefinition>, store0: Store,
                         pythonPath: Option<string>, repositoryPath: Option<string>)
    ensures RunningNames(KeptSchedules(defs, store0, pythonPath, repositoryPath)) == RestartedNames(defs, store0)
  {
    var kept := KeptSchedules(defs, store0, pythonPath, repositoryPath);
    KeptSchedulesFacts(defs, store0, pythonPath, repositoryPath);
    forall n | n in RestartedNames(defs, store0)
      ensures n in RunningNames(kept)
    {
      var d :| d in defs && d.Name() == n;
      assert ReconciledSchedule(d, store0, pythonPath, repositoryPath) in kept;
    }
  }

  /** Restart events followed by end events keep the pairing, stay distinct, and leave the
      ends last. */
  lemma AppendEnds(restarts: seq<Event>, ends: seq<Event>)
    requires StopStartPaired(restarts) && DistinctEvents(restarts)
    requires forall e | e in restarts :: !e.EndEvent?
    requires DistinctEvents(ends)
    requires forall e | e in ends :: e.EndEvent?
    ensures StopStartPaired(restarts + ends)
    ensures DistinctEvents(restarts + ends)
    ensures forall i, j | 0 <= i < j < |restarts + ends| && (restarts + ends)[i].EndEvent? :: (restarts + ends)[j].EndEvent?
  {
    var t := restarts + ends;
    forall i | 0 <= i < |t|
      ensures i < |restarts| ==> t[i] == restarts[i] && t[i] in restarts
      ensures i >= |restarts| ==> t[i] == ends[i - |restarts|] && t[i] in ends
    {
    }
    forall i, j | 0 <= i < j < |t|
      ensures t[i] != t[j]
    {
      if i < |restarts| && j >= |restarts| {
        assert !t[i].EndEvent? && t[j].EndEvent?;
      }
    }
  }

  /** The state of the first loop of `up` after the first `i` definitions: those have their
      reconciled schedule, every other stored schedule is untouched, and the updated ones
      have been collected. */
  ghost predicate UpdatedPrefix(defs: seq<ScheduleDefinition>, i: nat, store0: Store,
                                pythonPath: Option<string>, repositoryPath: Option<string>,
                                store: Store, kept: seq<Schedule>)
  {
    && i <= |defs|
    && store.Keys == store0.Keys + DefNames(defs[..i])
    && (forall n | n in store && n !in DefNames(defs[..i]) :: store[n] == store0[n])
    && (forall j | 0 <= j < i ::
          defs[j].Name() in store && store[defs[j].Name()] == ReconciledSchedule(defs[j], store0, pythonPath, repositoryPath))
    && kept == KeptSchedules(defs[..i], store0, pythonPath, repositoryPath)
  }

  /** One step of the first loop of `up`: the `i`-th definition's name is still in its
      original state, and storing its reconciled schedule extends the prefix by one. */
  lemma UpdateStep(defs: seq<ScheduleDefinition>, i: nat, store0: Store,
                   pythonPath: Option<string>, repositoryPath: Option<string>,
                   store: Store, kept: seq<Schedule>)
    requires i < |defs| && defs[i].Name() !in DefNames(defs[..i])
    requires UpdatedPrefix(defs, i, store0, pythonPath, repositoryPath, store, kept)
    ensures defs[i].Name() in store <==> defs[i].Name() in store0
    ensures defs[i].Name() in store ==> store[defs[i].Name()] == store0[defs[i].Name()]
    ensures var d := defs[i];
            var s := ReconciledSchedule(d, store0, pythonPath, repositoryPath);
            UpdatedPrefix(defs, i + 1, store0, pythonPath, repositoryPath, store[d.Name() := s],
                          if d.Name() in store0 then kept + [s] else kept)
  {
    var d := defs[i];
    var s := ReconciledSchedule(d, store0, pythonPath, repositoryPath);
    var store' := store[d.Name() := s];
    assert defs[..i + 1] == defs[..i] + [d];
    DefNamesSnoc(defs[..i], d);
    StepUntouched(defs, i, store0, store, s);
    StepReconciled(defs, i, store0, pythonPath, repositoryPath, store);
    StepKept(defs, i, store0, pythonPath, repositoryPath);
  }

  lemma StepKept(defs: seq<ScheduleDefinition>, i: nat, store0: Store,
                 pythonPath: Option<string>, repositoryPath: Option<string>)
    requires i < |defs|
    ensures var d := defs[i];
            var s := ReconciledSchedule(d, store0, pythonPath, repositoryPath);
            var kept := KeptSchedules(defs[..i], store0, pythonPath, repositoryPath);
            KeptSchedules(defs[..i + 1], store0, pythonPath, repositoryPath) == if d.Name() in store0 then kept + [s] else kept
  {
    assert defs[..i + 1][..i] == defs[..i];
  }

  lemma StepUntouched(defs: seq<ScheduleDefinition>, i: nat, store0: Store, store: Store, s: Schedule)
    requires i < |defs|
    requires DefNames(defs[..i + 1]) == DefNames(defs[..i]) + {defs[i].Name()}
    requires store.Keys == store0.Keys + DefNames(defs[..i])
    requires forall n | n in store && n !in DefNames(defs[..i]) :: store[n] == store0[n]
    ensures var store' := store[defs[i].Name() := s];
            forall n | n in store' && n !in DefNames(defs[..i + 1]) :: store'[n] == store0[n]
  {
  }

  lemma StepReconciled(defs: seq<ScheduleDefinition>, i: nat, store0: Store,
                       pythonPath: Option<string>, repositoryPath: Option<string>, store: Store)
    requires i < |defs| && defs[i].Name() !in DefNames(defs[..i])
    requires forall j | 0 <= j < i ::
               defs[j].Name() in store && store[defs[j].Name()] == ReconciledSchedule(defs[j], store0, pythonPath, repositoryPath)
    ensures var store' := store[defs[i].Name() := ReconciledSchedule(defs[i], store0, pythonPath, repositoryPath)];
            forall j | 0 <= j < i + 1 ::
              defs[j].Name() in store' && store'[defs[j].Name()] == ReconciledSchedule(defs[j], store0, pythonPath, repositoryPath)
  {
    forall j | 0 <= j < i
      ensures defs[j].Name() != defs[i].Name()
    {
      assert defs[j] in defs[..i];
    }
  }

  /** With unique names, the `i`-th definition's name does not occur among the first `i`. */
  lemma FreshDefName(defs: seq<ScheduleDefinition>, i: nat)
    requires UniqueDefNames(defs) && i < |defs|
    ensures defs[i].Name() !in DefNames(defs[..i])
  {
  }

  /** The first loop of `up`: every definition's schedule is added (STOPPED) or updated in
      place (status kept), and the updated ones are collected for restarting. */
  method UpdateSchedules(defs: seq<ScheduleDefinition>, pythonPath: Option<string>, repositoryPath: Option<string>,
                         store0: Store)
    returns (store: Store, schedulesToRestart: seq<Schedule>)
    requires UniqueDefNames(defs)
    ensures store.Keys == store0.Keys + DefNames(defs)
    ensures forall n | n in store && n !in DefNames(defs) :: store[n] == store0[n]
    ensures forall d | d in defs :: store[d.Name()] == ReconciledSchedule(d, store0, pythonPath, repositoryPath)
    ensures schedulesToRestart == KeptSchedules(defs, store0, pythonPath, repositoryPath)
  {
    store := store0;
    schedulesToRestart := [];
    var i := 0;
    while i < |defs|
      invariant UpdatedPrefix(defs, i, store0, pythonPath, repositoryPath, store, schedulesToRestart)
    {
      var d := defs[i];
      FreshDefName(defs, i);
      UpdateStep(defs, i, store0, pythonPath, repositoryPath, store, schedulesToRestart);
      if d.Name() in store {
        var existing := store[d.Name()];
        var schedule := Schedule(d.scheduleDefinitionData, existing.status, pythonPath, repositoryPath);
        store := store[d.Name() := schedule];
        schedulesToRestart := schedulesToRestart + [schedule];
      } else {
        var schedule := Schedule(d.scheduleDefinitionData, Stopped, pythonPath, repositoryPath);
        store := store[d.Name() := schedule];
      }
      i := i + 1;
    }
    UpdatedAll(defs, store0, pythonPath, repositoryPath, store, schedulesToRestart);
  }

  lemma UpdatedAll(defs: seq<ScheduleDefinition>, store0: Store,
                   pythonPath: Option<string>, repositoryPath: Option<string>,
                   store: Store, kept: seq<Schedule>)
    requires UpdatedPrefix(defs, |defs|, store0, pythonPath, repositoryPath, store, kept)
    ensures store.Keys == store0.Keys + DefNames(defs)
    ensures forall n | n in store && n !in DefNames(defs) :: store[n] == store0[n]
    ensures forall d | d in defs :: store[d.Name()] == ReconciledSchedule(d, store0, pythonPath, repositoryPath)
    ensures kept == KeptSchedules(defs, store0, pythonPath, repositoryPath)
  {
    assert defs[..|defs|] == defs;
    forall d | d in defs
      ensures store[d.Name()] == ReconciledSchedule(d, store0, pythonPath, repositoryPath)
    {
      var j :| 0 <= j < |defs| && defs[j] == d;
    }
  }

  /** The second loop of `up`: a stop and then a start for each collected schedule that is
      running. */
  method RestartRunning(schedulesToRestart: seq<Schedule>) returns (trace: seq<Event>)
    ensures trace == RestartEvents(schedulesToRestart)
    ensures StopStartPaired(trace)
    ensures forall e | e in trace :: !e.EndEvent? && e.name in RunningNames(schedulesToRestart)
    ensures forall s | s in schedulesToRestart && s.status == Running :: StopEvent(s.Name()) in trace
  {
    trace := [];
    var k := 0;
    while k < |schedulesToRestart|
      invariant 0 <= k <= |schedulesToRestart|
      invariant trace == RestartEvents(schedulesToRestart[..k])
    {
      var schedule := schedulesToRestart[k];
      assert schedulesToRestart[..k + 1] == schedulesToRestart[..k] + [schedule];
      if schedule.status == Running {
        trace := trace + [StopEvent(schedule.Name()), StartEvent(schedule.Name())];
      }
      k := k + 1;
    }
    assert schedulesToRestart[..k] == schedulesToRestart;
    RestartEventsPaired(schedulesToRestart);
    RestartEventsNames(schedulesToRestart);
  }

  /** The third loop of `up`: every name to delete is ended and removed, each once, in an
      unspecified order. */
  method EndSchedules(store0: Store, namesToDelete: set<string>) returns (store: Store, ends: seq<Event>)
    ensures store == store0 - namesToDelete
    ensures DistinctEvents(ends)
    ensures forall e | e in ends :: e.EndEvent? && e.name in namesToDelete
    ensures forall n | n in namesToDelete :: EndEvent(n) in ends
  {
    store := store0;
    ends := [];
    var remaining := namesToDelete;
    while remaining != {}
      invariant remaining <= namesToDelete
      invariant store == store0 - (namesToDelete - remaining)
      invariant forall e | e in ends :: e.EndEvent? && e.name in namesToDelete && e.name !in remaining
      invariant forall n | n in namesToDelete && n !in remaining :: EndEvent(n) in ends
      invariant DistinctEvents(ends)
      decreases remaining
    {
      var n :| n in remaining;
      store := store - {n};
      ends := ends + [EndEvent(n)];
      remaining := remaining - {n};
    }
  }

  /** Reconciles the storage with the handle's definitions. Returns the new storage and the
      stop, start and end events asked of the instance, in order. */
  method Up(handle: SchedulerHandle, pythonPath: Option<string>, repositoryPath: Option<string>, store0: Store)
    returns (store: Store, trace: seq<Event>)
    requires UniqueDefNames(handle.scheduleDefs)
    requires KeyedByName(store0)
    ensures store == ReconciledStore(handle.scheduleDefs, store0, pythonPath, repositoryPath)
    ensures KeyedByName(store)
    ensures store.Keys == DefNames(handle.scheduleDefs)
    ensures forall d | d in handle.scheduleDefs ::
              && store[d.Name()].scheduleDefinitionData == d.scheduleDefinitionData
              && store[d.Name()].pythonPath == pythonPath
              && store[d.Name()].repositoryPath == repositoryPath
    ensures forall d | d in handle.scheduleDefs && d.Name() in store0 :: store[d.Name()].status == store0[d.Name()].status
    ensures forall d | d in handle.scheduleDefs && d.Name() !in store0 :: store[d.Name()].status == Stopped
    ensures StopStartPaired(trace)
    ensures DistinctEvents(trace)
    ensures forall e | e in trace && e.StopEvent? :: e.name in RestartedNames(handle.scheduleDefs, store0)
    ensures forall n | n in RestartedNames(handle.scheduleDefs, store0) :: StopEvent(n) in trace
    ensures forall e | e in trace && e.EndEvent? :: e.name in store0 && e.name !in DefNames(handle.scheduleDefs)
    ensures forall n | n in store0 && n !in DefNames(handle.scheduleDefs) :: EndEvent(n) in trace
    ensures forall i, j | 0 <= i < j < |trace| && trace[i].EndEvent? :: trace[j].EndEvent?
    ensures var restarts := RestartEvents(KeptSchedules(handle.scheduleDefs, store0, pythonPath, repositoryPath));
            |restarts| <= |trace| && trace[..|restarts|] == restarts
  {
    var defs := handle.scheduleDefs;
    var updated, schedulesToRestart := UpdateSchedules(defs, pythonPath, repositoryPath, store0);

    var scheduleDefNames := set d | d in defs :: d.Name();
    var existingScheduleNames := set n | n in updated :: updated[n].Name();
    var namesToDelete := existingScheduleNames - scheduleDefNames;
    UpdatedKeyedByName(defs, store0, pythonPath, repositoryPath, updated);

    var restarts := RestartRunning(schedulesToRestart);
    KeptSchedulesFacts(defs, store0, pythonPath, repositoryPath);
    KeptRunningNames(defs, store0, pythonPath, repositoryPath);
    RestartEventsDistinct(schedulesToRestart);

    var ends;
    store, ends := EndSchedules(updated, namesToDelete);
    trace := restarts + ends;
    AppendEnds(restarts, ends);
    assert forall e | e in trace :: e in restarts || e in ends;
    RemovedIsReconciled(defs, store0, pythonPath, repositoryPath, updated);
    ReconciledFacts(defs, store0, pythonPath, repositoryPath);
  }

  /** After the first loop every stored schedule still sits under its own name, so the
      stored names `up` collects are the storage keys. */
  lemma UpdatedKeyedByName(defs: seq<ScheduleDefinition>, store0: Store,
                           pythonPath: Option<string>, repositoryPath: Option<string>, updated: Store)
    requires KeyedByName(store0)
    requires updated.Keys == store0.Keys + DefNames(defs)
    requires forall n | n in updated && n !in DefNames(defs) :: updated[n] == store0[n]
    requires forall d | d in defs :: updated[d.Name()] == ReconciledSchedule(d, store0, pythonPath, repositoryPath)
    ensures (set n | n in updated :: updated[n].Name()) - (set d | d in defs :: d.Name()) == store0.Keys - DefNames(defs)
  {
    forall n | n in updated
      ensures updated[n].Name() == n
    {
      if n in DefNames(defs) {
        var d :| d in defs && d.Name() == n;
      }
    }
  }

  /** Removing the names that lost their definition from the first loop's storage leaves
      exactly the reference storage. */
  lemma RemovedIsReconciled(defs: seq<ScheduleDefinition>, store0: Store,
                            pythonPath: Option<string>, repositoryPath: Option<string>, updated: Store)
    requires UniqueDefNames(defs)
    requires updated.Keys == store0.Keys + DefNames(defs)
    requires forall d | d in defs :: updated[d.Name()] == ReconciledSchedule(d, store0, pythonPath, repositoryPath)
    ensures updated - (store0.Keys - DefNames(defs)) == ReconciledStore(defs, store0, pythonPath, repositoryPath)
  {
    var r := ReconciledStore(defs, store0, pythonPath, repositoryPath);
    var u := updated - (store0.Keys - DefNames(defs));
    assert u.Keys == r.Keys;
    forall n | n in r
      ensures u[n] == r[n]
    {
      var d := DefDict(defs)[n];
      assert d in defs;
    }
  }

  /** What the reference storage holds for each definition: its data and the given paths,
      the stored status if the name was stored, STOPPED otherwise. */
  lemma ReconciledFacts(defs: seq<ScheduleDefinition>, store0: Store,
                        pythonPath: Option<string>, repositoryPath: Option<string>)
    requires UniqueDefNames(defs)
    ensures forall d | d in defs ::
              ReconciledStore(defs, store0, pythonPath, repositoryPath)[d.Name()] == ReconciledSchedule(d, store0, pythonPath, repositoryPath)
  {
    forall d | d in defs
      ensures ReconciledStore(defs, store0, pythonPath, repositoryPath)[d.Name()] == ReconciledSchedule(d, store0, pythonPath, repositoryPath)
    {
      DefDictOf(defs, d);
    }
  }

  /** Reconciling twice with the same definitions and paths changes nothing more. */
  lemma ReconcileIdempotent(defs: seq<ScheduleDefinition>, store0: Store,
                            pythonPath: Option<string>, repositoryPath: Option<string>)
    ensures var once := ReconciledStore(defs, store0, pythonPath, repositoryPath);
            ReconciledStore(defs, once, pythonPath, repositoryPath) == once
  {
    var once := ReconciledStore(defs, store0, pythonPath, repositoryPath);
    var twice := ReconciledStore(defs, once, pythonPath, repositoryPath);
    forall n | n in once
      ensures twice[n] == once[n]
    {
      var d := DefDict(defs)[n];
      assert d.Name() == n;
    }
  }

  /** After `up` the storage is in sync with the definitions: listing it in any order and
      diffing against the same definitions gives an empty change set. */
  lemma ReconcileConverges(defs: seq<ScheduleDefinition>, store0: Store,
                           pythonPath: Option<string>, repositoryPath: Option<string>, all: seq<Schedule>)
    requires UniqueDefNames(defs)
    requires Enumerates(all, ReconciledStore(defs, store0, pythonPath, repositoryPath))
    ensures GetScheduleChangeSet(all, defs) == []
  {
    var store := ReconciledStore(defs, store0, pythonPath, repositoryPath);
    forall n | n in DefNames(defs)
      ensures n in ScheduleDict(all) && ScheduleDict(all)[n].CronSchedule() == DefDict(defs)[n].CronSchedule()
    {
      var s :| s in all && s.Name() == n;
      ScheduleDictOf(all, s);
    }
    ChangeSetEmptyIff(all, defs);
  }

  /** The change set taken before `up` predicts what `up` does to the storage: the added
      names are the schedules it creates STOPPED, the removed names are the ones it ends, and
      every changed name is one it overwrites with the new definition. */
  lemma ChangeSetPredictsUp(defs: seq<ScheduleDefinition>, store0: Store, olds: seq<Schedule>,
                            pythonPath: Option<string>, repositoryPath: Option<string>)
    requires UniqueDefNames(defs)
    requires Enumerates(olds, store0)
    ensures var cs := GetScheduleChangeSet(olds, defs);
            var after := ReconciledStore(defs, store0, pythonPath, repositoryPath);
            && (forall e | e in cs && e.kind == Add :: e.name !in store0 && e.name in after && after[e.name].status == Stopped)
            && (forall e | e in cs && e.kind == Remove :: e.name in store0 && e.name !in after)
            && (forall e | e in cs && e.kind == Change ::
                  e.name in store0 && e.name in after && after[e.name].CronSchedule() == e.changes[0].newValue)
            && (forall n | n in after && n !in store0 :: ChangeEntry(Add, n, []) in cs)
            && (forall n | n in store0 && n !in after :: ChangeEntry(Remove, n, []) in cs)
  {
  }
}
