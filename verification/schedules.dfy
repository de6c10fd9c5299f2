/**
 This module models the schedule records of the scheduler: the status enumeration, the
 definition data a schedule is created from, and the stored `Schedule` record with its
 `with_status` update. It also collects the name-keyed views (name sets and last-one-wins
 dictionaries) that both the change set and the reconciliation build over lists of records.
 */
module Schedules {
  import opened Wrappers

  /** The three states a stored schedule can be in. */
  datatype ScheduleStatus = Running | Stopped | Ended

  /** The definition data of a schedule. The cron string and the environment variables are
      opaque values: they are only ever compared for equality. */
  datatype ScheduleDefinitionData = ScheduleDefinitionData(
    name: string,
    cronSchedule: string,
    environmentVars: map<string, string>)

  /** A schedule definition as the scheduler sees it: a name, a cron string and the data
      that is copied into a stored schedule. */
  datatype ScheduleDefinition = ScheduleDefinition(scheduleDefinitionData: ScheduleDefinitionData)
  {
    function Name(): string { scheduleDefinitionData.name }

    function CronSchedule(): string { scheduleDefinitionData.cronSchedule }
  }

  /** A stored schedule: definition data, status and the two optional paths. */
  datatype Schedule = Schedule(
    scheduleDefinitionData: ScheduleDefinitionData,
    status: ScheduleStatus,
    pythonPath: Option<string>,
    repositoryPath: Option<string>)
  {
    function Name(): string { scheduleDefinitionData.name }

    function CronSchedule(): string { scheduleDefinitionData.cronSchedule }

    function EnvironmentVars(): map<string, string> { scheduleDefinitionData.environmentVars }

    /** The same schedule with another status. */
    function WithStatus(newStatus: ScheduleStatus): Schedule
    {
      Schedule(scheduleDefinitionData, newStatus, pythonPath, repositoryPath)
    }
  }

  /** `WithStatus` sets the status and changes nothing else: the definition data and both
      paths stay, setting the status back undoes it, and setting it twice keeps the last one. */
  lemma WithStatusRoundTrip(s: Schedule, t: ScheduleStatus, u: ScheduleStatus)
    ensures s.WithStatus(t).status == t
    ensures s.WithStatus(t).scheduleDefinitionData == s.scheduleDefinitionData
    ensures s.WithStatus(t).pythonPath == s.pythonPath && s.WithStatus(t).repositoryPath == s.repositoryPath
    ensures s.WithStatus(t).WithStatus(s.status) == s
    ensures s.WithStatus(s.status) == s
    ensures s.WithStatus(t).WithStatus(u) == s.WithStatus(u)
    ensures s.WithStatus(t).Name() == s.Name()
    ensures s.WithStatus(t).CronSchedule() == s.CronSchedule()
    ensures s.WithStatus(t).EnvironmentVars() == s.EnvironmentVars()
  {
  }

  // Definitions and stored schedules are different records in the scheduler (a
  // `ScheduleDefinition` and a `Schedule`), and each side has its own name set, uniqueness
  // predicate and dictionary. They are written out per type, rather than once over a name
  // function, so that every quantifier triggers on a plain field access.

  /** The set of names of a list of definitions. */
  function DefNames(defs: seq<ScheduleDefinition>): set<string>
  {
    set d | d in defs :: d.Name()
  }

  /** The set of names of a list of stored schedules. */
  function ScheduleNames(ss: seq<Schedule>): set<string>
  {
    set s | s in ss :: s.Name()
  }

  /** No two definitions share a name. */
  predicate UniqueDefNames(defs: seq<ScheduleDefinition>)
  {
    forall i, j | 0 <= i < j < |defs| :: defs[i].Name() != defs[j].Name()
  }

  /** No two stored schedules share a name. */
  predicate UniqueScheduleNames(ss: seq<Schedule>)
  {
    forall i, j | 0 <= i < j < |ss| :: ss[i].Name() != ss[j].Name()
  }

  lemma DefNamesSnoc(defs: seq<ScheduleDefinition>, d: ScheduleDefinition)
    ensures DefNames(defs + [d]) == DefNames(defs) + {d.Name()}
  {
    assert forall x | x in defs + [d] :: x in defs || x == d;
  }

  lemma ScheduleNamesSnoc(ss: seq<Schedule>, s: Schedule)
    ensures ScheduleNames(ss + [s]) == ScheduleNames(ss) + {s.Name()}
  {
    assert forall x | x in ss + [s] :: x in ss || x == s;
  }

  /** The dictionary `{d.name: d for d in defs}`: a later definition with the same name
      overwrites an earlier one. */
  function DefDict(defs: seq<ScheduleDefinition>): (dict: map<string, ScheduleDefinition>)
    ensures dict.Keys == DefNames(defs)
    ensures forall n | n in dict :: dict[n] in defs && dict[n].Name() == n
  {
    if |defs| == 0 then map[]
    else
      var last := defs[|defs| - 1];
      assert defs == defs[..|defs| - 1] + [last];
      DefNamesSnoc(defs[..|defs| - 1], last);
      DefDict(defs[..|defs| - 1])[last.Name() := last]
  }

  /** The dictionary `{s.name: s for s in ss}`, with the same last-one-wins rule. */
  function ScheduleDict(ss: seq<Schedule>): (dict: map<string, Schedule>)
    ensures dict.Keys == ScheduleNames(ss)
    ensures forall n | n in dict :: dict[n] in ss && dict[n].Name() == n
  {
    if |ss| == 0 then map[]
    else
      var last := ss[|ss| - 1];
      assert ss == ss[..|ss| - 1] + [last];
      ScheduleNamesSnoc(ss[..|ss| - 1], last);
      ScheduleDict(ss[..|ss| - 1])[last.Name() := last]
  }

  /** When names are unique, the dictionary maps each definition's name to that definition. */
  lemma {:induction false} DefDictOf(defs: seq<ScheduleDefinition>, d: ScheduleDefinition)
    requires d in defs
    ensures d.Name() in DefDict(defs)
    ensures UniqueDefNames(defs) ==> DefDict(defs)[d.Name()] == d
  {
    var e := DefDict(defs)[d.Name()];
    var i :| 0 <= i < |defs| && defs[i] == d;
    var j :| 0 <= j < |defs| && defs[j] == e;
    if UniqueDefNames(defs) {
      assert defs[i].Name() == defs[j].Name();
    }
  }

  /** When names are unique, the dictionary maps each schedule's name to that schedule. */
  lemma {:induction false} ScheduleDictOf(ss: seq<Schedule>, s: Schedule)
    requires UniqueScheduleNames(ss)
    requires s in ss
    ensures s.Name() in ScheduleDict(ss) && ScheduleDict(ss)[s.Name()] == s
  {
    var e := ScheduleDict(ss)[s.Name()];
    var i :| 0 <= i < |ss| && ss[i] == s;
    var j :| 0 <= j < |ss| && ss[j] == e;
    assert ss[i].Name() == ss[j].Name();
  }
}
