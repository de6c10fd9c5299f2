# Schedule reconciliation in the dagster scheduler

This project models the core of dagster's scheduler module. That core keeps the stored
schedules of a repository in line with the current list of schedule definitions. It has two
parts:

- `get_schedule_change_set` is a pure diff between the stored schedules and the definitions,
  keyed by schedule name. Each name is classified as `add`, `change` or `remove`. A name is
  classified as `change` only when its cron string differs, and the entry then carries the
  single field change `("cron_schedule", (old, new))`.
- `SchedulerHandle.up` reconciles the schedule storage with the definition list, which is the
  source of truth. A new definition becomes a STOPPED schedule. An existing schedule gets the
  new definition data and paths but keeps its status, and is stopped and started again if it
  was RUNNING. A stored schedule without a definition is ended and removed.

The model is functional. The storage of one repository is a `map<string, Schedule>` keyed by
schedule name. The calls `up` makes on the instance to stop, start and end schedules are
recorded in order as a trace of `Event`s. Ending a schedule also removes it from the map, as
the docstring of `up` says.

Modules:

- `Wrappers` (wrappers.dfy): `Option`, used for the optional `python_path` and `repository_path`.
- `Schedules` (schedules.dfy): `ScheduleStatus`, `ScheduleDefinitionData`, `ScheduleDefinition`,
  `Schedule` with `WithStatus`, and the name-keyed views of lists. These views are the name
  sets and the `{s.name: s for s in ...}` dictionaries, in which the last entry wins.
- `ChangeSets` (change_sets.dfy): the change set, its three groups, and the lemma that says
  when it is empty.
- `SchedulerHandles` (scheduler_handle.dfy): the handle, `Up` split into its three loops
  (`UpdateSchedules`, `RestartRunning`, `EndSchedules`), the reference storage
  `ReconciledStore`, `GetChangeSet`, `GetScheduleDefByName`, and the lemmas that connect `up`
  with the change set.

The docstring of `up` says every previously existing schedule is restarted. The code restarts
only the ones whose status is RUNNING (scheduler.py:114-118). The model follows the code.

Python iterates the added, changed and removed name sets in an unspecified order. The model
builds each group in input-list order. Its contracts speak only of which entries occur, that
their names are distinct, and that adds come before changes and changes before removes. The
end loop of `up` picks names from the delete set in an arbitrary order (`:|`), so that order
is left open.

## Model

| member | source | states |
|---|---|---|
| Schedules.WithStatusRoundTrip | python_modules/dagster/dagster/core/scheduler/scheduler.py:196-204 | `with_status` sets the status and keeps the definition data, `python_path` and `repository_path`. Setting the old status back gives the original schedule, and setting it twice keeps the last status. |
| Schedules.DefDictOf | python_modules/dagster/dagster/core/scheduler/scheduler.py:23 | With unique names, the definitions dictionary maps each definition's name to that definition. |
| Schedules.ScheduleDictOf | python_modules/dagster/dagster/core/scheduler/scheduler.py:24 | With unique names, the stored-schedules dictionary maps each schedule's name to that schedule. |
| ChangeSets.AddEntries | python_modules/dagster/dagster/core/scheduler/scheduler.py:35-36 | The add group holds `("add", name, [])` exactly for the defined names that are not stored, each name once. |
| ChangeSets.ChangeEntries | python_modules/dagster/dagster/core/scheduler/scheduler.py:38-50 | The change group has distinct names, and every name in it is both defined and stored. |
| ChangeSets.ChangeEntriesExact | python_modules/dagster/dagster/core/scheduler/scheduler.py:38-50 | A change entry exists exactly for the definitions whose stored cron string differs. Its change list is the single `cron_schedule` change from the old string to the new one. |
| ChangeSets.RemoveEntries | python_modules/dagster/dagster/core/scheduler/scheduler.py:52-53 | The remove group holds `("remove", name, [])` exactly for the stored names that have no definition, each name once. |
| ChangeSets.GetScheduleChangeSet | python_modules/dagster/dagster/core/scheduler/scheduler.py:19-55 | The change set has distinct names, and every add comes before every change, which comes before every remove. Every entry is an add of a new name, a cron change of a kept name, or a remove of a dropped name, and each such name does get its entry. A kept name with an equal cron string gets no entry. |
| ChangeSets.ChangeSetEmptyIff | python_modules/dagster/dagster/core/scheduler/scheduler.py:29-55 | The change set is empty if and only if both sides have the same names and each name has the same cron string on both sides. |
| SchedulerHandles.FirstIndexNamed | python_modules/dagster/dagster/core/scheduler/scheduler.py:132-134 | The lookup finds a definition with the name, and no earlier definition has that name. |
| SchedulerHandles.GetScheduleDefByName | python_modules/dagster/dagster/core/scheduler/scheduler.py:131-134 | The result is the first definition of the handle with the requested name, as `next` over the generator returns. With unique names it is the dictionary's entry for that name. |
| SchedulerHandles.GetChangeSet | python_modules/dagster/dagster/core/scheduler/scheduler.py:123-126 | The handle's change set against the stored schedules is empty exactly when the two sides are in sync, and each of its entries is an expected one. |
| SchedulerHandles.UpdateSchedules | python_modules/dagster/dagster/core/scheduler/scheduler.py:84-107 | After the first loop, every defined name is stored with its reconciled schedule and every other stored name is untouched. The collected schedules are the updated ones, in definition order. |
| SchedulerHandles.UpdateStep | python_modules/dagster/dagster/core/scheduler/scheduler.py:87-107 | One definition's lookup sees its name in its original state, and storing the reconciled schedule extends the processed prefix by one. |
| SchedulerHandles.KeptSchedulesFacts | python_modules/dagster/dagster/core/scheduler/scheduler.py:88-98 | The schedules to restart are exactly the definitions that were already stored. Each has its stored status, and their names are unique. |
| SchedulerHandles.KeptRunningNames | python_modules/dagster/dagster/core/scheduler/scheduler.py:114-116 | The running schedules among those to restart are exactly the defined names that were stored as RUNNING. |
| SchedulerHandles.RestartRunning | python_modules/dagster/dagster/core/scheduler/scheduler.py:114-118 | The restart loop emits a stop immediately followed by a start for every running schedule, and nothing for the others. |
| SchedulerHandles.RestartEventsPaired | python_modules/dagster/dagster/core/scheduler/scheduler.py:116-118 | In the restart events every stop is directly followed by the start of the same schedule, every start directly follows its stop, and nothing is ended. |
| SchedulerHandles.RestartEventsNames | python_modules/dagster/dagster/core/scheduler/scheduler.py:114-118 | The restart events mention only running schedules, and every running schedule is stopped. |
| SchedulerHandles.RestartEventsDistinct | python_modules/dagster/dagster/core/scheduler/scheduler.py:114-118 | With unique names no restart event occurs twice. |
| SchedulerHandles.UpdatedKeyedByName | python_modules/dagster/dagster/core/scheduler/scheduler.py:110-112 | The names to delete are exactly the names that were stored before and have no definition. |
| SchedulerHandles.EndSchedules | python_modules/dagster/dagster/core/scheduler/scheduler.py:120-121 | Every name to delete is ended exactly once and removed from the storage, and no other name is ended or removed. |
| SchedulerHandles.RemovedIsReconciled | python_modules/dagster/dagster/core/scheduler/scheduler.py:79-80 | Removing the dropped names from the updated storage leaves exactly one schedule per definition. |
| SchedulerHandles.Up | python_modules/dagster/dagster/core/scheduler/scheduler.py:65-121 | After `up` the stored names are exactly the defined names. Each stored schedule carries its definition's data and the given paths. An existing schedule keeps its status and a new one is STOPPED. Exactly the existing RUNNING schedules get a stop directly followed by a start, and these pairs open the trace in definition order. Exactly the stored names without a definition are ended, each once and after all restarts. No event repeats. |
| SchedulerHandles.ReconciledStore | python_modules/dagster/dagster/core/scheduler/scheduler.py:66-69 | The reference storage after `up` holds exactly the defined names, each under its own name: the 1-1 correlation between definitions and schedules. |
| SchedulerHandles.ReconciledFacts | python_modules/dagster/dagster/core/scheduler/scheduler.py:71-76 | The reconciled schedule of a definition has the definition's data and the given paths. Its status is the stored one if the name was stored, and STOPPED otherwise. |
| SchedulerHandles.ReconcileIdempotent | python_modules/dagster/dagster/core/scheduler/scheduler.py:66-69 | Reconciling a second time with the same definitions and paths leaves the storage as it is. |
| SchedulerHandles.ReconcileConverges | python_modules/dagster/dagster/core/scheduler/scheduler.py:66-69 | After reconciling, listing the storage in any order and diffing it against the same definitions gives an empty change set. |
| SchedulerHandles.ChangeSetPredictsUp | python_modules/dagster/dagster/core/scheduler/scheduler.py:71-80 | The change set taken before `up` predicts what `up` does. Added names become STOPPED schedules, removed names disappear, and changed names end up with the new cron string. Every created or removed name appears in the change set. |

## Left out

- The `check.*` parameter checks are not modelled. Dafny's types replace them.
- The `@whitelist_for_serdes` serialisation registration is not modelled. It is a framework hook.
- The abstract `Scheduler` class (scheduler.py:137-165) is not modelled. It has no logic, and its implementations manage cron jobs, log files and the file system.
- The instance storage backend is not modelled. It is reduced to one map per repository, so the `repository` argument is dropped.
- `instance.stop_schedule` and `instance.start_schedule` only append events. Their effect on stored statuses belongs to the concrete scheduler, which is not part of this model.
- Cron strings and `environment_vars` are opaque. They are compared only for equality.
- `ScheduleDefinition` (dagster/core/definitions/schedule.py) is not part of this model. It is reduced to its definition data, name and cron string.
- `SchedulerHandle.__init__` and `all_schedule_defs` become the datatype field `scheduleDefs`.
- `ScheduleStatus.ENDED` is declared, but nothing in the modelled code produces it.
- GetScheduleChangeSet: requires unique names on both sides. With duplicate definition names, Python's dictionary keeps the last definition, and this case is not modelled.
- Up: requires unique definition names and storage keyed by schedule name. Duplicate definition names are not modelled. In Python, a duplicated name that is not yet stored is added as STOPPED by its first definition and updated by its second, which also puts it into `schedules_to_restart`. A duplicated name that is stored as RUNNING is updated twice and is stopped and started twice.
- GetScheduleDefByName: requires that the name exists. The `StopIteration` that Python's `next` raises for a missing name is not modelled.
- GetChangeSet: requires unique names among the listed stored schedules, for the same reason as GetScheduleChangeSet.
- The order inside each change-set group is not specified. The model fixes one order (input-list order), and the contracts say nothing about it.
