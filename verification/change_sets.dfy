/**
 This module models `get_schedule_change_set`: the diff between the stored schedules and the
 current definitions, keyed by schedule name. Each name on either side is classified as added,
 changed (only when its cron string differs) or removed; a name present on both sides with the
 same cron string produces no entry.

 The source iterates Python sets, whose order is unspecified. The model walks the input lists
 instead, so within each group the entries come in list order; the contracts below only speak
 of which entries occur, that their names are distinct, and that the groups come in the order
 adds, changes, removes.
 */
module ChangeSets {
  import opened Schedules

  datatype ChangeKind = Add | Change | Remove

  /** One changed field: its name and its old and new values. */
  datatype FieldChange = FieldChange(field: string, oldValue: string, newValue: string)

  /** One entry of a change set: the kind of change, the schedule name, the changed fields. */
  datatype ChangeEntry = ChangeEntry(kind: ChangeKind, name: string, changes: seq<FieldChange>)

  /** The only field the diff compares. */
  const CronScheduleField: string := "cron_schedule"

  /** Position of a group in the change set: adds, then changes, then removes. */
  function Rank(k: ChangeKind): nat
  {
    match k
    case Add => 0
    case Change => 1
    case Remove => 2
  }

  predicate DistinctNames(r: seq<ChangeEntry>)
  {
    forall i, j | 0 <= i < j < |r| :: r[i].name != r[j].name
  }

  predicate GroupedByKind(r: seq<ChangeEntry>)
  {
    forall i, j | 0 <= i < j < |r| :: Rank(r[i].kind) <= Rank(r[j].kind)
  }

  /** The entry reporting that a stored schedule's cron string differs from its definition's. */
  function CronChange(stored: Schedule, d: ScheduleDefinition): ChangeEntry
  {
    ChangeEntry(Change, d.Name(), [FieldChange(CronScheduleField, stored.CronSchedule(), d.CronSchedule())])
  }

  /** The old and new sides agree: the same names, and the same cron string for each name. */
  predicate InSync(olds: seq<Schedule>, defs: seq<ScheduleDefinition>)
  {
    && ScheduleNames(olds) == DefNames(defs)
    && forall n | n in DefNames(defs) ::
         n in ScheduleDict(olds) && ScheduleDict(olds)[n].CronSchedule() == DefDict(defs)[n].CronSchedule()
  }

  /** Independent description of the entries the diff may report, one kind at a time. */
  predicate Expected(olds: seq<Schedule>, defs: seq<ScheduleDefinition>, e: ChangeEntry)
  {
    var oldNames := ScheduleNames(olds);
    var newNames := DefNames(defs);
    match e.kind
    case Add => e.name in newNames && e.name !in oldNames && e.changes == []
    case Remove => e.name in oldNames && e.name !in newNames && e.changes == []
    case Change =>
      && e.name in newNames && e.name in oldNames
      && var oldCron := ScheduleDict(olds)[e.name].CronSchedule();
         var newCron := DefDict(defs)[e.name].CronSchedule();
         oldCron != newCron && e.changes == [FieldChange(CronScheduleField, oldCron, newCron)]
  }

  /** The `add` group: one entry per definition whose name is not stored. */
  function AddEntries(defs: seq<ScheduleDefinition>, oldNames: set<string>): (r: seq<ChangeEntry>)
    requires UniqueDefNames(defs)
    ensures DistinctNames(r)
    ensures forall e | e in r :: e.kind == Add && e.changes == [] && e.name in DefNames(defs) && e.name !in oldNames
    ensures forall d | d in defs && d.Name() !in oldNames :: ChangeEntry(Add, d.Name(), []) in r
  {
    if |defs| == 0 then []
    else
      var rest := AddEntries(defs[1..], oldNames);
      assert forall d | d in defs[1..] :: d in defs;
      if defs[0].Name() in oldNames then rest
      else
        assert defs[0].Name() !in DefNames(defs[1..]);
        [ChangeEntry(Add, defs[0].Name(), [])] + rest
  }

  /** The stored schedule under `d`'s name has another cron string than `d`. */
  predicate CronChanged(oldDict: map<string, Schedule>, d: ScheduleDefinition)
  {
    d.Name() in oldDict && oldDict[d.Name()].CronSchedule() != d.CronSchedule()
  }

  /** The `change` group: one entry per definition whose name is stored under another cron
      string. */
  function ChangeEntries(defs: seq<ScheduleDefinition>, oldDict: map<string, Schedule>): (r: seq<ChangeEntry>)
    requires UniqueDefNames(defs)
    ensures DistinctNames(r)
    ensures forall e | e in r :: e.kind == Change && e.name in DefNames(defs) && e.name in oldDict
  {
    if |defs| == 0 then []
    else
      var d := defs[0];
      var rest := ChangeEntries(defs[1..], oldDict);
      assert forall x | x in defs[1..] :: x in defs;
      if CronChanged(oldDict, d) then
        assert d.Name() !in DefNames(defs[1..]);
        [CronChange(oldDict[d.Name()], d)] + rest
      else rest
  }

  /** The change entries are exactly the cron changes of the definitions whose stored cron
      string differs. */
  lemma {:induction false} ChangeEntriesExact(defs: seq<ScheduleDefinition>, oldDict: map<string, Schedule>)
    requires UniqueDefNames(defs)
    ensures forall e | e in ChangeEntries(defs, oldDict) ::
              exists d | d in defs && CronChanged(oldDict, d) :: e == CronChange(oldDict[d.Name()], d)
    ensures forall d | d in defs && CronChanged(oldDict, d) :: CronChange(oldDict[d.Name()], d) in ChangeEntries(defs, oldDict)
  {
    if |defs| > 0 {
      var d := defs[0];
      ChangeEntriesExact(defs[1..], oldDict);
      assert forall x | x in defs[1..] :: x in defs;
      assert forall x | x in defs :: x == d || x in defs[1..];
    }
  }

  /** The `remove` group: one entry per stored schedule whose name has no definition. */
  function RemoveEntries(olds: seq<Schedule>, newNames: set<string>): (r: seq<ChangeEntry>)
    requires UniqueScheduleNames(olds)
    ensures DistinctNames(r)
    ensures forall e | e in r :: e.kind == Remove && e.changes == [] && e.name in ScheduleNames(olds) && e.name !in newNames
    ensures forall s | s in olds && s.Name() !in newNames :: ChangeEntry(Remove, s.Name(), []) in r
  {
    if |olds| == 0 then []
    else
      var rest := RemoveEntries(olds[1..], newNames);
      assert forall s | s in olds[1..] :: s in olds;
      if olds[0].Name() in newNames then rest
      else
        assert olds[0].Name() !in ScheduleNames(olds[1..]);
        [ChangeEntry(Remove, olds[0].Name(), [])] + rest
  }

  /** Concatenating groups with distinct names over disjoint name sets keeps names distinct. */
  lemma DistinctConcat(a: seq<ChangeEntry>, b: seq<ChangeEntry>)
    requires DistinctNames(a) && DistinctNames(b)
    requires forall x, y | x in a && y in b :: x.name != y.name
    ensures DistinctNames(a + b)
  {
    forall i, j | 0 <= i < j < |a + b|
      ensures (a + b)[i].name != (a + b)[j].name
    {
      if j < |a| {
      } else if i >= |a| {
        assert (a + b)[i] == b[i - |a|] && (a + b)[j] == b[j - |a|];
      } else {
        assert (a + b)[i] in a && (a + b)[j] in b;
      }
    }
  }

  /** The diff between the stored schedules `olds` and the definitions `defs`. */
  function GetScheduleChangeSet(olds: seq<Schedule>, defs: seq<ScheduleDefinition>): (r: seq<ChangeEntry>)
    requires UniqueScheduleNames(olds) && UniqueDefNames(defs)
    ensures DistinctNames(r)
    ensures GroupedByKind(r)
    ensures forall e | e in r :: Expected(olds, defs, e)
    ensures forall n | n in DefNames(defs) && n !in ScheduleNames(olds) :: ChangeEntry(Add, n, []) in r
    ensures forall n | n in ScheduleNames(olds) && n !in DefNames(defs) :: ChangeEntry(Remove, n, []) in r
    ensures forall n | n in DefNames(defs) && n in ScheduleNames(olds) ::
              var oldCron := ScheduleDict(olds)[n].CronSchedule();
              var newCron := DefDict(defs)[n].CronSchedule();
              oldCron != newCron ==> ChangeEntry(Change, n, [FieldChange(CronScheduleField, oldCron, newCron)]) in r
  {
    var adds := AddEntries(defs, ScheduleNames(olds));
    var changes := ChangeEntries(defs, ScheduleDict(olds));
    var removes := RemoveEntries(olds, DefNames(defs));
    ChangeSetDistinctAndGrouped(ScheduleNames(olds), DefNames(defs), adds, changes, removes);
    ChangeSetSound(olds, defs, adds, changes, removes);
    ChangeSetComplete(olds, defs, adds, changes, removes);
    adds + changes + removes
  }

  /** The three groups have pairwise disjoint names and come in rank order. */
  lemma ChangeSetDistinctAndGrouped(oldNames: set<string>, newNames: set<string>,
                                    adds: seq<ChangeEntry>, changes: seq<ChangeEntry>, removes: seq<ChangeEntry>)
    requires DistinctNames(adds) && DistinctNames(changes) && DistinctNames(removes)
    requires forall e | e in adds :: e.kind == Add && e.name in newNames && e.name !in oldNames
    requires forall e | e in changes :: e.kind == Change && e.name in oldNames && e.name in newNames
    requires forall e | e in removes :: e.kind == Remove && e.name in oldNames && e.name !in newNames
    ensures DistinctNames(adds + changes + removes)
    ensures GroupedByKind(adds + changes + removes)
  {
    var ac := adds + changes;
    assert forall e | e in ac :: e.name in newNames && (e.kind == Add || e.kind == Change) by {
      assert forall e | e in ac :: e in adds || e in changes;
    }
    DistinctConcat(adds, changes);
    DistinctConcat(ac, removes);
    SingleKindGrouped(adds, Add);
    SingleKindGrouped(changes, Change);
    SingleKindGrouped(removes, Remove);
    GroupedConcat(adds, changes);
    assert forall x, y | x in ac && y in removes :: Rank(x.kind) <= Rank(y.kind) by {
      forall x, y | x in ac && y in removes
        ensures Rank(x.kind) <= Rank(y.kind)
      {
        assert x.kind == Add || x.kind == Change;
        assert y.kind == Remove;
      }
    }
    GroupedConcat(ac, removes);
  }

  /** A sequence of entries of one kind is grouped. */
  lemma SingleKindGrouped(a: seq<ChangeEntry>, k: ChangeKind)
    requires forall e | e in a :: e.kind == k
    ensures GroupedByKind(a)
  {
    forall i, j | 0 <= i < j < |a|
      ensures Rank(a[i].kind) <= Rank(a[j].kind)
    {
      assert a[i] in a && a[j] in a;
    }
  }

  /** Every entry the three groups produce is one the diff is expected to report. */
  lemma ChangeSetSound(olds: seq<Schedule>, defs: seq<ScheduleDefinition>,
                       adds: seq<ChangeEntry>, changes: seq<ChangeEntry>, removes: seq<ChangeEntry>)
    requires UniqueScheduleNames(olds) && UniqueDefNames(defs)
    requires adds == AddEntries(defs, ScheduleNames(olds))
    requires changes == ChangeEntries(defs, ScheduleDict(olds))
    requires removes == RemoveEntries(olds, DefNames(defs))
    ensures forall e | e in adds + changes + removes :: Expected(olds, defs, e)
  {
    ChangeEntriesExact(defs, ScheduleDict(olds));
    forall e | e in adds + changes + removes
      ensures Expected(olds, defs, e)
    {
      if e in changes {
        var d :| d in defs && CronChanged(ScheduleDict(olds), d) && e == CronChange(ScheduleDict(olds)[d.Name()], d);
        DefDictOf(defs, d);
      } else {
        assert e in adds || e in removes;
      }
    }
  }

  /** Two grouped sequences, the first ranked no later than the second, stay grouped. */
  lemma GroupedConcat(a: seq<ChangeEntry>, b: seq<ChangeEntry>)
    requires GroupedByKind(a) && GroupedByKind(b)
    requires forall x, y | x in a && y in b :: Rank(x.kind) <= Rank(y.kind)
    ensures GroupedByKind(a + b)
  {
    forall i, j | 0 <= i < j < |a + b|
      ensures Rank((a + b)[i].kind) <= Rank((a + b)[j].kind)
    {
      if j < |a| {
      } else if i >= |a| {
        assert (a + b)[i] == b[i - |a|] && (a + b)[j] == b[j - |a|];
      } else {
        assert (a + b)[i] in a && (a + b)[j] in b;
      }
    }
  }

  /** Every name the diff must report is reported, in the group it belongs to. */
  lemma ChangeSetComplete(olds: seq<Schedule>, defs: seq<ScheduleDefinition>,
                          adds: seq<ChangeEntry>, changes: seq<ChangeEntry>, removes: seq<ChangeEntry>)
    requires UniqueScheduleNames(olds) && UniqueDefNames(defs)
    requires adds == AddEntries(defs, ScheduleNames(olds))
    requires changes == ChangeEntries(defs, ScheduleDict(olds))
    requires removes == RemoveEntries(olds, DefNames(defs))
    ensures forall n | n in DefNames(defs) && n !in ScheduleNames(olds) :: ChangeEntry(Add, n, []) in adds
    ensures forall n | n in ScheduleNames(olds) && n !in DefNames(defs) :: ChangeEntry(Remove, n, []) in removes
    ensures forall n | n in DefNames(defs) && n in ScheduleNames(olds) ::
              var oldCron := ScheduleDict(olds)[n].CronSchedule();
              var newCron := DefDict(defs)[n].CronSchedule();
              oldCron != newCron ==> ChangeEntry(Change, n, [FieldChange(CronScheduleField, oldCron, newCron)]) in changes
  {
    forall n | n in DefNames(defs) && n !in ScheduleNames(olds)
      ensures ChangeEntry(Add, n, []) in adds
    {
      var d :| d in defs && d.Name() == n;
    }
    forall n | n in ScheduleNames(olds) && n !in DefNames(defs)
      ensures ChangeEntry(Remove, n, []) in removes
    {
      var s :| s in olds && s.Name() == n;
    }
    ChangesComplete(olds, defs, changes);
  }

  lemma ChangesComplete(olds: seq<Schedule>, defs: seq<ScheduleDefinition>, changes: seq<ChangeEntry>)
    requires UniqueDefNames(defs)
    requires changes == ChangeEntries(defs, ScheduleDict(olds))
    ensures forall n | n in DefNames(defs) && n in ScheduleNames(olds) ::
              var oldCron := ScheduleDict(olds)[n].CronSchedule();
              var newCron := DefDict(defs)[n].CronSchedule();
              oldCron != newCron ==> ChangeEntry(Change, n, [FieldChange(CronScheduleField, oldCron, newCron)]) in changes
  {
    ChangeEntriesExact(defs, ScheduleDict(olds));
    forall n | n in DefNames(defs) && n in ScheduleNames(olds)
      ensures var oldCron := ScheduleDict(olds)[n].CronSchedule();
              var newCron := DefDict(defs)[n].CronSchedule();
              oldCron != newCron ==> ChangeEntry(Change, n, [FieldChange(CronScheduleField, oldCron, newCron)]) in changes
    {
      var d := DefDict(defs)[n];
      assert d in defs && d.Name() == n;
    }
  }

  /** The change set is empty exactly when both sides have the same names and, for every
      name, the same cron string. */
  lemma ChangeSetEmptyIff(olds: seq<Schedule>, defs: seq<ScheduleDefinition>)
    requires UniqueScheduleNames(olds) && UniqueDefNames(defs)
    ensures GetScheduleChangeSet(olds, defs) == [] <==> InSync(olds, defs)
  {
    if GetScheduleChangeSet(olds, defs) == [] {
      EmptyChangeSetInSync(olds, defs);
    } else {
      NonEmptyChangeSetOutOfSync(olds, defs);
    }
  }

  lemma EmptyChangeSetInSync(olds: seq<Schedule>, defs: seq<ScheduleDefinition>)
    requires UniqueScheduleNames(olds) && UniqueDefNames(defs)
    requires GetScheduleChangeSet(olds, defs) == []
    ensures InSync(olds, defs)
  {
    var r := GetScheduleChangeSet(olds, defs);
    forall n | n in DefNames(defs)
      ensures n in ScheduleNames(olds)
    {
    }
    forall n | n in ScheduleNames(olds)
      ensures n in DefNames(defs)
    {
    }
  }

  lemma NonEmptyChangeSetOutOfSync(olds: seq<Schedule>, defs: seq<ScheduleDefinition>)
    requires UniqueScheduleNames(olds) && UniqueDefNames(defs)
    requires GetScheduleChangeSet(olds, defs) != []
    ensures !InSync(olds, defs)
  {
    var r := GetScheduleChangeSet(olds, defs);
    var e := r[0];
    assert e in r;
    assert Expected(olds, defs, e);
    match e.kind
    case Add => assert e.name !in ScheduleNames(olds);
    case Remove => assert e.name !in DefNames(defs);
    case Change => assert e.name in DefNames(defs);
  }
}
