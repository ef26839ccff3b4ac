/**
  The maintenance script: `migrate` (seed an empty database, or fill in
  missing creation times), `reset` (confirmed wipe and reseed), `health`
  (counts and fill status per activity), and the command-line dispatch with
  its exit code. The confirmation typed at the prompt, the clock reading and
  whether the backup copy fails are parameters.
 */
module Migrate {
  import opened Text
  import opened Models
  import opened Database

  // ---------------------------------------------------------------------------
  // migrate_database

  /** An activity's creation time, filled in with `now` when missing. */
  function Heal(a: Activity, now: int): (r: Activity)
    ensures r.createdAt.Some?
    ensures r == a.(createdAt := r.createdAt)
    ensures r == a <==> a.createdAt.Some?
    ensures a.createdAt.None? ==> r.createdAt == Some(now)
  {
    if a.createdAt.None? then a.(createdAt := Some(now)) else a
  }

  /** The data step of a migration on a database that has activities. */
  function Healed(db: Db, now: int): (r: Db)
    ensures r.users == db.users && r.activities.Keys == db.activities.Keys
    ensures forall n :: n in r.activities ==> r.activities[n].createdAt.Some?
  {
    db.(activities := map n | n in db.activities :: Heal(db.activities[n], now))
  }

  /** What a migration leaves: the seed on a database without activities, the healed data otherwise. */
  function Migrated(db: Db, now: int): (r: Db)
    ensures db.activities != map[] ==> r.activities.Keys == db.activities.Keys
    ensures forall n :: n in r.activities ==> r.activities[n].createdAt.Some?
  {
    if db.activities == map[] then SeededEach(db, now); Seeded(db, now) else Healed(db, now)
  }

  /**
    Healing gives every activity a creation time, sets it to `now` exactly
    where it was missing, and changes nothing else; it is a no-op exactly
    when no creation time is missing.
   */
  lemma HealedChangesOnlyMissing(db: Db, now: int)
    ensures Healed(db, now).users == db.users
    ensures Healed(db, now).activities.Keys == db.activities.Keys
    ensures forall n :: n in db.activities ==>
              && Healed(db, now).activities[n].createdAt.Some?
              && Healed(db, now).activities[n]
                   == db.activities[n].(createdAt := Healed(db, now).activities[n].createdAt)
              && (Healed(db, now).activities[n] == db.activities[n] <==> db.activities[n].createdAt.Some?)
              && (db.activities[n].createdAt.None? ==> Healed(db, now).activities[n].createdAt == Some(now))
    ensures Healed(db, now) == db <==> forall n :: n in db.activities ==> db.activities[n].createdAt.Some?
  {
    if forall n :: n in db.activities ==> db.activities[n].createdAt.Some? {
      assert Healed(db, now).activities == db.activities;
    }
  }

  /** Healing keeps the constraints, the capacities and the enrollment total. */
  lemma HealedKeepsInvariants(db: Db, now: int)
    ensures Consistent(db) ==> Consistent(Healed(db, now))
    ensures WithinCapacity(db) ==> WithinCapacity(Healed(db, now))
    ensures TotalEnrollments(Healed(db, now).activities) == TotalEnrollments(db.activities)
  {
    var h := Healed(db, now);
    assert h.activities.Keys == db.activities.Keys;
    EnrollmentsInSameCounts(h.activities, db.activities, db.activities.Keys);
    if Consistent(db) {
      forall n | n in h.activities
        ensures ActivityRowOk(n, h.activities[n], h.users)
      {
        assert ActivityRowOk(n, db.activities[n], db.users);
      }
    }
  }

  /** A second migration, at any later time, changes nothing. */
  lemma MigrateIdempotent(db: Db, now: int, later: int)
    ensures Migrated(Migrated(db, now), later) == Migrated(db, now)
  {
    var m := Migrated(db, now);
    if db.activities == map[] {
      SeedOnlyWhenEmpty(db, now);
      SeededEach(db, now);
      HealedChangesOnlyMissing(m, later);
    } else {
      HealedChangesOnlyMissing(db, now);
      HealedChangesOnlyMissing(m, later);
      assert m.activities.Keys == db.activities.Keys;
    }
  }

  /** A migration keeps the constraints and leaves no activity over capacity that was not already. */
  lemma MigrateKeepsInvariants(db: Db, now: int)
    requires Consistent(db)
    ensures Consistent(Migrated(db, now))
    ensures WithinCapacity(db) ==> WithinCapacity(Migrated(db, now))
  {
    if db.activities == map[] {
      SeedKeepsInvariants(db, now);
    } else {
      HealedKeepsInvariants(db, now);
    }
  }

  /**
    `migrate_database`: a failed backup ends it with `False` before anything
    changes; otherwise it seeds or heals and reports success.
   */
  method MigrateDatabase(store: Store, now: int, backupFails: bool) returns (ok: bool)
    modifies store
    ensures ok == !backupFails
    ensures store.State() == if ok then Migrated(old(store.State()), now) else old(store.State())
    ensures old(store.Valid()) ==> store.Valid()
  {
    if backupFails {
      return false;
    }
    if store.activities == map[] {
      SeedInitialData(store, now);
    } else {
      HealedKeepsInvariants(store.State(), now);
      FillMissingTimes(store, now);
    }
    return true;
  }

  /** The loop over `activities_without_timestamps`: each gets `now` as its creation time. */
  method FillMissingTimes(store: Store, now: int)
    modifies store
    ensures store.State() == Healed(old(store.State()), now)
  {
    ghost var db0 := store.State();
    var missing := set n | n in store.activities && store.activities[n].createdAt.None?;
    while missing != {}
      invariant missing <= db0.activities.Keys
      invariant store.users == db0.users
      invariant store.activities.Keys == db0.activities.Keys
      invariant forall n :: n in missing ==> db0.activities[n].createdAt.None?
      invariant forall n :: n in db0.activities ==>
                  store.activities[n] == if n in missing then db0.activities[n] else Heal(db0.activities[n], now)
      decreases missing
    {
      var n :| n in missing;
      store.activities := store.activities[n := store.activities[n].(createdAt := Some(now))];
      missing := missing - {n};
    }
    assert store.activities == Healed(db0, now).activities;
  }

  // ---------------------------------------------------------------------------
  // reset_database

  /**
    `reset_database`: only the exact confirmation "RESET" proceeds; a failed
    backup stops it before anything changes; otherwise both tables are
    dropped, recreated empty and seeded.
   */
  method ResetDatabase(store: Store, confirmation: string, now: int, backupFails: bool) returns (ok: bool)
    modifies store
    ensures ok <==> confirmation == "RESET" && !backupFails
    ensures store.State() == if ok then Seeded(EmptyDb, now) else old(store.State())
    ensures ok ==> store.Valid()
    ensures old(store.Valid()) ==> store.Valid()
  {
    if confirmation != "RESET" {
      return false;
    }
    if backupFails {
      return false;
    }
    store.activities := map[];
    store.users := map[];
    SeedInitialData(store, now);
    ResetKeepsInvariants(now);
    return true;
  }

  /** A reset database meets every constraint and every capacity. */
  lemma ResetKeepsInvariants(now: int)
    ensures Consistent(Seeded(EmptyDb, now)) && WithinCapacity(Seeded(EmptyDb, now))
  {
    SeedKeepsInvariants(EmptyDb, now);
  }

  // ---------------------------------------------------------------------------
  // check_database_health

  /** The status column of the report: "FULL" or the number of spots left. */
  datatype FillStatus = Full | SpotsLeft(spots: int)

  /** The report's status: full exactly when no spot is left, and otherwise the spots left, which may be negative. */
  function Status(a: Activity): (s: FillStatus)
    ensures s == Full <==> AvailableSpots(a) == 0
    ensures s.SpotsLeft? ==> s.spots == AvailableSpots(a)
  {
    var spotsLeft := a.maxParticipants - |a.participants|;
    if spotsLeft == 0 then Full else SpotsLeft(spotsLeft)
  }

  /**
    The report's "FULL" implies `is_full`; the two disagree exactly on
    activities over capacity, which `is_full` calls full and the report
    does not.
   */
  lemma StatusVersusIsFull(a: Activity)
    ensures Status(a) == Full ==> IsFull(a)
    ensures (IsFull(a) && Status(a) != Full) <==> |a.participants| > a.maxParticipants
  {
  }

  /** Under the capacity invariant the report's status and `is_full` agree. */
  lemma StatusAgreesWithinCapacity(db: Db)
    requires WithinCapacity(db)
    ensures forall n :: n in db.activities ==> (Status(db.activities[n]) == Full <==> IsFull(db.activities[n]))
  {
  }

  /** One line of the report's activity details. */
  datatype ActivityLine = ActivityLine(count: int, maxParticipants: int, status: FillStatus)

  datatype HealthReport = HealthReport(
    activities: int,
    users: int,
    totalEnrollments: int,
    details: map<string, ActivityLine>)

  /**
    `check_database_health`: the numbers of activities and users, the sum
    of all participant counts, and each activity's count, capacity and
    status. The database is only read.
   */
  method CheckDatabaseHealth(store: Store) returns (report: HealthReport)
    ensures report.activities == |store.activities|
    ensures report.users == |store.users|
    ensures report.totalEnrollments == TotalEnrollments(store.activities)
    ensures report.details.Keys == store.activities.Keys
    ensures forall n :: n in store.activities ==>
              && report.details[n].count == |store.activities[n].participants|
              && report.details[n].maxParticipants == store.activities[n].maxParticipants
              && report.details[n].status == Status(store.activities[n])
  {
    var acts := store.activities;
    var total := 0;
    var details: map<string, ActivityLine> := map[];
    var todo := acts.Keys;
    while todo != {}
      invariant todo <= acts.Keys
      invariant total + EnrollmentsIn(acts, todo) == TotalEnrollments(acts)
      invariant details.Keys == acts.Keys - todo
      invariant forall n :: n in details ==>
                  details[n] == ActivityLine(|acts[n].participants|, acts[n].maxParticipants, Status(acts[n]))
      decreases todo
    {
      var n :| n in todo;
      var a := acts[n];
      EnrollmentsInSplit(acts, todo, n);
      total := total + |a.participants|;
      details := details[n := ActivityLine(|a.participants|, a.maxParticipants, Status(a))];
      todo := todo - {n};
    }
    report := HealthReport(|acts|, |store.users|, total, details);
  }

  /** On a freshly reset database the report counts nine activities and eighteen enrollments, none full. */
  lemma HealthAfterReset(now: int)
    ensures |Seeded(EmptyDb, now).activities| == 9
    ensures TotalEnrollments(Seeded(EmptyDb, now).activities) == 18
    ensures forall n :: n in Seeded(EmptyDb, now).activities ==>
              Status(Seeded(EmptyDb, now).activities[n]).SpotsLeft?
  {
    SeededActivities(EmptyDb, now);
    SeededTotal(EmptyDb, now);
    SeededEach(EmptyDb, now);
    assert |Seeded(EmptyDb, now).activities| == |Seeded(EmptyDb, now).activities.Keys|;
  }

  // ---------------------------------------------------------------------------
  // The command line

  datatype Command = MigrateCommand | ResetCommand | HealthCommand

  /** How the arguments are read: too few, a known command, or an unknown one. */
  datatype Invocation = Usage | Run(command: Command) | UnknownCommand(name: string)

  /**
    The dispatch: with fewer than two arguments the usage text; otherwise the
    second argument, lower-cased, names the command.
   */
  function ParseArgs(argv: seq<string>): (r: Invocation)
    ensures r == Usage <==> |argv| < 2
    ensures |argv| >= 2 ==>
              && (r == Run(MigrateCommand) <==> Lower(argv[1]) == "migrate")
              && (r == Run(ResetCommand) <==> Lower(argv[1]) == "reset")
              && (r == Run(HealthCommand) <==> Lower(argv[1]) == "health")
              && (r.UnknownCommand? ==> r.name == Lower(argv[1]))
  {
    if |argv| < 2 then Usage
    else
      var command := Lower(argv[1]);
      if command == "migrate" then Run(MigrateCommand)
      else if command == "reset" then Run(ResetCommand)
      else if command == "health" then Run(HealthCommand)
      else UnknownCommand(command)
  }

  /** The command is matched without regard to capitals: lower-casing it first changes nothing. */
  lemma ParseArgsIgnoresCase(argv: seq<string>)
    requires |argv| >= 2
    ensures ParseArgs(argv[1 := Lower(argv[1])]) == ParseArgs(argv)
  {
    LowerIsLower(argv[1]);
  }

  /** `sys.exit(0 if success else 1)`. */
  function ExitCode(success: bool): (code: int)
    ensures code == 0 <==> success
    ensures code == 1 <==> !success
  {
    if success then 0 else 1
  }

  /**
    The script's `__main__`: the exit code is 0 exactly when a known command
    ran and succeeded; the usage text and an unknown command exit with 1 and
    change nothing.
   */
  method RunCommandLine(store: Store, argv: seq<string>, now: int, confirmation: string, backupFails: bool)
    returns (code: int)
    modifies store
    ensures code == 0 <==>
              || ParseArgs(argv) == Run(HealthCommand)
              || (ParseArgs(argv) == Run(MigrateCommand) && !backupFails)
              || (ParseArgs(argv) == Run(ResetCommand) && confirmation == "RESET" && !backupFails)
    ensures code == 0 || code == 1
    ensures store.State() ==
              if code == 1 then old(store.State())
              else if ParseArgs(argv) == Run(MigrateCommand) then Migrated(old(store.State()), now)
              else if ParseArgs(argv) == Run(ResetCommand) then Seeded(EmptyDb, now)
              else old(store.State())
    ensures old(store.Valid()) ==> store.Valid()
  {
    var success: bool;
    match ParseArgs(argv) {
      case Usage =>
        return ExitCode(false);
      case Run(MigrateCommand) =>
        success := MigrateDatabase(store, now, backupFails);
      case Run(ResetCommand) =>
        success := ResetDatabase(store, confirmation, now, backupFails);
      case Run(HealthCommand) =>
        var report := CheckDatabaseHealth(store);
        success := true;
      case UnknownCommand(_) =>
        success := false;
    }
    code := ExitCode(success);
  }
}
