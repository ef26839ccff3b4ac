/**
  `seed_initial_data`, which fills an empty database with the school's
  canonical activities and enrollments, and the naming of the backup copy
  `create_backup` makes of the SQLite file.
 */
module Database {
  import opened Text
  import opened Models

  // ---------------------------------------------------------------------------
  // The canonical data

  /** One entry of the canonical activity list. */
  datatype ActivitySeed = ActivitySeed(
    name: string,
    description: string,
    schedule: string,
    maxParticipants: int)

  const InitialActivities: seq<ActivitySeed> := [
    ActivitySeed("Chess Club",
      "Learn strategies and compete in chess tournaments",
      "Fridays, 3:30 PM - 5:00 PM", 12),
    ActivitySeed("Programming Class",
      "Learn programming fundamentals and build software projects",
      "Tuesdays and Thursdays, 3:30 PM - 4:30 PM", 20),
    ActivitySeed("Gym Class",
      "Physical education and sports activities",
      "Mondays, Wednesdays, Fridays, 2:00 PM - 3:00 PM", 30),
    ActivitySeed("Soccer Team",
      "Join the school soccer team and compete in matches",
      "Tuesdays and Thursdays, 4:00 PM - 5:30 PM", 22),
    ActivitySeed("Basketball Team",
      "Practice and play basketball with the school team",
      "Wednesdays and Fridays, 3:30 PM - 5:00 PM", 15),
    ActivitySeed("Art Club",
      "Explore your creativity through painting and drawing",
      "Thursdays, 3:30 PM - 5:00 PM", 15),
    ActivitySeed("Drama Club",
      "Act, direct, and produce plays and performances",
      "Mondays and Wednesdays, 4:00 PM - 5:30 PM", 20),
    ActivitySeed("Math Club",
      "Solve challenging problems and participate in math competitions",
      "Tuesdays, 3:30 PM - 4:30 PM", 10),
    ActivitySeed("Debate Team",
      "Develop public speaking and argumentation skills",
      "Fridays, 4:00 PM - 5:30 PM", 12)
  ]

  /** The (email, activity name) pairs enrolled by the seed, two per activity. */
  const InitialEnrollments: seq<(string, string)> := [
    ("michael@mergington.edu", "Chess Club"),
    ("daniel@mergington.edu", "Chess Club"),
    ("emma@mergington.edu", "Programming Class"),
    ("sophia@mergington.edu", "Programming Class"),
    ("john@mergington.edu", "Gym Class"),
    ("olivia@mergington.edu", "Gym Class"),
    ("liam@mergington.edu", "Soccer Team"),
    ("noah@mergington.edu", "Soccer Team"),
    ("ava@mergington.edu", "Basketball Team"),
    ("mia@mergington.edu", "Basketball Team"),
    ("amelia@mergington.edu", "Art Club"),
    ("harper@mergington.edu", "Art Club"),
    ("ella@mergington.edu", "Drama Club"),
    ("scarlett@mergington.edu", "Drama Club"),
    ("james@mergington.edu", "Math Club"),
    ("benjamin@mergington.edu", "Math Club"),
    ("charlotte@mergington.edu", "Debate Team"),
    ("henry@mergington.edu", "Debate Team")
  ]

  /** The names of a list of seeds. */
  function NamesOf(seeds: seq<ActivitySeed>): (r: set<string>)
    ensures forall k :: 0 <= k < |seeds| ==> seeds[k].name in r
    decreases |seeds|
  {
    if seeds == [] then {} else NamesOf(seeds[..|seeds| - 1]) + {seeds[|seeds| - 1].name}
  }

  /** Every name is the name of some seed. */
  lemma {:induction false} NamesOfSeed(seeds: seq<ActivitySeed>, n: string) returns (k: nat)
    requires n in NamesOf(seeds)
    ensures k < |seeds| && seeds[k].name == n
    decreases |seeds|
  {
    var init := seeds[..|seeds| - 1];
    if n == seeds[|seeds| - 1].name {
      k := |seeds| - 1;
    } else {
      k := NamesOfSeed(init, n);
    }
  }

  /** A name no seed carries is not among the names. */
  lemma {:induction false} NamesOfOnly(seeds: seq<ActivitySeed>, n: string)
    requires forall k :: 0 <= k < |seeds| ==> seeds[k].name != n
    ensures n !in NamesOf(seeds)
    decreases |seeds|
  {
    if seeds != [] {
      var init := seeds[..|seeds| - 1];
      assert forall k :: 0 <= k < |init| ==> init[k] == seeds[k];
      NamesOfOnly(init, n);
    }
  }

  predicate DistinctNames(seeds: seq<ActivitySeed>) {
    forall i, j :: 0 <= i < j < |seeds| ==> seeds[i].name != seeds[j].name
  }

  /** With distinct names there are as many names as seeds. */
  lemma {:induction false} DistinctNamesCount(seeds: seq<ActivitySeed>)
    requires DistinctNames(seeds)
    ensures |NamesOf(seeds)| == |seeds|
    decreases |seeds|
  {
    if seeds != [] {
      var init := seeds[..|seeds| - 1];
      assert DistinctNames(init);
      DistinctNamesCount(init);
      NamesOfOnly(init, seeds[|seeds| - 1].name);
    }
  }

  /** An address of the school's domain whose local part is lower-case letters. */
  predicate IsSchoolAddress(s: string) {
    && |s| > 15
    && s[|s| - 15..] == "@mergington.edu"
    && forall k :: 0 <= k < |s| - 15 ==> 'a' <= s[k] <= 'z'
  }

  /** Such an address is one `validate_email` stores as written. */
  lemma SchoolAddressStored(s: string)
    requires IsSchoolAddress(s)
    ensures StoredEmail(s)
  {
    var i := |s| - 15;
    assert s[i..] == "@mergington.edu";
    assert s[i] == '@';
    assert s[i + 11] == '.';
    assert forall k :: i + 1 <= k < |s| ==> s[k] == s[i..][k - i];
    assert EmailSplitAt(s, i, i + 11);
  }

  /** A lower-case local part followed by the school's domain is a school address. */
  lemma SchoolAddressOf(s: string, local: string)
    requires s == local + "@mergington.edu" && local != []
    requires forall k :: 0 <= k < |local| ==> 'a' <= local[k] <= 'z'
    ensures IsSchoolAddress(s)
  {
    assert s[|local|..] == "@mergington.edu";
    assert forall k :: 0 <= k < |local| ==> s[k] == local[k];
  }

  // The canonical addresses, one per lemma: each literal address is a
  // separate proof obligation, which keeps every obligation small.

  lemma MichaelAddress()
    ensures IsSchoolAddress("michael@mergington.edu")
  {
    SchoolAddressOf("michael@mergington.edu", "michael");
  }

  lemma DanielAddress()
    ensures IsSchoolAddress("daniel@mergington.edu")
  {
    SchoolAddressOf("daniel@mergington.edu", "daniel");
  }

  lemma EmmaAddress()
    ensures IsSchoolAddress("emma@mergington.edu")
  {
    SchoolAddressOf("emma@mergington.edu", "emma");
  }

  lemma SophiaAddress()
    ensures IsSchoolAddress("sophia@mergington.edu")
  {
    SchoolAddressOf("sophia@mergington.edu", "sophia");
  }

  lemma JohnAddress()
    ensures IsSchoolAddress("john@mergington.edu")
  {
    SchoolAddressOf("john@mergington.edu", "john");
  }

  lemma OliviaAddress()
    ensures IsSchoolAddress("olivia@mergington.edu")
  {
    SchoolAddressOf("olivia@mergington.edu", "olivia");
  }

  lemma LiamAddress()
    ensures IsSchoolAddress("liam@mergington.edu")
  {
    SchoolAddressOf("liam@mergington.edu", "liam");
  }

  lemma NoahAddress()
    ensures IsSchoolAddress("noah@mergington.edu")
  {
    SchoolAddressOf("noah@mergington.edu", "noah");
  }

  lemma AvaAddress()
    ensures IsSchoolAddress("ava@mergington.edu")
  {
    SchoolAddressOf("ava@mergington.edu", "ava");
  }

  lemma MiaAddress()
    ensures IsSchoolAddress("mia@mergington.edu")
  {
    SchoolAddressOf("mia@mergington.edu", "mia");
  }

  lemma AmeliaAddress()
    ensures IsSchoolAddress("amelia@mergington.edu")
  {
    SchoolAddressOf("amelia@mergington.edu", "amelia");
  }

  lemma HarperAddress()
    ensures IsSchoolAddress("harper@mergington.edu")
  {
    SchoolAddressOf("harper@mergington.edu", "harper");
  }

  lemma EllaAddress()
    ensures IsSchoolAddress("ella@mergington.edu")
  {
    SchoolAddressOf("ella@mergington.edu", "ella");
  }

  lemma ScarlettAddress()
    ensures IsSchoolAddress("scarlett@mergington.edu")
  {
    SchoolAddressOf("scarlett@mergington.edu", "scarlett");
  }

  lemma JamesAddress()
    ensures IsSchoolAddress("james@mergington.edu")
  {
    SchoolAddressOf("james@mergington.edu", "james");
  }

  lemma BenjaminAddress()
    ensures IsSchoolAddress("benjamin@mergington.edu")
  {
    SchoolAddressOf("benjamin@mergington.edu", "benjamin");
  }

  lemma CharlotteAddress()
    ensures IsSchoolAddress("charlotte@mergington.edu")
  {
    SchoolAddressOf("charlotte@mergington.edu", "charlotte");
  }

  lemma HenryAddress()
    ensures IsSchoolAddress("henry@mergington.edu")
  {
    SchoolAddressOf("henry@mergington.edu", "henry");
  }

  lemma FirstAddressesOfSchool(k: nat)
    requires k < 9
    ensures IsSchoolAddress(InitialEnrollments[k].0)
  {
    MichaelAddress();
    DanielAddress();
    EmmaAddress();
    SophiaAddress();
    JohnAddress();
    OliviaAddress();
    LiamAddress();
    NoahAddress();
    AvaAddress();
  }

  lemma LastAddressesOfSchool(k: nat)
    requires 9 <= k < |InitialEnrollments|
    ensures IsSchoolAddress(InitialEnrollments[k].0)
  {
    MiaAddress();
    AmeliaAddress();
    HarperAddress();
    EllaAddress();
    ScarlettAddress();
    JamesAddress();
    BenjaminAddress();
    CharlotteAddress();
    HenryAddress();
  }

  lemma InitialAddressesOfSchool()
    ensures forall k :: 0 <= k < |InitialEnrollments| ==> IsSchoolAddress(InitialEnrollments[k].0)
  {
    forall k | 0 <= k < |InitialEnrollments|
      ensures IsSchoolAddress(InitialEnrollments[k].0)
    {
      if k < 9 {
        FirstAddressesOfSchool(k);
      } else {
        LastAddressesOfSchool(k);
      }
    }
  }

  /** Every canonical address passes `validate_email` unchanged. */
  lemma InitialEmailsStored()
    ensures forall k :: 0 <= k < |InitialEnrollments| ==> StoredEmail(InitialEnrollments[k].0)
  {
    InitialAddressesOfSchool();
    forall k | 0 <= k < |InitialEnrollments|
      ensures StoredEmail(InitialEnrollments[k].0)
    {
      SchoolAddressStored(InitialEnrollments[k].0);
    }
  }

  /** No two canonical activities share a name. */
  lemma InitialNamesDistinct()
    ensures DistinctNames(InitialActivities)
  {
  }

  /** Every canonical activity passes the validators unchanged and meets the table's CHECK constraints. */
  lemma InitialActivitiesValid()
    ensures forall k :: 0 <= k < |InitialActivities| ==>
              && StoredName(InitialActivities[k].name)
              && |InitialActivities[k].description| >= 10
              && InitialActivities[k].maxParticipants >= 10
  {
  }

  /**
    The pairs come in blocks of two different addresses, one block per seed,
    in the seeds' order.
   */
  predicate InBlocks(seeds: seq<ActivitySeed>, pairs: seq<(string, string)>) {
    && |pairs| == 2 * |seeds|
    && forall i :: 0 <= i < |seeds| ==>
         && pairs[2 * i].1 == seeds[i].name && pairs[2 * i + 1].1 == seeds[i].name
         && pairs[2 * i].0 != pairs[2 * i + 1].0
  }

  /** The canonical enrollments come in blocks of two, in the order of the activities. */
  lemma InitialEnrollmentBlocks()
    ensures InBlocks(InitialActivities, InitialEnrollments)
  {
    InitialEnrollmentNames();
    InitialEnrollmentPairsDiffer();
  }

  lemma InitialEnrollmentNames()
    ensures |InitialEnrollments| == 2 * |InitialActivities|
    ensures forall i :: 0 <= i < |InitialActivities| ==>
              && InitialEnrollments[2 * i].1 == InitialActivities[i].name
              && InitialEnrollments[2 * i + 1].1 == InitialActivities[i].name
  {
  }

  lemma InitialEnrollmentPairsDiffer()
    ensures |InitialEnrollments| == 2 * |InitialActivities|
    ensures forall i :: 0 <= i < |InitialActivities| ==>
              InitialEnrollments[2 * i].0 != InitialEnrollments[2 * i + 1].0
  {
  }

  // ---------------------------------------------------------------------------
  // seed_initial_data

  /** `Activity(**activity_data)`: the row for a seed, created at `now`, with no participants. */
  function NewActivity(a: ActivitySeed, now: int): (r: Activity)
    ensures r.description == a.description && r.schedule == a.schedule
    ensures r.maxParticipants == a.maxParticipants && r.createdAt == Some(now)
    ensures r.participants == [] && AvailableSpots(r) == a.maxParticipants
    ensures IsFull(r) <==> a.maxParticipants <= 0
  {
    Activity(a.description, a.schedule, a.maxParticipants, Some(now), [])
  }

  /** The first loop of the seed: every seed stored under its name. */
  function InsertActivities(db: Db, seeds: seq<ActivitySeed>, now: int): (r: Db)
    ensures r.users == db.users
    ensures r.activities.Keys == db.activities.Keys + NamesOf(seeds)
    decreases |seeds|
  {
    if seeds == [] then db
    else
      var prev := InsertActivities(db, seeds[..|seeds| - 1], now);
      var a := seeds[|seeds| - 1];
      prev.(activities := prev.activities[a.name := NewActivity(a, now)])
  }

  /**
    One turn of the second loop: the user with this email, created with the
    default role when there is none, is appended to the named activity when
    that activity exists and does not list the user yet. The address is one
    `validate_email` stores as written, so the new row's key is the address.
   */
  function EnrollOne(db: Db, email: string, name: string, now: int): (r: Db)
    requires StoredEmail(email)
    ensures r.users.Keys == db.users.Keys + {email}
    ensures forall e :: e in db.users ==> r.users[e] == db.users[e]
    ensures email !in db.users ==> r.users[email] == User(email, DefaultRole, now)
    ensures r.activities.Keys == db.activities.Keys
    ensures forall n :: n in db.activities && n != name ==> r.activities[n] == db.activities[n]
    ensures name !in db.activities ==> r.activities == db.activities
    ensures name in db.activities ==> email in r.activities[name].participants
    ensures name in db.activities ==>
              r.activities[name] == (if email in db.activities[name].participants then db.activities[name]
                                     else WithParticipant(db.activities[name], email))
  {
    var users := if email in db.users then db.users else db.users[email := User(email, DefaultRole, now)];
    if name in db.activities && email !in db.activities[name].participants then
      Db(db.activities[name := WithParticipant(db.activities[name], email)], users)
    else
      Db(db.activities, users)
  }

  /** The emails of the pairs naming activity `n`, in order. */
  function EmailsFor(pairs: seq<(string, string)>, n: string): seq<string>
    decreases |pairs|
  {
    if pairs == [] then []
    else
      var last := pairs[|pairs| - 1];
      EmailsFor(pairs[..|pairs| - 1], n) + (if last.1 == n then [last.0] else [])
  }

  /**
    The second loop of the seed, over the (email, activity) pairs: no activity
    is added or removed and only participant lists change.
   */
  function EnrollAll(db: Db, pairs: seq<(string, string)>, now: int): (r: Db)
    requires forall k :: 0 <= k < |pairs| ==> StoredEmail(pairs[k].0)
    ensures r.activities.Keys == db.activities.Keys
    ensures forall n :: n in db.activities ==>
              r.activities[n] == db.activities[n].(participants := r.activities[n].participants)
    decreases |pairs|
  {
    if pairs == [] then db
    else
      var last := pairs[|pairs| - 1];
      var prev := EnrollAll(db, pairs[..|pairs| - 1], now);
      assert forall k :: 0 <= k < |pairs| - 1 ==> pairs[..|pairs| - 1][k] == pairs[k];
      EnrollOne(prev, last.0, last.1, now)
  }

  /**
    The state `seed_initial_data` leaves behind: nothing changes when any
    activity exists; otherwise the canonical activities are added, then the
    canonical enrollments.
   */
  function Seeded(db: Db, now: int): (r: Db)
    ensures db.activities != map[] ==> r == db
  {
    if db.activities != map[] then db
    else
      InitialEmailsStored();
      EnrollAll(InsertActivities(db, InitialActivities, now), InitialEnrollments, now)
  }

  /** The first loop of `seed_initial_data`: add a row for every seed. */
  method AddActivities(store: Store, seeds: seq<ActivitySeed>, now: int)
    modifies store
    ensures store.State() == InsertActivities(old(store.State()), seeds, now)
  {
    ghost var db0 := store.State();
    var i := 0;
    while i < |seeds|
      invariant 0 <= i <= |seeds|
      invariant store.State() == InsertActivities(db0, seeds[..i], now)
    {
      var a := seeds[i];
      assert seeds[..i + 1][..i] == seeds[..i];
      store.activities := store.activities[a.name := NewActivity(a, now)];
      i := i + 1;
    }
    assert seeds[..i] == seeds;
  }

  /** The second loop of `seed_initial_data`: get or create each user, then enroll it once. */
  method AddEnrollments(store: Store, pairs: seq<(string, string)>, now: int)
    requires forall k :: 0 <= k < |pairs| ==> StoredEmail(pairs[k].0)
    modifies store
    ensures store.State() == EnrollAll(old(store.State()), pairs, now)
  {
    ghost var db0 := store.State();
    var j := 0;
    while j < |pairs|
      invariant 0 <= j <= |pairs|
      invariant store.State() == EnrollAll(db0, pairs[..j], now)
    {
      var email := pairs[j].0;
      var name := pairs[j].1;
      assert pairs[..j + 1][..j] == pairs[..j];
      if email !in store.users {
        store.users := store.users[email := User(email, DefaultRole, now)];
      }
      if name in store.activities {
        var activity := store.activities[name];
        if email !in activity.participants {
          store.activities := store.activities[name := WithParticipant(activity, email)];
        }
      }
      j := j + 1;
    }
    assert pairs[..j] == pairs;
  }

  /** `seed_initial_data` on the store. */
  method SeedInitialData(store: Store, now: int)
    modifies store
    ensures store.State() == Seeded(old(store.State()), now)
    ensures old(store.Valid()) ==> store.Valid()
  {
    if store.Valid() {
      SeedKeepsInvariants(store.State(), now);
    }
    if store.activities != map[] {
      return;
    }
    AddActivities(store, InitialActivities, now);
    InitialEmailsStored();
    AddEnrollments(store, InitialEnrollments, now);
  }

  // ---------------------------------------------------------------------------
  // What seeding promises

  lemma NoDuplicatesPrefix(s: seq<string>, t: seq<string>)
    requires NoDuplicates(s + t)
    ensures NoDuplicates(s)
  {
    assert forall k :: 0 <= k < |s| ==> (s + t)[k] == s[k];
  }

  /** Appending an element that is not there yet keeps a list free of duplicates, and only then. */
  lemma NoDuplicatesAppend(s: seq<string>, x: string)
    requires NoDuplicates(s)
    ensures NoDuplicates(s + [x]) <==> x !in s
  {
    assert forall k :: 0 <= k < |s| ==> (s + [x])[k] == s[k];
    if x in s {
      var k :| 0 <= k < |s| && s[k] == x;
      assert (s + [x])[k] == (s + [x])[|s|];
    }
  }

  /** The seed changes the database exactly when it has no activity, and leaves some activity behind. */
  lemma SeedOnlyWhenEmpty(db: Db, now: int)
    ensures Seeded(db, now) == db <==> db.activities != map[]
    ensures Seeded(db, now).activities != map[]
  {
    if db.activities == map[] {
      assert InitialActivities[0].name in Seeded(db, now).activities;
    }
  }

  /** Seeding twice leaves what seeding once leaves. */
  lemma SeedIdempotent(db: Db, now: int, later: int)
    ensures Seeded(Seeded(db, now), later) == Seeded(db, now)
  {
    SeedOnlyWhenEmpty(db, now);
  }

  /** With distinct names, each seed's row is the one the first loop stored under its name. */
  lemma {:induction false} InsertActivitiesRows(db: Db, seeds: seq<ActivitySeed>, now: int)
    requires DistinctNames(seeds)
    ensures forall k :: 0 <= k < |seeds| ==>
              InsertActivities(db, seeds, now).activities[seeds[k].name] == NewActivity(seeds[k], now)
    decreases |seeds|
  {
    if seeds != [] {
      var init := seeds[..|seeds| - 1];
      assert forall k :: 0 <= k < |init| ==> init[k] == seeds[k];
      assert DistinctNames(init);
      InsertActivitiesRows(db, init, now);
      var last := seeds[|seeds| - 1];
      var prev := InsertActivities(db, init, now);
      assert InsertActivities(db, seeds, now).activities == prev.activities[last.name := NewActivity(last, now)];
      forall k | 0 <= k < |init|
        ensures InsertActivities(db, seeds, now).activities[seeds[k].name] == NewActivity(seeds[k], now)
      {
        assert seeds[k].name != last.name;
        assert prev.activities[init[k].name] == NewActivity(init[k], now);
      }
    }
  }

  lemma {:induction false} EmailsForConcat(a: seq<(string, string)>, b: seq<(string, string)>, n: string)
    ensures EmailsFor(a + b, n) == EmailsFor(a, n) + EmailsFor(b, n)
    decreases |b|
  {
    if b == [] {
      assert a + b == a;
    } else {
      var b' := b[..|b| - 1];
      assert (a + b)[..|a + b| - 1] == a + b';
      assert (a + b)[|a + b| - 1] == b[|b| - 1];
      EmailsForConcat(a, b', n);
    }
  }

  lemma {:induction false} EmailsForNone(pairs: seq<(string, string)>, n: string)
    requires forall k :: 0 <= k < |pairs| ==> pairs[k].1 != n
    ensures EmailsFor(pairs, n) == []
    decreases |pairs|
  {
    if pairs != [] {
      var init := pairs[..|pairs| - 1];
      assert forall k :: 0 <= k < |init| ==> init[k] == pairs[k];
      EmailsForNone(init, n);
    }
  }

  /** The seed whose block holds a given pair. */
  lemma BlockOf(seeds: seq<ActivitySeed>, pairs: seq<(string, string)>, i: nat) returns (h: nat)
    requires InBlocks(seeds, pairs) && i < |pairs|
    ensures h < |seeds| && (i == 2 * h || i == 2 * h + 1) && pairs[i].1 == seeds[h].name
  {
    h := i / 2;
  }

  /**
    When the pairs come in blocks of two, one block per seed in the seeds'
    order, and the names are distinct, the emails for a seed are those of
    its block.
   */
  lemma EmailsForBlock(pairs: seq<(string, string)>, seeds: seq<ActivitySeed>, k: nat)
    requires InBlocks(seeds, pairs) && k < |seeds|
    requires DistinctNames(seeds)
    ensures EmailsFor(pairs, seeds[k].name) == [pairs[2 * k].0, pairs[2 * k + 1].0]
  {
    var n := seeds[k].name;
    var before, block, after := pairs[..2 * k], pairs[2 * k..2 * k + 2], pairs[2 * k + 2..];
    assert pairs == before + block + after;
    forall i | 0 <= i < |before|
      ensures before[i].1 != n
    {
      var h := BlockOf(seeds, pairs, i);
    }
    forall i | 0 <= i < |after|
      ensures after[i].1 != n
    {
      var h := BlockOf(seeds, pairs, i + 2 * k + 2);
    }
    EmailsForNone(before, n);
    EmailsForNone(after, n);
    assert block[..1] == [pairs[2 * k]] && block[..1][..0] == [];
    assert EmailsFor(block[..1], n) == [pairs[2 * k].0];
    assert EmailsFor(block, n) == [pairs[2 * k].0, pairs[2 * k + 1].0];
    EmailsForConcat(before + block, after, n);
    EmailsForConcat(before, block, n);
  }

  /** The second loop appends to each activity the emails of its pairs, in order, when none repeats. */
  lemma {:induction false} EnrollAllParticipants(db: Db, pairs: seq<(string, string)>, now: int, n: string)
    requires forall k :: 0 <= k < |pairs| ==> StoredEmail(pairs[k].0)
    requires n in db.activities
    requires NoDuplicates(db.activities[n].participants + EmailsFor(pairs, n))
    ensures EnrollAll(db, pairs, now).activities[n].participants
         == db.activities[n].participants + EmailsFor(pairs, n)
    decreases |pairs|
  {
    if pairs != [] {
      var init := pairs[..|pairs| - 1];
      var last := pairs[|pairs| - 1];
      assert forall k :: 0 <= k < |init| ==> init[k] == pairs[k];
      var p := db.activities[n].participants;
      var tail := if last.1 == n then [last.0] else [];
      assert p + EmailsFor(pairs, n) == (p + EmailsFor(init, n)) + tail;
      NoDuplicatesPrefix(p + EmailsFor(init, n), tail);
      EnrollAllParticipants(db, init, now, n);
      if last.1 == n {
        NoDuplicatesAppend(p + EmailsFor(init, n), last.0);
      }
    }
  }

  /** The second loop never enrolls a user twice in an activity. */
  lemma {:induction false} EnrollAllNoDuplicates(db: Db, pairs: seq<(string, string)>, now: int, n: string)
    requires forall k :: 0 <= k < |pairs| ==> StoredEmail(pairs[k].0)
    requires n in db.activities && NoDuplicates(db.activities[n].participants)
    ensures NoDuplicates(EnrollAll(db, pairs, now).activities[n].participants)
    decreases |pairs|
  {
    if pairs != [] {
      var init := pairs[..|pairs| - 1];
      var last := pairs[|pairs| - 1];
      assert forall k :: 0 <= k < |init| ==> init[k] == pairs[k];
      EnrollAllNoDuplicates(db, init, now, n);
      var prev := EnrollAll(db, init, now);
      NoDuplicatesAppend(prev.activities[n].participants, last.0);
    }
  }

  /**
    What the two loops build from a database without activities, when the
    seeds have distinct names and the pairs come in blocks of two distinct
    addresses, one block per seed in the seeds' order: exactly one row per
    seed, holding the seed's fields and the two users of its block.
   */
  lemma SeedLoopsRows(db: Db, seeds: seq<ActivitySeed>, pairs: seq<(string, string)>, now: int)
    requires db.activities == map[]
    requires DistinctNames(seeds)
    requires InBlocks(seeds, pairs)
    requires forall k :: 0 <= k < |pairs| ==> StoredEmail(pairs[k].0)
    ensures EnrollAll(InsertActivities(db, seeds, now), pairs, now).activities.Keys == NamesOf(seeds)
    ensures forall k :: 0 <= k < |seeds| ==>
              EnrollAll(InsertActivities(db, seeds, now), pairs, now).activities[seeds[k].name]
                == NewActivity(seeds[k], now).(participants := [pairs[2 * k].0, pairs[2 * k + 1].0])
  {
    forall k | 0 <= k < |seeds|
      ensures EnrollAll(InsertActivities(db, seeds, now), pairs, now).activities[seeds[k].name]
                == NewActivity(seeds[k], now).(participants := [pairs[2 * k].0, pairs[2 * k + 1].0])
    {
      SeedLoopsRow(db, seeds, pairs, now, k);
    }
  }

  lemma SeedLoopsRow(db: Db, seeds: seq<ActivitySeed>, pairs: seq<(string, string)>, now: int, k: nat)
    requires db.activities == map[]
    requires DistinctNames(seeds)
    requires InBlocks(seeds, pairs) && k < |seeds|
    requires forall k :: 0 <= k < |pairs| ==> StoredEmail(pairs[k].0)
    ensures EnrollAll(InsertActivities(db, seeds, now), pairs, now).activities[seeds[k].name]
              == NewActivity(seeds[k], now).(participants := [pairs[2 * k].0, pairs[2 * k + 1].0])
  {
    var db1 := InsertActivities(db, seeds, now);
    var n := seeds[k].name;
    InsertActivitiesRows(db, seeds, now);
    assert db1.activities[n] == NewActivity(seeds[k], now);
    EmailsForBlock(pairs, seeds, k);
    EnrollAllParticipants(db1, pairs, now, n);
  }

  /**
    Seeding a database without activities stores exactly the nine canonical
    activities, each with its listed description, schedule and capacity,
    created at the seeding time, and with the two users of its pairs.
   */
  lemma SeededActivities(db: Db, now: int)
    requires db.activities == map[]
    ensures Seeded(db, now).activities.Keys == NamesOf(InitialActivities)
    ensures |Seeded(db, now).activities.Keys| == |InitialActivities| == 9
    ensures forall k :: 0 <= k < |InitialActivities| ==>
              Seeded(db, now).activities[InitialActivities[k].name]
                == NewActivity(InitialActivities[k], now).(participants :=
                     [InitialEnrollments[2 * k].0, InitialEnrollments[2 * k + 1].0])
  {
    InitialNamesDistinct();
    DistinctNamesCount(InitialActivities);
    InitialEnrollmentBlocks();
    InitialEmailsStored();
    SeedLoopsRows(db, InitialActivities, InitialEnrollments, now);
  }

  /** The addresses of a list of pairs. */
  function EmailsOf(pairs: seq<(string, string)>): set<string> {
    set k | 0 <= k < |pairs| :: pairs[k].0
  }

  /** The second loop adds a user row for exactly the addresses that had none. */
  lemma {:induction false} EnrollAllUserKeys(db: Db, pairs: seq<(string, string)>, now: int)
    requires forall k :: 0 <= k < |pairs| ==> StoredEmail(pairs[k].0)
    ensures EnrollAll(db, pairs, now).users.Keys == db.users.Keys + EmailsOf(pairs)
    decreases |pairs|
  {
    if pairs != [] {
      var init := pairs[..|pairs| - 1];
      assert forall k :: 0 <= k < |init| ==> init[k] == pairs[k];
      assert EmailsOf(pairs) == EmailsOf(init) + {pairs[|pairs| - 1].0};
      EnrollAllUserKeys(db, init, now);
    }
  }

  /**
    The second loop keeps every existing user row, and the rows it adds have
    the default role and the seeding time.
   */
  lemma {:induction false} EnrollAllUserRows(db: Db, pairs: seq<(string, string)>, now: int)
    requires forall k :: 0 <= k < |pairs| ==> StoredEmail(pairs[k].0)
    ensures db.users.Keys <= EnrollAll(db, pairs, now).users.Keys
    ensures forall e :: e in db.users ==> EnrollAll(db, pairs, now).users[e] == db.users[e]
    ensures forall e :: e in EnrollAll(db, pairs, now).users && e !in db.users ==>
              EnrollAll(db, pairs, now).users[e] == User(e, DefaultRole, now)
    decreases |pairs|
  {
    if pairs != [] {
      var init := pairs[..|pairs| - 1];
      assert forall k :: 0 <= k < |init| ==> init[k] == pairs[k];
      EnrollAllUserRows(db, init, now);
    }
  }

  /**
    Seeding keeps every existing user row; the rows it adds are exactly those
    of the canonical addresses that had none, with the default role.
   */
  lemma SeededUsers(db: Db, now: int)
    ensures Seeded(db, now).users.Keys
         == if db.activities == map[] then db.users.Keys + EmailsOf(InitialEnrollments) else db.users.Keys
    ensures forall e :: e in db.users ==> Seeded(db, now).users[e] == db.users[e]
    ensures forall e :: e in Seeded(db, now).users && e !in db.users ==>
              Seeded(db, now).users[e] == User(e, DefaultRole, now)
  {
    if db.activities == map[] {
      InitialEmailsStored();
      EnrollAllUserKeys(InsertActivities(db, InitialActivities, now), InitialEnrollments, now);
      EnrollAllUserRows(InsertActivities(db, InitialActivities, now), InitialEnrollments, now);
    }
  }

  /** The first loop keeps the constraints when every seed meets them. */
  lemma {:induction false} InsertActivitiesKeepsConsistent(db: Db, seeds: seq<ActivitySeed>, now: int)
    requires Consistent(db)
    requires forall k :: 0 <= k < |seeds| ==>
               StoredName(seeds[k].name) && |seeds[k].description| >= 10 && seeds[k].maxParticipants > 0
    ensures Consistent(InsertActivities(db, seeds, now))
    decreases |seeds|
  {
    if seeds != [] {
      var init := seeds[..|seeds| - 1];
      assert forall k :: 0 <= k < |init| ==> init[k] == seeds[k];
      InsertActivitiesKeepsConsistent(db, init, now);
      var prev := InsertActivities(db, init, now);
      var last := seeds[|seeds| - 1];
      assert ActivityRowOk(last.name, NewActivity(last, now), prev.users);
    }
  }

  /** One turn of the second loop keeps the constraints. */
  lemma EnrollOneKeepsConsistent(db: Db, email: string, name: string, now: int)
    requires Consistent(db) && StoredEmail(email)
    ensures Consistent(EnrollOne(db, email, name, now))
  {
    var r := EnrollOne(db, email, name, now);
    assert forall e :: e in r.users ==> UserRowOk(e, r.users[e]);
    if name in db.activities && email !in db.activities[name].participants {
      EnrollKeepsConsistent(db, name, email, r.users);
    } else {
      forall n | n in r.activities
        ensures ActivityRowOk(n, r.activities[n], r.users)
      {
        assert ActivityRowOk(n, db.activities[n], db.users);
      }
    }
  }

  /** The second loop keeps the constraints. */
  lemma {:induction false} EnrollAllKeepsConsistent(db: Db, pairs: seq<(string, string)>, now: int)
    requires Consistent(db)
    requires forall k :: 0 <= k < |pairs| ==> StoredEmail(pairs[k].0)
    ensures Consistent(EnrollAll(db, pairs, now))
    decreases |pairs|
  {
    if pairs != [] {
      var init := pairs[..|pairs| - 1];
      var last := pairs[|pairs| - 1];
      assert forall k :: 0 <= k < |init| ==> init[k] == pairs[k];
      EnrollAllKeepsConsistent(db, init, now);
      EnrollOneKeepsConsistent(EnrollAll(db, init, now), last.0, last.1, now);
    }
  }

  lemma SeedLoopsEach(db: Db, seeds: seq<ActivitySeed>, pairs: seq<(string, string)>, now: int)
    requires db.activities == map[]
    requires DistinctNames(seeds)
    requires InBlocks(seeds, pairs)
    requires forall k :: 0 <= k < |pairs| ==> StoredEmail(pairs[k].0)
    requires forall k :: 0 <= k < |seeds| ==> seeds[k].maxParticipants > 2
    ensures forall n :: n in EnrollAll(InsertActivities(db, seeds, now), pairs, now).activities ==>
              var a := EnrollAll(InsertActivities(db, seeds, now), pairs, now).activities[n];
              |a.participants| == 2 < a.maxParticipants && a.createdAt == Some(now)
  {
    var r := EnrollAll(InsertActivities(db, seeds, now), pairs, now);
    SeedLoopsRows(db, seeds, pairs, now);
    forall n | n in r.activities
      ensures |r.activities[n].participants| == 2 < r.activities[n].maxParticipants
      ensures r.activities[n].createdAt == Some(now)
    {
      var k := NamesOfSeed(seeds, n);
    }
  }

  /**
    After seeding a database without activities, every activity has two
    participants, below its capacity, and was created at the seeding time.
   */
  lemma SeededEach(db: Db, now: int)
    requires db.activities == map[]
    ensures forall n :: n in Seeded(db, now).activities ==>
              var a := Seeded(db, now).activities[n];
              |a.participants| == 2 < a.maxParticipants && a.createdAt == Some(now)
  {
    InitialNamesDistinct();
    InitialEnrollmentBlocks();
    InitialEmailsStored();
    InitialActivitiesValid();
    SeedLoopsEach(db, InitialActivities, InitialEnrollments, now);
  }

  /** Seeding a database without activities makes eighteen enrollments. */
  lemma SeededTotal(db: Db, now: int)
    requires db.activities == map[]
    ensures TotalEnrollments(Seeded(db, now).activities) == 18
  {
    var acts := Seeded(db, now).activities;
    SeededActivities(db, now);
    SeededEach(db, now);
    EnrollmentsUniform(acts, acts.Keys, 2);
  }

  /** Seeding keeps the constraints, and leaves no activity over capacity. */
  lemma SeedKeepsInvariants(db: Db, now: int)
    requires Consistent(db)
    ensures Consistent(Seeded(db, now))
    ensures WithinCapacity(db) ==> WithinCapacity(Seeded(db, now))
  {
    if db.activities == map[] {
      InitialActivitiesValid();
      InitialEmailsStored();
      InsertActivitiesKeepsConsistent(db, InitialActivities, now);
      EnrollAllKeepsConsistent(InsertActivities(db, InitialActivities, now), InitialEnrollments, now);
      SeededEach(db, now);
    }
  }

  // ---------------------------------------------------------------------------
  // create_backup: where the copy of the SQLite file goes

  /**
    The database URL used when the environment sets none,
    "sqlite+aiosqlite:///./mergington_activities.db", written in its three parts.
   */
  const DefaultDatabaseUrl: string := "sqlite+aiosqlite:" + "///" + "./mergington_activities.db"

  /** `url.split("///")[-1]`, less one leading "./": the file the URL names. */
  function DatabasePath(url: string): (r: string)
    ensures StartsWith(LastPiece(url, "///"), "./") ==> "./" + r == LastPiece(url, "///")
    ensures !StartsWith(LastPiece(url, "///"), "./") ==> r == LastPiece(url, "///")
  {
    var path := LastPiece(url, "///");
    if StartsWith(path, "./") then path[2..] else path
  }

  /**
    `Path(path).parent` for a path pathlib keeps as written: the prefix that
    ends with the last "/", empty when there is none (pathlib's ".").
   */
  function DirPrefix(path: string): (r: string)
    ensures |r| <= |path| && r == path[..|r|]
    ensures r == [] || r[|r| - 1] == '/'
    ensures Lacks(path[|r|..], '/')
  {
    match FindLast(path, '/')
    case None => ""
    case Some(i) => path[..i + 1]
  }

  /**
    `Path(path).name` for a path pathlib keeps as written: what follows the
    last "/"; the directory prefix and the name make up the path.
   */
  function FileName(path: string): (r: string)
    ensures DirPrefix(path) + r == path
    ensures forall k :: 0 <= k < |r| ==> r[k] != '/'
  {
    match FindLast(path, '/')
    case None => path
    case Some(i) =>
      assert path == path[..i + 1] + path[i + 1..];
      path[i + 1..]
  }

  /** Where pathlib's suffix starts: the last dot, unless it is the first or the last character. */
  function SuffixDot(name: string): (r: Option<nat>)
    ensures r.Some? ==> 0 < r.value < |name| - 1 && name[r.value] == '.'
    ensures r.Some? ==> forall k :: r.value < k < |name| ==> name[k] != '.'
  {
    match FindLast(name, '.')
    case None => None
    case Some(i) => if 0 < i < |name| - 1 then Some(i) else None
  }

  /** `Path.stem`: the name up to its suffix; empty only for the empty name. */
  function Stem(name: string): (r: string)
    ensures |r| <= |name| && r == name[..|r|]
    ensures r == [] <==> name == []
  {
    match SuffixDot(name)
    case None => name
    case Some(i) => name[..i]
  }

  /** `Path.suffix`: empty, or a dot, at least one character and no further dot, ending the name. */
  function Suffix(name: string): (r: string)
    ensures |r| <= |name| && r == name[|name| - |r|..]
    ensures r == [] || (|r| >= 2 && r[0] == '.' && Lacks(r[1..], '.'))
  {
    match SuffixDot(name)
    case None => ""
    case Some(i) => name[i..]
  }

  /** The stem followed by the suffix is the whole name. */
  lemma StemSuffix(name: string)
    ensures Stem(name) + Suffix(name) == name
  {
    match SuffixDot(name)
    case None =>
    case Some(i) => assert name == name[..i] + name[i..];
  }

  /** `f"{db_file.stem}_backup_{timestamp}{db_file.suffix}"`. */
  function BackupName(name: string, timestamp: string): (r: string)
    ensures |r| == |name| + |"_backup_"| + |timestamp|
  {
    StemSuffix(name);
    Stem(name) + "_backup_" + timestamp + Suffix(name)
  }

  /** `db_file.parent / BackupName(db_file.name, timestamp)`. */
  function BackupFile(path: string, timestamp: string): (r: string)
    ensures |r| == |path| + |"_backup_"| + |timestamp|
    ensures r[..|DirPrefix(path)|] == DirPrefix(path)
  {
    DirPrefix(path) + BackupName(FileName(path), timestamp)
  }

  /**
    The path `create_backup` copies the database to: none when the URL does
    not mention "sqlite" or when no file exists at the path the URL names.
   */
  function BackupPath(url: string, timestamp: string, fileExists: string -> bool): (r: Option<string>)
    ensures r.Some? <==> Contains(url, "sqlite") && fileExists(DatabasePath(url))
    ensures r.Some? ==> r.value == BackupFile(DatabasePath(url), timestamp)
  {
    if !Contains(url, "sqlite") then None
    else
      var path := DatabasePath(url);
      if fileExists(path) then Some(BackupFile(path, timestamp)) else None
  }

  /** The last occurrence of a character is unchanged by appending text without it. */
  lemma {:induction false} FindLastAppend(a: string, b: string, c: char)
    requires forall k :: 0 <= k < |b| ==> b[k] != c
    ensures FindLast(a + b, c) == FindLast(a, c)
    decreases |b|
  {
    if b == [] {
      assert a + b == a;
    } else {
      var b' := b[..|b| - 1];
      assert (a + b)[..|a + b| - 1] == a + b';
      FindLastAppend(a, b', c);
    }
  }

  /**
    The copy is longer than the database path, so it never overwrites the
    database file itself.
   */
  lemma BackupIsAnotherFile(path: string, timestamp: string)
    ensures |BackupFile(path, timestamp)| == |path| + |"_backup_"| + |timestamp|
    ensures BackupFile(path, timestamp) != path
  {
    StemSuffix(FileName(path));
  }

  /** Neither the stem nor the suffix holds a character the name lacks. */
  lemma LacksStemSuffix(name: string, c: char)
    requires Lacks(name, c)
    ensures Lacks(Stem(name), c) && Lacks(Suffix(name), c)
  {
    StemSuffix(name);
    assert forall k :: 0 <= k < |Stem(name)| ==> Stem(name)[k] == name[k];
    assert forall k :: 0 <= k < |Suffix(name)| ==> Suffix(name)[k] == name[|Stem(name)| + k];
  }

  /** A name without "/" put after a file's directory prefix is a file in that directory. */
  lemma InDirectory(path: string, name: string)
    requires Lacks(name, '/')
    ensures DirPrefix(DirPrefix(path) + name) == DirPrefix(path)
    ensures FileName(DirPrefix(path) + name) == name
  {
    var dir := DirPrefix(path);
    var b := dir + name;
    FindLastAppend(dir, name, '/');
    match FindLast(path, '/')
    case None =>
      assert b == name;
    case Some(i) =>
      assert FindLast(dir, '/') == Some(i);
      assert b[..i + 1] == dir;
      assert b[i + 1..] == name;
  }

  /**
    With a timestamp free of "/", the copy lands in the database file's
    directory, under the backup name.
   */
  lemma BackupInSameDirectory(path: string, timestamp: string)
    requires Lacks(timestamp, '/')
    ensures DirPrefix(BackupFile(path, timestamp)) == DirPrefix(path)
    ensures FileName(BackupFile(path, timestamp)) == BackupName(FileName(path), timestamp)
  {
    var name := FileName(path);
    LacksStemSuffix(name, '/');
    assert Lacks("_backup_", '/');
    LacksConcat(Stem(name), "_backup_", '/');
    LacksConcat(Stem(name) + "_backup_", timestamp, '/');
    LacksConcat(Stem(name) + "_backup_" + timestamp, Suffix(name), '/');
    InDirectory(path, BackupName(name, timestamp));
  }

  /** The last occurrence of a character put at the end of a string is that position. */
  lemma FindLastAtEnd(a: string, c: char)
    ensures FindLast(a + [c], c) == Some(|a|)
  {
  }

  /**
    When the database file has a suffix and the timestamp has no dot, the
    copy keeps the suffix, and its stem is the old stem with "_backup_" and
    the timestamp appended.
   */
  lemma BackupKeepsSuffix(name: string, timestamp: string)
    requires Suffix(name) != [] && Lacks(timestamp, '.')
    ensures Suffix(BackupName(name, timestamp)) == Suffix(name)
    ensures Stem(BackupName(name, timestamp)) == Stem(name) + "_backup_" + timestamp
  {
    var i := SuffixDot(name).value;
    var stem, suffix := name[..i], name[i..];
    var head := stem + "_backup_" + timestamp;
    var b := BackupName(name, timestamp);
    assert Lacks("_backup_", '.');
    assert suffix == ['.'] + suffix[1..];
    assert Lacks(suffix[1..], '.');
    assert b == (head + ['.']) + suffix[1..];
    FindLastAppend(head + ['.'], suffix[1..], '.');
    FindLastAtEnd(head, '.');
    assert SuffixDot(b) == Some(|head|);
    StemSuffixAt(b, |head|);
    assert b[..|head|] == head;
    assert b[|head|..] == suffix;
  }

  /** Once the suffix's dot is known, the stem and the suffix are the two sides of it. */
  lemma StemSuffixAt(name: string, i: nat)
    requires SuffixDot(name) == Some(i)
    ensures Stem(name) == name[..i] && Suffix(name) == name[i..]
  {
  }

  /** A string in which no two "/" are adjacent holds no "///". */
  lemma NoTripleSlash(s: string)
    requires forall k :: 0 <= k < |s| - 1 ==> s[k] != '/' || s[k + 1] != '/'
    ensures !Contains(s, "///")
  {
    forall i | 0 <= i <= |s| ensures !StartsWith(s[i..], "///") {
      if i + 3 <= |s| {
        assert s[i..][..3][0] == s[i] && s[i..][..3][1] == s[i + 1];
      }
    }
  }

  /** No occurrence of a separator starts inside a prefix that lacks its first character. */
  lemma NoOccurrenceBefore(a: string, b: string, t: string)
    requires t != [] && Lacks(a, t[0])
    ensures forall k :: 0 <= k < |a| ==> !StartsWith((a + b)[k..], t)
  {
    forall k | 0 <= k < |a| ensures !StartsWith((a + b)[k..], t) {
      assert (a + b)[k..][0] == a[k];
    }
  }

  /** A path in which no two "/" are adjacent is its own last piece. */
  lemma LastPieceWhole(path: string)
    requires forall k :: 0 <= k < |path| - 1 ==> path[k] != '/' || path[k + 1] != '/'
    ensures LastPiece(path, "///") == path
  {
    NoTripleSlash(path);
  }

  /** In a URL of the form scheme + "///" + path, with no "/" in the scheme, the piece after the last "///" is the path. */
  lemma LastPieceAfterScheme(url: string, scheme: string, path: string)
    requires url == scheme + "///" + path
    requires Lacks(scheme, '/')
    requires forall k :: 0 <= k < |path| - 1 ==> path[k] != '/' || path[k + 1] != '/'
    ensures LastPiece(url, "///") == path
  {
    var i := |scheme|;
    var tail := url[i..];
    assert tail[..3] == "///";
    assert url == scheme + tail;
    NoOccurrenceBefore(scheme, tail, "///");
    FindFirstOccurrence(url, "///", i);
    assert url[i + 3..] == path;
    LastPieceAfterFirst(url, "///", i);
    LastPieceWhole(path);
  }

  /** A URL naming "./" + file, relative to the working directory, yields the bare file name. */
  lemma DatabasePathAfterScheme(url: string, scheme: string, file: string)
    requires url == scheme + "///" + ("./" + file)
    requires Lacks(scheme, '/') && Lacks(file, '/')
    ensures DatabasePath(url) == file
  {
    var path := "./" + file;
    assert forall k :: 2 <= k < |path| ==> path[k] == file[k - 2];
    LastPieceAfterScheme(url, scheme, path);
    assert StartsWith(path, "./");
    assert path[2..] == file;
  }

  /** A name without "/" is a file in the working directory. */
  lemma BareFile(name: string)
    requires Lacks(name, '/')
    ensures DirPrefix(name) == "" && FileName(name) == name
  {
  }

  /** A stem followed by one dotted suffix splits back into the two. */
  lemma StemSuffixOf(name: string, stem: string, suffix: string)
    requires name == stem + suffix && stem != []
    requires |suffix| >= 2 && suffix[0] == '.' && Lacks(suffix[1..], '.')
    ensures Stem(name) == stem && Suffix(name) == suffix
  {
    assert name == (stem + ['.']) + suffix[1..];
    FindLastAppend(stem + ['.'], suffix[1..], '.');
    FindLastAtEnd(stem, '.');
    assert SuffixDot(name) == Some(|stem|);
    assert name[..|stem|] == stem;
    assert name[|stem|..] == suffix;
  }

  /** The copy of a file in the working directory, given its stem and suffix. */
  lemma BackupFileOfBareName(name: string, stem: string, suffix: string, timestamp: string)
    requires Lacks(name, '/') && Stem(name) == stem && Suffix(name) == suffix
    ensures BackupFile(name, timestamp) == stem + "_backup_" + timestamp + suffix
  {
    BareFile(name);
    assert BackupFile(name, timestamp) == "" + BackupName(name, timestamp);
  }

  /** The default URL selects the SQLite driver. */
  lemma DefaultUrlIsSqlite(url: string)
    requires url == DefaultDatabaseUrl
    ensures Contains(url, "sqlite")
  {
    assert StartsWith(url[0..], "sqlite");
  }

  /** The default URL names the file "mergington_activities.db" in the working directory. */
  lemma DefaultDatabasePath(url: string)
    requires url == DefaultDatabaseUrl
    ensures DatabasePath(url) == "mergington_activities.db"
  {
    assert "./mergington_activities.db" == "./" + "mergington_activities.db";
    DatabasePathAfterScheme(url, "sqlite+aiosqlite:", "mergington_activities.db");
  }

  /** The copy of the default database file is "mergington_activities_backup_<timestamp>.db", beside it. */
  lemma DefaultBackupFile(timestamp: string)
    ensures BackupFile("mergington_activities.db", timestamp) == "mergington_activities" + "_backup_" + timestamp + ".db"
  {
    assert "mergington_activities.db" == "mergington_activities" + ".db";
    assert Lacks("mergington_activities.db", '/') && Lacks(".db"[1..], '.');
    StemSuffixOf("mergington_activities.db", "mergington_activities", ".db");
    BackupFileOfBareName("mergington_activities.db", "mergington_activities", ".db", timestamp);
  }

  /**
    With the default URL, `create_backup` copies the database to
    "mergington_activities_backup_<timestamp>.db" when the database file
    exists, and reports no backup otherwise.
   */
  lemma DefaultBackupPath(url: string, timestamp: string, fileExists: string -> bool)
    requires url == DefaultDatabaseUrl
    ensures BackupPath(url, timestamp, fileExists)
         == if fileExists("mergington_activities.db")
            then Some("mergington_activities" + "_backup_" + timestamp + ".db")
            else None
  {
    DefaultDatabasePath(url);
    DefaultUrlIsSqlite(url);
    DefaultBackupFile(timestamp);
  }

  // ---------------------------------------------------------------------------
  // create_backup: the timestamp in the copy's name

  function Pow10(w: nat): (r: nat)
    ensures r >= 1
  {
    if w == 0 then 1 else 10 * Pow10(w - 1)
  }

  /** The decimal value of a string of digits. */
  function DecimalValue(s: string): int {
    if s == [] then 0 else 10 * DecimalValue(s[..|s| - 1]) + (s[|s| - 1] as int - '0' as int)
  }

  /** `n` in decimal, zero-padded to `width` digits (the low `width` digits when it is longer). */
  function Digits(n: nat, width: nat): (r: string)
    ensures |r| == width
    ensures forall k :: 0 <= k < |r| ==> '0' <= r[k] <= '9'
  {
    if width == 0 then "" else Digits(n / 10, width - 1) + [('0' as int + n % 10) as char]
  }

  /** A number that fits in the width reads back from its digits. */
  lemma {:induction false} DigitsValue(n: nat, width: nat)
    requires n < Pow10(width)
    ensures DecimalValue(Digits(n, width)) == n
  {
    if width > 0 {
      var r := Digits(n, width);
      assert r[..|r| - 1] == Digits(n / 10, width - 1);
      DigitsValue(n / 10, width - 1);
    }
  }

  /**
    `strftime("%Y%m%d_%H%M%S")`: the date and time fields, zero-padded, with
    an underscore between date and time.
   */
  function Timestamp(year: nat, month: nat, day: nat, hour: nat, minute: nat, second: nat): (r: string)
    ensures |r| == 15 && r[8] == '_'
    ensures forall k :: 0 <= k < 15 && k != 8 ==> '0' <= r[k] <= '9'
    ensures Lacks(r, '/') && Lacks(r, '.')
  {
    Digits(year, 4) + Digits(month, 2) + Digits(day, 2) + "_" + Digits(hour, 2) + Digits(minute, 2) + Digits(second, 2)
  }

  /** Each field reads back from its place in the timestamp. */
  lemma TimestampFields(year: nat, month: nat, day: nat, hour: nat, minute: nat, second: nat)
    requires year < 10000 && month < 100 && day < 100 && hour < 100 && minute < 100 && second < 100
    ensures var r := Timestamp(year, month, day, hour, minute, second);
            && DecimalValue(r[..4]) == year && DecimalValue(r[4..6]) == month && DecimalValue(r[6..8]) == day
            && DecimalValue(r[9..11]) == hour && DecimalValue(r[11..13]) == minute && DecimalValue(r[13..]) == second
  {
    var r := Timestamp(year, month, day, hour, minute, second);
    assert r[..4] == Digits(year, 4);
    assert r[4..6] == Digits(month, 2);
    assert r[6..8] == Digits(day, 2);
    assert r[9..11] == Digits(hour, 2);
    assert r[11..13] == Digits(minute, 2);
    assert r[13..] == Digits(second, 2);
    assert Pow10(4) == 10000 && Pow10(2) == 100;
    DigitsValue(year, 4);
    DigitsValue(month, 2);
    DigitsValue(day, 2);
    DigitsValue(hour, 2);
    DigitsValue(minute, 2);
    DigitsValue(second, 2);
  }

  /**
    A copy named with such a timestamp stays in the database file's
    directory and, when the file has a suffix, keeps that suffix.
   */
  lemma TimestampedBackup(path: string, year: nat, month: nat, day: nat, hour: nat, minute: nat, second: nat)
    ensures var ts := Timestamp(year, month, day, hour, minute, second);
            && DirPrefix(BackupFile(path, ts)) == DirPrefix(path)
            && FileName(BackupFile(path, ts)) == BackupName(FileName(path), ts)
            && (Suffix(FileName(path)) != [] ==> Suffix(BackupName(FileName(path), ts)) == Suffix(FileName(path)))
  {
    var ts := Timestamp(year, month, day, hour, minute, second);
    BackupInSameDirectory(path, ts);
    if Suffix(FileName(path)) != [] {
      BackupKeepsSuffix(FileName(path), ts);
    }
  }
}
