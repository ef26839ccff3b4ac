# Mergington High School activities: a Dafny model

This project models the core of the Mergington High School activities system in Dafny. The system is a small web API: students list extracurricular activities, sign up for them and unregister. A maintenance script migrates, resets and inspects the database. The model covers these parts:

- **Text** (`text.dfy`): the Python string operations the system relies on. These are `lower()`, `strip()`, `startswith()`, substring search, `split(sep)[-1]` and `rfind`.
- **Models** (`models.dfy`): the ORM entities and their field validators (email, role, capacity, name). It also has `available_spots` and `is_full`, and the constraints the tables keep.
  - Those constraints are the unique keys, the CHECK constraints and the primary key of the enrollment table.
  - `Store` is a class holding the two tables as maps. Request handlers update it in place.
- **App** (`app.dfy`): the three request handlers: the activity listing, signup and unregister.
  - Each handler is a method on the store. Its effect is stated by a function from the old database to the outcome (an HTTP status) and the new database.
- **Database** (`database.dfy`): the seed data and the seeding routine (two loops over the canonical data, run only on a database without activities).
  - It also covers the backup path `create_backup` derives: from the database URL and a `strftime` timestamp to the copy's file name.
- **Migrate** (`migrate.py` as `migrate.dfy`): `migrate` (seed, or fill in missing creation times), `reset` (confirmed wipe and reseed) and `health` (counts and fill status per activity). It also covers the command-line dispatch and its exit code.

The model replaces several inputs with parameters: the clock (`now`), the typed confirmation, whether the backup copy fails, whether the database file exists, and the timestamp. A request that fails leaves the store as it was, because the session rolls back and nothing is committed.

## Model

| member | source | states |
|---|---|---|
| Text.LowerChar | src/models.py:49 | the result is never a capital, and a character is unchanged exactly when it is not a capital |
| Text.Lower | src/models.py:49 | lower-casing keeps the length and maps each character on its own |
| Text.LowerIsLower | src/models.py:49 | a lower-cased string has no capital, and lower-casing it again changes nothing |
| Text.LowerOfLower | src/models.py:49 | a string without capitals is its own lower-cased form |
| Text.LowerChanges | src/models.py:49 | lower-casing changes a string exactly when it has a capital |
| Text.LacksConcat | src/database.py:88 | two strings without a character concatenate to one without it |
| Text.TrimLeft | src/models.py:93 | the result is a suffix, everything cut is whitespace, and the result does not start with whitespace |
| Text.TrimRight | src/models.py:93 | the result is a prefix, everything cut is whitespace, and the result does not end with whitespace |
| Text.Strip | src/models.py:93-95 | the result is a slice of the input; everything cut from either end is whitespace; the result has no whitespace at either end |
| Text.StripStripped | src/models.py:95 | stripping a string with no whitespace at its ends changes nothing |
| Text.FindFrom | src/database.py:80 | the first occurrence at or after a position, with none between that position and it; none exactly when there is no occurrence from the position on |
| Text.Find | src/database.py:80 | the first occurrence, with none before it; none exactly when the text does not contain the separator |
| Text.LastPiece | src/database.py:80 | `split(sep)[-1]` is a suffix of the input that holds no separator, and is the whole input when it has no separator |
| Text.FindLast | src/database.py:84-88 | the last position of a character with none after it; none exactly when the character does not occur |
| Text.FindFirstOccurrence | src/database.py:80 | an occurrence with none before it is the one the search reports |
| Text.LastPieceAfterFirst | src/database.py:80 | the last piece of a string is the last piece of what follows its first separator |
| Models.FindAt | src/models.py:47 | the first `@`, with no `@` before it; none exactly when there is no `@` |
| Models.FindAtFirst | src/models.py:47 | an `@` with none before it is the first one |
| Models.EmailShapeOkIffPattern | src/models.py:47 | the executable check accepts exactly the strings the pattern `^[^@]+@[^@]+\.[^@]+$` matches |
| Models.ValidateEmail | src/models.py:44-49 | accepts exactly the strings matching the pattern and returns them lower-cased; anything else is an invalid-format error |
| Models.LowerKeepsNoAt | src/models.py:47-49 | lower-casing neither adds nor removes an `@` |
| Models.PatternFollowsSeparators | src/models.py:47 | whether the pattern matches depends only on where the `@` and `.` characters are |
| Models.LowerKeepsEmailPattern | src/models.py:47-49 | an address matches the pattern exactly when its lower-cased form does |
| Models.ValidateEmailIdempotent | src/models.py:44-49 | validating a stored address again gives the same address |
| Models.ValidateRole | src/models.py:51-57 | accepts exactly student, teacher and admin, unchanged; the default role "student" passes |
| Models.ValidateMaxParticipants | src/models.py:83-88 | accepts exactly the positive capacities, unchanged |
| Models.ValidateName | src/models.py:90-95 | accepts exactly the names whose stripped form has at least three characters; it stores that stripped form |
| Models.ValidateNameIdempotent | src/models.py:90-95 | validating a stored name again gives the same name |
| Models.AvailableSpots | src/models.py:97-100 | spots plus participants equal the capacity; the spots equal the capacity exactly when nobody is enrolled |
| Models.IsFull | src/models.py:102-105 | full exactly when the spots left are zero or fewer, so an activity over capacity is full |
| Models.StoredEmailIffValidated | src/models.py:44-49 | the emails a user row holds are exactly the fixed points of `validate_email` |
| Models.StoredNameIffValidated | src/models.py:90-95 | the names an activity row holds are exactly the fixed points of `validate_name` |
| Models.EnrollKeepsConsistent | src/models.py:14-20 | appending an existing user who is not yet a participant keeps every table constraint, including the (activity, user) primary key |
| Models.Consistent | src/models.py:14-39 | the tables' constraints: unique emails, the CHECK constraints on role, email, capacity, name and description, and an enrollment primary key; every participant is a stored user |
| Models.WithParticipant | src/app.py:126 | appending a participant keeps every other field, adds the user at the end of the list and takes one spot |
| Models.EnrollmentsInSplit | migrate.py:116 | any activity's participant count can be taken out of the enrollment sum first |
| Models.EnrollmentsInSameCounts | migrate.py:116 | the enrollment sum depends only on the participant counts |
| Models.EnrollmentsAfterUpdate | migrate.py:116 | replacing one activity changes the total by the change in its participant count |
| Models.EnrollmentsUniform | migrate.py:116 | when every activity has c participants, the total is c times the number of activities |
| Models.Store.constructor | src/database.py:48-56 | a freshly created database has both tables empty and meets every constraint |
| App.StatusCode | src/app.py:99-148 | 200 exactly for success, 404 exactly for a missing activity, 500 exactly for an email that fails validation, 400 for every other refusal |
| App.GetActivities | src/app.py:55-77 | one entry per activity, showing its description, schedule, capacity, participant emails, spots left and whether it is full |
| App.View | src/app.py:68-75 | the listing entry copies description, schedule, capacity and participants; spots left plus participants equal the capacity, and the entry is full exactly when no spot is left |
| App.ResolveUser | src/app.py:109-116 | the user is found by the email exactly as given; otherwise a row is created under the lower-cased email; the lookup fails on an invalid email or on a clash with an existing lower-cased email |
| App.Signup | src/app.py:86-130 | checks in this order: the activity exists, it is not full, the user is found or created, the user is not yet a participant. The outcome is one of success, not found, full, invalid email, integrity violation and already signed up; "already signed up" happens exactly when the activity exists and is open and the resolved user is already a participant. On success the user is appended and the activity stays within capacity. Every refusal leaves the database unchanged |
| App.SignupForActivity | src/app.py:86-148 | the handler on the store returns the outcome and leaves the state that `Signup` gives; a store meeting the table constraints and the capacity bound still meets them |
| App.IndexOf | src/app.py:178 | the first position of the element, with no occurrence before it |
| App.RemoveFirst | src/app.py:178 | `list.remove` makes the list one shorter |
| App.RemoveFirstAppended | src/app.py:126-178 | removing an element just appended (and absent before) gives back the original list |
| App.RemoveFirstIndex | src/app.py:178 | elements before the first occurrence keep their place; later ones move one place down |
| App.RemoveFirstNoDuplicates | src/app.py:178 | in a list without duplicates, removal keeps it duplicate-free and takes out exactly that element |
| App.Unregister | src/app.py:151-182 | succeeds exactly when the activity exists, the user row exists and is a participant; then only that activity's participants change, losing the first occurrence of the user; refusals change nothing |
| App.UnregisterFromActivity | src/app.py:151-193 | the handler on the store returns the outcome and leaves the state that `Unregister` gives; a store meeting the table constraints and the capacity bound still meets them |
| App.SignupKeepsInvariants | src/app.py:109-127 | a signup keeps every table constraint and never takes an activity over capacity |
| App.SignupAlreadySignedUpIff | src/app.py:118-123 | when the tables are consistent, "already signed up" happens exactly when the activity exists and is not full and the user row with that email exists and is a participant |
| App.SignupAddsOneEnrollment | src/app.py:126 | a successful signup adds exactly one enrollment |
| App.SignupThenUnregister | src/app.py:126-178 | when the email names an existing user or has no capitals, unregistering right after a successful signup restores every activity; a user row the signup created stays |
| App.SignupTwice | src/app.py:103-123 | when the email names an existing user or has no capitals, signing it up again after a success is refused (full, or already signed up) and changes nothing |
| App.SignupWithCapitals | src/app.py:110-116 | after a successful signup with a capitalised new email, that email finds no user: unregistering it reports "not signed up", and signing it up again fails on the unique email (or because the activity is full) |
| App.UnregisterKeepsInvariants | src/app.py:171-178 | an unregister keeps every table constraint and the capacity bound |
| App.UnregisterRemovesOneEnrollment | src/app.py:178 | a successful unregister removes exactly one enrollment, and the user is no longer a participant |
| App.SignupNewcomer | src/app.py:109-127 | a stored address that is not yet a participant of an open activity signs up successfully and is appended |
| Database.NamesOf | src/database.py:176-178 | every seed's name is among the names |
| Database.NamesOfSeed | src/database.py:176-178 | every name comes from some seed |
| Database.NamesOfOnly | src/database.py:176-178 | a name no seed carries is not among the names |
| Database.DistinctNamesCount | src/database.py:118-178 | with distinct names there are as many names as seeds |
| Database.SchoolAddressStored | src/database.py:181-200 | a lower-case address at mergington.edu passes `validate_email` unchanged |
| Database.SchoolAddressOf | src/database.py:181-200 | a lower-case local part followed by "@mergington.edu" is such an address |
| Database.InitialAddressesOfSchool | src/database.py:181-200 | every canonical address is a lower-case address at mergington.edu |
| Database.InitialEmailsStored | src/database.py:181-200 | every canonical address passes `validate_email` unchanged |
| Database.InitialNamesDistinct | src/database.py:118-173 | the nine canonical activities have distinct names |
| Database.InitialActivitiesValid | src/database.py:118-173 | every canonical activity passes the name validator unchanged, has a description of at least ten characters and a capacity of at least ten |
| Database.InitialEnrollmentBlocks | src/database.py:181-200 | the canonical enrollments come in blocks of two distinct addresses, one block per activity, in the activities' order |
| Database.InitialEnrollmentNames | src/database.py:181-200 | enrollments 2i and 2i+1 name activity i |
| Database.InitialEnrollmentPairsDiffer | src/database.py:181-200 | the two addresses of each block differ |
| Database.InsertActivities | src/database.py:176-178 | the first loop adds exactly the seeds' names as activities and leaves the users alone |
| Database.NewActivity | src/database.py:176-178 | a new activity row copies the seed's fields, has the seeding time, no participants and all its places free; it is full exactly when the capacity is not positive |
| Database.EnrollOne | src/database.py:205-230 | one pass of the second loop. It creates the user row (default role) when missing. When the activity exists, its participants stay as they were if the user is already among them, and otherwise gain the user at the end. No other activity changes |
| Database.EnrollAll | src/database.py:205-230 | the second loop changes no activity's fields except its participants, and adds or removes no activity |
| Database.AddActivities | src/database.py:176-178 | the loop over the seeds leaves the state `InsertActivities` describes |
| Database.AddEnrollments | src/database.py:205-230 | the loop over the pairs leaves the state `EnrollAll` describes |
| Database.SeedInitialData | src/database.py:104-232 | `seed_initial_data` leaves the state `Seeded` describes: unchanged when activities exist, both loops otherwise; the table constraints and the capacity bound are kept |
| Database.Seeded | src/database.py:104-232 | a database that already has activities is left as it is |
| Database.NoDuplicatesPrefix | src/database.py:220-230 | a prefix of a duplicate-free list is duplicate-free |
| Database.NoDuplicatesAppend | src/database.py:220-230 | appending keeps a list duplicate-free exactly when the element is new |
| Database.SeedOnlyWhenEmpty | src/database.py:110-115 | seeding changes the database exactly when it has no activities, and afterwards it has some |
| Database.SeedIdempotent | src/database.py:110-115 | seeding a second time, at any time, changes nothing |
| Database.InsertActivitiesRows | src/database.py:176-178 | with distinct names, each seed is stored under its name with its fields, the seeding time and no participants |
| Database.EmailsForConcat | src/database.py:205-230 | the addresses enrolled in an activity by two runs of pairs are those of the first run followed by those of the second |
| Database.EmailsForNone | src/database.py:205-230 | pairs that never name an activity enroll nobody in it |
| Database.BlockOf | src/database.py:181-200 | each pair lies in the block of the activity it names |
| Database.EmailsForBlock | src/database.py:181-230 | with blocks and distinct names, the addresses enrolled in an activity are exactly the two of its block |
| Database.EnrollAllParticipants | src/database.py:219-230 | when no address repeats, the second loop appends to each activity the addresses of its pairs, in order |
| Database.EnrollAllNoDuplicates | src/database.py:219-230 | the duplicate check keeps every participant list duplicate-free |
| Database.SeedLoopsRow | src/database.py:176-230 | on an empty table, the activity of block k ends up with its seed's fields, the seeding time and the two addresses of its block |
| Database.SeedLoopsRows | src/database.py:176-230 | on an empty table, the activities are exactly the seeds, each with its seed's fields, the seeding time and the two addresses of its block |
| Database.SeededActivities | src/database.py:118-230 | after seeding a database without activities, there are exactly the nine canonical activities, each with its canonical fields and its two canonical participants |
| Database.EnrollAllUserKeys | src/database.py:205-213 | the second loop adds user rows for exactly the addresses in the pairs |
| Database.EnrollAllUserRows | src/database.py:205-213 | existing user rows are kept; every new row has its address as key, the default role and the seeding time |
| Database.SeededUsers | src/database.py:205-213 | seeding adds a default-role user row for each canonical address that had none and keeps every existing row |
| Database.InsertActivitiesKeepsConsistent | src/database.py:176-178 | inserting valid seeds keeps every table constraint |
| Database.EnrollOneKeepsConsistent | src/database.py:205-230 | one enrollment step keeps every table constraint |
| Database.EnrollAllKeepsConsistent | src/database.py:205-230 | the second loop keeps every table constraint |
| Database.SeedLoopsEach | src/database.py:176-230 | on an empty table, every seeded activity has two participants, below its capacity, and the seeding time |
| Database.SeededEach | src/database.py:118-230 | after seeding a database without activities, every activity has two participants, below its capacity, and was created at the seeding time |
| Database.SeededTotal | src/database.py:181-230 | seeding a database without activities makes eighteen enrollments |
| Database.SeedKeepsInvariants | src/database.py:104-232 | seeding keeps every table constraint and the capacity bound |
| Database.DatabasePath | src/database.py:80-82 | the file path is the last piece after "///", with one leading "./" removed |
| Database.FileName | src/database.py:84-88 | the directory prefix followed by the file name is the path, and the name has no "/" |
| Database.DirPrefix | src/database.py:88 | the directory part is a prefix of the path, empty or ending in "/", and the rest of the path has no "/" |
| Database.SuffixDot | src/database.py:88 | the suffix starts at the last dot, which is neither the first nor the last character of the name |
| Database.StemSuffix | src/database.py:88 | the stem followed by the suffix is the whole name |
| Database.Stem | src/database.py:88 | the stem is a prefix of the name, empty only for the empty name |
| Database.Suffix | src/database.py:88 | the suffix ends the name; it is empty or a dot followed by at least one character and no further dot |
| Database.StemSuffixAt | src/database.py:88 | with the last dot at i, the stem is the name up to i and the suffix is the rest |
| Database.BackupName | src/database.py:88 | the backup name is as long as the name, "_backup_" and the timestamp together |
| Database.BackupFile | src/database.py:88 | the copy keeps the directory prefix and is as long as the path, "_backup_" and the timestamp together |
| Database.BackupPath | src/database.py:75-98 | a backup path exists exactly when the URL mentions "sqlite" and the file it names exists; it is that file's timestamped copy |
| Database.FindLastAppend | src/database.py:88 | appending text without a character leaves that character's last position unchanged |
| Database.BackupIsAnotherFile | src/database.py:88-90 | the copy's path is longer than the database path by "_backup_" and the timestamp, so it never overwrites the database file |
| Database.LacksStemSuffix | src/database.py:88 | neither stem nor suffix holds a character the name lacks |
| Database.InDirectory | src/database.py:88 | a name without "/" put after a directory prefix is a file named so in that directory |
| Database.BackupInSameDirectory | src/database.py:88 | with a timestamp free of "/", the copy lands in the database file's directory, under the backup name |
| Database.FindLastAtEnd | src/database.py:88 | a character put at the end is its own last occurrence |
| Database.BackupKeepsSuffix | src/database.py:88 | with a suffix present and a timestamp free of dots, the copy keeps the suffix; its stem is the old stem, "_backup_" and the timestamp |
| Database.NoTripleSlash | src/database.py:80 | a string without two adjacent "/" holds no "///" |
| Database.NoOccurrenceBefore | src/database.py:80 | no separator occurrence starts inside a prefix lacking its first character |
| Database.LastPieceWhole | src/database.py:80 | a path without two adjacent "/" is its own last piece |
| Database.LastPieceAfterScheme | src/database.py:80 | for a URL of the form scheme, "///", path, with no "/" in the scheme, the last piece is the path |
| Database.DatabasePathAfterScheme | src/database.py:80-82 | a URL naming "./" followed by a file yields that file name |
| Database.BareFile | src/database.py:84-88 | a name without "/" has an empty directory prefix and is its own file name |
| Database.StemSuffixOf | src/database.py:88 | a non-empty stem followed by one dotted suffix splits back into that stem and suffix |
| Database.BackupFileOfBareName | src/database.py:88 | the copy of a file in the working directory is its stem, "_backup_", the timestamp and its suffix |
| Database.DefaultUrlIsSqlite | src/database.py:20 | the default URL selects SQLite |
| Database.DefaultDatabasePath | src/database.py:20 | the default URL names "mergington_activities.db" in the working directory |
| Database.DefaultBackupFile | src/database.py:88 | the copy of "mergington_activities.db" is "mergington_activities_backup_" + timestamp + ".db" |
| Database.DefaultBackupPath | src/database.py:75-98 | with the default URL, the backup is "mergington_activities_backup_" + timestamp + ".db" when the database file exists, and none otherwise |
| Database.Digits | src/database.py:87 | a zero-padded field has exactly its width, all decimal digits |
| Database.DigitsValue | src/database.py:87 | a number that fits the width reads back from its digits |
| Database.Timestamp | src/database.py:87 | `%Y%m%d_%H%M%S` is fifteen characters, all digits except the underscore at position 8; it holds no "/" and no "." |
| Database.TimestampFields | src/database.py:87 | each of the six fields reads back from its place in the timestamp |
| Database.TimestampedBackup | src/database.py:87-88 | a copy named with such a timestamp stays in the database file's directory under the backup name, and keeps the file's suffix |
| Migrate.HealedChangesOnlyMissing | migrate.py:50-57 | every activity ends with a creation time. A time is set to now exactly where it was missing, and nothing else changes. Healing is a no-op exactly when no time is missing |
| Migrate.Heal | migrate.py:55-56 | an activity ends with a creation time; a missing one becomes now, a present one is kept, and no other field changes |
| Migrate.Healed | migrate.py:50-57 | filling in creation times keeps the users and the activity names and leaves every activity with a creation time |
| Migrate.Migrated | migrate.py:36-57 | after a migration every activity has a creation time; a database that had activities keeps exactly their names |
| Migrate.FillMissingTimes | migrate.py:50-57 | the loop over the activities without a creation time leaves the state `Healed` describes |
| Migrate.HealedKeepsInvariants | migrate.py:50-57 | healing keeps every table constraint, the capacity bound and the enrollment total |
| Migrate.MigrateIdempotent | migrate.py:36-57 | a second migration, at any later time, changes nothing |
| Migrate.MigrateKeepsInvariants | migrate.py:36-57 | a migration keeps every table constraint and the capacity bound |
| Migrate.MigrateDatabase | migrate.py:20-64 | a failed backup returns False with nothing changed. Otherwise it seeds a database without activities, or fills in the missing creation times, and returns True; the table constraints and the capacity bound are kept |
| Migrate.ResetDatabase | migrate.py:67-96 | only the exact confirmation "RESET" with a working backup proceeds; the database is then the seed of an empty one; otherwise nothing changes and it returns False; after a reset, and whenever they held before, the table constraints and the capacity bound hold |
| Migrate.ResetKeepsInvariants | migrate.py:82-89 | a reset database meets every table constraint and the capacity bound |
| Migrate.Status | migrate.py:126-127 | "FULL" exactly when the spots left are exactly zero; otherwise the spots left, which are negative over capacity |
| Migrate.StatusVersusIsFull | migrate.py:126-127 | "FULL" implies `is_full`; the two disagree exactly on activities over capacity |
| Migrate.StatusAgreesWithinCapacity | migrate.py:126-127 | under the capacity bound the report's status and `is_full` agree |
| Migrate.CheckDatabaseHealth | migrate.py:99-134 | the report counts activities and users, sums all participant counts, and gives each activity's count, capacity and status; nothing changes |
| Migrate.HealthAfterReset | migrate.py:105-128 | on a freshly reset database, the report shows nine activities, eighteen enrollments, and no activity full |
| Migrate.ParseArgs | migrate.py:138-155 | fewer than two arguments give the usage text; otherwise the lower-cased second argument picks migrate, reset or health, or is reported as unknown |
| Migrate.ParseArgsIgnoresCase | migrate.py:145 | lower-casing the command first changes nothing |
| Migrate.ExitCode | migrate.py:157 | exit code 0 exactly on success, 1 otherwise |
| Migrate.RunCommandLine | migrate.py:137-157 | exit code 0 exactly when a known command ran and succeeded; the usage text and an unknown command exit with 1 and change nothing; migrate and reset leave the states their operations describe; the table constraints and the capacity bound are kept |

## Left out

- Web framework plumbing is not modelled: the root redirect, static file mounting, dependency injection of sessions (`get_db`) and logging. Each handler is a method on one `Store`, which plays the committed session.
- The `startup_event` handler (create tables, then seed, swallowing errors) is only its two parts: `Models.Store.constructor` and `Database.SeedInitialData`.
- The `/admin/backup` endpoint and the file copy itself are not modelled. The model covers the path the copy goes to (`Database.BackupPath`); the filesystem is the `fileExists` parameter, and the copy succeeds or fails as the `backupFails` parameter of the migrate and reset operations says.
- The `/health` endpoint only runs a query and reports "connected". It has no state to model.
- Database errors raised by the driver (`SQLAlchemyError`, lost connections, locking) are not modelled. The one integrity error the handlers can meet, a clash on the unique email, is modelled as the `IntegrityViolation` outcome.
- Columns nothing in the core sets are left out: user name, grade and student id, the activity creator, and the enrollment time.
- Concurrency between requests is not modelled: every request runs alone, start to finish.
- `Text.Lower`: only the ASCII capitals are lower-cased; other Unicode case mappings are not modelled.
- `App.Signup`: the new user row is created and flushed before the "already signed up" check. Only the `IntegrityViolation` case is visible in the model; in it the flush fails and the session rolls back.
- `Migrate.MigrateDatabase`: `init_database` (creating missing tables) is a no-op on the model, whose two tables always exist. Every missing creation time gets the same instant `now`, while the source reads the clock once per activity.
- `Migrate.CheckDatabaseHealth`: the printed report is returned as a value and nothing is printed. Listing order and message texts are not modelled.
- `Migrate.RunCommandLine`: the health command always succeeds, since the model has no database errors.
- `Database.BackupPath`: pathlib's normalisation is not modelled. Repeated "/", "." segments and a trailing "/" are kept as written: for `data//x.db` pathlib gives `data/x_backup_T.db` where the model gives `data//x_backup_T.db`, and for `dir/` pathlib gives `dir_backup_T` where the model gives `dir/_backup_T`. The default URL's path has none of these, so its backup path is exact.
- `Database.FileName`: for a path with a trailing "/" or a lone ".", pathlib's `name` differs from the model's (for "." pathlib gives the empty name, the model "."); `Database.DirPrefix` likewise keeps such paths as written.
- `App.GetActivities`: the participants relationship has no `order_by` and is loaded with `selectinload`, so the database may list participants in any order; the model keeps one possible order, the order of appending.
- `Database.Timestamp`: every field is zero-padded to its width; how `%Y` prints years below 1000 varies by platform and is not modelled.
- The model follows these behaviours of the code:
  - a failed backup makes migrate and reset return False before anything changes, because `create_backup` re-raises;
  - `is_full` also holds above capacity (`>=`);
  - an email that fails validation in a signup ends in status 500 (an uncaught `ValueError`), not 400.
