# Verified models of hausv-org

hausv-org administers houses and flats for several tenants. This project models five parts of it in
Dafny and proves what they promise. `dafny verify dfyconfig.toml` checks everything.

**Tenant lanes** (`internal/db/scoped.go`, `pool_budget.go`, `postgres.go`). Every tenant works through a
connection pool of its own, a lane, whose connections are born with the tenant's scope. Lanes are leased,
evicted least recently used first, retired in the background and closed. `LaneSections` describes each
critical section of the mutex as a function of the guarded state; `LanePool` is the object itself, with
lanes, loops and parameter maps updated in place, and each of its methods is proved to do what the section
says. `LaneProtocol` lets any number of callers, retiring goroutines and calls of Close interleave, with
connections opening and closing on their own; `LaneSteps` proves that every step keeps one invariant,
`LaneRuns` draws the conclusions for whole runs, `LaneUses` tells the use order from the run's own leases, and
`LaneService` shows that no reachable state is a dead end for a caller. `Scopes` covers keys, fresh parameter
maps and defaults, `PoolBudget` the connection plan.

**Data mover** (`internal/dbmove/dbmove.go`). One transaction copies every SQLite table into PostgreSQL,
compares an order-independent content hash of both sides and commits only if all agree. The target engine
is not trusted: after any INSERT or DELETE the working tables may hold anything and any statement may fail.
A parameter names the engines that do neither, and for those the runs are proved to succeed. `Canonical`
proves the hashed row texts injective, `ByteOrder` and `TableHash` that equal hashes mean equal multisets of
rows, `CopyTable` that the batches submit exactly the converted rows, `MovePlan` when two catalogs can be
moved between, and `Move` that the target ends untouched or complete.

**Migrations** (`internal/db/migrations.go`). `Migrations` is one run over its ledger, with a fault possible
at every statement, unless the database is declared reliable, and a commit that may be durable although it
reports an error; `MigrationRuns` is any number of runners and older binaries on one database, crashing at
any point.

**Quarter-hour energy** (`internal/energy`). `Coverage` measures how much of a quarter the samples vouch
for, `PowerIntervals` integrates a power series, `EnergyIntervals` interpolates a cumulative meter, and
`Quarters` decides what is published. Time is whole nanoseconds; kW and kWh are exact reals.

**Rent indexation** (`internal/indexation`). `Rounding`, `DecimalText` and `Calendar` are the arithmetic,
`Dataset` the published indices, `Evaluate`, `JumpRules`, `Replay` and `Strictness` the clause engine, with and without
a reference month, `Witnesses` the inputs at which its promises end, `Staffel` step rents, `Statutory` and
`MieWeG` the statutory parallel curve, `Timing` notices and due dates. Rational numbers are exact reals; every
int64 computation carries the obligation not to wrap.

Some promises hold only up to a condition, and there the exact condition is proved:

- `PoolBudget`: the startup check compares a product that Go computes modulo 2^64, so it accepts some plans
  no server can serve; an accepted plan really fits if and only if its peak is a 64-bit number.
- `Replay` and `MieWeG`: an exact amount is handed on as text of at most 2048 characters; longer state is
  refused by the next call, and that is the only reason besides a zero amount. `Witnesses` holds an accepted
  evaluation of each kind whose clause is refused.
- `Strictness`: an easier threshold or minimum never delays a jump, unless an amount on the way is no 64-bit
  number, as in `LooserCanOverflow`.
- `Timing`: months are texts of the years 1 to 9999. Past the last due date of year 9999 the month search
  falls back to year 1. Due dates are earliest if and only if the effective date, or receipt plus 14 days
  where notice is required, is not after the last due date of December 9999; `LateScheduleWraps` is an input past it.
- `MieWeG`: an increase can end below the current rent, exactly when the ceiling or the section 16 MRG
  maximum does; `IncreaseCanEndLower` is such an input.
- `TableHash` and `Move`: equality of hashes proves equality of rows unless SHA-256 collides on texts of the
  run itself; nothing is assumed about other texts, and where row texts do collide it is fooled. Equal rows
  have equal hashes without any assumption.
- `MigrationRuns`: an older binary may record a file while a newer runner holds the lock; the primary key
  then fails that runner, and still nothing takes effect twice. This happens if and only if the file is recorded
  while the runner is applying, and `OldBinaryOvertakes` is such a run.

Assumptions about the surroundings: a mutex section is one atomic step; a pool without leases opens no
connection, and a closed pool only gives connections back; a transaction is atomic; sort.Slice returns some
sorted arrangement, not a stable one; an int64 is converted to some fixed float64, and a float64 is known by
the shortest text that reads back as it.

## Model

| member | source | states |
|---|---|---|
| LaneRuns.NoStuckWaiter | internal/db/scoped.go:184-240 | in every reachable state a caller blocked in `acquire` can wake (its channel is closed, its context is done or the retry timer is armed), or some caller holds a lane whose release wakes it, or some goroutine retires a lane and wakes it within its own two steps |
| LaneService.CallerCanBeServed | internal/db/scoped.go:184-240 | from every reachable state of an open factory every uncancelled caller, about to try or blocked, can be brought to hold the mapped, open lane of its key by releases, connections moving, retirements finishing and its own wakeups and tries alone |
| LaneService.NewcomerCanBeServed | internal/db/scoped.go:184-240 | whoever comes to the open factory, in whatever reachable state and with whatever key, can be served in the same way |
| LaneService.CallerCanGiveUp | internal/db/scoped.go:184-239 | from every reachable state a caller of `acquire` can be cancelled and by its own steps alone is then out again, the factory as it was |
| LaneService.FactoryStarts | internal/db/scoped.go:73-90 | every plan with room for a lane is an open state that runs start from |
| LaneService.MakesRoom | internal/db/scoped.go:202-260 | a full map can always make room for the caller: its least recently used lane is emptied unless it retires already, marked by the caller's own try, and removed |
| LaneRuns.NoLostWakeup | internal/db/scoped.go:225-239 | once a notification follows the moment a caller captured its channel, that caller can wake up at every later state until it does, whatever else happens in between |
| LaneRuns.WakesForACause | internal/db/scoped.go:225-239 | between the try that blocked a caller and its wakeup there is a notification, unless the caller is cancelled or waits with the retry timer |
| LaneRuns.LeaseSafety | internal/db/scoped.go:195-217 | until Close is called every held lane is in the map under its own key, not retiring, its pool open; every lease count equals the number of holders, so it is never negative |
| LaneRuns.CallersGetTheirLane | internal/db/scoped.go:184-217 | a caller only ever gets a lane of the key it asked for, and that lane keeps the key for good |
| LaneRuns.RetiredOnce | internal/db/scoped.go:262-276 | `retire` deletes exactly the lane object it closed, and closes its `retired` channel at most once on any run |
| LaneRuns.OrderListsKeys | internal/db/scoped.go:502-510 | through any interleaving `order` is a duplicate-free permutation of the map's keys, sorted by the stamps of use |
| LaneUses.LaterLeaseStandsLater | internal/db/scoped.go:195-200 | over every run, of two mapped keys the one whose latest leasing pass of `acquire` is later stands later in the use order, a repeat lease counting like a first one |
| LaneUses.VictimWasLeasedFirst | internal/db/scoped.go:245-260 | the lane a caller starts to retire was last leased, in the run itself, before every other lane that could have given way |
| LaneRuns.ClosedForGood | internal/db/scoped.go:478-499 | after Close has returned the map is empty in every later state and every attempt to acquire fails |
| LaneRuns.NoStuckClose | internal/db/scoped.go:478-499 | from every reachable state in which Close has been called, after its own section the retiring goroutines alone bring it to return |
| LaneRuns.CapacityKept | internal/db/scoped.go:195-217 | lanes present, retiring ones included, never exceed `laneCap`, and the sockets of all lanes ever created never exceed cap times connections per lane |
| LaneRuns.BudgetKept | internal/db/pool_budget.go:31-50 | a plan accepted at startup whose peak is a 64-bit number is never exceeded: lanes plus process pool stay at most at Peak and strictly below the usable connections, on every run |
| LaneRuns.RunInv | internal/db/scoped.go:73-90 | the invariant behind these results holds in every state of every run |
| LaneRuns.NextInv | internal/db/scoped.go:184-310 | each step of a caller, a retiring goroutine, Close or the connections themselves keeps that invariant |
| LaneSteps.TryInv | internal/db/scoped.go:184-240 | one pass of `acquire` through the mutex keeps the invariant in each of its outcomes |
| LaneSteps.FullMapNotifies | internal/db/scoped.go:202-224 | when the map is full, nothing can be evicted and no cleanup is pending, some lane is leased or retiring and will notify |
| LaneSteps.RemoveTakesItsLane | internal/db/scoped.go:262-276 | the key under which a lane retires still leads to that very lane |
| LaneSteps.RemoveInv | internal/db/scoped.go:262-276 | removing a retired lane keeps the invariant |
| LaneSteps.CloseScopeInv | internal/db/scoped.go:478-491 | the mutex section of Close keeps the invariant although it retires leased lanes |
| LaneSteps.ReleaseInv | internal/db/scoped.go:300-311 | releasing a lease keeps the invariant |
| LaneSections.VictimIsFirst | internal/db/scoped.go:245-260 | the eviction scan finds the first lane in use order that is neither retiring nor leased nor in use, none exactly when there is none, and reports no cleanup only when every lane it passed over is retiring or leased |
| LaneSections.VictimIsLeastRecentlyUsed | internal/db/scoped.go:245-260 | the evicted lane carries an older stamp of use than every other lane that could have been evicted |
| LaneSections.TouchKeepsOrder | internal/db/scoped.go:502-510 | touching a key moves it to the end and keeps the order by last use |
| LaneSections.LeasingIsUsing | internal/db/scoped.go:195-217 | a pass that leases puts its key at the end of the use order with the newest stamp and leaves the others in their order; a pass that does not leaves the order alone |
| LaneSections.AttemptConsistent | internal/db/scoped.go:184-224 | a pass through the mutex leaves map and use order consistent and within the cap |
| LaneSections.AttemptDecides | internal/db/scoped.go:184-260 | a caller is served exactly when its lane is mapped and not retiring or there is room; a lane is marked only when there is none; the retry timer is armed only for an unleased lane with connections in use, and whenever no lane can close and one is like that |
| LanePool.Factory.TryAcquire | internal/db/scoped.go:184-224 | does to the fields exactly what the attempt does to their value; a lane it hands out sends the tuned base plus exactly the handle's own scope entry, and its key then stands last in the use order, the others as before |
| LanePool.Factory.EvictForRoom | internal/db/scoped.go:245-260 | the loop marks the least recently used evictable lane, and only that one |
| LanePool.Factory.MoveToEnd | internal/db/scoped.go:502-510 | the in-place loop of `touch` computes the use order after a use |
| LanePool.Factory.RemoveLane | internal/db/scoped.go:262-276 | deletes the key, drops it from the use order and notifies |
| LanePool.Factory.ReleaseLane | internal/db/scoped.go:300-311 | one lease less and a notification, nothing else |
| LanePool.Factory.CloseLanes | internal/db/scoped.go:478-491 | retires every lane in the map, starts a goroutine for exactly those not yet retiring and waits for all of them |
| LanePool.Factory.OwnScope | internal/db/scoped.go:195-201 | the lane found under a handle's key sends that handle's scope and no other |
| LanePool.Factory.OpenLane | internal/db/scoped.go:453-474 | a new lane gets a parameter map of its own |
| Scopes.CopyWith | internal/db/scoped.go:465-474 | the copied map is fresh, holds every entry of the base and the one added, and leaves the base alone |
| Scopes.KeysSeparateScopes | internal/db/scoped.go:132-155 | two tenants share a key exactly when they are equal or both unusable; the sentinel is no usable tenant; no tenant shares the maintenance key |
| Scopes.HandlesDeclare | internal/db/scoped.go:132-155 | without PostgreSQL every handle is the process pool; with it a tenant's handle declares its own id, or the sentinel where the id is unusable, and the maintenance handle only the cross-tenant switch |
| Scopes.KeyTellsScope | internal/db/scoped.go:132-155 | handles with one key declare one scope |
| Scopes.ULIDsAre128Bits | internal/db/postgres.go:207-217 | a usable tenant is exactly a 128-bit number written in 26 of Crockford's digits |
| Scopes.Defaulted | internal/db/postgres.go:135-168 | all limits come out positive and the idle limit within the open limit |
| Scopes.DefaultsFillBlanks | internal/db/postgres.go:135-168 | every limit that was set stays, every other gets its documented default, and only more idle than open connections are cut |
| Scopes.ConfigCell.ApplyPostgresDefaults | internal/db/postgres.go:135-168 | the assignments through the pointer compute that defaulting; a second call finds nothing to do, and a first one exactly when the limits were positive and ordered |
| PoolBudget.AcceptedPlansFit | internal/db/pool_budget.go:31-50 | an accepted plan is strictly below the usable connections if and only if its true peak is a 64-bit number |
| PoolBudget.FittingPlansAreAccepted | internal/db/pool_budget.go:38-44 | no plan that fits is refused |
| PoolBudget.OverflowIsAccepted | internal/db/pool_budget.go:31-44 | a concrete plan whose peak wraps is accepted although no server can serve it |
| Move.Run | internal/dbmove/dbmove.go:461-608 | every run ends with the target untouched or with every table verified and the insert guard back on, whatever statement fails and whatever the engine does to the rows; it is untouched after every refusal, error, mismatch and dry run; a non-empty target is refused without force; and on a faithful engine a run succeeds exactly when every row converts and the target is empty or force is given, and then every table mirrors its source column by column |
| Move.VerifiedMeansEqual | internal/dbmove/dbmove.go:571-594 | a table verifies if and only if it holds the converted source rows as a multiset, unless SHA-256 collides on the texts of this very run |
| Move.CommittedEqualsSource | internal/dbmove/dbmove.go:571-608 | each table of a committed target holds the source's rows one for one, every value standing for the source's in its own column, and nothing else |
| Move.FaithfulLoadVerifies | internal/dbmove/dbmove.go:762-767 | the converted rows verify in whatever order the target returns them, with no assumption on the hash |
| Move.VerifyTables | internal/dbmove/dbmove.go:571-594 | one result per table with its counts and hashes, matching exactly when both agree, and the number of those that do not; without faults and unreadable rows it always gets through, and an unreadable table is named |
| Move.Verify | internal/dbmove/dbmove.go:613-651 | success means that all tables match and are reported so one by one, a mismatch that one does not; without faults and unreadable rows the check succeeds exactly when all tables match and reports a mismatch otherwise |
| Move.EnsureEmpty | internal/dbmove/dbmove.go:496-546 | a load starts only from empty governed tables and reports which held how many rows; without force nothing is wiped and a non-empty target is refused with those counts; a faithful engine passes whenever the tables are empty or force is given |
| Move.LoadTables | internal/dbmove/dbmove.go:553-566 | the load submits exactly the converted rows of all tables, in plan order; on a faithful engine it succeeds exactly when every row converts and then every table holds its converted rows; a failure names the table and its first unreadable row |
| TableHash.HashIsExact | internal/dbmove/dbmove.go:762-821 | two tables have one hash if and only if their rows are equal as multisets, provided SHA-256 does not collide on the row texts and digest lists of these two tables |
| TableHash.CollisionFools | internal/dbmove/dbmove.go:789-821 | where two row texts collide, exchanging one row for the other in any table leaves its hash and changes its contents |
| TableHash.HashIgnoresOrder | internal/dbmove/dbmove.go:762-821 | rows in another order have the same hash |
| TableHash.DigestsDetermineRows | internal/dbmove/dbmove.go:789-809 | equal multisets of row digests come from equal multisets of rows |
| TableHash.JoinedInjective | internal/dbmove/dbmove.go:814-820 | the concatenation of fixed-width digests determines the digests |
| TableHash.HashTable | internal/dbmove/dbmove.go:768-821 | the loop computes that hash of the converted source or of the target as it is, and stops at the first row that does not scan or convert |
| TableHash.ReadRowStands | internal/dbmove/dbmove.go:768-800 | a source row is read as the one target row that stands for it column by column, and is unreadable exactly when none does |
| Canonical.RowTextInjective | internal/dbmove/dbmove.go:792-809 | the text hashed for a row determines the row, for values containing any byte |
| Canonical.ValuePrefixFree | internal/dbmove/dbmove.go:823-842 | a value can be read back from the front of any text that begins with its tagged canonical form |
| Canonical.TextPrefixFree | internal/dbmove/dbmove.go:823-828 | the length prefix protects text that itself contains terminators and tags |
| Canonical.ConvertStands | internal/dbmove/dbmove.go:256-320 | a converter returns the one value of the column's kind that stands for the source's, told without it: the truth value of 0 or 1, the float of an integer, the same bytes, NULL only for NULL, otherwise the value itself; it refuses exactly where there is none |
| ByteOrder.SortedUnique | internal/dbmove/dbmove.go:811-814 | the sorted arrangement of a multiset of digests is unique |
| CopyTable.Copy | internal/dbmove/dbmove.go:695-760 | the batches submit exactly the converted rows, each once and in order, for any row count; rows without tenant are counted; the first row that does not convert stops the load and is named, and on an engine that accepts the rows nothing else does |
| CopyTable.StatementBindsRows | internal/dbmove/dbmove.go:852-875 | the placeholder numbering puts every value of the flat argument list back into its own row and column |
| CopyTable.InsertStatement | internal/dbmove/dbmove.go:852-875 | the running counter numbers row r, column c as r times the width plus c plus one |
| CopyTable.Loader.Flush | internal/dbmove/dbmove.go:715-726 | a batch is submitted once and the buffer starts anew with every row scanned so far accounted for; it fails only where the engine refused |
| MovePlan.Plan | internal/dbmove/dbmove.go:331-410 | succeeds exactly on catalogs that name the tables of the load order and agree on every table's columns, all of known types; every table is then planned, columns sorted by name |
| MovePlan.ResolveTable | internal/dbmove/dbmove.go:381-404 | the planned columns are the table's columns, each once, in name order, with the converter of its type |
| MovePlan.KindsOfTypes | internal/dbmove/dbmove.go:242-250 | the seven declared types and the one kind of each |
| MovePlan.SortedKeys | internal/dbmove/dbmove.go:1049-1056 | the keys, each once, in byte order |
| MovePlan.CheckSourceMigrations | internal/dbmove/dbmove.go:416-450 | accepts exactly the compiled migrations, none missing and none unknown |
| MigrationRuns.EffectsExactlyOnce | internal/db/migrations.go:28-75 | over any runs with crashes anywhere, other runners and old binaries, a file's SQL has taken effect if and only if the ledger names it, and at most once |
| MigrationRuns.EffectsAreBrought | internal/db/migrations.go:176-193 | on every run each new effect is a whole file, SQL included, that a runner applied as its next one or an older binary recorded |
| MigrationRuns.OneRunnerAtATime | internal/db/migrations.go:42-63 | on PostgreSQL at most one runner is between lock and unlock |
| MigrationRuns.LockedRunnersCollide | internal/db/migrations.go:42-75 | on PostgreSQL a file that a lock holder is about to apply is in the ledger already if and only if an older binary recorded that very name while this runner was applying; the runner then fails and the disk stays as it is |
| MigrationRuns.OldBinaryOvertakes | internal/db/migrations.go:42-75 | a run in which it happens: an older binary records the only file between a runner's bootstrap and its first application; the runner fails and the effect stands once |
| MigrationRuns.LedgerKept | internal/db/migrations.go:98-101 | recorded checksums never change, ledger names and effects never disappear |
| MigrationRuns.OnlyNullIsBackfilled | internal/db/migrations.go:157-165 | only a NULL checksum ever changes, only in a bootstrap, and only to the embedded file's own |
| MigrationRuns.MismatchChangesNothing | internal/db/migrations.go:151-156 | on any run, whatever other runners and older binaries do meanwhile, a runner that has met a ledger with a different checksum can never bootstrap or apply: none of its later steps changes the database, and it never succeeds |
| MigrationRuns.SuccessIsLasting | internal/db/migrations.go:65-75 | a runner that reports success leaves every embedded file effective and recorded under its own checksum, for good |
| MigrationRuns.RunnerCanFinish | internal/db/migrations.go:42-75 | from every reachable state a runner that finds the lock free and no mismatch can by its own steps take it, bootstrap, apply what is missing and report success |
| MigrationRuns.RunnerMayCrash | internal/db/migrations.go:42-63 | a runner may crash at any time; the lock is then free of it and the disk as it was |
| Migrations.Database.MigrateFiles | internal/db/migrations.go:28-75 | a run stops before its bootstrap or after a whole number of files in order, each applied once; the effects it adds are exactly the files missing from the ledger, SQL included, in order; a mismatch changes nothing; success means all files recorded; on a reliable database it succeeds exactly when no checksum differs |
| Migrations.Database.PrepareMigrationLedger | internal/db/migrations.go:102-174 | all or nothing, and nothing at all on a mismatch, which names the first contradicted file; on a reliable database it succeeds exactly when there is none |
| Migrations.Database.ApplyMigrationFile | internal/db/migrations.go:176-193 | effect and ledger row together or neither; never a second row of one name; on a reliable database it succeeds exactly when the name is new |
| Migrations.SecondRunIdle | internal/db/migrations.go:65-75 | a run over a clean, complete ledger changes nothing |
| Migrations.BackfillTouchesOnlyNull | internal/db/migrations.go:157-165 | the backfill fills exactly the NULL checksums of embedded files |
| Migrations.Progress | internal/db/migrations.go:65-74 | after n files the ledger holds what it held plus exactly those files, recorded with their own checksums |
| Coverage.PowerSampleCoverage | internal/energy/sampling.go:153-184 | for any unsorted samples the result is exactly the fraction of instants of the window that some sample taken at most maxHold earlier vouches for; it is a fraction, so the final clamp never acts |
| Coverage.CoveredTime | internal/energy/sampling.go:161-179 | the loop over sorted samples adds up to the number of instants vouched for |
| Coverage.CountIgnoresOrder | internal/energy/sampling.go:158-159 | order and multiplicity of the samples make no difference |
| Quarters.QuarterFromPowerSamples | internal/energy/sampling.go:90-145 | only a finished quarter is written, never as measured; a value other than zero is published only as estimated, above the coverage threshold and without invalid readings, and is the energy of the step function; otherwise the zero value names gap, stale or conflict |
| Quarters.Normalized | internal/energy/sampling.go:46-64 | hold and interval come out positive, the threshold a positive fraction; exactly the meaningful policies are kept and a blank one becomes the default |
| PowerIntervals.IntegrateWindow | internal/energy/interval.go:143-171 | the average times the window is the integral of the step function of the last valid sample; conflict is reported exactly when an invalid reading lies inside; nothing is reported without a valid sample at the start |
| PowerIntervals.AggregatePowerIntervals | internal/energy/interval.go:111-141 | exactly all whole settlement quarters within the range, on the clock of its start, in order and none missing, each as the samples in time order say |
| PowerIntervals.EnergyConserved | internal/energy/interval.go:111-171 | for valid samples in time order that begin by the start the quarters sum to the integral over the whole span |
| PowerIntervals.SamplesConserveEnergy | internal/energy/interval.go:111-171 | the same for valid samples in any order: they sum to the integral of the sorted series, every quarter measured |
| PowerIntervals.PowerIsLatestReading | internal/energy/interval.go:143-171 | the integrated function is told from the unsorted samples: its value is the latest valid reading taken by then |
| PowerIntervals.OrderDoesNotMatter | internal/energy/interval.go:111-141 | samples that agree wherever they share an instant give one result, in whatever order they come and however the sort arranges them |
| PowerIntervals.AverageWithin | internal/energy/interval.go:143-171 | a quarter's average lies between the least and the greatest contributing sample |
| PowerIntervals.ValidMeansMeasured | internal/energy/interval.go:143-171 | with valid samples from early enough every quarter is measured |
| PowerIntervals.QuarterStart | internal/energy/energy.go:527-537 | the start of the local quarter that contains the instant |
| PowerIntervals.FirstQuarterIsNext | internal/energy/interval.go:121-124 | the search begins on a quarter boundary, not before the range and less than a quarter after its start |
| EnergyIntervals.QuartersTelescope | internal/energy/interval.go:176-206 | for readings in time order whose counter never falls and that span the range every quarter is measured and the quarters sum to the difference of the interpolated endpoints |
| EnergyIntervals.RisingMeterTelescopes | internal/energy/interval.go:176-206 | for readings in any order whose counter does not fall over time and that reach around the range, every quarter is measured and not negative and the quarters sum to the difference of the interpolated endpoints, whichever sorted arrangement is used |
| EnergyIntervals.RisingCounts | internal/energy/interval.go:176-186 | every time-ordered arrangement of readings that do not fall over time is a counter |
| EnergyIntervals.MeterMonotone | internal/energy/interval.go:208-223 | interpolated readings never run backwards |
| EnergyIntervals.MeterInterpolates | internal/energy/interval.go:208-223 | at a sample the reading is its own value, between two samples it rises in proportion to time |
| EnergyIntervals.ReadingExists | internal/energy/interval.go:208-223 | inside the sampled range there is a reading, and it lies between those of its neighbours |
| EnergyIntervals.AggregateEnergyIntervals | internal/energy/interval.go:176-206 | exactly all whole settlement quarters within the range; gap exactly when an endpoint has no reading, conflict exactly when the counter fell, otherwise the difference |
| Replay.ReplayIsExact | internal/indexation/evaluate.go:104-109 | after any number of jumps the exact amount is the start times the product of the applied factors, and the cents are its half-up rounding |
| Replay.NextClauseAccepted | internal/indexation/evaluate.go:257-264 | the handed-on clause is accepted if and only if its amount is positive and its ratio text within 2048 characters, and then continues the exact state |
| Witnesses.ZeroAmountIsHandedOn | internal/indexation/evaluate.go:121-124 | one cent and an index falling from 100 to 1 give an accepted jump to zero cents, by scan and by reference, whose next clause is refused |
| Witnesses.LongReplayIsRefused | internal/indexation/decimal.go:102-141 | a rent of 1000.01 that follows every tenth of a percent of an index climbing from 1000 by a point a month is handed on 341 times, and the clause of the last jump is refused for a ratio text of more than 2048 characters, if ratios are spelled in lowest terms |
| Replay.TriggersAdvance | internal/indexation/evaluate.go:259-264 | trigger months strictly advance, so replay ends |
| Replay.PathIndependence | internal/indexation/evaluate.go:187-264 | an unrounded full-change clause arrives, by whatever jumps, at the amount of one revaluation from first base to last index |
| Replay.EarliestTrigger | internal/indexation/evaluate.go:153-266 | a jump is the first month after the base that is not quiet, every month before it having a final observation that does not qualify; without a jump the pending month is unset or the one after the last evaluated |
| Replay.CutoffDoesNotMatter | internal/indexation/evaluate.go:153-266 | every valid cutoff at or after the trigger gives the identical result |
| Replay.EarlierReplayIsPrefix | internal/indexation/evaluate.go:104-109 | replaying up to an earlier cutoff gives exactly the first jumps of a later replay, namely those that trigger by then |
| Replay.EveryJumpIsAssessed | internal/indexation/evaluate.go:151-266 | whatever the cutoff and with or without reference, a crossed evaluation reports and hands on what its trigger month yields |
| Replay.EvidenceIsComplete | internal/indexation/evaluate.go:151-266 | the explanation names every month up to the stop, a pending month included, once and in order |
| Replay.EvidenceTellsWhy | internal/indexation/evaluate.go:148-262 | every entry says what became of its month: passed below the threshold or the minimum, preliminary, unpublished, or the jump |
| Replay.NoJumpNoChange | internal/indexation/evaluate.go:147-266 | an evaluation without a jump leaves amount, base and clause as they were and shows the change of the last month looked at |
| Replay.FrontierDecides | internal/indexation/evaluate.go:157-167 | evaluation waits at a month exactly when nothing from it on is observed; a gap before a later observation is an error that names the month |
| Evaluate.EvaluateClause | internal/indexation/evaluate.go:121-267 | the scan loop computes the evaluation the laws above speak about |
| JumpRules.EveryJumpFollowsRules | internal/indexation/evaluate.go:187-264 | whatever the cutoff and with or without reference, a crossed evaluation compares the base and the trigger month's value to the nearest tenth, crosses the threshold in points or percent, and charges the whole change, or in excess mode what exceeds the threshold in percent or the change to an index nearer by the threshold in points; cents, ratio and both percentages follow |
| JumpRules.QuietMonthFollowsRules | internal/indexation/evaluate.go:157-257 | a month that is passed over has a final index that does not cross the threshold or would move the cents less than the minimum |
| JumpRules.AcceptedExactly | internal/indexation/evaluate.go:121-146 | a clause is refused exactly where its fields make no sense, its exact amount does not fit its cents, or its base is not a final observation of its base value |
| JumpRules.MonthFailsForRange | internal/indexation/evaluate.go:175-241 | the arithmetic of a month is refused only where the change, the shown change, the charged change or the new cents are no 64-bit number |
| JumpRules.RefusalTells | internal/indexation/evaluate.go:121-146 | a refused clause is told apart by its own fields, its exact amount, its lookup, or a base that is not final |
| Replay.ReferenceIsOneMonth | internal/indexation/evaluate.go:111-160 | the scan with a reference after the base gives what the rules make of that one month applied to the untouched start; nothing in between contributes |
| Replay.EvaluateReference | internal/indexation/evaluate.go:111-119 | a reference that is no month or not after the base is refused; any other gives the outcome of that one month |
| Replay.OtherMonthsDoNotMatter | internal/indexation/evaluate.go:151-156 | two publications that agree on base and reference month, and on whether anything follows, give one reference evaluation |
| Replay.ReferenceAgreesWithScan | internal/indexation/evaluate.go:111-119 | where the scan jumps, evaluating that month as reference finds the same jump and hands on the same clause |
| Replay.ReferenceClauseAccepted | internal/indexation/evaluate.go:257-264 | a clause handed on by a reference jump is accepted if and only if its amount is positive and its ratio text within 2048 characters |
| Replay.ReferenceReplayIsExact | internal/indexation/evaluate.go:111-119 | after any number of reference jumps of a periodic clause the exact amount is the start times the product of the applied factors, and the cents are its half-up rounding |
| Evaluate.OnlyFinalMonthsDecide | internal/indexation/evaluate.go:157-182 | a month is quiet or a jump only on a final observation of that very month, derived only where the clause allows it |
| Strictness.LooserClauseJumpsNoLater | internal/indexation/evaluate.go:187-251 | lowering the threshold or the minimum change, or making it enough to reach the threshold, never delays the first jump in either change mode, unless an amount on the way is no 64-bit number |
| Strictness.JumpsToo | internal/indexation/evaluate.go:197-251 | in a month where the strict clause jumps the looser one jumps too, although it may apply another change |
| Witnesses.LooserCanOverflow | internal/indexation/evaluate.go:234-251 | indices 100, 110 and 50 halve an amount near the largest int64 under a threshold of 20 percent, while without threshold the first month fails |
| Evaluate.Adjusted | internal/indexation/evaluate.go:218-223 | the excess-adjusted index lies between base and index, and the subtraction cannot wrap |
| Evaluate.AppliedExact | internal/indexation/evaluate.go:210-233 | the applied change has the sign of the full change or is zero, with no greater magnitude, and is at least -100 percent |
| JumpRules.AppliedIsCharged | internal/indexation/evaluate.go:210-230 | the applied change is the whole change; in percent excess its magnitude plus the threshold is the whole change's, on the same side; in points excess it is the change to the index moved by exactly the threshold towards the base |
| JumpRules.CrossingTest | internal/indexation/evaluate.go:194-205 | the crossing test on measures is the one told from the indices: beyond the threshold, or at it where reaching counts, never without movement |
| Evaluate.Settle | internal/indexation/evaluate.go:234-251 | a qualifying change jumps exactly when the half-up cents differ by at least one cent and the agreed minimum, to an amount that is not negative; it is refused exactly when amount or displayed change is no 64-bit number |
| Evaluate.JumpIsRevaluation | internal/indexation/evaluate.go:85-102 | a one-decimal full-change jump from a plain amount charges exactly what revaluing that amount between the two published indices gives, unless the change is too large for the shorter computation |
| Evaluate.ChangePercentOrder | internal/indexation/decimal.go:148-166 | a smaller movement on the same side of the base never yields a larger change |
| Dataset.NewDataset | internal/indexation/data.go:81-105 | the nested maps hold exactly the given values and factors, and bad or duplicate ones are refused |
| Dataset.LookupAnswers | internal/indexation/data.go:123-147 | an answer is for the series and month asked for; a published value is never overridden by chaining |
| Dataset.LookupFindsObserved | internal/indexation/data.go:123-147 | a lookup finds something exactly where something was observed, derived values included |
| Dataset.LookupChains | internal/indexation/data.go:123-147 | a value that is not published is the published value of the factor's own series times the one factor into this series, to the nearest tenth and as preliminary, once the factor is in effect |
| Dataset.LookupRefuses | internal/indexation/data.go:123-147 | a lookup refuses exactly unknown series and invalid months, and otherwise only a chained value beyond 64 bits |
| Dataset.NothingAfterLatest | internal/indexation/data.go:149-166 | no month after the latest one can be found by a lookup |
| Dataset.Latest | internal/indexation/data.go:149-166 | the running maximum is the latest observed month |
| Rounding.NearestIsUnique | internal/indexation/decimal.go:76-94 | rounding is determined by being nearest with ties as the mode says |
| Rounding.RoundMonotone | internal/indexation/decimal.go:76-94 | rounding is monotone in both modes |
| Rounding.RoundOdd | internal/indexation/decimal.go:76-94 | rounding is odd in both modes |
| Rounding.HalfDownBelowHalfUp | internal/indexation/decimal.go:66-67 | on money half down never exceeds half up |
| Rounding.RoundRat | internal/indexation/decimal.go:76-94 | the quotient, remainder and doubling on numerator and denominator compute the nearest integer |
| Rounding.RoundTenth | internal/indexation/decimal.go:148-154 | the nearest tenth, refused exactly when that is no 64-bit number |
| Rounding.PercentChange | internal/indexation/decimal.go:156-166 | the nearest tenth of a percent, never below -100 percent; refused exactly when an index is not positive or the result is no 64-bit number |
| DecimalText.DecimalRoundTrip | internal/indexation/decimal.go:20-64 | reading what was printed is the identity on every int64, the minimum included |
| DecimalText.ParseIsComplete | internal/indexation/decimal.go:20-48 | every text of the accepted shape, dot or comma, yields exactly the millionths it denotes or is refused because they do not fit |
| DecimalText.ParseIsSound | internal/indexation/decimal.go:20-48 | nothing else is accepted |
| DecimalText.SurroundingSpaceIgnored | internal/indexation/decimal.go:20-24 | space around an accepted text makes no difference |
| DecimalText.TrimSpaceIs | internal/indexation/decimal.go:20-24 | what is trimmed is all the space at both ends and nothing else |
| DecimalText.ReadDecimal | internal/indexation/decimal.go:20-48 | the digit loop and the digit-by-digit number compute that parse |
| Calendar.MonthTextRoundTrip | internal/indexation/month.go:11-29 | months survive being written and parsed |
| Calendar.ParsedMonthsAreTexts | internal/indexation/month.go:11-17 | exactly the canonical month texts parse |
| Calendar.TextOrderIsChronological | internal/indexation/month.go:9-30 | comparing month texts is comparing months |
| Calendar.MonthOf | internal/indexation/month.go:29 | the month whose days include the date |
| Calendar.MonthStartIsDayCount | internal/indexation/month.go:19-29 | the first of a month counted month by month is the closed day formula of the Gregorian calendar |
| Calendar.AprilFirstOfYear | internal/indexation/statutory.go:217 | the first of April is that of its year in the closed day formula |
| Statutory.FactorLaws | internal/indexation/statutory.go:54-81 | an annual factor is positive, at most the raw prorated inflation factor, lowered by price control, one for no months |
| Statutory.FactorOfMonths | internal/indexation/statutory.go:54-81 | a year's factor adds a twelfth of what its full factor adds for every full month, the full factor told from the two averages, the half-excess rule and the caps |
| Statutory.CapCurve | internal/indexation/statutory.go:101-148 | the ceiling is the exact product of annual factors, rounded once, or the error met first |
| Statutory.CurveYearByYear | internal/indexation/statutory.go:115-147 | each year multiplies the curve by the part of its full factor that the months after the anchor make up, needing final averages only if there are such months; the full factor is the quotient of the averages up to 1.03, halfway back to 1.03 beyond, and under price control at most 1.01 for 2025 and 1.02 for 2026 |
| Statutory.ControlledYears | internal/indexation/statutory.go:63-73 | over 2025 and 2026 a price-controlled curve gains at most 1 and 2 percent, and exactly that when the averages rise as far |
| Statutory.MissingYearIsNamed | internal/indexation/statutory.go:126-139 | the average asked for, or found only preliminary, is that of the first year that cannot be computed |
| Statutory.CeilingsContinue | internal/indexation/statutory.go:101-163 | a ceiling for a later year is the exact amount of an earlier one times the factors of the years between, rounded once from the exact product and not from the earlier cents |
| Statutory.CurvePositiveAndOrdered | internal/indexation/statutory.go:101-148 | the curve stays positive and price control never raises it |
| Statutory.PriceControlNeverRaises | internal/indexation/statutory.go:150-156 | the rounded ceilings keep that order |
| Statutory.AnnualCeilingIs | internal/indexation/statutory.go:83-97 | the one-year form gives its amount times the part of the full factor, rounded once, from April 1, and accepts nothing else |
| Statutory.FirstMonthsAreCounted | internal/indexation/statutory.go:158-163 | a first adjustment counts the months of its contract's year after the signing month, and is accepted only in the following year |
| Statutory.FinishCeiling | internal/indexation/statutory.go:150-156 | one rounding, half down, refused exactly where the cents are no 64-bit number |
| Statutory.AnnualCeilingAgrees | internal/indexation/statutory.go:83-163 | the one-year form with the first adjustment's months is the curve's value on that span |
| MieWeG.CoveredIncreaseIsMinimum | internal/indexation/statutory.go:211-253 | for a covered increase the permitted amount is the least of the half-down contract curve, the ceiling cents and any section 16 MRG maximum, from an April 1 |
| MieWeG.AdjustmentBalances | internal/indexation/statutory.go:254-263 | allowed now plus deferred is permitted; when crossed, permitted plus capped is calculated and capped is not negative |
| MieWeG.IncreaseBelowCurrentRent | internal/indexation/statutory.go:211-253 | a covered increase ends below the current rent exactly when the ceiling or the maximum is below it |
| MieWeG.IncreaseCanEndLower | internal/indexation/statutory.go:211-253 | an accepted covered increase that permits less than the current rent: rent 100 euro, contract and April 2026 ceiling 200, reviewed maximum 90 |
| MieWeG.DecreasesStayIntact | internal/indexation/statutory.go:185-187 | a favourable contractual decrease is passed on, at once |
| MieWeG.UncoveredIsPassedOn | internal/indexation/statutory.go:191-206 | outside the covered scopes the calculated amount is permitted from the contract date, at most the reviewed maximum |
| MieWeG.NoticeOnlyInFullMRG | internal/indexation/statutory.go:201-202 | a notice is required exactly in the two full MRG scopes and not of a subtenant |
| MieWeG.AcceptedExactly | internal/indexation/statutory.go:188-250 | the exact conditions under which an adjustment is accepted at all |
| MieWeG.AcceptsEvaluations | internal/indexation/statutory.go:207-210 | the exact-amount check accepts exactly the crossed evaluations, by scan or by reference, whose ratio text is within 2048 characters |
| MieWeG.AcceptsStaffel | internal/indexation/statutory.go:207-210 | it accepts every crossed step-rent result |
| MieWeG.AcceptsCurveCeilings | internal/indexation/statutory.go:211-239 | a ceiling made by the cap curve is refused only for scope, dates or length, never as inconsistent |
| Staffel.ValidateStaffelSteps | internal/indexation/staffel.go:20-45 | accepts exactly the schedules of well-formed steps on ascending dates |
| Staffel.EvaluateStaffel | internal/indexation/staffel.go:50-85 | the loop computes the amount the laws below speak about |
| Staffel.StepEffect | internal/indexation/staffel.go:67-73 | a fixed step replaces the amount, a percentage p turns every hundred into a hundred and p |
| Staffel.StaffelReports | internal/indexation/staffel.go:50-85 | the last due step tells date and exact amount, the cents are its half-up rounding, and it has jumped if a step is due and the cents differ; it is refused exactly when some due amount is too large or its text too long |
| Staffel.LaterStepsDoNotLeak | internal/indexation/staffel.go:48-49 | steps after the cutoff have no influence |
| Staffel.PercentagesCompoundExactly | internal/indexation/staffel.go:67-73 | percentage steps multiply the exact amount; rounded cents never feed back |
| Staffel.CrossedStaffelIsConsistent | internal/indexation/staffel.go:74-84 | a crossed result carries cents that are the rounding of its exact amount, within the ratio text limit |
| Timing.DueDatesAreEarliest | internal/indexation/timing.go:102-138 | the due date is the first clamped monthly due date not before its basis if and only if the basis, told from the input alone, is not after the last due date of December 9999 |
| Timing.DueFromIsEarliest | internal/indexation/timing.go:140-144 | the two-step search finds the earliest due date if and only if there still is one within year 9999; past it the date falls in January or February of year 1, as stated |
| Timing.LateScheduleWraps | internal/indexation/timing.go:118-144 | a fixed schedule effective on 20 December 9999 with due day 5 is accepted and falls due in January of year 1 |
| Timing.NoticeOrder | internal/indexation/timing.go:112-138 | receipt, issue, effective date and final publication are ordered, and the deadline is not before receipt exactly when receipt plus 14 days is not after the last due date of December 9999 |
| Timing.PlannedNoticeIsEarliest | internal/indexation/timing.go:118-138 | planning without notice dates gives the earliest due date over all accepted notice dates that stay within the calendar |
| Timing.EffectiveNotBeforeFinal | internal/indexation/timing.go:48-101 | no mode takes effect before the final publication or the fixed date |
| Timing.EffectiveInEachMode | internal/indexation/timing.go:65-101 | exactly which date takes effect in each mode, legal floor and later periodic date included |
| Timing.AcceptedExactly | internal/indexation/timing.go:48-135 | exactly which inputs are accepted |
| Timing.RentDueClamps | internal/indexation/timing.go:140-144 | a due date lies in its month on the due day, or on the last day of a shorter month |

## Left out

- SQL text, drivers, startup packets and row-level-security policies: only abstract statements, transactions, locks and pools appear.
- Rows, Tx and Conn objects of a leased lane (`checkout` and the query methods): a lease lasts from acquire to release, and what happens in between is the free movement of the pool's connections.
- Panics, and goroutines that are never scheduled: progress is stated as steps that are enabled and lead to waking, returning or holding a lane, not as fairness; a caller may be overtaken.
- `LeasePool`: releasing a lease twice is made harmless by sync.OnceFunc, which is not part of this model; a holder releases once.
- Errors of `pool.Close`: which error Close returns first.
- `VerifyConnectionBudget` and all reading of server settings: the two numbers are inputs.
- CopyTable.Copy: the text of the INSERT statement is modelled by its placeholder numbers, because quoting and commas carry no further property.
- Move.Run: the order of the wipe statements is kept but foreign keys and triggers are not modelled, since any contents may be left behind and are counted again.
- Move.Run: the printed report, durations and the list of converted column types.
- Canonical.ConvertFits: `float64(int64)` is an arbitrary fixed function, so two integers that become one float are equal rows.
- Migrations.Database.MigrateFiles: the directory filter for migration files and the wording of errors.
- PowerIntervals.AggregatePowerIntervals: float64 rounding, and durations beyond the range of time.Duration (292 years).
- Quarters.QuarterFromPowerSamples: the defaults for a missing time, zone or source name; the zone is a function from instants to offsets.
- `ProjectQuarterAverage`, `CompareMonthlyPeaks`, `AssessQuality` and `CountUsableQuarters`: short branch tables over the results above.
- `internal/energy/storage.go` and other persistence.
- Evaluate.EvaluateClause: explanation steps carry their code and month; their amounts, indices and source links are not modelled.
- Statutory.CapCurve: the audit rows per year are not modelled, only the amounts they lead to.
- Timing.DueDatesAreEarliest: input dates are those of the years 1 to 9999; time zones are reduced to civil dates beforehand.
- Staffel.ValidateStaffelSteps: steps carry their parsed date and percentage or amount; the ISO date text is not modelled.
- OGD import and refresh, embedded snapshots and published rate tables: a dataset and annual averages are inputs.
- HTTP handlers, mail, connectors, authentication, documents and the annual statement.
