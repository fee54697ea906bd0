# Crazyflie firmware: verified model of storage, logging, I2C and geometry

This project states in Dafny what the hard parts of the firmware promise, and
proves it. Seven parts are modelled:

- **The key/value store** (`KveFormat`, `KveContents`, `KveStorage`, `KveEdits`,
  `Kve`, `KveRuns`, `Storage`). A persistent map in one flat byte memory: a version byte, a
  chain of length-prefixed records (items, or "holes" with key length 0), an end
  tag. The memory is an array that the writers change in place; the ghost field
  `records` is its reading, and `Contents()` the map the reading stands for.
  Whole runs of operations, with restarts, are proved to answer as a plain map
  with a byte budget does. The EEPROM partition behind the store, which lacks the
  last byte of the table, is shown to be such a memory.
- **Convex polytopes** (`Vectors`, `Polytope`, `Dykstra`). Membership, the exit
  point of a ray, and the projection of a point by Dykstra's algorithm, over the
  real numbers: an energy argument bounds the number of sweeps, and the returned
  point is compared with every point of the polytope.
- **Quaternions and matrices** (`Quaternions`). Composition, inversion and
  lengths of rotations, and agreement of the matrices with the quaternions.
- **The log subsystem** (`LogToc`, `LogBlocks`, `LogPool`, `LogValues`, `Log`,
  `LogRuns`). Sixteen blocks share a pool of 128 nodes in intrusive lists; a node
  is a place in an array and a reference an index, with -1 for NULL. Runs of
  commands refine a map from block ids to lists of variables, and packets carry
  the values a client can decode.
- **The EEPROM driver** (`Eeprom`). Page splitting with retries, on a chip whose
  address counter wraps inside a page.
- **The configuration block** (`ConfigBlock`). The start-up that checks, upgrades
  or replaces the block in the EEPROM, on top of the driver.
- **The I2C transfer loop** (`I2cTransfer`). Merging messages into transfers
  through a shared buffer, and handing the bytes read back to the callers.

A method follows the C function it is named after; where it is long, a stretch of
it is a method of its own (`Kve.Store.MoveItemsDown`, `PunchHole`, `Overwrite`,
`WriteBehindEnd`, `Log.Logger.ForceFree`, `ConfigBlock.Config.LoadSaved`,
`Eeprom.Chip.FillPage`, `I2cTransfer.Load`, `Issue`, `Prepare`, `Receive`, `Finish`, `Log.Logger.FreeList`,
`Dykstra.OneSweep`, `Kve.Store.Visit`). Ghost parameters name the
record, list or run that the code is looking at; they exist in the proofs only.

## Results about the code itself

Where the code does not do what its comments promise, or does something a caller
would not expect, the exact condition is proved:

- `qqmul(q, p)` rotates by `q` first, the reverse of its comment
  (`Quaternions.RotationsCompose`). The commented law holds exactly if the axes are
  parallel, or both turns are half turns and the axes perpendicular
  (`CommentedLawIff`); a pair for which it fails is given (`CommentedOrderFails`).
- `rayintersectpolytope` is documented to return a negative number for an empty
  polytope. It returns one exactly if the ray heads for a face that its origin has
  already crossed (`Polytope.NegativeDistance`), and infinity for a certain empty
  polytope (`EmptyPolytopeMayGiveInfinity`).
- `vprojectpolytope` keeps its tolerance in all calls with `n` half-spaces that are
  allowed enough sweeps on a non-empty polytope, exactly if `n` is at most three
  (`Dykstra.ToleranceKeptIff`; `ToleranceExceeded` is a call that fails). In general violations stay below `sqrt(n * (n - 1) / 10) * tolerance`
  (`ProjectionQuality`). The source calls the tolerance approximate.
- A `kveStore` that fails has already removed the old value of its key
  (`Kve.Store.Put`). A `kveFetch` of an empty value returns what it returns for a
  missing key (`Kve.Store.Fetch`), and an empty value ends a `kveForeach` with
  failure (`Kve.Store.Foreach`).
- `kveStore` computes the length of the record in 16 bits. A value for which it
  overflows is accepted exactly if the key has a value of just the length that is
  left; then only that many bytes of the new value are stored (`Kve.Wraps`,
  `Kve.Store.Put`).
- The partition of src/storage.c:30-31 ends one byte behind `EEPROM_SIZE`
  (includes/eeprom.h:35), and that byte cannot be read. A store that leaves the end
  tag just before it succeeds, but the next start-up no longer finds the table and
  erases everything (`KveRuns.PutThenRestart`), however much is deleted in between
  (`KveRuns.FullUntilRestart`). The exact condition is `Kve.Brims`, which a caller
  can compute from what `kveGetStats` reports (`Kve.BrimsByStats`);
  `Storage.FillAndRestart` is a call that does it. Until the restart, only values
  of the length of the old one can be stored.
- When the I2C driver hands the bytes of a merged read back, its loop
  (src/i2c_twim.c:197-203) reads the length of a message in front of the list
  exactly if all messages before the run are empty and the shared buffer was used,
  that is, the messages of the run before its last one have bytes
  (`I2cTransfer.Transfer`, `ReachesOutside`); a merged read of two messages does it
  (`TwoMessagesReachOutside`). The model stops there.
- `kveStorageFindHole` may return the address of the end tag. `Kve.Store.Defrag`
  is proved with that case included.
- Sent as a float, an unsigned 32-bit log variable of 2^31 or more is taken for a
  negative number (`LogValues.FloatOfIntegerIff`).
- Clients and the firmware name the group of a log variable alike exactly if the
  variable is inside a group, or the group opened last has the name that clients
  see outside of groups (`LogToc.GroupNamesAgreeIff`); `GroupNamesDiffer` is a table
  for which the names differ.

## Assumptions

- The memory of the key/value store has 4 to 65538 bytes; above that a record
  could outgrow its 16-bit length, and the search for holes could step over the
  end tag. Its medium has all of them, or lacks the last one. Lengths handed to
  the medium are cut to 16 bits, as the EEPROM driver does (includes/eeprom.h:67-78).
- Keys have 1 to 255 bytes, none of them zero, as includes/storage.h:35 demands,
  and so has the prefix of an iteration (includes/storage.h:71). Keys found by an
  iteration have at most 63 bytes, as its buffer has 64. The search buffer is
  unsigned, as on the ARM target.
- Every half-space has a unit normal, as includes/math3d.h:870 demands; arithmetic
  is exact.
- Every log variable has an address, since a NULL address marks a free node. The
  types asked for are at most 8, the last one that has a length (src/log.c:66-75).
- The status of an EEPROM write without bytes, which the source never sets
  (src/eeprom.c:158), may be either. A bus access that is not acknowledged changes nothing.
- The buffer of an I2C message that is read into is no other message's buffer.
- `RADIO_RATE_2M`, the default data rate (includes/config.h:216), is not part of
  this model; `ConfigBlock.Config` takes the rate as a parameter.

## Model

| member | source | states |
|---|---|---|
| `KveRuns.Run` | includes/kve/src/kve.c:61-205 | for every run from a format, on a medium with or without the last byte, with stores, deletes, fetches, compactions, checks and restarts in any order, all answers, the final contents and the bytes in use are those of the reference; as long as the store is not full to the last byte they are those of a map with a byte budget |
| `KveRuns.Perform` | includes/kve/src/kve.c:61-205 | one operation changes the state and answers exactly as the reference does, and as the bounded map does unless the store is full to the last byte |
| `KveRuns.WholeIsNeverFull` | includes/kve/src/kve.c:37-46 | on a medium with all its bytes no run ever fills the store to the last byte, so that the bounded map is the reference for all runs |
| `KveRuns.FullUntilRestart` | includes/kve/src/kve.c:187-205 | a store full to the last byte stays so, whatever is stored and deleted, and the next restart leaves nothing |
| `KveRuns.ReadsLatestWrite` | includes/storage.h:25-63 | in every run a key holds exactly what the last operation on it left (of a value with an overflowing length, the part that was kept), judged by the operations and their answers alone |
| `KveRuns.NeverOverfull` | includes/kve/src/kve.c:36-56 | after every run the version byte, all entries in their most compact layout and the end tag fit the memory |
| `KveRuns.PutThenRestart` | src/storage.c:108-123 | a store followed by a restart keeps the updated map, and loses everything exactly if the medium lacks the last byte and the item comes to end just before it |
| `Kve.Store.Put` | includes/kve/src/kve.c:92-114 | succeeds exactly if the entry fits beside the other entries in the most compact layout, whatever the holes are, or its length overflows to that of the old value; then exactly its key is set, to as much of the value as the length says, otherwise exactly its key is gone; the table stays valid except in one exact case on a medium without its last byte |
| `Kve.Store.AppendItemToEnd` | includes/kve/src/kve.c:26-57 | adds a new key if and only if it fits after compaction; otherwise the map is unchanged; behind a table full to the last byte nothing is added or compacted |
| `Kve.Store.Defrag` | includes/kve/src/kve.c:61-90 | on any table that passes the check: afterwards the records are the live ones, in order and byte for byte, with no hole; the map is the same |
| `Kve.Store.MoveItemsDown` | includes/kve/src/kve.c:82-88 | one round of the compaction keeps the live records in order, extends the part without holes and shortens what is left to do |
| `Kve.Store.Delete` | includes/kve/src/kve.c:169-179 | removes exactly its key and tells whether it was present |
| `Kve.Store.Fetch` | includes/kve/src/kve.c:156-167 | returns the beginning of the mapped value, cut to the buffer; nothing for a missing key |
| `Kve.Store.Foreach` | includes/kve/src/kve.c:129-153 | the calls are a prefix of the visits in table order; true means all were made and accepted; false means the callback rejected the last call and only that one, or the next value is empty |
| `Kve.Store.Format` | includes/kve/src/kve.c:181-185 | turns any bytes into a valid table of the empty map |
| `Kve.Store.Check` | includes/kve/src/kve.c:187-205 | accepts exactly the byte images that can be read as a table |
| `Kve.Store.Mount` | src/storage.c:108-123 | keeps a readable image bit for bit, with its one reading, and formats any other |
| `Kve.Store.GetStats` | includes/kve/src/kve.c:207-253 | the counters are the number, size and key bytes of the live items, which are the bytes the map needs, and holes make up the rest; the division is safe |
| `Kve.Store.PunchHole` | includes/kve/src/kve.c:173-174 | writing the hole's header over a record removes exactly its key |
| `Kve.Store.Overwrite` | includes/kve/src/kve.c:108-110 | writing an item of the same size sets exactly its key, and the item fits by the general rule |
| `Kve.CompactionStep` | includes/kve/src/kve.c:82-88 | the bytes after a move and a hole header parse as the compacted records, with left-over bytes as the hole's body |
| `Kve.CompactionKeepsLive` | includes/kve/src/kve.c:66-89 | a round of the compaction loses, adds and reorders no live record |
| `Kve.CropKeepsLive` | includes/kve/src/kve.c:69-73 | cropping trailing holes loses no live record |
| `Kve.BrimfulIsUnreadable` | includes/kve/src/kve_storage.c:151-165 | an end tag in the last two accessible bytes makes the image unreadable as any table |
| `Kve.BrimsByStats` | includes/kve/src/kve.c:243-252 | whether a store fills the table to the last byte can be computed from the statistics, the lengths and the length of the old value |
| `Kve.CutIsOldLength` | includes/kve/src/kve.c:103-109 | if the 16-bit length is that of the old record, the cut value is as long as the old value |
| `Kve.ItemAppended` | includes/kve/src/kve.c:37-39 | an item and an end tag written over the end tag give a good table of the extended map |
| `Kve.HolePunched` | includes/kve/src/kve_storage.c:37-46 | a hole header written over a record with the key gives a good table of the map without it |
| `Kve.ItemOverwritten` | includes/kve/src/kve.c:108-110 | an item written over a record of the same key and size gives a good table of the updated map |
| `KveContents.VisitsAreEntries` | includes/kve/src/kve.c:116-128 | an iteration that is not stopped visits every entry whose key has the prefix exactly once, and hands out up to 8 bytes of its value |
| `KveContents.UsedIsLiveExtent` | includes/kve/src/kve.c:220-250 | what the live records occupy is a function of the map, and is never more than the table occupies |
| `KveContents.LiveMeansTheSame` | includes/kve/src/kve.c:61-90 | dropping holes changes neither the map nor the uniqueness of keys, and needs no more bytes |
| `KveContents.ReplaceMatch` | includes/kve/src/kve.c:92-111 | a hole in place of a record removes its key from the map, an item of the same key updates it, and keys stay unique |
| `KveContents.AppendItem` | includes/kve/src/kve.c:26-57 | a record with a new key at the end of the chain adds exactly its entry |
| `KveContents.NoMatchNoKey` | includes/kve/src/kve_storage.c:76-104 | a key is in the map exactly if some record matches it |
| `KveFormat.LayoutOfTable` | includes/kve/src/kve.c:13-14 | the layout of every table in numbers: version 1, records from the second byte on with a 16-bit length, lowest byte first, a key length, key and value, and two bytes 0xff at the end |
| `KveFormat.SampleIsTable` | includes/kve/src/kve_storage.c:21-35 | a literal image of ten bytes, and the record read from it |
| `Kve.SampleMeansEntry` | includes/kve/src/kve.c:187-205 | that image is accepted and holds exactly its entry |
| `Kve.FitsIs` | includes/kve/src/kve.c:36-37 | the space an entry needs, in numbers |
| `KveContents.LiveInOrder` | includes/kve/src/kve.c:61-90 | the live records are the items, each in its place among them |
| `KveFormat.ReadInOneWay` | includes/kve/src/kve_storage.c:147-166 | a byte image has at most one reading as a chain of records with an end tag |
| `KveFormat.EncodeHolds` | includes/kve/include/kve_storage.h:51-54 | a record lies at an address exactly if its length, key length and body are read there |
| `KveFormat.PlacedConcat` | includes/kve/src/kve_storage.c:161 | a chain lies in memory exactly if its parts lie one behind the other |
| `KveFormat.RecordAt` | includes/kve/src/kve_storage.c:215-222 | the header and the body of every record of a table are found at its address, with room behind them |
| `KveStorage.ChainIsFollowed` | includes/kve/src/kve_storage.c:161 | the walk for the end passes over every chain of records |
| `KveStorage.Memory.Write` | src/storage.c:60-83 | writes the bytes that the 16-bit length leaves, or nothing if they end behind the memory |
| `KveStorage.ChainIsFound` | includes/kve/src/kve_storage.c:147-166 | the walk for the end arrives at the end tag of every chain |
| `KveStorage.FoundIsChain` | includes/kve/src/kve_storage.c:147-166 | where the walk for the end arrives, a chain of records leads |
| `KveStorage.Memory.MoveMemory` | includes/kve/src/kve_storage.c:58-74 | moving 32 bytes at a time towards lower addresses equals one move of the whole block, also for overlapping blocks, and touches nothing outside the target |
| `KveStorage.MovedStep` | includes/kve/src/kve_storage.c:63-71 | the next chunk is read before any move has overwritten it |
| `KveStorage.Memory.WriteItem` | includes/kve/src/kve_storage.c:21-35 | the three writes amount to one write of the encoded record, of the returned length, for the value cut to 16 bits |
| `KveStorage.Memory.WriteHole` | includes/kve/src/kve_storage.c:37-46 | changes the three header bytes only |
| `KveStorage.Memory.WriteEnd` | includes/kve/src/kve_storage.c:48-56 | changes the two bytes of the end tag only |
| `KveStorage.Memory.FindEnd` | includes/kve/src/kve_storage.c:147-166 | ends on every byte image whatsoever, at the first end tag or at the first corruption |
| `KveStorage.Memory.FindHole` | includes/kve/src/kve_storage.c:168-182 | ends on every table that passes the check: at the first hole, or at the end tag if the byte behind it is zero, or outside |
| `KveStorage.Memory.FindNextItem` | includes/kve/src/kve_storage.c:185-213 | ends on every table that passes the check, at the first item behind the current record |
| `KveStorage.Memory.FindItemByKey` | includes/kve/src/kve_storage.c:76-104 | ends on every table that passes the check, at a record or nowhere; if keys lie inside their records, at the first record with the key |
| `KveStorage.Memory.FindItemByPrefix` | includes/kve/src/kve_storage.c:110-145 | the same for the first key with the prefix, which is handed out as a zero-terminated string with the size of its record |
| `KveStorage.Memory.GetBuffer` | includes/kve/src/kve_storage.c:243-250 | reads the beginning of the record's value |
| `KveStorage.CStringOf` | includes/kve/src/kve_storage.c:133-134 | a zero-terminated key is read back as the key |
| `KveEdits.Replace` | includes/kve/src/kve.c:103-110 | writing a record over one of the same size changes that record of the table and no other |
| `KveEdits.Append` | includes/kve/src/kve.c:37-39 | writing a record and an end tag over the end tag appends it to the table |
| `KveEdits.Crop` | includes/kve/src/kve.c:69-73 | an end tag over a record cuts the table off there |
| `KveEdits.SwapHole` | includes/kve/src/kve.c:82-86 | moving items down over holes and writing one header exchanges the two stretches of the table |
| `KveEdits.HeaderMakesHole` | includes/kve/src/kve_storage.c:37-46 | a header alone turns the bytes behind it into the body of a hole |
| `Storage.Partition.ReadEeprom` | src/storage.c:35-58 | over a working bus reads as a memory of the accessible bytes does |
| `Storage.Partition.WriteEeprom` | src/storage.c:60-83 | over a working bus writes as a memory of the accessible bytes does, through all page transactions, and changes nothing outside the partition |
| `Storage.Mirror` | src/storage.c:35-83 | whatever sequence of reads and writes a client makes, the partition gives the same bytes and ends with the same content as the memory |
| `Storage.WindowIs` | src/storage.c:30-31 | the partition starts at 1024 and has 7168 bytes, of which the last is not accessible |
| `Storage.FillAndRestart` | src/storage.c:30-31 | an item that fills a fresh partition is stored, and a restart leaves an empty store |
| `Polytope.InPolytope` | includes/math3d.h:869-882 | true exactly if no half-space is violated by more than the tolerance |
| `Polytope.ProjectionIsClosest` | includes/math3d.h:858-867 | the projection lies in the half-space, and every other point of it is farther off, by at least its distance from the projection |
| `Polytope.RayIntersect` | includes/math3d.h:884-940 | the active row is met with equality; from a point inside, a point of the ray is inside exactly up to the returned distance, which is infinite exactly if the whole ray is inside |
| `Polytope.RayInside` | includes/math3d.h:907-940 | inside all half-spaces is the same as not beyond the nearest crossing |
| `Polytope.CrossingSplitsRay` | includes/math3d.h:919-928 | a face that the ray heads for is respected exactly up to its crossing |
| `Polytope.NegativeDistance` | includes/math3d.h:895-900 | the distance is negative exactly if the ray heads for a face that its origin has crossed |
| `Polytope.EmptyPolytopeMayGiveInfinity` | includes/math3d.h:899 | an empty polytope for which infinity is returned |
| `Dykstra.ProjectPolytope` | includes/math3d.h:966-1011 | returns a point near enough as it is; otherwise the point and the corrections after the first sweep whose residual is below the threshold, or after the last sweep allowed |
| `Dykstra.ThresholdIs` | includes/math3d.h:992 | ten times the threshold is the number of rows times the squared tolerance |
| `Dykstra.StepOnRow` | includes/math3d.h:998-1004 | a step moves the point along the normal by the change of the multiplier, which stays non-negative, and the row is met with equality if it is positive |
| `Dykstra.AlwaysDualFeasible` | includes/math3d.h:981-1010 | after every sweep the point is the start plus all corrections, each of them a non-positive multiple of its normal |
| `Dykstra.StepLowersEnergy` | includes/math3d.h:998-1004 | for every point, a step lowers the energy by at least the squared change of its correction |
| `Dykstra.EnergyUsedUp` | includes/math3d.h:994-1010 | the energy left and all residuals so far never exceed the squared distance from the start |
| `Dykstra.ResidualsAreBounded` | includes/math3d.h:994-1010 | the residuals of any number of sweeps add up to at most the squared distance from the start to any point of the polytope |
| `Dykstra.StopsByResidual` | includes/math3d.h:951-952 | if the allowed sweeps times the threshold exceed that squared distance, the loop leaves through the residual test and never through the cap |
| `Dykstra.Drift` | includes/math3d.h:996-1005 | within a sweep the point moves no farther than the residual allows |
| `Dykstra.RowAfterSweep` | includes/math3d.h:996-1008 | after a sweep with a small residual every row is respected, and every row in use is met, up to a bound in the residual |
| `Dykstra.DistanceIdentity` | includes/math3d.h:942-944 | how the distances between start, current point and any third point are related through the multipliers |
| `Dykstra.NearlyOptimal` | includes/math3d.h:942-957 | after any sweep the point is almost in the polytope, and no point of the polytope is closer to the start, but for an explicit term in the residual |
| `Dykstra.ExactWhenSettled` | includes/math3d.h:942-944 | a sweep that changes nothing has found the projection: inside, and closer to the start than every other point of the polytope |
| `Dykstra.ProjectionQuality` | includes/math3d.h:942-957 | the outcome of a call with enough sweeps: the bound on violations and on the distance, in terms of the tolerance |
| `Dykstra.MultipliersAreBounded` | includes/math3d.h:994-1010 | a point at some depth in the polytope bounds the multipliers of every sweep |
| `Dykstra.ClosedQuality` | includes/math3d.h:942-957 | the same bounds in terms of the input alone, if the polytope has an inner point |
| `Dykstra.DistanceToProjection` | includes/math3d.h:942-957 | with the same hypotheses the returned point is close to the projection itself, by a bound in terms of the input |
| `Dykstra.MixIsInside` | includes/math3d.h:942-957 | between a point that violates the half-spaces a little and a point at some depth lies a point of the polytope |
| `Dykstra.ToleranceKeptIff` | includes/math3d.h:950-951 | all calls with n half-spaces and enough sweeps keep the tolerance exactly if n is at most three |
| `Dykstra.ToleranceExceeded` | includes/math3d.h:986-1007 | for every n from four on, a call that stops after one sweep with a violation above the tolerance |
| `Quaternions.RotationsCompose` | includes/math3d.h:735-752 | rotating by the product is rotating by its first factor, then by the second |
| `Quaternions.CommentedLawIff` | includes/math3d.h:744-745 | the commented order holds for all vectors exactly if the axes are parallel, or both turns are half turns about perpendicular axes |
| `Quaternions.CommentedLawIffProducts` | includes/math3d.h:744-752 | it holds exactly if the products in the two orders are equal up to sign |
| `Quaternions.CommentedOrderFails` | includes/math3d.h:744-745 | two rotations for which the commented order is wrong |
| `Quaternions.NormIsMultiplicative` | includes/math3d.h:746-752 | the norm of a product is the product of the norms |
| `Quaternions.RotateIsSandwich` | includes/math3d.h:734-743 | the formula for rotating is conjugation by the quaternion |
| `Quaternions.MulAssociative` | includes/math3d.h:746-752 | the product is associative |
| `Quaternions.RotatesFromXToY` | includes/math3d.h:734-743 | a rotation about z goes from x towards y |
| `Quaternions.RotationScalesLength` | includes/math3d.h:734-743 | a rotation keeps lengths, up to the norm of the quaternion |
| `Quaternions.InverseRotatesBack` | includes/math3d.h:753-756 | the inverse of a unit quaternion undoes its rotation |
| `Quaternions.SameRotation` | includes/math3d.h:734-743 | quaternions of the same norm and scalar part that rotate every vector alike are equal up to sign |
| `Quaternions.MatrixRotates` | includes/math3d.h:466-471 | for a unit quaternion the matrix maps every vector to its rotation |
| `Quaternions.MatrixOfProduct` | includes/math3d.h:709-729 | for unit quaternions the matrix of a product is the product of the matrices, in reverse order |
| `Quaternions.Multiply` | includes/math3d.h:473-485 | the loops compute the product of the stored matrices |
| `Quaternions.MatMulComposes` | includes/math3d.h:465-485 | the product of matrices performs the second, then the first |
| `LogRuns.Run` | src/log.c:381-426 | for every run of commands from the initial state, the codes and the final blocks are those of a map from ids to lists of variables, in a memory that keeps all invariants |
| `LogRuns.Perform` | src/log.c:381-426 | one command, on every exit, does and answers what the reference does |
| `LogRuns.BudgetsKept` | src/log.c:84-89 | no command in any order breaks the budgets of 16 blocks, 128 variables and 26 bytes in a block |
| `LogRuns.SamplesBytes` | src/log.c:511-518 | the bytes of a block grow by exactly what the taken settings ask for |
| `LogBlocks.TakenIsLongest` | src/log.c:509-555 | a number of settings is taken exactly if it is at most the longest prefix that fits the bytes, the free nodes and the table of contents |
| `LogBlocks.ReportSaysWhy` | src/log.c:515-534 | the code names the limit that the first setting not taken breaks, in the order in which the code tests them |
| `Log.Logger.AppendBlock` | src/log.c:492-558 | appends exactly the longest takable prefix, in order, to exactly its block, with the code for what stopped it |
| `Log.Logger.CreateBlock` | src/log.c:428-455 | the same from an empty block, with all early exits leaving the blocks as they were |
| `Log.Logger.DeleteBlock` | src/log.c:628-658 | frees exactly the nodes in the list of its block; all other nodes, blocks and lists are unchanged |
| `Log.Logger.Reset` | src/log.c:958-980 | ends with no block and all nodes free, from every valid state |
| `Log.Logger.Init` | src/log.c:225-230 | from any content of the two arrays, gives the valid state without blocks |
| `Log.Logger.OpsMalloc` | src/log.c:913-924 | returns a free node, and fails only if there is none |
| `Log.Logger.BlockAppendOps` | src/log.c:942-956 | puts a free node behind the last one; the block reads as before plus the new sample |
| `Log.Logger.BlockCalcLength` | src/log.c:931-940 | adds up the type lengths of the block's samples along the links |
| `Log.Logger.RunBlock` | src/log.c:721-867 | never takes the exit for lack of space; the packet is the block id, three bytes of the timestamp, lowest first, and the values of all samples in order, at most 30 bytes |
| `Log.ValueAtOffset` | src/log.c:709-718 | every value lies in the packet at the sum of the type lengths before it |
| `LogValues.TypesAre` | src/log.c:66-75 | lengths and ranges of the eight types, in numbers |
| `LogValues.FloatIsSent` | src/log.c:826-864 | a stored float is sent unchanged, as its half, or as the low bytes of the integer it is converted to |
| `LogValues.IntegerSentAsFloat` | src/log.c:842-860 | a stored integer below 2^31 is sent as the float, or half, of its own value |
| `LogValues.OtherTypesAreZero` | src/log.c:741-747 | a stored value of any other type is sent as zero |
| `LogValues.NumberIs` | src/log.c:746-825 | what number a client reads from the bytes, lowest byte first |
| `LogValues.IntegerArrivesIff` | src/log.c:746-864 | a client reads the stored integer exactly if the type it is sent as can hold it |
| `LogValues.FloatOfIntegerIff` | src/log.c:800-847 | the number converted to a float is the stored integer exactly below 2^31 |
| `LogValues.FloatOfLargeIntegerIsNegative` | src/log.c:800-847 | a stored 2^31 is converted as -2^31 |
| `LogValues.ReadsBackIff` | src/log.c:861-864 | the low bytes of a number are read back as it exactly if it is in the range of the type |
| `LogPool.AppendKeepsInv` | src/log.c:942-956 | appending a free node keeps lists disjoint, free of cycles and closed, marks exact, and uses up one node |
| `LogPool.CreateKeepsInv` | src/log.c:438-444 | taking a free block for a new id keeps ids unique and all invariants |
| `LogPool.DeleteKeepsInv` | src/log.c:642-656 | freeing a block's list keeps all invariants, with free and used nodes adding up to 128 |
| `LogPool.EmptyInv` | src/log.c:973-979 | all blocks and nodes free is a state that satisfies the invariants |
| `LogPool.BudgetsHold` | src/log.c:84-89 | every state that satisfies the invariants is within the three budgets, and is out of blocks exactly if 16 ids are in use |
| `LogToc.FlagsAre` | includes/log.h:157-162 | which bits of the type byte tell types, core variables, functions and marks of groups apart |
| `LogToc.NumberingIsBijection` | src/log.c:892-911 | the numbering lists every variable, only variables, each once, in table order |
| `LogToc.CountVariables` | src/log.c:219-223 | the count announced to clients is the number of variables in the numbering |
| `LogToc.VariableGetIndex` | src/log.c:892-911 | finds the variable with the given number, or none |
| `LogToc.GetItem` | src/log.c:338-376 | reports the same variable that the number stands for when a block is built, and the group open there |
| `LogToc.GetVarId` | src/log.c:985-1004 | finds the first variable with the two names, and fails only if there is none |
| `LogToc.GetGroupAndName` | src/log.c:1011-1030 | gives the entry's name and the group opened last at it, and nothing beyond the table |
| `LogToc.LookupRoundTrip` | src/log.c:985-1030 | the names of a found variable are those searched for; the variable with given names is found again if no two share their names |
| `LogToc.GroupNamesAgreeIff` | src/log.c:343-349 | clients and firmware see the same group name exactly inside a group, or if the group opened last has the name reported outside |
| `LogToc.GroupNamesDiffer` | src/log.c:343-349 | a variable behind a closing mark, whose group has no name for clients and the closed group's for the firmware |
| `Eeprom.Chip.WriteBuffer` | src/eeprom.c:156-209 | true: exactly the range holds the buffer; false: a prefix made of whole pieces was written; every transaction stays in one page; it succeeds exactly if the range is inside the EEPROM and for every page touched one of ten attempts is acknowledged and then one of thirty polls; never refusing ten times in a row is enough |
| `Eeprom.Chip.WritePage` | src/eeprom.c:180-190 | up to ten attempts have the effect of one write inside the page, exactly if one of them is acknowledged, and of none otherwise |
| `Eeprom.Chip.WaitForPage` | src/eeprom.c:192-205 | succeeds exactly if one of thirty polls is acknowledged |
| `Eeprom.Chip.PatientlyPasses` | src/eeprom.c:180-205 | a chip that never refuses ten times in a row takes any number of pages |
| `Eeprom.Chip.ReadBuffer` | src/eeprom.c:142-154 | gives the bytes of the range, or leaves the buffer alone |
| `Eeprom.PageWriteInside` | src/eeprom.c:174-182 | what a wrapping chip does with a transaction inside a page is a plain write |
| `Eeprom.PieceWritten` | src/eeprom.c:171-206 | the pieces written so far and the next one make a longer prefix of the buffer |
| `ConfigBlock.Config.Init` | src/configblockeeprom.c:100-176 | if the connection test and the read are acknowledged and no access is refused ten times in a row, the EEPROM ends up with the block that a start-up should leave; over any bus success means that block or the sealed defaults, memory and EEPROM agree, and nothing behind the block changes; a failed start-up may be repeated |
| `ConfigBlock.BootedIsCurrent` | src/configblockeeprom.c:100-176 | from any bytes a start-up leaves a sound block of version 1; a second one changes nothing; a sound block stays, an old one keeps its fields and gets the default address |
| `ConfigBlock.RecognisedIs` | src/configblockeeprom.c:183-214 | the blocks recognised as current and as version 0, by magic number, version and checksum, in numbers |
| `ConfigBlock.FreshBlockIs` | src/configblockeeprom.c:60-70 | what a start-up leaves in an EEPROM without a block, byte by byte |
| `ConfigBlock.UpgradedBlockIs` | src/configblockeeprom.c:228-251 | what a start-up makes of a version 0 block: channel, data rate and calibration kept, version, address and checksum new |
| `ConfigBlock.SealedIsCurrent` | src/configblockeeprom.c:216-226 | a block written with its checksum passes all checks of the next start-up |
| `ConfigBlock.CalculateCksum` | src/configblockeeprom.c:88-98 | the sum of the bytes modulo 256 |
| `ConfigBlock.Config.Write` | src/configblockeeprom.c:216-226 | success leaves the sealed block in the EEPROM, failure a prefix of it |
| `ConfigBlock.Config.CopyToNewVersion` | src/configblockeeprom.c:228-251 | the fields of the saved version over the defaults of the new one; refused for a later version |
| `ConfigBlock.Config.CheckDataIntegrity` | src/configblockeeprom.c:198-214 | accepts exactly a correct checksum at the place of the given version |
| `ConfigBlock.Config.GetRadioChannel` | src/configblockeeprom.c:254-260 | after a successful start-up, the channel in the EEPROM; without one, channel 80 |
| `ConfigBlock.Config.GetRadioAddress` | src/configblockeeprom.c:270-276 | after a successful start-up, the 40-bit address in the EEPROM, from its five bytes; without one, the default |
| `I2cTransfer.Transfer` | src/i2c_twim.c:66-208 | success: one transfer for every maximal run, in order, with the run's bytes for a write, and every run read has its bytes in its buffers, in order; every failure code names its cause, exactly the transfers of the runs before it were issued, and one more if the bus failed it, and those runs are done; when the source's loop leaves the list at the front is told from the messages |
| `I2cTransfer.NeighboursInOneRunIff` | src/i2c_twim.c:72-82 | two neighbours are in one run exactly if the first has no stop, the second no restart, and both one direction |
| `I2cTransfer.BurstWrite` | src/i2c_twim.c:86-113 | two write messages without stop and restart between them make one transfer that carries both |
| `I2cTransfer.WriteThenRead` | src/i2c_twim.c:133-148 | a write and a read make two transfers, the first of which keeps the bus |
| `I2cTransfer.Load` | src/i2c_twim.c:87-127 | the shared buffer holds the run's bytes so far and is never overfilled; nothing is left to be sent from flash |
| `I2cTransfer.Prepare` | src/i2c_twim.c:133-148 | the transfer set up is the one for the run, whichever buffer it uses |
| `I2cTransfer.Finish` | src/i2c_twim.c:190-206 | a finished run adds its bytes to those of the runs before it and disturbs none |
| `I2cTransfer.Scatter` | src/i2c_twim.c:197-204 | handing back from the last message to the first gives every message its bytes and changes no other buffer; it arrives in front of the first message exactly if all messages before the run are empty |
| `I2cTransfer.Issue` | src/i2c_twim.c:133-188 | one transfer for the run, acknowledged and taken in, or failed with the code for why and nothing changed |
| `I2cTransfer.OutsideStep` | src/i2c_twim.c:197-203 | a further run reaches in front of the list exactly by its own condition |
| `I2cTransfer.TwoMessagesReachOutside` | src/i2c_twim.c:197-203 | every merged read of two messages, the first not empty, reaches in front of the list |
| `I2cTransfer.RunEnds` | src/i2c_twim.c:72-84 | the end of a maximal run adds exactly one transfer |
| `I2cTransfer.RunStartIs` | src/i2c_twim.c:72-84 | a maximal run is determined by its last message |
| `I2cTransfer.OneDirection` | src/i2c_twim.c:83-84 | all messages of a run have one direction |
| `I2cTransfer.RunScattered` | src/i2c_twim.c:190-206 | delivering a run keeps every earlier run delivered |

## Left out

- KveStorage.Memory.Read: a read over the end of the memory leaves the buffer as it was, as src/storage.c does; other reasons for a read or a write to fail are not modelled, since the callers ignore the result.
- KveStorage.Memory.FindItemByPrefix: on records whose key does not lie inside them only that the search ends is stated; which bytes such a record hands out depends on what was read before.
- Kve.Store.Put: stated for tables with unique keys inside their records, which is what every run from a format reaches; for other images that pass the check, only compaction, the check, mounting and the ending of the walks are covered.
- Kve.Store.Foreach: the callback is a function of the calls so far and does not change the store while it is iterated over.
- Kve.Store.Mount: the printing and the mutex around the check are left out.
- Log.Logger.CreateBlock: whether the timer could be created is a parameter; timers and their periods are not modelled.
- Log.Logger.AppendBlock: stands for both versions of the command, on settings widened to the larger id; the memory-variable branch (id 255 in version 1, 0xffff in version 2), which stores pointers into the packet, is left out.
- Log.Logger.RunBlock: the stored bytes of a variable, whether in memory or from a function, and the conversions of the floating-point unit are parameters; sending the packet, and the reset when the connection is down, are left out.
- ConfigBlock.Config.Init: the set-up of the EEPROM driver is left out; calibration values are bytes, not floats, and their accessors and the one for the radio speed would only repeat the other two.
- I2cTransfer.Scatter: stops in front of the first message; what the source reads there, and does with it, is not modelled.
- I2cTransfer.Transfer: the peripheral, its semaphores and timeouts, and the bus recovery are replaced by an answer and the received bytes for every transfer.
- KveRuns.Run: a compaction called from outside while the store is full to the last byte is excluded; the source would take the invalid address for the length of a block. No caller in the repository does so.
- Kve.Store.GetStats: stated for tables that can be read; of a table full to the last byte the source reads a header that is not there.
- Storage.Partition.WriteEeprom: a bus that fails in the middle of a store is not covered; the store ignores the result.
- Power loss between the writes of the key/value store: the source makes no promise about it.
- Static buffers (`searchBuffer`, `moveBuffer`, `keyBuffer`) are local variables: calls run one after the other.
- Concurrency of the log thread, the worker queue and the timers; locks.
- The hash over the log table of contents (src/log.c:189-214).
- The version 1 commands for the log table of contents, whose ids are bytes: the same walk as version 2.
- Rounding, NaN and overflow of floats, and the functions of includes/math3d.h that need roots or trigonometry.
- Delays between the retries of the EEPROM driver, and its memory handlers, which test the range once more and call the modelled functions.
- src/storage.c apart from mounting, src/crtp.c, src/console.c, src/radiolink.c, src/app_channel.c, src/platformservice.c: queues, locks and printing.
- src/commander.c, src/crtp_commander_high_level.c, src/controller_pid.c and the planner headers: single-branch facts, or resting on code that is not in the repository.
- src/led.c and src/pm.c: commented out.
