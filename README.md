# Midnight Commander VFS stamp reaper, modelled in Dafny

Midnight Commander keeps sessions of its virtual filesystems open (archives,
network connections) and frees the idle ones later. `lib/vfs/gc.c` does the
bookkeeping. It keeps a process-wide list of *stamps*. Each stamp names a
filesystem class, an opaque session id (`vfsid`) and the time the session was
last touched. The file offers these operations:

- `vfs_stamp` refreshes a stamp and reports whether it found one.
- `vfs_rmstamp` unlinks a stamp without freeing the session.
- `vfs_addstamp` inserts a stamp if none exists, and never for a local class
  or a NULL id.
- `vfs_expire` sweeps the list. A forced sweep frees everything. A normal
  sweep frees each stamp touched no later than `now - vfs_timeout`. A static
  latch turns a nested sweep into a no-op.
- `vfs_timeouts` gives the timer a coarse hint.
- `vfs_gc_done` frees everything at exit.
- `vfs_stamp_create` decides whether the session being left gets stamped.
  With a "vfs_timestamp" listener registered, it never leaves the current
  directory's session stamped.

The model is six modules:

- `Timeval` (`timeval.dfy`): `struct timeval` and `timeoutcmp`.
- `Stamping` (`stamping.dfy`): the records, class identity, the comparator,
  the list scan `g_slist_find_custom`, and the list invariant (`Wellformed`:
  no local class, no NULL id, no two records with the same (class, id)).
- `Registry` (`registry.dfy`): the list after `vfs_stamp`, `vfs_rmstamp` and
  `vfs_addstamp`, as functions, with their properties.
- `Sweep` (`sweep.dfy`): which records a sweep keeps and releases, and the
  free-hook calls it makes.
- `Create` (`create.dfy`): the stamping policy of `vfs_stamp_create`.
- `VfsGc` (`gc.dfy`): class `Gc` holds gc.c's file-scope state: `stamps`,
  the latch `locked` and `vfs_timeout`. Its methods are the operations of the
  file, and each is proved against the functions above. A ghost trace `freed`
  records every call to a class's `free` hook.

A `struct vfs_class` is a Dafny class with three constant fields: whether
`VFSF_LOCAL` is set, whether `free` is non-NULL, and whether `nothingisopen`
is non-NULL. Classes are compared by identity, as the C pointers are. A
`vfsid` is `NullId` or `Id(n)`.

Where gc.c's comments and its code differ, and where the code makes a choice a
reader might not expect, the model follows the code:

- The comment at `lib/vfs/gc.c:112` says `timeoutcmp` returns 0 when t1 is
  less than t2. The code returns true when t1 is at or before t2, and the
  model uses that. A stamp whose time equals the cutoff expires.
- The stamp list is ordered. `vfs_addstamp` appends, and sweeps call the
  free hooks in list order. The model keeps that order.
- `vfs_gc_done` and a forced sweep call a class's `free` only when it is
  non-NULL, but they unlink every record either way.
- `vfs_gc_done` does not look at the latch.

## Model

| member | source | states |
|---|---|---|
| `Timeval.TimeoutCmp` | lib/vfs/gc.c:113-118 | defined as timeoutcmp: t1 is not later than t2, seconds compared first and microseconds second, so equal times compare true; its order properties are the next two rows |
| `Timeval.TimeoutCmpIsMicrosOrder` | lib/vfs/gc.c:113-118 | on normalized times, timeoutcmp (t1, t2) holds exactly when t1 is at or before t2 in microseconds, ties included |
| `Timeval.TimeoutCmpIsTotalOrder` | lib/vfs/gc.c:113-118 | timeoutcmp is reflexive, total, antisymmetric and transitive on all times |
| `Timeval.Cutoff` | lib/vfs/gc.c:294-297 | the sweep's cutoff lies exactly vfs_timeout seconds before now, with the microseconds kept |
| `Timeval.DueIffTimeoutElapsed` | lib/vfs/gc.c:151-155 | a record touched at t expires at now exactly when at least vfs_timeout whole seconds have passed (59 s keeps it, 60 s releases it) |
| `Stamping.StampCompare` | lib/vfs/gc.c:122-129 | the comparator returns 0 exactly when both records have the same class and id, and 1 otherwise |
| `Stamping.IndexOf` | lib/vfs/gc.c:190 | the position found is a record of (v, id) with none before it; -1 means no record of (v, id) |
| `Stamping.FindCustom` | lib/vfs/gc.c:211 | the list scan with the comparator returns the position of the first record of (v, id), or -1 |
| `Stamping.CountIsOneIffFound` | lib/vfs/gc.c:161-174 | in a list without duplicate keys, a (class, id) has one record if it is found and none otherwise |
| `Registry.Touched` | lib/vfs/gc.c:180-198 | vfs_stamp keeps the length and every record's key, and leaves the list unchanged when (v, id) is absent |
| `Registry.TouchRefreshesOnlyItsRecord` | lib/vfs/gc.c:190-195 | vfs_stamp gives the record of (v, id) the time now and leaves every other record as it was |
| `Registry.TouchedWellformed` | lib/vfs/gc.c:180-198 | vfs_stamp preserves the list invariant |
| `Registry.Removed` | lib/vfs/gc.c:202-217 | vfs_rmstamp leaves an absent key's list unchanged and otherwise shortens the list by exactly one |
| `Registry.RemovedIsWithout` | lib/vfs/gc.c:211-216 | unlinking the first record of (v, id) equals dropping every record of (v, id) with the rest in their order |
| `Registry.RemovedLeavesNone` | lib/vfs/gc.c:202-217 | after vfs_rmstamp, a vfs_stamp of the same (v, id) finds nothing |
| `Registry.RemovedMembers` | lib/vfs/gc.c:202-217 | vfs_rmstamp keeps every record of another key and adds none |
| `Registry.RemovedWellformed` | lib/vfs/gc.c:202-217 | vfs_rmstamp preserves the list invariant |
| `Registry.AddStamped` | lib/vfs/gc.c:160-174 | vfs_addstamp leaves the list unchanged for a local class or a NULL id, grows it by at most one record, and keeps every existing record's key in its place |
| `Registry.AddStampedWellformed` | lib/vfs/gc.c:161-174 | vfs_addstamp preserves the list invariant: it never adds a local class, a NULL id or a second record of a key |
| `Registry.AddStampedExactlyOne` | lib/vfs/gc.c:163-172 | after vfs_addstamp of a stampable (v, id), the list holds exactly one record of it |
| `Registry.AddStampedIdempotent` | lib/vfs/gc.c:163-172 | a second vfs_addstamp of the same (v, id) only refreshes: the two calls together act like the second one alone |
| `Registry.AddStampedFrame` | lib/vfs/gc.c:161-174 | vfs_addstamp leaves the records of every other key as they were |
| `Registry.AddStampedFinds` | lib/vfs/gc.c:163 | after vfs_addstamp, (v, id) is present exactly when it was present before or passes the local/NULL guard |
| `Sweep.Expires` | lib/vfs/gc.c:151 | defined as the test of vfs_stamp_expire: the sweep is forced (user_data NULL), or timeoutcmp puts the record's time at or before the cutoff |
| `Sweep.Survivors` | lib/vfs/gc.c:291-299 | defined as the records of the list whose expiry test fails, in list order: what g_slist_foreach with vfs_stamp_expire leaves; `SelectMembers` and `SweepPartition` state its members |
| `Sweep.Reaped` | lib/vfs/gc.c:291-299 | defined as the records of the list whose expiry test holds, in list order: what the sweep releases; `SelectMembers` and `SweepPartition` state its members |
| `Sweep.FreeCall` | lib/vfs/gc.c:133-142 | defined as vfs_stamp_free on one record: one call of the class's free hook with the record's id if the hook is non-NULL, and none otherwise |
| `Sweep.FreeCalls` | lib/vfs/gc.c:343 | defined as vfs_stamp_free on every record in list order, as the foreach of vfs_gc_done; `FreeCallsMembers` and `FreeCallsOnce` state what it calls |
| `Sweep.SelectMembers` | lib/vfs/gc.c:146-156 | the records a sweep keeps, or releases, are exactly the original records whose expiry test comes out that way |
| `Sweep.SelectWellformed` | lib/vfs/gc.c:146-156 | what a sweep keeps still satisfies the list invariant |
| `Sweep.SweepPartition` | lib/vfs/gc.c:146-156 | a sweep splits the list: each record is either kept or released, as a multiset |
| `Sweep.ForcedSweepTakesAll` | lib/vfs/gc.c:290-291 | a forced sweep keeps nothing and releases every record in list order |
| `Sweep.SweepIdempotent` | lib/vfs/gc.c:293-300 | sweeping again with the same cutoff releases nothing more |
| `Sweep.FreeCallsMembers` | lib/vfs/gc.c:133-142 | the free hook is called for a (class, id) exactly when a record of it has a class with a free hook |
| `Sweep.FreeCallsOnce` | lib/vfs/gc.c:340-346 | with unique keys, no (class, id) reaches a free hook twice |
| `Sweep.SweepFreesEachReleasedOnce` | lib/vfs/gc.c:151-155 | a sweep calls the free hook once for each released record whose class has one, for no other record, and never twice |
| `Sweep.SweepStateWellformed` | lib/vfs/gc.c:299 | halfway through a sweep the list still satisfies the invariant |
| `Sweep.SweepStep` | lib/vfs/gc.c:147-156 | vfs_stamp_expire on the next original record takes the list from i to i + 1 records swept |
| `Sweep.SweepStepTrace` | lib/vfs/gc.c:151-153 | vfs_stamp_expire on the next original record adds its free-hook call exactly when it expires |
| `Create.StampCreated` | lib/vfs/gc.c:241-272 | vfs_stamp_create leaves the list unchanged without a "vfs_timestamp" listener, and never grows it by more than one record |
| `Create.StampCreateWellformed` | lib/vfs/gc.c:241-272 | vfs_stamp_create preserves the list invariant |
| `Create.StampCreateNeverStampsCwd` | lib/vfs/gc.c:258-264 | with a listener registered, the current directory's session has no stamp afterwards |
| `Create.StampCreateStampsIff` | lib/vfs/gc.c:264-270 | with a listener registered, the session left is stamped afterwards exactly when it is non-NULL and not the current directory's, and either already had a stamp or passes every test: no veto, a nothingisopen hook that reports nothing open, and a non-local class |
| `Create.StampCreateFrame` | lib/vfs/gc.c:255-270 | vfs_stamp_create changes nothing without a listener, and otherwise keeps every record of every other key |
| `VfsGc.Gc.constructor` | lib/vfs/gc.c:89-106 | the initial state has no stamps, vfs_timeout = 60 and an open latch |
| `VfsGc.Gc.Stamp` | lib/vfs/gc.c:180-198 | vfs_stamp returns whether (v, id) had a record, and the new list is `Touched` of the old one |
| `VfsGc.Gc.RmStamp` | lib/vfs/gc.c:202-217 | vfs_rmstamp makes the new list `Removed` of the old one and calls no free hook |
| `VfsGc.Gc.AddStamp` | lib/vfs/gc.c:160-174 | vfs_addstamp makes the new list `AddStamped` of the old one |
| `VfsGc.Gc.StampPath` | lib/vfs/gc.c:221-234 | vfs_stamp_path, given the resolved class and id, acts as vfs_addstamp |
| `VfsGc.Gc.StampCreate` | lib/vfs/gc.c:241-272 | vfs_stamp_create makes the new list `StampCreated` of the old one |
| `VfsGc.Gc.ReleasePath` | lib/vfs/gc.c:328-335 | vfs_release_path, given the resolved class and id, acts as vfs_stamp_create |
| `VfsGc.Gc.StampFree` | lib/vfs/gc.c:133-142 | vfs_stamp_free adds one call to the trace when the class has a free hook, and none otherwise |
| `VfsGc.Gc.StampExpire` | lib/vfs/gc.c:146-156 | vfs_stamp_expire frees and unlinks an expiring record, and leaves list and trace alone otherwise |
| `VfsGc.Gc.ExpireNext` | lib/vfs/gc.c:147-156 | one visit of the foreach: vfs_stamp_expire on the next record of the list the sweep started from takes the list and the free-hook trace from i records swept to i + 1 |
| `VfsGc.Gc.ForEachExpire` | lib/vfs/gc.c:291 | g_slist_foreach with vfs_stamp_expire leaves exactly the survivors, in order, and frees exactly the released records, in order |
| `VfsGc.Gc.Expire` | lib/vfs/gc.c:278-303 | vfs_expire does nothing while the latch is held; otherwise it sweeps (forced or up to now less vfs_timeout) and opens the latch again |
| `VfsGc.Gc.Timeouts` | lib/vfs/gc.c:312-316 | vfs_timeouts is 0 exactly when the list is empty, and 10 otherwise |
| `VfsGc.Gc.GcDone` | lib/vfs/gc.c:340-346 | vfs_gc_done calls every record's free hook in order (where there is one) and empties the list |
| `VfsGc.EarlySweepKeeps` | lib/vfs/gc.c:278-316 | a session stamped at t0 survives a sweep at t0 + 30 s under the default 60 s timeout, and the timer hint stays 10 |
| `VfsGc.LateSweepReleases` | lib/vfs/gc.c:278-316 | a session stamped at t0 is released by a sweep at t0 + 61 s, and the timer hint drops to 0 |

## Left out

- `gettimeofday` (lines 170, 193, 296): the clock is the parameter `now` of each operation that reads it.
- Path resolution (`vfs_path_from_str`, `vfs_path_get_by_index`, `vfs_getid`, `vfs_path_free`, `vfs_get_raw_current_dir`): these are other VFS code. `StampPath` and `ReleasePath` take the resolved class and id. `StampCreate` takes the current directory's class and id in its `Context`.
- The event system (`mc_event_present`, `mc_event_raise`): these are other code. `Context.listenerPresent` says whether a "vfs_timestamp" listener exists. `Context.vetoed` is the `ret` the listener leaves in the event data.
- The bodies of the class hooks `free` and `nothingisopen`: these are backend code. Calls to `free` go into the ghost trace `freed`. The answer of `nothingisopen` is `Context.nothingIsOpen`.
- A `free` hook that calls back into gc.c: not modelled. Such a hook could change the list in the middle of a sweep. A nested `vfs_expire` is covered by `Expire`'s contract for a held latch: it changes nothing.
- `vfs_timeout_handler` (lines 320-324): it only calls `vfs_expire (FALSE)`, which is `Expire(false, now)`.
- GLib list internals and memory management (`g_new`, `g_free`, `g_slist_append`, `g_slist_delete_link`, `g_slist_free_full`): the list is a `seq`, and allocation is not modelled.
- Integer widths: `time_t`, `suseconds_t` and `int` are unbounded integers. A `tv_sec - vfs_timeout` that overflows is not modelled.
- The other fields of `struct vfs_class`: only `VFSF_LOCAL`, `free` and `nothingisopen` are read by this file.
