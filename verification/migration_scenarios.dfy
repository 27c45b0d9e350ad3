/** Whole runs of the migration on a host where every command succeeds and `findmnt`
    reports the live table as it is: `unmount` then `remount` moves every Crusoe mount onto
    the DNS endpoint, and `unmount` then `rollback` gives back the original table. */
module MigrationScenarios {
  import opened Wrappers
  import opened Text
  import opened Inventory
  import opened DnsFstab
  import opened MigrationSteps
  import opened MigrationPhases

  /** `findmnt -t nfs --json` lists exactly the live table. */
  ghost predicate Faithful(findmnt: FindmntQuery)
  {
    forall t :: findmnt(t) == Printed(Some(t))
  }

  /** An entry whose source is a Crusoe volume holding the delimiter exactly once. */
  predicate PlainVolumeEntry(e: FindmntEntry)
  {
    IsVolumeSource(e.source) &&
    FindFrom(e.source, VOLUMES, FindFrom(e.source, VOLUMES, 0).value + |VOLUMES|).None?
  }

  /** A table entry that mounts a Crusoe volume over DNS with the migration's options. */
  predicate IsDnsEntry(e: FindmntEntry)
  {
    CRUSOE_NFS_DOMAIN <= e.source && e.options == DNS_MOUNT_OPTIONS
  }

  lemma {:induction false} PendingNoneLive(ms: seq<MountRecord>)
    ensures Pending(ms, {}) == ms
  {
    if ms != [] {
      PendingNoneLive(ms[1..]);
      assert [ms[0]] + ms[1..] == ms;
    }
  }

  lemma {:induction false} UnmountLiveNoneLive(w: World, ms: seq<MountRecord>, failing: set<Command>)
    ensures UnmountLive(w, ms, {}, failing) == (w, true)
  {
    if ms != [] {
      UnmountLiveNoneLive(w, ms[1..], failing);
    }
  }

  lemma {:induction false} WithIpsAll(ms: seq<MountRecord>)
    requires forall m :: m in ms ==> m.ipAddress != ""
    ensures WithIps(ms) == ms
  {
    if ms != [] {
      WithIpsAll(ms[1..]);
      assert [ms[0]] + ms[1..] == ms;
    }
  }

  /** Every entry a restore adds is the listing of one of its records' mount calls. */
  lemma {:induction false} NewEntriesFrom(ms: seq<MountRecord>, dirs: set<string>, scheme: Scheme, failing: set<Command>)
    ensures forall e :: e in NewEntries(ms, dirs, scheme, failing) ==> exists m :: m in ms && e == Listed(CallFor(m, scheme))
  {
    if ms != [] {
      NewEntriesFrom(ms[1..], dirs, scheme, failing);
    }
  }

  lemma EmptyWhenNoMember(s: seq<FindmntEntry>)
    ensures (forall e :: e !in s) ==> s == []
  {
    if s != [] {
      assert s[0] in s;
    }
  }

  /** With nothing failing and every entry a Crusoe volume, `unmount` records every entry
      and leaves the table empty. */
  lemma UnmountEmptiesTable(w: World, checkpoint: Option<seq<MountRecord>>, findmnt: FindmntQuery)
    requires Faithful(findmnt)
    requires AllVolumeSources(w.live) && w.live != []
    ensures var o := UnmountPhase(w, checkpoint, findmnt, true, {});
      o.ok && o.checkpoint == Some(CollectEntries(w.live)) && CollectEntries(w.live) != [] && o.world.live == []
  {
    var ms := CollectEntries(w.live);
    CollectLength(w.live);
    assert GetCurrentMounts(findmnt(w.live)) == Some(ms);
    UnmountPhaseSpec(w, checkpoint, findmnt, true, {});
    var w0 := w.(dirs := w.dirs + {CRUSOE_DIR});
    UnmountEachSpec(w0, ms, {}, 0);
    var o := UnmountPhase(w, checkpoint, findmnt, true, {});
    assert o.world == UnmountEach(w0, ms, {}, 0).0;
    forall e | e in w.live ensures Unmounted(ms, {}, e.target) {
      var i :| 0 <= i < |w.live| && w.live[i] == e;
      CollectMembership(w.live, ToRecord(e));
      assert ToRecord(e) in ms;
      var j :| 0 <= j < |ms| && ms[j] == ToRecord(e);
    }
    EmptyWhenNoMember(o.world.live);
  }

  /** After a successful `unmount`, `remount` restores every recorded mount over DNS and
      adds nothing else to the emptied table. */
  lemma RemountAfterUnmount(w: World, checkpoint: Option<seq<MountRecord>>, findmnt: FindmntQuery)
    requires Faithful(findmnt)
    requires AllVolumeSources(w.live) && w.live != []
    ensures var o := UnmountPhase(w, checkpoint, findmnt, true, {});
      var ms := CollectEntries(w.live);
      var (w2, ok2) := RemountPhase(o.world, o.checkpoint, findmnt, true, {});
      && o.ok && o.checkpoint == Some(ms) && ok2
      && w2.live == NewEntries(ms, o.world.dirs, Dns, {})
      && (forall m :: m in ms ==>
            FindmntEntry(VolumeSource(CRUSOE_NFS_DOMAIN, m.volumeId), m.mountPoint, DNS_MOUNT_OPTIONS) in w2.live)
  {
    var ms := CollectEntries(w.live);
    UnmountEmptiesTable(w, checkpoint, findmnt);
    var o := UnmountPhase(w, checkpoint, findmnt, true, {});
    assert GetCurrentMounts(findmnt(o.world.live)) == Some([]);
    assert LivePoints(Some([])) == {};
    PendingNoneLive(ms);
    RemountPhaseRestores(o.world, ms, findmnt, {});
    var (w2, ok2) := RemountPhase(o.world, o.checkpoint, findmnt, true, {});
    assert [] + NewEntries(ms, o.world.dirs, Dns, {}) == NewEntries(ms, o.world.dirs, Dns, {});
    assert ok2 by {
      assert forall i :: 0 <= i < |ms| ==> RestoreOk(ms[i], o.world.dirs, Dns, {});
    }
  }

  /** `unmount` then `remount`, with every command succeeding: both report success, every
      originally mounted Crusoe volume is mounted again at the same mount point from the DNS
      endpoint with the migration's options, and no other mount is left. */
  lemma UnmountThenRemount(w: World, checkpoint: Option<seq<MountRecord>>, findmnt: FindmntQuery)
    requires Faithful(findmnt)
    requires AllVolumeSources(w.live) && w.live != []
    ensures var o := UnmountPhase(w, checkpoint, findmnt, true, {});
      var (w2, ok2) := RemountPhase(o.world, o.checkpoint, findmnt, true, {});
      && o.ok && ok2
      && (forall e :: e in w.live ==>
            FindmntEntry(VolumeSource(CRUSOE_NFS_DOMAIN, ToRecord(e).volumeId), e.target, DNS_MOUNT_OPTIONS) in w2.live)
      && (forall e :: e in w2.live ==> IsDnsEntry(e))
  {
    var ms := CollectEntries(w.live);
    RemountAfterUnmount(w, checkpoint, findmnt);
    var o := UnmountPhase(w, checkpoint, findmnt, true, {});
    var (w2, ok2) := RemountPhase(o.world, o.checkpoint, findmnt, true, {});
    forall e | e in w.live
      ensures FindmntEntry(VolumeSource(CRUSOE_NFS_DOMAIN, ToRecord(e).volumeId), e.target, DNS_MOUNT_OPTIONS) in w2.live
    {
      var i :| 0 <= i < |w.live| && w.live[i] == e;
      CollectMembership(w.live, ToRecord(e));
    }
    NewEntriesFrom(ms, o.world.dirs, Dns, {});
    forall e | e in w2.live ensures IsDnsEntry(e) {
      var m :| m in ms && e == Listed(CallFor(m, Dns));
      assert CRUSOE_NFS_DOMAIN <= VolumeSource(CRUSOE_NFS_DOMAIN, m.volumeId);
    }
  }

  /** Restoring, over IP with nothing failing, the records collected from a table of
      single-delimiter Crusoe volume entries lists exactly those entries again, in order. */
  lemma {:induction false} RestoreCollected(es: seq<FindmntEntry>, dirs: set<string>)
    requires forall e :: e in es ==> PlainVolumeEntry(e)
    ensures NewEntries(CollectEntries(es), dirs, Ip, {}) == es
  {
    if es != [] {
      assert es[0] in es;
      RestoreCollected(es[1..], dirs);
      RollbackRestoresEntry(es[0]);
      var rest := CollectEntries(es[1..]);
      assert CollectEntries(es) == [ToRecord(es[0])] + rest;
      assert ([ToRecord(es[0])] + rest)[1..] == rest;
      assert [es[0]] + es[1..] == es;
    }
  }

  /** Single-delimiter Crusoe volume entries that name an address are all collected, each
      with its address. */
  lemma PlainEntriesWithIps(es: seq<FindmntEntry>)
    requires forall e :: e in es ==> PlainVolumeEntry(e) && SplitSource(e.source).0 != ""
    ensures AllVolumeSources(es)
    ensures forall m :: m in CollectEntries(es) ==> m.ipAddress != ""
  {
    forall i | 0 <= i < |es| ensures IsVolumeSource(es[i].source) {
      assert es[i] in es;
    }
    forall m | m in CollectEntries(es) ensures m.ipAddress != "" {
      CollectMembership(es, m);
      var i :| 0 <= i < |es| && IsVolumeSource(es[i].source) && ToRecord(es[i]) == m;
      assert es[i] in es;
    }
  }

  /** `unmount` then `rollback`, with every command succeeding, on a table of Crusoe volume
      entries that each hold the delimiter once and name an address: both report success
      and the mount table is exactly the original one again. */
  lemma UnmountThenRollback(w: World, checkpoint: Option<seq<MountRecord>>, findmnt: FindmntQuery)
    requires Faithful(findmnt)
    requires w.live != []
    requires forall e :: e in w.live ==> PlainVolumeEntry(e) && SplitSource(e.source).0 != ""
    ensures var o := UnmountPhase(w, checkpoint, findmnt, true, {});
      var (w2, ok2) := RollbackPhase(o.world, o.checkpoint, findmnt, true, {});
      o.ok && ok2 && w2.live == w.live
  {
    var ms := CollectEntries(w.live);
    PlainEntriesWithIps(w.live);
    UnmountEmptiesTable(w, checkpoint, findmnt);
    var o := UnmountPhase(w, checkpoint, findmnt, true, {});
    WithIpsAll(ms);
    assert GetCurrentMounts(findmnt(o.world.live)) == Some([]);
    assert LivePoints(Some([])) == {};
    UnmountLiveNoneLive(o.world, ms, {});
    RestoreEachLive(o.world, ms, Ip, {}, 0);
    RestoreEachFailures(o.world, ms, Ip, {}, 0);
    RestoreCollected(w.live, o.world.dirs);
  }
}
