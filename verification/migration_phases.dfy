/** The four subcommands of the IP-to-DNS migration (`unmount`, `remount`, `rollback`,
    `fstab`), each as the host state and verdict it leaves behind. */
module MigrationPhases {
  import opened Wrappers
  import opened Text
  import opened Inventory
  import opened DnsFstab
  import opened MigrationSteps

  const CRUSOE_DIR := "./crusoe"

  /** How `findmnt -t nfs --json` answers on a given live mount table. */
  type FindmntQuery = seq<FindmntEntry> -> FindmntResult

  /** What a subcommand leaves behind: the host, the checkpoint, and the verdict. */
  datatype Outcome = Outcome(world: World, checkpoint: Option<seq<MountRecord>>, ok: bool)

  // ---------------------------------------------------------------- unmount

  /** `do_unmount`: create the checkpoint directory, collect the mounts, keep an existing
      checkpoint when nothing is mounted, otherwise (once confirmed) save the mounts and
      then unmount every one of them. */
  function UnmountPhase(w: World, checkpoint: Option<seq<MountRecord>>, findmnt: FindmntQuery,
                        confirm: bool, failing: set<Command>): Outcome
  {
    var w0 := w.(dirs := w.dirs + {CRUSOE_DIR});
    match GetCurrentMounts(findmnt(w.live))
    case None => Outcome(w0, checkpoint, false)
    case Some(ms) =>
      if ms == [] then Outcome(w0, if checkpoint.Some? then checkpoint else Some([]), true)
      else if !confirm then Outcome(w0, checkpoint, false)
      else
        var (w1, failed) := UnmountEach(w0, ms, failing, 0);
        Outcome(w1, Some(ms), failed == 0)
  }

  /** The cases of `do_unmount`: a failed query or a declined prompt changes nothing but the
      checkpoint directory; an empty inventory succeeds and writes an empty checkpoint only
      when there was none; otherwise the checkpoint holds the inventory, every record gets
      its umount in order, and the verdict is that none of them failed. */
  lemma UnmountPhaseSpec(w: World, checkpoint: Option<seq<MountRecord>>, findmnt: FindmntQuery,
                         confirm: bool, failing: set<Command>)
    ensures var o := UnmountPhase(w, checkpoint, findmnt, confirm, failing);
      var got := GetCurrentMounts(findmnt(w.live));
      && CRUSOE_DIR in o.world.dirs
      && o.world.fstab == w.fstab
      && (got.None? ==> !o.ok && o.checkpoint == checkpoint && o.world.log == w.log)
      && (got == Some([]) ==>
            o.ok && o.world.log == w.log && o.checkpoint == (if checkpoint.Some? then checkpoint else Some([])))
      && (got.Some? && got.value != [] && !confirm ==> !o.ok && o.checkpoint == checkpoint && o.world.log == w.log)
      && (got.Some? && got.value != [] && confirm ==>
            && o.checkpoint == got
            && o.world.log == w.log + UmountCalls(got.value)
            && (o.ok <==> forall i :: 0 <= i < |got.value| ==> Umount(got.value[i].mountPoint) !in failing))
  {
    var got := GetCurrentMounts(findmnt(w.live));
    if got.Some? && got.value != [] && confirm {
      UnmountEachSpec(w.(dirs := w.dirs + {CRUSOE_DIR}), got.value, failing, 0);
    }
  }

  /** An existing checkpoint is only ever replaced by a non-empty inventory, and any umount
      that is issued comes with the inventory already saved. */
  lemma UnmountKeepsCheckpoint(w: World, checkpoint: Option<seq<MountRecord>>, findmnt: FindmntQuery,
                               confirm: bool, failing: set<Command>)
    ensures var o := UnmountPhase(w, checkpoint, findmnt, confirm, failing);
      var got := GetCurrentMounts(findmnt(w.live));
      && (checkpoint.Some? && o.checkpoint != checkpoint ==> got.Some? && got.value != [] && o.checkpoint == got)
      && (o.world.log != w.log ==> got.Some? && got.value != [] && o.checkpoint == got)
  {
    UnmountPhaseSpec(w, checkpoint, findmnt, confirm, failing);
  }

  // ---------------------------------------------------------------- remount

  /** The mount points of the current inventory; a failed query counts as no mounts. */
  function LivePoints(current: Option<seq<MountRecord>>): (points: set<string>)
    ensures current.Some? ==> forall m :: m in current.value ==> m.mountPoint in points
    ensures forall p :: p in points ==> current.Some? && exists m :: m in current.value && m.mountPoint == p
  {
    match current
    case None => {}
    case Some(ms) => set m | m in ms :: m.mountPoint
  }

  /** `mounts_to_restore`: the records whose mount point is not live, in order. */
  function Pending(ms: seq<MountRecord>, points: set<string>): (r: seq<MountRecord>)
    ensures forall m :: m in r <==> m in ms && m.mountPoint !in points
  {
    if ms == [] then []
    else (if ms[0].mountPoint !in points then [ms[0]] else []) + Pending(ms[1..], points)
  }

  /** The to-restore and already-mounted lists split the checkpoint: together they hold
      every record exactly as often as it appears. */
  lemma {:induction false} PartitionCovers(ms: seq<MountRecord>, points: set<string>)
    ensures multiset(Pending(ms, points)) + multiset(LiveOnes(ms, points)) == multiset(ms)
  {
    if ms != [] {
      PartitionCovers(ms[1..], points);
      assert ms == [ms[0]] + ms[1..];
    }
  }

  /** The to-restore list keeps the checkpoint order: it distributes over concatenation. */
  lemma {:induction false} PendingKeepsOrder(a: seq<MountRecord>, b: seq<MountRecord>, points: set<string>)
    ensures Pending(a + b, points) == Pending(a, points) + Pending(b, points)
  {
    if a == [] {
      assert a + b == b;
    } else {
      assert (a + b)[1..] == a[1..] + b;
      PendingKeepsOrder(a[1..], b, points);
    }
  }

  /** The already-mounted list keeps the checkpoint order as well. */
  lemma {:induction false} LiveOnesKeepOrder(a: seq<MountRecord>, b: seq<MountRecord>, points: set<string>)
    ensures LiveOnes(a + b, points) == LiveOnes(a, points) + LiveOnes(b, points)
  {
    if a == [] {
      assert a + b == b;
    } else {
      assert (a + b)[1..] == a[1..] + b;
      LiveOnesKeepOrder(a[1..], b, points);
    }
  }

  /** Every mount call the restore loop issues is the one for one of its records. */
  lemma {:induction false} IssuedFromRecords(ms: seq<MountRecord>, dirs: set<string>, scheme: Scheme, failing: set<Command>)
    ensures forall call :: call in IssuedCalls(ms, dirs, scheme, failing) ==> exists m :: m in ms && call == CallFor(m, scheme)
  {
    if ms != [] {
      IssuedFromRecords(ms[1..], dirs, scheme, failing);
    }
  }

  /** Each record that is restored leaves its entry in the table. */
  lemma {:induction false} RestoredListed(ms: seq<MountRecord>, dirs: set<string>, scheme: Scheme, failing: set<Command>)
    ensures forall m :: m in ms && RestoreOk(m, dirs, scheme, failing) ==> Listed(CallFor(m, scheme)) in NewEntries(ms, dirs, scheme, failing)
  {
    if ms != [] {
      RestoredListed(ms[1..], dirs, scheme, failing);
    }
  }

  /** `do_remount`: restore, over DNS, the checkpointed mounts that are not live, after a
      reachability check; the checkpoint is read, never written. */
  function RemountPhase(w: World, checkpoint: Option<seq<MountRecord>>, findmnt: FindmntQuery,
                        confirm: bool, failing: set<Command>): (World, bool)
  {
    match checkpoint
    case None => (w, false)
    case Some(ms) =>
      if ms == [] then (w, true)
      else
        var toRestore := Pending(ms, LivePoints(GetCurrentMounts(findmnt(w.live))));
        if toRestore == [] then (w, true)
        else
          var w1 := Exec(w, PingDomain, failing);
          if PingDomain in failing || !confirm then (w1, false)
          else
            var (w2, failed) := RestoreEach(w1, toRestore, Dns, failing, 0);
            (w2, failed == 0)
  }

  /** The cases of `do_remount`: no checkpoint fails and an empty one succeeds, both without
      a command; when everything is live it succeeds without pinging; an unreachable domain
      or a declined prompt stops after the ping. */
  lemma RemountPhaseGates(w: World, checkpoint: Option<seq<MountRecord>>, findmnt: FindmntQuery,
                          confirm: bool, failing: set<Command>)
    ensures var (w', ok) := RemountPhase(w, checkpoint, findmnt, confirm, failing);
      var points := LivePoints(GetCurrentMounts(findmnt(w.live)));
      && (checkpoint.None? ==> !ok && w' == w)
      && (checkpoint == Some([]) ==> ok && w' == w)
      && (checkpoint.Some? && Pending(checkpoint.value, points) == [] ==> ok && w' == w)
      && (checkpoint.Some? && Pending(checkpoint.value, points) != [] ==>
            && w.log + [PingDomain] <= w'.log
            && (PingDomain in failing || !confirm ==> !ok && w' == w.(log := w.log + [PingDomain])))
  {
    if checkpoint.Some? && checkpoint.value != [] {
      var toRestore := Pending(checkpoint.value, LivePoints(GetCurrentMounts(findmnt(w.live))));
      if toRestore != [] && PingDomain !in failing && confirm {
        RestoreEachLog(Exec(w, PingDomain, failing), toRestore, Dns, failing, 0);
      }
    }
  }

  /** Once past the gates, every checkpointed record that is not live gets a DNS mount (its
      directory created first when missing); live ones get none; the verdict is true exactly
      when all of them are restored, and then each is listed under the DNS source. */
  lemma RemountPhaseRestores(w: World, ms: seq<MountRecord>, findmnt: FindmntQuery, failing: set<Command>)
    requires PingDomain !in failing
    ensures var (w', ok) := RemountPhase(w, Some(ms), findmnt, true, failing);
      var points := LivePoints(GetCurrentMounts(findmnt(w.live)));
      var toRestore := Pending(ms, points);
      && w.log <= w'.log
      && MountsIn(w'.log[|w.log|..]) == IssuedCalls(toRestore, w.dirs, Dns, failing)
      && (forall call :: call in MountsIn(w'.log[|w.log|..]) ==>
            call.mountPoint !in points && call.options == WithOptions(DNS_MOUNT_OPTIONS) &&
            exists m :: m in ms && call.mountPoint == m.mountPoint && call.source == VolumeSource(CRUSOE_NFS_DOMAIN, m.volumeId))
      && w'.live == w.live + NewEntries(toRestore, w.dirs, Dns, failing)
      && (ok <==> forall i :: 0 <= i < |toRestore| ==> RestoreOk(toRestore[i], w.dirs, Dns, failing))
      && (ok ==> forall m :: m in ms && m.mountPoint !in points ==>
            FindmntEntry(VolumeSource(CRUSOE_NFS_DOMAIN, m.volumeId), m.mountPoint, DNS_MOUNT_OPTIONS) in w'.live)
      && w'.fstab == w.fstab
  {
    var points := LivePoints(GetCurrentMounts(findmnt(w.live)));
    var toRestore := Pending(ms, points);
    var w1 := Exec(w, PingDomain, failing);
    assert w1 == w.(log := w.log + [PingDomain]);
    if ms != [] && toRestore != [] {
      RestoreEachLog(w1, toRestore, Dns, failing, 0);
      RestoreEachLive(w1, toRestore, Dns, failing, 0);
      RestoreEachFstab(w1, toRestore, Dns, failing, 0);
      RestoreEachFailures(w1, toRestore, Dns, failing, 0);
      IssuedFromRecords(toRestore, w.dirs, Dns, failing);
      RestoredListed(toRestore, w.dirs, Dns, failing);
      var w' := RestoreEach(w1, toRestore, Dns, failing, 0).0;
      LogTail(w.log, w1.log, w'.log);
      assert MountsIn(w1.log[|w.log|..]) == [] by {
        assert w1.log[|w.log|..] == [PingDomain];
        assert [PingDomain][1..] == [];
      }
      MountsInAppend(w1.log[|w.log|..], w'.log[|w1.log|..]);
      if RestoreEach(w1, toRestore, Dns, failing, 0).1 == 0 {
        forall m | m in ms && m.mountPoint !in points
          ensures FindmntEntry(VolumeSource(CRUSOE_NFS_DOMAIN, m.volumeId), m.mountPoint, DNS_MOUNT_OPTIONS) in w'.live
        {
          assert m in toRestore;
          var i :| 0 <= i < |toRestore| && toRestore[i] == m;
          assert RestoreOk(toRestore[i], w.dirs, Dns, failing);
        }
      }
    } else if ms != [] {
      assert forall m :: m in ms ==> m.mountPoint in points;
      assert w.log[|w.log|..] == [];
    }
  }

  // ---------------------------------------------------------------- rollback

  /** `mounts_with_ips`: the records that carry an IP address. */
  function WithIps(ms: seq<MountRecord>): (r: seq<MountRecord>)
    ensures forall m :: m in r <==> m in ms && m.ipAddress != ""
  {
    if ms == [] then []
    else (if ms[0].ipAddress != "" then [ms[0]] else []) + WithIps(ms[1..])
  }

  /** `do_rollback`: unmount the live records that carry an IP (stopping at the first
      failure), then mount each of them again from its IP with its saved options. */
  function RollbackPhase(w: World, checkpoint: Option<seq<MountRecord>>, findmnt: FindmntQuery,
                         confirm: bool, failing: set<Command>): (World, bool)
  {
    match checkpoint
    case None => (w, false)
    case Some(ms) =>
      if ms == [] then (w, true)
      else
        var withIps := WithIps(ms);
        if withIps == [] || !confirm then (w, false)
        else
          var points := LivePoints(GetCurrentMounts(findmnt(w.live)));
          var (w1, unmounted) := UnmountLive(w, withIps, points, failing);
          if !unmounted then (w1, false)
          else
            var (w2, failed) := RestoreEach(w1, withIps, Ip, failing, 0);
            (w2, failed == 0)
  }

  predicate NoMounts(cs: seq<Command>)
  {
    forall c :: c in cs ==> !c.Mount?
  }

  lemma {:induction false} MountsInNone(cs: seq<Command>)
    requires NoMounts(cs)
    ensures MountsIn(cs) == []
  {
    if cs != [] {
      assert cs[0] in cs;
      assert NoMounts(cs[1..]) by {
        forall c | c in cs[1..] ensures !c.Mount? { assert c in cs; }
      }
      MountsInNone(cs[1..]);
    }
  }

  lemma UmountCallsNoMounts(ms: seq<MountRecord>, failing: set<Command>)
    ensures NoMounts(UmountCalls(ms)) && NoMounts(FailFast(UmountCalls(ms), failing))
  {
    var u := UmountCalls(ms);
    FailFastSpec(u, failing);
    assert forall k :: 0 <= k < |u| ==> u[k].Umount? by {
      forall k | 0 <= k < |u| ensures u[k].Umount? { UmountCallsAt(ms, k); }
    }
  }

  lemma {:induction false} UmountCallsAt(ms: seq<MountRecord>, k: nat)
    requires k < |ms|
    ensures UmountCalls(ms)[k] == Umount(ms[k].mountPoint)
  {
    if k > 0 {
      UmountCallsAt(ms[1..], k - 1);
    }
  }

  /** The early cases of `do_rollback`: no checkpoint fails and an empty one succeeds; a
      checkpoint without any IP address, or a declined prompt, fails; none of them issues
      a command. */
  lemma RollbackPhaseGates(w: World, checkpoint: Option<seq<MountRecord>>, findmnt: FindmntQuery,
                           confirm: bool, failing: set<Command>)
    ensures var (w', ok) := RollbackPhase(w, checkpoint, findmnt, confirm, failing);
      && (checkpoint.None? ==> !ok && w' == w)
      && (checkpoint == Some([]) ==> ok && w' == w)
      && (checkpoint.Some? && checkpoint.value != [] && (WithIps(checkpoint.value) == [] || !confirm) ==> !ok && w' == w)
  {
  }

  /** The rollback umounts all succeed exactly when no live record's umount is failing. */
  lemma UmountsSucceedIff(withIps: seq<MountRecord>, points: set<string>, failing: set<Command>)
    ensures var umounts := UmountCalls(LiveOnes(withIps, points));
      (forall i :: 0 <= i < |withIps| && withIps[i].mountPoint in points ==> Umount(withIps[i].mountPoint) !in failing)
      <==> (forall k :: 0 <= k < |umounts| ==> umounts[k] !in failing)
  {
    var live := LiveOnes(withIps, points);
    var umounts := UmountCalls(live);
    LiveOnesMembers(withIps, points);
    forall k | 0 <= k < |umounts| ensures umounts[k] == Umount(live[k].mountPoint) {
      UmountCallsAt(live, k);
    }
    if forall i :: 0 <= i < |withIps| && withIps[i].mountPoint in points ==> Umount(withIps[i].mountPoint) !in failing {
      forall k | 0 <= k < |umounts| ensures umounts[k] !in failing {
        assert live[k] in live;
        var i :| 0 <= i < |withIps| && withIps[i] == live[k];
      }
    } else {
      var i :| 0 <= i < |withIps| && withIps[i].mountPoint in points && Umount(withIps[i].mountPoint) in failing;
      assert withIps[i] in live;
      var k :| 0 <= k < |live| && live[k] == withIps[i];
      assert umounts[k] in failing;
    }
  }

  /** A failed rollback umount aborts: the umounts issued are the live IP-carrying records'
      ones up to and including the first failure, and nothing is mounted. */
  lemma RollbackAborts(w: World, ms: seq<MountRecord>, findmnt: FindmntQuery, failing: set<Command>)
    requires WithIps(ms) != []
    requires var umounts := UmountCalls(LiveOnes(WithIps(ms), LivePoints(GetCurrentMounts(findmnt(w.live)))));
      exists k :: 0 <= k < |umounts| && umounts[k] in failing
    ensures var (w', ok) := RollbackPhase(w, Some(ms), findmnt, true, failing);
      var umounts := UmountCalls(LiveOnes(WithIps(ms), LivePoints(GetCurrentMounts(findmnt(w.live)))));
      && !ok
      && w'.log == w.log + FailFast(umounts, failing)
      && MountsIn(w'.log[|w.log|..]) == []
      && w'.dirs == w.dirs && w'.fstab == w.fstab
  {
    var withIps := WithIps(ms);
    var points := LivePoints(GetCurrentMounts(findmnt(w.live)));
    var umounts := UmountCalls(LiveOnes(withIps, points));
    assert ms != [] by { assert withIps[0] in ms; }
    UnmountLiveSpec(w, withIps, points, failing);
    UmountsSucceedIff(withIps, points, failing);
    UmountCallsNoMounts(LiveOnes(withIps, points), failing);
    var w1 := UnmountLive(w, withIps, points, failing).0;
    assert w1.log[|w.log|..] == FailFast(umounts, failing);
    MountsInNone(FailFast(umounts, failing));
  }

  /** When every rollback umount succeeds, each IP-carrying record is mounted from its saved
      IP and options (its directory created first when missing), and the verdict is that
      every one of them is restored. */
  lemma RollbackRestores(w: World, ms: seq<MountRecord>, findmnt: FindmntQuery, failing: set<Command>)
    requires WithIps(ms) != []
    requires var umounts := UmountCalls(LiveOnes(WithIps(ms), LivePoints(GetCurrentMounts(findmnt(w.live)))));
      forall k :: 0 <= k < |umounts| ==> umounts[k] !in failing
    ensures var (w', ok) := RollbackPhase(w, Some(ms), findmnt, true, failing);
      var withIps := WithIps(ms);
      var umounts := UmountCalls(LiveOnes(withIps, LivePoints(GetCurrentMounts(findmnt(w.live)))));
      && w.log + umounts <= w'.log
      && MountsIn(w'.log[|w.log|..]) == IssuedCalls(withIps, w.dirs, Ip, failing)
      && (ok <==> forall i :: 0 <= i < |withIps| ==> RestoreOk(withIps[i], w.dirs, Ip, failing))
      && w'.fstab == w.fstab
  {
    var withIps := WithIps(ms);
    var points := LivePoints(GetCurrentMounts(findmnt(w.live)));
    var umounts := UmountCalls(LiveOnes(withIps, points));
    assert ms != [] by { assert withIps[0] in ms; }
    UnmountLiveSpec(w, withIps, points, failing);
    UmountsSucceedIff(withIps, points, failing);
    FailFastSpec(umounts, failing);
    UmountCallsNoMounts(LiveOnes(withIps, points), failing);
    var w1 := UnmountLive(w, withIps, points, failing).0;
    assert w1.log == w.log + umounts;
    MountsInNone(umounts);
    RestoreEachLog(w1, withIps, Ip, failing, 0);
    RestoreEachLive(w1, withIps, Ip, failing, 0);
    RestoreEachFstab(w1, withIps, Ip, failing, 0);
    RestoreEachFailures(w1, withIps, Ip, failing, 0);
    var w' := RestoreEach(w1, withIps, Ip, failing, 0).0;
    LogTail(w.log, w1.log, w'.log);
    assert w1.log[|w.log|..] == umounts;
    MountsInAppend(w1.log[|w.log|..], w'.log[|w1.log|..]);
  }

  /** Rolling back a collected entry mounts exactly the original source at the original
      mount point, with the original options verbatim (or `-t nfs` when it had none). */
  lemma RollbackRestoresEntry(e: FindmntEntry)
    requires IsVolumeSource(e.source)
    requires FindFrom(e.source, VOLUMES, FindFrom(e.source, VOLUMES, 0).value + |VOLUMES|).None?
    ensures CallFor(ToRecord(e), Ip).source == e.source
    ensures CallFor(ToRecord(e), Ip).mountPoint == e.target
    ensures Listed(CallFor(ToRecord(e), Ip)) == e
  {
    SourceRoundTrip(e.source);
  }

  // ---------------------------------------------------------------- fstab

  /** The text written to `/etc/fstab`: the lines joined by newlines, newline-terminated. */
  function FstabContent(lines: seq<string>): (content: string)
    ensures |content| > 0 && content[|content| - 1] == '\n'
    ensures content == Join(lines, '\n') || content == Join(lines, '\n') + "\n"
    ensures var j := Join(lines, '\n'); content == j <==> |j| > 0 && j[|j| - 1] == '\n'
  {
    var c := Join(lines, '\n');
    if |c| > 0 && c[|c| - 1] == '\n' then c else c + "\n"
  }

  /** The lines `update_fstab` reads: `cat /etc/fstab`, stripped, split at newlines. */
  function FstabLines(fstab: string): seq<string>
  {
    SplitOn(Strip(fstab), '\n')
  }

  /** `update_fstab`: read the file, rewrite the legacy Crusoe NFS lines, and (once
      confirmed) install the result. */
  function FstabPhase(w: World, confirm: bool, failing: set<Command>): (World, bool)
  {
    var w1 := Exec(w, ReadFstab, failing);
    if ReadFstab in failing then (w1, false)
    else
      var lines := FstabLines(w.fstab);
      if MigrationCount(lines) == 0 then (w1, true)
      else if !confirm then (w1, false)
      else InstallLines(w1, MigratedLines(lines), failing)
  }

  /** Writing the new lines to the temporary file and copying it over `/etc/fstab`. */
  function InstallLines(w: World, newLines: seq<string>, failing: set<Command>): (r: (World, bool))
    ensures r.0.log == w.log + [InstallFstab(FstabContent(newLines))]
    ensures r.1 <==> InstallFstab(FstabContent(newLines)) !in failing
    ensures r.0 == (if r.1 then w.(fstab := FstabContent(newLines)) else w).(log := r.0.log)
  {
    var c := InstallFstab(FstabContent(newLines));
    (Exec(w, c, failing), c !in failing)
  }

  /** The early cases of `update_fstab`: a failed read fails; nothing to migrate succeeds
      without writing; a declined prompt fails without writing. Mounts and directories are
      never touched. */
  lemma FstabPhaseGates(w: World, confirm: bool, failing: set<Command>)
    ensures var (w', ok) := FstabPhase(w, confirm, failing);
      var count := MigrationCount(FstabLines(w.fstab));
      && w'.live == w.live && w'.dirs == w.dirs
      && w.log + [ReadFstab] <= w'.log
      && (ReadFstab in failing ==> !ok && w'.fstab == w.fstab && w'.log == w.log + [ReadFstab])
      && (ReadFstab !in failing && count == 0 ==> ok && w'.fstab == w.fstab && w'.log == w.log + [ReadFstab])
      && (ReadFstab !in failing && count > 0 && !confirm ==> !ok && w'.fstab == w.fstab && w'.log == w.log + [ReadFstab])
  {
    var w1 := Exec(w, ReadFstab, failing);
    assert w1 == w.(log := w.log + [ReadFstab]);
    if ReadFstab !in failing && MigrationCount(FstabLines(w.fstab)) > 0 && confirm {
      var c := InstallFstab(FstabContent(MigratedLines(FstabLines(w.fstab))));
      assert (w.log + [ReadFstab]) + [c] == w.log + [ReadFstab, c];
    }
  }

  /** Once confirmed with something to migrate, the rewritten lines are installed: the
      verdict is whether the install succeeded, and then the file holds them. */
  lemma FstabPhaseInstalls(w: World, failing: set<Command>)
    requires ReadFstab !in failing
    requires MigrationCount(FstabLines(w.fstab)) > 0
    ensures var (w', ok) := FstabPhase(w, true, failing);
      var content := FstabContent(MigratedLines(FstabLines(w.fstab)));
      && w'.log == w.log + [ReadFstab, InstallFstab(content)]
      && (ok <==> InstallFstab(content) !in failing)
      && w'.fstab == (if ok then content else w.fstab)
      && w'.live == w.live && w'.dirs == w.dirs
  {
    var newLines := MigratedLines(FstabLines(w.fstab));
    assert FstabPhase(w, true, failing) == InstallLines(Exec(w, ReadFstab, failing), newLines, failing);
    InstallAfterRead(w, newLines, failing);
  }

  lemma InstallAfterRead(w: World, newLines: seq<string>, failing: set<Command>)
    requires ReadFstab !in failing
    ensures var (w', ok) := InstallLines(Exec(w, ReadFstab, failing), newLines, failing);
      var content := FstabContent(newLines);
      && w'.log == w.log + [ReadFstab, InstallFstab(content)]
      && (ok <==> InstallFstab(content) !in failing)
      && w'.fstab == (if ok then content else w.fstab)
      && w'.live == w.live && w'.dirs == w.dirs
  {
    var content := FstabContent(newLines);
    var w1 := Exec(w, ReadFstab, failing);
    assert w1 == w.(log := w.log + [ReadFstab]);
    assert (w.log + [ReadFstab]) + [InstallFstab(content)] == w.log + [ReadFstab, InstallFstab(content)];
  }
}
