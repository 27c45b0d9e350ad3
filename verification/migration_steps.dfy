/** The commands the IP-to-DNS migration issues, their effect on a host, and the three
    per-mount loops (unmount all, restore, rollback unmount) as folds over mount records. */
module MigrationSteps {
  import opened Inventory
  import opened DnsFstab

  /** `mount -o <list>` or `mount -t nfs` (no option list). */
  datatype MountOptions = WithOptions(list: string) | TypeNfs

  datatype MountCall = MountCall(source: string, mountPoint: string, options: MountOptions)

  /** The commands the script runs through `run_command`, as values instead of shell text. */
  datatype Command =
    | Umount(mountPoint: string)         // sudo umount '<mount point>'
    | Mkdir(path: string)                // sudo mkdir -p '<path>'
    | Mount(call: MountCall)             // sudo mount ...
    | PingDomain                         // ping -c 1 nfs.crusoecloudcompute.com
    | ReadFstab                          // cat /etc/fstab
    | InstallFstab(content: string)      // write /tmp/fstab.new, then sudo cp it to /etc/fstab

  /** What the commands change on a host: the live NFS mount table, the existing
      directories, the fstab text, and the log of issued commands. */
  datatype World = World(live: seq<FindmntEntry>, dirs: set<string>, fstab: string, log: seq<Command>)

  /** The two addressing schemes a mount can be restored with. */
  datatype Scheme = Dns | Ip

  function OptionsText(o: MountOptions): string
  {
    match o
    case WithOptions(list) => list
    case TypeNfs => ""
  }

  /** The table entry a successful mount adds. */
  function Listed(call: MountCall): FindmntEntry
  {
    FindmntEntry(call.source, call.mountPoint, OptionsText(call.options))
  }

  /** The table after unmounting `mountPoint`. */
  function WithoutTarget(live: seq<FindmntEntry>, mountPoint: string): (r: seq<FindmntEntry>)
    ensures forall e :: e in r <==> e in live && e.target != mountPoint
  {
    if live == [] then []
    else if live[0].target == mountPoint then WithoutTarget(live[1..], mountPoint)
    else [live[0]] + WithoutTarget(live[1..], mountPoint)
  }

  /** Issuing one command: it is logged, and it takes effect unless it is one of `failing`. */
  function Exec(w: World, c: Command, failing: set<Command>): (r: World)
    ensures r.log == w.log + [c]
    ensures c in failing ==> r == w.(log := r.log)
  {
    var logged := w.(log := w.log + [c]);
    if c in failing then logged
    else match c
      case Umount(mp) => logged.(live := WithoutTarget(w.live, mp))
      case Mkdir(p) => logged.(dirs := w.dirs + {p})
      case Mount(call) => logged.(live := w.live + [Listed(call)])
      case InstallFstab(content) => logged.(fstab := content)
      case _ => logged
  }

  /** The mount call `do_remount` (Dns) or `do_rollback` (Ip) issues for a record. */
  function CallFor(m: MountRecord, scheme: Scheme): MountCall
  {
    match scheme
    case Dns => MountCall(VolumeSource(CRUSOE_NFS_DOMAIN, m.volumeId), m.mountPoint, WithOptions(DNS_MOUNT_OPTIONS))
    case Ip => MountCall(VolumeSource(m.ipAddress, m.volumeId), m.mountPoint,
                         if m.options != "" then WithOptions(m.options) else TypeNfs)
  }

  // ---------------------------------------------------------------- unmount every record

  function UmountCalls(ms: seq<MountRecord>): (cs: seq<Command>)
    ensures |cs| == |ms|
  {
    if ms == [] then [] else [Umount(ms[0].mountPoint)] + UmountCalls(ms[1..])
  }

  /** The loop of `do_unmount`: one umount per record, failures counted, never stopping. */
  function UnmountEach(w: World, ms: seq<MountRecord>, failing: set<Command>, failed: nat): (World, nat)
    decreases |ms|
  {
    if ms == [] then (w, failed)
    else
      var c := Umount(ms[0].mountPoint);
      UnmountEach(Exec(w, c, failing), ms[1..], failing, if c in failing then failed + 1 else failed)
  }

  /** A record's umount is issued and succeeds. */
  predicate Unmounted(ms: seq<MountRecord>, failing: set<Command>, target: string)
  {
    exists i :: 0 <= i < |ms| && ms[i].mountPoint == target && Umount(target) !in failing
  }

  /** Every record gets its umount, in order, whatever happened before; the count of
      failures is zero exactly when no umount failed; directories and fstab are untouched,
      and a table entry survives exactly when no umount of its mount point succeeded. */
  lemma {:induction false} UnmountEachSpec(w: World, ms: seq<MountRecord>, failing: set<Command>, failed: nat)
    decreases |ms|
    ensures var (w', n) := UnmountEach(w, ms, failing, failed);
      && w'.log == w.log + UmountCalls(ms)
      && w'.dirs == w.dirs && w'.fstab == w.fstab
      && n >= failed
      && (n == failed <==> forall i :: 0 <= i < |ms| ==> Umount(ms[i].mountPoint) !in failing)
      && (forall e :: e in w'.live <==> e in w.live && !Unmounted(ms, failing, e.target))
  {
    if ms != [] {
      var c := Umount(ms[0].mountPoint);
      var w1 := Exec(w, c, failing);
      UnmountEachSpec(w1, ms[1..], failing, if c in failing then failed + 1 else failed);
      assert [c] + UmountCalls(ms[1..]) == UmountCalls(ms);
      forall t ensures Unmounted(ms, failing, t) <==>
        (ms[0].mountPoint == t && c !in failing) || Unmounted(ms[1..], failing, t)
      {
        if Unmounted(ms, failing, t) {
          var i :| 0 <= i < |ms| && ms[i].mountPoint == t && Umount(t) !in failing;
          if i > 0 { assert ms[1..][i - 1] == ms[i]; }
        }
        if Unmounted(ms[1..], failing, t) {
          var i :| 0 <= i < |ms[1..]| && ms[1..][i].mountPoint == t && Umount(t) !in failing;
          assert ms[i + 1] == ms[1..][i];
        }
      }
      if forall i :: 0 <= i < |ms[1..]| ==> Umount(ms[1..][i].mountPoint) !in failing {
        forall i | 1 <= i < |ms| ensures Umount(ms[i].mountPoint) !in failing {
          assert ms[i] == ms[1..][i - 1];
        }
      }
    }
  }

  // ---------------------------------------------------------------- restore every record

  /** The record's mount point exists or can be created. */
  predicate DirReady(m: MountRecord, dirs: set<string>, failing: set<Command>)
  {
    m.mountPoint in dirs || Mkdir(m.mountPoint) !in failing
  }

  /** The record ends up mounted: its directory is ready and its mount call succeeds. */
  predicate RestoreOk(m: MountRecord, dirs: set<string>, scheme: Scheme, failing: set<Command>)
  {
    DirReady(m, dirs, failing) && Mount(CallFor(m, scheme)) !in failing
  }

  /** The mount calls issued for `ms`, in order. */
  function IssuedCalls(ms: seq<MountRecord>, dirs: set<string>, scheme: Scheme, failing: set<Command>): seq<MountCall>
  {
    if ms == [] then []
    else (if DirReady(ms[0], dirs, failing) then [CallFor(ms[0], scheme)] else [])
         + IssuedCalls(ms[1..], dirs, scheme, failing)
  }

  /** The table entries added for `ms`, in order. */
  function NewEntries(ms: seq<MountRecord>, dirs: set<string>, scheme: Scheme, failing: set<Command>): seq<FindmntEntry>
  {
    if ms == [] then []
    else (if RestoreOk(ms[0], dirs, scheme, failing) then [Listed(CallFor(ms[0], scheme))] else [])
         + NewEntries(ms[1..], dirs, scheme, failing)
  }

  /** The mount calls in a command log, in order. */
  function MountsIn(log: seq<Command>): seq<MountCall>
  {
    if log == [] then []
    else (if log[0].Mount? then [log[0].call] else []) + MountsIn(log[1..])
  }

  lemma {:induction false} MountsInAppend(a: seq<Command>, b: seq<Command>)
    ensures MountsIn(a + b) == MountsIn(a) + MountsIn(b)
  {
    if a == [] {
      assert a + b == b;
    } else {
      var head := if a[0].Mount? then [a[0].call] else [];
      assert (a + b)[0] == a[0];
      assert (a + b)[1..] == a[1..] + b;
      assert MountsIn(a + b) == head + MountsIn(a[1..] + b);
      MountsInAppend(a[1..], b);
      assert head + (MountsIn(a[1..]) + MountsIn(b)) == (head + MountsIn(a[1..])) + MountsIn(b);
    }
  }

  /** The loop shared by `do_remount` and the second half of `do_rollback`: create a missing
      mount point (a failure there skips the mount), then mount; failures are counted and
      never stop the loop. */
  function RestoreEach(w: World, ms: seq<MountRecord>, scheme: Scheme, failing: set<Command>, failed: nat): (World, nat)
    decreases |ms|
  {
    if ms == [] then (w, failed)
    else
      var m := ms[0];
      var mp := m.mountPoint;
      if mp !in w.dirs && Mkdir(mp) in failing then
        RestoreEach(Exec(w, Mkdir(mp), failing), ms[1..], scheme, failing, failed + 1)
      else
        var w1 := if mp in w.dirs then w else Exec(w, Mkdir(mp), failing);
        var c := Mount(CallFor(m, scheme));
        RestoreEach(Exec(w1, c, failing), ms[1..], scheme, failing, if c in failing then failed + 1 else failed)
  }

  /** Adding a directory whose mkdir would succeed anyway changes no record's readiness. */
  lemma {:induction false} ReadyStable(ms: seq<MountRecord>, dirs: set<string>, p: string, scheme: Scheme, failing: set<Command>)
    requires Mkdir(p) !in failing
    ensures IssuedCalls(ms, dirs + {p}, scheme, failing) == IssuedCalls(ms, dirs, scheme, failing)
    ensures NewEntries(ms, dirs + {p}, scheme, failing) == NewEntries(ms, dirs, scheme, failing)
    ensures forall i :: 0 <= i < |ms| ==>
      (RestoreOk(ms[i], dirs + {p}, scheme, failing) <==> RestoreOk(ms[i], dirs, scheme, failing))
  {
    if ms != [] {
      ReadyStable(ms[1..], dirs, p, scheme, failing);
      assert DirReady(ms[0], dirs + {p}, failing) <==> DirReady(ms[0], dirs, failing);
    }
  }

  /** One step of RestoreEach, as the state after the first record. */
  function RestoreStep(w: World, m: MountRecord, scheme: Scheme, failing: set<Command>): World
  {
    var mp := m.mountPoint;
    if mp !in w.dirs && Mkdir(mp) in failing then Exec(w, Mkdir(mp), failing)
    else
      var w1 := if mp in w.dirs then w else Exec(w, Mkdir(mp), failing);
      Exec(w1, Mount(CallFor(m, scheme)), failing)
  }

  /** What one step does to the table, the directories and the fstab. */
  lemma RestoreStepState(w: World, m: MountRecord, scheme: Scheme, failing: set<Command>)
    ensures var w' := RestoreStep(w, m, scheme, failing);
      && w'.live == w.live + (if RestoreOk(m, w.dirs, scheme, failing) then [Listed(CallFor(m, scheme))] else [])
      && w'.dirs == (if m.mountPoint !in w.dirs && Mkdir(m.mountPoint) !in failing then w.dirs + {m.mountPoint} else w.dirs)
      && w'.fstab == w.fstab
  {
  }

  lemma RestoreStepFacts(w: World, m: MountRecord, scheme: Scheme, failing: set<Command>)
    ensures var w' := RestoreStep(w, m, scheme, failing);
      && w'.live == w.live + (if RestoreOk(m, w.dirs, scheme, failing) then [Listed(CallFor(m, scheme))] else [])
      && w'.dirs == (if m.mountPoint !in w.dirs && Mkdir(m.mountPoint) !in failing then w.dirs + {m.mountPoint} else w.dirs)
      && w'.fstab == w.fstab
      && w.log <= w'.log
      && MountsIn(w'.log[|w.log|..]) == (if DirReady(m, w.dirs, failing) then [CallFor(m, scheme)] else [])
      && (forall c :: c in w'.log[|w.log|..] ==> c.Mkdir? || c.Mount?)
  {
    var w' := RestoreStep(w, m, scheme, failing);
    var mp := m.mountPoint;
    var c := Mount(CallFor(m, scheme));
    if mp !in w.dirs && Mkdir(mp) in failing {
      assert w'.log[|w.log|..] == [Mkdir(mp)];
    } else if mp in w.dirs {
      assert w'.log[|w.log|..] == [c];
      assert [c][1..] == [];
    } else {
      assert w'.log[|w.log|..] == [Mkdir(mp), c];
      assert [Mkdir(mp), c][1..] == [c];
      assert MountsIn([c]) == [CallFor(m, scheme)] by { assert [c][1..] == []; }
    }
  }

  /** RestoreEach takes the first record's step, then goes on with the rest. */
  lemma RestoreEachUnfold(w: World, ms: seq<MountRecord>, scheme: Scheme, failing: set<Command>, failed: nat)
    requires ms != []
    ensures RestoreEach(w, ms, scheme, failing, failed) ==
      RestoreEach(RestoreStep(w, ms[0], scheme, failing), ms[1..], scheme, failing,
                  if RestoreOk(ms[0], w.dirs, scheme, failing) then failed else failed + 1)
  {
  }

  /** The table gains exactly the entries of the records that end up mounted, in order. */
  lemma {:induction false} RestoreEachLive(w: World, ms: seq<MountRecord>, scheme: Scheme, failing: set<Command>, failed: nat)
    decreases |ms|
    ensures RestoreEach(w, ms, scheme, failing, failed).0.live == w.live + NewEntries(ms, w.dirs, scheme, failing)
  {
    if ms != [] {
      var ok := RestoreOk(ms[0], w.dirs, scheme, failing);
      var w1 := RestoreStep(w, ms[0], scheme, failing);
      var failed1 := if ok then failed else failed + 1;
      var head := if ok then [Listed(CallFor(ms[0], scheme))] else [];
      var tail := NewEntries(ms[1..], w.dirs, scheme, failing);
      assert RestoreEach(w, ms, scheme, failing, failed) == RestoreEach(w1, ms[1..], scheme, failing, failed1) by {
        RestoreEachUnfold(w, ms, scheme, failing, failed);
      }
      assert w1.live == w.live + head && NewEntries(ms[1..], w1.dirs, scheme, failing) == tail by {
        RestoreStepState(w, ms[0], scheme, failing);
        if w1.dirs != w.dirs {
          ReadyStable(ms[1..], w.dirs, ms[0].mountPoint, scheme, failing);
        }
      }
      assert NewEntries(ms, w.dirs, scheme, failing) == head + tail;
      RestoreEachLive(w1, ms[1..], scheme, failing, failed1);
      assert (w.live + head) + tail == w.live + (head + tail);
    }
  }

  /** Restoring never touches the fstab. */
  lemma {:induction false} RestoreEachFstab(w: World, ms: seq<MountRecord>, scheme: Scheme, failing: set<Command>, failed: nat)
    decreases |ms|
    ensures RestoreEach(w, ms, scheme, failing, failed).0.fstab == w.fstab
  {
    if ms != [] {
      var failed1 := if RestoreOk(ms[0], w.dirs, scheme, failing) then failed else failed + 1;
      RestoreEachUnfold(w, ms, scheme, failing, failed);
      RestoreStepState(w, ms[0], scheme, failing);
      RestoreEachFstab(RestoreStep(w, ms[0], scheme, failing), ms[1..], scheme, failing, failed1);
    }
  }

  /** A log that grew twice: the second growth continues the first. */
  lemma LogTail(l0: seq<Command>, l1: seq<Command>, l2: seq<Command>)
    requires l0 <= l1 <= l2
    ensures l0 <= l2
    ensures l2[|l0|..] == l1[|l0|..] + l2[|l1|..]
  {
  }

  /** The mount calls issued are exactly those of the records whose directory is ready, in order. */
  lemma {:induction false} RestoreEachLog(w: World, ms: seq<MountRecord>, scheme: Scheme, failing: set<Command>, failed: nat)
    decreases |ms|
    ensures w.log <= RestoreEach(w, ms, scheme, failing, failed).0.log
    ensures MountsIn(RestoreEach(w, ms, scheme, failing, failed).0.log[|w.log|..]) == IssuedCalls(ms, w.dirs, scheme, failing)
  {
    if ms != [] {
      var w1 := RestoreStep(w, ms[0], scheme, failing);
      var failed1 := if RestoreOk(ms[0], w.dirs, scheme, failing) then failed else failed + 1;
      RestoreEachUnfold(w, ms, scheme, failing, failed);
      RestoreStepFacts(w, ms[0], scheme, failing);
      RestoreEachLog(w1, ms[1..], scheme, failing, failed1);
      if w1.dirs != w.dirs {
        ReadyStable(ms[1..], w.dirs, ms[0].mountPoint, scheme, failing);
      }
      var w' := RestoreEach(w1, ms[1..], scheme, failing, failed1).0;
      LogTail(w.log, w1.log, w'.log);
      MountsInAppend(w1.log[|w.log|..], w'.log[|w1.log|..]);
    }
  }

  /** Restoring issues nothing but mkdir and mount. */
  lemma {:induction false} RestoreEachIssues(w: World, ms: seq<MountRecord>, scheme: Scheme, failing: set<Command>, failed: nat)
    decreases |ms|
    ensures w.log <= RestoreEach(w, ms, scheme, failing, failed).0.log
    ensures forall c :: c in RestoreEach(w, ms, scheme, failing, failed).0.log[|w.log|..] ==> c.Mkdir? || c.Mount?
  {
    if ms != [] {
      var w1 := RestoreStep(w, ms[0], scheme, failing);
      var failed1 := if RestoreOk(ms[0], w.dirs, scheme, failing) then failed else failed + 1;
      RestoreEachUnfold(w, ms, scheme, failing, failed);
      RestoreStepFacts(w, ms[0], scheme, failing);
      RestoreEachIssues(w1, ms[1..], scheme, failing, failed1);
      var w' := RestoreEach(w1, ms[1..], scheme, failing, failed1).0;
      LogTail(w.log, w1.log, w'.log);
    }
  }

  /** A directory exists afterwards exactly when it existed or a record's mkdir for it succeeds. */
  lemma {:induction false} RestoreEachDirs(w: World, ms: seq<MountRecord>, scheme: Scheme, failing: set<Command>, failed: nat)
    decreases |ms|
    ensures forall d :: d in RestoreEach(w, ms, scheme, failing, failed).0.dirs <==>
      d in w.dirs || exists i :: 0 <= i < |ms| && ms[i].mountPoint == d && Mkdir(d) !in failing
  {
    if ms != [] {
      var w1 := RestoreStep(w, ms[0], scheme, failing);
      var failed1 := if RestoreOk(ms[0], w.dirs, scheme, failing) then failed else failed + 1;
      RestoreEachUnfold(w, ms, scheme, failing, failed);
      RestoreStepFacts(w, ms[0], scheme, failing);
      RestoreEachDirs(w1, ms[1..], scheme, failing, failed1);
      var w' := RestoreEach(w1, ms[1..], scheme, failing, failed1).0;
      forall d ensures d in w'.dirs <==>
        d in w.dirs || exists i :: 0 <= i < |ms| && ms[i].mountPoint == d && Mkdir(d) !in failing
      {
        if exists i :: 0 <= i < |ms[1..]| && ms[1..][i].mountPoint == d && Mkdir(d) !in failing {
          var i :| 0 <= i < |ms[1..]| && ms[1..][i].mountPoint == d && Mkdir(d) !in failing;
          assert ms[i + 1] == ms[1..][i];
        }
        if exists i :: 0 <= i < |ms| && ms[i].mountPoint == d && Mkdir(d) !in failing {
          var i :| 0 <= i < |ms| && ms[i].mountPoint == d && Mkdir(d) !in failing;
          if i > 0 { assert ms[1..][i - 1] == ms[i]; }
        }
      }
    }
  }

  /** The failure count stays put exactly when every record is restored. */
  lemma {:induction false} RestoreEachFailures(w: World, ms: seq<MountRecord>, scheme: Scheme, failing: set<Command>, failed: nat)
    decreases |ms|
    ensures var n := RestoreEach(w, ms, scheme, failing, failed).1;
      n >= failed && (n == failed <==> forall i :: 0 <= i < |ms| ==> RestoreOk(ms[i], w.dirs, scheme, failing))
  {
    if ms != [] {
      var w1 := RestoreStep(w, ms[0], scheme, failing);
      var failed1 := if RestoreOk(ms[0], w.dirs, scheme, failing) then failed else failed + 1;
      RestoreEachUnfold(w, ms, scheme, failing, failed);
      RestoreStepFacts(w, ms[0], scheme, failing);
      RestoreEachFailures(w1, ms[1..], scheme, failing, failed1);
      ReadyStable'(ms, w.dirs, w1.dirs, scheme, failing);
    }
  }

  /** Readiness of the later records is judged the same against the directories before
      or after the first record's step. */
  lemma ReadyStable'(ms: seq<MountRecord>, dirs: set<string>, dirs1: set<string>, scheme: Scheme, failing: set<Command>)
    requires ms != []
    requires dirs1 == dirs || (dirs1 == dirs + {ms[0].mountPoint} && Mkdir(ms[0].mountPoint) !in failing)
    ensures (forall i :: 0 <= i < |ms| ==> RestoreOk(ms[i], dirs, scheme, failing)) <==>
      RestoreOk(ms[0], dirs, scheme, failing) && forall i :: 0 <= i < |ms[1..]| ==> RestoreOk(ms[1..][i], dirs1, scheme, failing)
  {
    if dirs1 != dirs {
      ReadyStable(ms[1..], dirs, ms[0].mountPoint, scheme, failing);
    }
    if RestoreOk(ms[0], dirs, scheme, failing) && forall i :: 0 <= i < |ms[1..]| ==> RestoreOk(ms[1..][i], dirs1, scheme, failing) {
      forall i | 1 <= i < |ms| ensures RestoreOk(ms[i], dirs, scheme, failing) {
        assert ms[i] == ms[1..][i - 1];
      }
    }
  }

  // ---------------------------------------------------------------- rollback unmount

  /** The records whose mount point is live, in order. */
  function LiveOnes(ms: seq<MountRecord>, points: set<string>): seq<MountRecord>
  {
    if ms == [] then []
    else (if ms[0].mountPoint in points then [ms[0]] else []) + LiveOnes(ms[1..], points)
  }

  /** The records rollback unmounts are exactly those whose mount point is live. */
  lemma {:induction false} LiveOnesMembers(ms: seq<MountRecord>, points: set<string>)
    ensures forall m :: m in LiveOnes(ms, points) <==> m in ms && m.mountPoint in points
  {
    if ms != [] {
      LiveOnesMembers(ms[1..], points);
    }
  }

  /** The commands of a fail-fast run: everything up to and including the first failure. */
  function FailFast(cs: seq<Command>, failing: set<Command>): seq<Command>
  {
    if cs == [] then []
    else if cs[0] in failing then [cs[0]]
    else [cs[0]] + FailFast(cs[1..], failing)
  }

  /** A fail-fast run issues a prefix of the commands; all but its last succeeded; it is the
      whole sequence when nothing fails, and otherwise ends with the first failing command. */
  lemma {:induction false} FailFastSpec(cs: seq<Command>, failing: set<Command>)
    ensures FailFast(cs, failing) <= cs
    ensures forall k :: 0 <= k < |FailFast(cs, failing)| - 1 ==> FailFast(cs, failing)[k] !in failing
    ensures (forall k :: 0 <= k < |cs| ==> cs[k] !in failing) <==> FailFast(cs, failing) == cs && (cs == [] || cs[|cs| - 1] !in failing)
    ensures (exists k :: 0 <= k < |cs| && cs[k] in failing) ==>
      |FailFast(cs, failing)| > 0 && FailFast(cs, failing)[|FailFast(cs, failing)| - 1] in failing
  {
    if cs != [] {
      FailFastSpec(cs[1..], failing);
      var ff := FailFast(cs, failing);
      if cs[0] !in failing {
        assert ff == [cs[0]] + FailFast(cs[1..], failing);
        if exists k :: 0 <= k < |cs| && cs[k] in failing {
          var k :| 0 <= k < |cs| && cs[k] in failing;
          assert cs[1..][k - 1] == cs[k];
        }
        if forall k :: 0 <= k < |cs[1..]| ==> cs[1..][k] !in failing {
          forall k | 0 <= k < |cs| ensures cs[k] !in failing {
            if k > 0 { assert cs[k] == cs[1..][k - 1]; }
          }
        }
        if ff == cs && cs[|cs| - 1] !in failing {
          assert FailFast(cs[1..], failing) == cs[1..];
        }
      }
    }
  }

  /** The first loop of `do_rollback`: unmount the records whose mount point was live,
      in order, and stop at the first failure. */
  function UnmountLive(w: World, ms: seq<MountRecord>, points: set<string>, failing: set<Command>): (World, bool)
    decreases |ms|
  {
    if ms == [] then (w, true)
    else if ms[0].mountPoint !in points then UnmountLive(w, ms[1..], points, failing)
    else
      var c := Umount(ms[0].mountPoint);
      var w1 := Exec(w, c, failing);
      if c in failing then (w1, false) else UnmountLive(w1, ms[1..], points, failing)
  }

  /** The rollback unmount issues exactly the fail-fast run of the live records' umounts,
      succeeds exactly when none of those umounts fails, and touches neither directories
      nor fstab. */
  lemma UnmountLiveSpec(w: World, ms: seq<MountRecord>, points: set<string>, failing: set<Command>)
    ensures var (w', ok) := UnmountLive(w, ms, points, failing);
      && w'.log == w.log + FailFast(UmountCalls(LiveOnes(ms, points)), failing)
      && (ok <==> forall i :: 0 <= i < |ms| && ms[i].mountPoint in points ==> Umount(ms[i].mountPoint) !in failing)
      && w'.dirs == w.dirs && w'.fstab == w.fstab
  {
    UnmountLiveLog(w, ms, points, failing);
    UnmountLiveKeeps(w, ms, points, failing);
    UnmountLiveOk(w, ms, points, failing);
  }

  lemma {:induction false} UnmountLiveLog(w: World, ms: seq<MountRecord>, points: set<string>, failing: set<Command>)
    decreases |ms|
    ensures UnmountLive(w, ms, points, failing).0.log == w.log + FailFast(UmountCalls(LiveOnes(ms, points)), failing)
  {
    if ms != [] {
      var rest := UmountCalls(LiveOnes(ms[1..], points));
      var c := Umount(ms[0].mountPoint);
      UnmountLiveFirst(w, ms, points, failing);
      if ms[0].mountPoint !in points {
        UnmountLiveLog(w, ms[1..], points, failing);
      } else {
        FailFastCons(c, rest, failing);
        if c !in failing {
          UnmountLiveLog(Exec(w, c, failing), ms[1..], points, failing);
          assert (w.log + [c]) + FailFast(rest, failing) == w.log + ([c] + FailFast(rest, failing));
        }
      }
    }
  }

  /** How the rollback unmount and its umount list treat the first record. */
  lemma UnmountLiveFirst(w: World, ms: seq<MountRecord>, points: set<string>, failing: set<Command>)
    requires ms != []
    ensures var c := Umount(ms[0].mountPoint);
      var rest := UmountCalls(LiveOnes(ms[1..], points));
      && (ms[0].mountPoint !in points ==>
            UnmountLive(w, ms, points, failing) == UnmountLive(w, ms[1..], points, failing) &&
            UmountCalls(LiveOnes(ms, points)) == rest)
      && (ms[0].mountPoint in points ==>
            UnmountLive(w, ms, points, failing) ==
              (if c in failing then (Exec(w, c, failing), false) else UnmountLive(Exec(w, c, failing), ms[1..], points, failing)) &&
            UmountCalls(LiveOnes(ms, points)) == [c] + rest)
  {
    var live := LiveOnes(ms[1..], points);
    if ms[0].mountPoint in points {
      assert LiveOnes(ms, points) == [ms[0]] + live;
      assert ([ms[0]] + live)[1..] == live;
    } else {
      assert LiveOnes(ms, points) == live;
    }
  }

  lemma {:induction false} UnmountLiveKeeps(w: World, ms: seq<MountRecord>, points: set<string>, failing: set<Command>)
    decreases |ms|
    ensures UnmountLive(w, ms, points, failing).0.dirs == w.dirs
    ensures UnmountLive(w, ms, points, failing).0.fstab == w.fstab
  {
    if ms != [] {
      var w1 := if ms[0].mountPoint in points then Exec(w, Umount(ms[0].mountPoint), failing) else w;
      UnmountLiveKeeps(w1, ms[1..], points, failing);
    }
  }

  lemma FailFastCons(c: Command, cs: seq<Command>, failing: set<Command>)
    ensures FailFast([c] + cs, failing) == if c in failing then [c] else [c] + FailFast(cs, failing)
  {
    assert ([c] + cs)[1..] == cs;
  }

  lemma {:induction false} UnmountLiveOk(w: World, ms: seq<MountRecord>, points: set<string>, failing: set<Command>)
    decreases |ms|
    ensures UnmountLive(w, ms, points, failing).1 <==>
      forall i :: 0 <= i < |ms| && ms[i].mountPoint in points ==> Umount(ms[i].mountPoint) !in failing
  {
    if ms != [] {
      var w1 := if ms[0].mountPoint in points then Exec(w, Umount(ms[0].mountPoint), failing) else w;
      UnmountLiveOk(w1, ms[1..], points, failing);
      if UnmountLive(w, ms, points, failing).1 {
        forall i | 0 <= i < |ms| && ms[i].mountPoint in points ensures Umount(ms[i].mountPoint) !in failing {
          if i > 0 { assert ms[i] == ms[1..][i - 1]; }
        }
      } else if ms[0].mountPoint !in points || Umount(ms[0].mountPoint) !in failing {
        var i :| 0 <= i < |ms[1..]| && ms[1..][i].mountPoint in points && Umount(ms[1..][i].mountPoint) in failing;
        assert ms[i + 1] == ms[1..][i];
      }
    }
  }
}
