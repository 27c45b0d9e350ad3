/** The IP-to-DNS migration script run against one host: its mount table, directories,
    fstab and checkpoint file change in place as the subcommands issue their commands. */
module MigrationHost {
  import opened Wrappers
  import opened Text
  import opened Inventory
  import opened DnsFstab
  import opened MigrationSteps
  import opened MigrationPhases

  class Host {
    /** The live NFS mount table. */
    var live: seq<FindmntEntry>
    /** The directories that exist. */
    var dirs: set<string>
    /** The text of `/etc/fstab`. */
    var fstab: string
    /** The commands issued so far. */
    var log: seq<Command>
    /** `./crusoe/mounts.json`: None while the file does not exist. */
    var checkpoint: Option<seq<MountRecord>>
    /** How `findmnt -t nfs --json` answers on a mount table. */
    const findmnt: FindmntQuery
    /** The commands that fail on this host. */
    const failing: set<Command>

    constructor(live: seq<FindmntEntry>, dirs: set<string>, fstab: string,
                checkpoint: Option<seq<MountRecord>>, findmnt: FindmntQuery, failing: set<Command>)
      ensures this.live == live && this.dirs == dirs && this.fstab == fstab && this.log == []
      ensures this.checkpoint == checkpoint && this.findmnt == findmnt && this.failing == failing
    {
      this.live := live;
      this.dirs := dirs;
      this.fstab := fstab;
      this.log := [];
      this.checkpoint := checkpoint;
      this.findmnt := findmnt;
      this.failing := failing;
    }

    /** The part of the host the commands change. */
    function State(): World
      reads this
    {
      World(live, dirs, fstab, log)
    }

    /** `run_command`: issue one command; it succeeds unless it is one of `failing`. */
    method Run(c: Command) returns (ok: bool)
      modifies this
      ensures ok <==> c !in failing
      ensures State() == Exec(old(State()), c, failing)
      ensures checkpoint == old(checkpoint)
    {
      log := log + [c];
      ok := c !in failing;
      if ok {
        match c
        case Umount(mp) => live := WithoutTarget(live, mp);
        case Mkdir(p) => dirs := dirs + {p};
        case Mount(call) => live := live + [Listed(call)];
        case InstallFstab(content) => fstab := content;
        case _ =>
      }
    }

    /** `save_mounts`. */
    method SaveMounts(ms: seq<MountRecord>)
      modifies this`checkpoint
      ensures checkpoint == Some(ms)
    {
      checkpoint := Some(ms);
    }

    /** `do_unmount`. */
    method Unmount(confirm: bool) returns (ok: bool)
      modifies this
      ensures Outcome(State(), checkpoint, ok) == UnmountPhase(old(State()), old(checkpoint), findmnt, confirm, failing)
    {
      dirs := dirs + {CRUSOE_DIR};
      var mounts := GetCurrentMounts(findmnt(live));
      if mounts.None? {
        return false;
      }
      var ms := mounts.value;
      if |ms| == 0 {
        if checkpoint.None? {
          SaveMounts([]);
        }
        return true;
      }
      if !confirm {
        return false;
      }
      SaveMounts(ms);
      var failedCount := 0;
      var i := 0;
      ghost var w0 := State();
      while i < |ms|
        invariant 0 <= i <= |ms|
        invariant UnmountEach(w0, ms, failing, 0) == UnmountEach(State(), ms[i..], failing, failedCount)
        invariant checkpoint == Some(ms)
      {
        var unmounted := Run(Umount(ms[i].mountPoint));
        if !unmounted {
          failedCount := failedCount + 1;
        }
        assert ms[i..][1..] == ms[i + 1..];
        i := i + 1;
      }
      ok := failedCount == 0;
    }

    /** The restore loop of `do_remount` and `do_rollback`. */
    method RestoreAll(ms: seq<MountRecord>, scheme: Scheme) returns (failedCount: nat)
      modifies this
      ensures (State(), failedCount) == RestoreEach(old(State()), ms, scheme, failing, 0)
      ensures checkpoint == old(checkpoint)
    {
      failedCount := 0;
      var i := 0;
      ghost var w0 := State();
      while i < |ms|
        invariant 0 <= i <= |ms|
        invariant RestoreEach(w0, ms, scheme, failing, 0) == RestoreEach(State(), ms[i..], scheme, failing, failedCount)
        invariant checkpoint == old(checkpoint)
      {
        var m := ms[i];
        var ready := true;
        if m.mountPoint !in dirs {
          ready := Run(Mkdir(m.mountPoint));
        }
        if !ready {
          failedCount := failedCount + 1;
        } else {
          var mounted := Run(Mount(CallFor(m, scheme)));
          if !mounted {
            failedCount := failedCount + 1;
          }
        }
        assert ms[i..][1..] == ms[i + 1..];
        i := i + 1;
      }
    }

    /** `do_remount`. */
    method Remount(confirm: bool) returns (ok: bool)
      modifies this
      ensures (State(), ok) == RemountPhase(old(State()), old(checkpoint), findmnt, confirm, failing)
      ensures checkpoint == old(checkpoint)
    {
      var mounts := checkpoint;
      if mounts.None? {
        return false;
      }
      var ms := mounts.value;
      if |ms| == 0 {
        return true;
      }
      var points := LivePoints(GetCurrentMounts(findmnt(live)));
      var toRestore := Pending(ms, points);
      if |toRestore| == 0 {
        return true;
      }
      var reachable := Run(PingDomain);
      if !reachable || !confirm {
        return false;
      }
      var failedCount := RestoreAll(toRestore, Dns);
      ok := failedCount == 0;
    }

    /** `do_rollback`. */
    method Rollback(confirm: bool) returns (ok: bool)
      modifies this
      ensures (State(), ok) == RollbackPhase(old(State()), old(checkpoint), findmnt, confirm, failing)
      ensures checkpoint == old(checkpoint)
    {
      var mounts := checkpoint;
      if mounts.None? {
        return false;
      }
      var ms := mounts.value;
      if |ms| == 0 {
        return true;
      }
      var withIps := WithIps(ms);
      if |withIps| == 0 {
        return false;
      }
      var points := LivePoints(GetCurrentMounts(findmnt(live)));
      if !confirm {
        return false;
      }
      var i := 0;
      ghost var w0 := State();
      while i < |withIps|
        invariant 0 <= i <= |withIps|
        invariant UnmountLive(w0, withIps, points, failing) == UnmountLive(State(), withIps[i..], points, failing)
        invariant checkpoint == old(checkpoint)
      {
        assert withIps[i..][1..] == withIps[i + 1..];
        if withIps[i].mountPoint in points {
          var unmounted := Run(Umount(withIps[i].mountPoint));
          if !unmounted {
            return false;
          }
        }
        i := i + 1;
      }
      var failedCount := RestoreAll(withIps, Ip);
      ok := failedCount == 0;
    }

    /** `update_fstab`. */
    method UpdateFstab(confirm: bool) returns (ok: bool)
      modifies this
      ensures (State(), ok) == FstabPhase(old(State()), confirm, failing)
      ensures checkpoint == old(checkpoint)
    {
      ghost var w0 := State();
      var read := Run(ReadFstab);
      if !read {
        return false;
      }
      assert fstab == w0.fstab;
      var lines := FstabLines(fstab);
      var newLines, nfsCount := UpdateFstabLines(lines);
      if nfsCount == 0 {
        return true;
      }
      if !confirm {
        return false;
      }
      ghost var w1 := State();
      ok := Run(InstallFstab(FstabContent(newLines)));
      assert (State(), ok) == InstallLines(w1, newLines, failing);
    }
  }
}
