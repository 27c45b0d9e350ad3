/** The virtiofs-to-NFS conversion run on one VM: the log of commands it issues grows as
    its functions run, and each command's reply comes from the VM. */
module VirtiofsVm {
  import opened Wrappers
  import opened Text
  import opened VirtiofsInput
  import opened VirtiofsFstab
  import opened VirtiofsSteps

  class Vm {
    /** The commands issued so far. */
    var log: seq<VCommand>
    /** How the VM answers the command issued at each position of the log. */
    const replies: Replies
    /** How `json.loads` reads the `findmnt` output. */
    const decode: Decoder

    constructor(replies: Replies, decode: Decoder)
      ensures log == [] && this.replies == replies && this.decode == decode
    {
      log := [];
      this.replies := replies;
      this.decode := decode;
    }

    /** `run_command`. */
    method Run(c: VCommand) returns (r: Reply)
      modifies this
      ensures log == old(log) + [c] && r == replies(|old(log)|, c)
    {
      r := replies(|log|, c);
      log := log + [c];
    }

    /** `get_current_mounts`. */
    method GetCurrentMounts() returns (listing: Listing)
      modifies this
      ensures (log, listing) == ReadMounts(old(log), replies, decode)
    {
      var r := Run(ListVirtiofs);
      if ErrTruthy(r) {
        return Listed(None);
      }
      var mounts := decode(r.out);
      if mounts.None? {
        return Undecodable;
      }
      return Listed(mounts);
    }

    /** `verify_all_mounts_exist`. */
    method VerifyAllMountsExist(mounts: seq<VMount>, nameToId: map<string, string>) returns (ok: bool)
      modifies this
      ensures log == old(log) + [Showmount]
      ensures ok <==> !ErrTruthy(replies(|old(log)|, Showmount)) && forall i :: 0 <= i < |mounts| ==>
        mounts[i].disk in nameToId && Contains(StdOut(replies(|old(log)|, Showmount)), ExportPath(nameToId[mounts[i].disk]))
    {
      var r := Run(Showmount);
      ok := VirtiofsInput.VerifyAllMountsExist(mounts, nameToId, r);
    }

    /** `verify_ping`. */
    method VerifyPing() returns (ok: bool)
      modifies this
      ensures (log, ok) == PingBoth(old(log), replies)
    {
      var r := Run(Ping(START_IP));
      if ErrTruthy(r) {
        return false;
      }
      r := Run(Ping(END_IP));
      ok := !ErrTruthy(r);
    }

    /** `print_err_and_remount`. */
    method RestoreVirtiofs(m: VMount)
      modifies this
      ensures log == Restore(old(log), m)
    {
      var _ := Run(VirtiofsMount(m.disk, m.dir));
    }

    /** The body of the loop of `remount_virtiofs_mounts` for one mount. */
    method ConvertMount(m: VMount, nameToId: map<string, string>) returns (fate: MountFate)
      modifies this
      ensures (log, fate) == ConvertOne(old(log), m, nameToId, replies)
    {
      var r := Run(Umount(m.dir));
      if ErrTruthy(r) {
        RestoreVirtiofs(m);
        return Restored;
      }
      if m.disk !in nameToId {
        return Unmapped(m.disk);
      }
      var volumeId := nameToId[m.disk];
      ghost var log1 := log;
      var i := 0;
      while i < NUM_RETRIES
        invariant 0 <= i <= NUM_RETRIES
        invariant i < NUM_RETRIES ==> TryMount(log1, m, volumeId, 0, replies) == TryMount(log, m, volumeId, i, replies)
        invariant i == NUM_RETRIES ==> TryMount(log1, m, volumeId, 0, replies) == (log, Restored)
      {
        r := Run(NfsMount(volumeId, m.dir));
        if ErrTruthy(r) && (r.Failed? || r.out == "" || !Contains(r.out, MOUNT_SUCCESS)) {
          if i == NUM_RETRIES - 1 {
            RestoreVirtiofs(m);
          }
        } else {
          return Converted;
        }
        i := i + 1;
      }
      return Restored;
    }

    /** `remount_virtiofs_mounts`. */
    method RemountVirtiofsMounts(nameToId: map<string, string>, confirm: bool) returns (res: PyResult)
      modifies this
      ensures (log, res) == RemountVirtiofs(old(log), nameToId, confirm, replies, decode)
    {
      var listing := GetCurrentMounts();
      if listing.Undecodable? {
        return Raised(DecodeError);
      }
      var reachable := VerifyPing();
      if !reachable {
        return Returned(None);
      }
      if listing.mounts.None? {
        return Raised(TypeError);
      }
      var mounts := listing.mounts.value;
      if |mounts| == 0 {
        return Returned(Some(true));
      }
      if !confirm {
        return Returned(None);
      }
      var failedCount := 0;
      ghost var fates: seq<MountFate> := [];
      ghost var log2 := log;
      var i := 0;
      while i < |mounts|
        invariant 0 <= i <= |mounts|
        invariant ConvertEach(log2, mounts, nameToId, replies, []) == ConvertEach(log, mounts[i..], nameToId, replies, fates)
        invariant failedCount == RestoredCount(fates)
        invariant |fates| == i && forall k :: 0 <= k < i ==> !fates[k].Unmapped?
      {
        var fate := ConvertMount(mounts[i], nameToId);
        assert mounts[i..][1..] == mounts[i + 1..];
        if fate.Unmapped? {
          return Raised(KeyError(fate.disk));
        }
        if fate == Restored {
          failedCount := failedCount + 1;
        }
        RestoredCountSnoc(fates, fate);
        fates := fates + [fate];
        i := i + 1;
      }
      return Returned(Some(failedCount == 0));
    }

    /** `remount_fstab_mounts`. */
    method RemountFstabMounts(nameToId: map<string, string>, confirm: bool) returns (res: PyResult)
      modifies this
      ensures (log, res) == RemountFstab(old(log), nameToId, confirm, replies)
    {
      var r := Run(CatFstab);
      if ErrTruthy(r) {
        return Returned(None);
      }
      var outLines := SplitOn(r.out, '\n');
      if |outLines| < 2 {
        return Returned(None);
      }
      var newLines, virtiofsMountCount, ok := RewriteFstabLines(outLines, nameToId);
      if !ok {
        return Raised(IndexError);
      }
      if virtiofsMountCount == 0 {
        return Returned(None);
      }
      if !confirm {
        return Returned(None);
      }
      var linesCombined := Join(newLines, '\n');
      var _ := Run(WriteFstab(linesCombined));
      return Returned(None);
    }
  }

  lemma RestoredCountSnoc(fates: seq<MountFate>, f: MountFate)
    ensures RestoredCount(fates + [f]) == RestoredCount(fates) + (if f == Restored then 1 else 0)
  {
    if fates != [] {
      assert (fates + [f])[1..] == fates[1..] + [f];
      RestoredCountSnoc(fates[1..], f);
    } else {
      assert fates + [f] == [f];
    }
  }
}
