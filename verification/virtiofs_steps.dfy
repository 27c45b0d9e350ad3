/** The commands the virtiofs-to-NFS conversion issues, and what each of its passes does to
    the command log given the replies those commands get. */
module VirtiofsSteps {
  import opened Wrappers
  import opened Text
  import opened VirtiofsInput
  import opened VirtiofsFstab

  /** What `echo` appends to the output of an NFS mount that exited 0. */
  const MOUNT_SUCCESS := "mount was successful!"
  /** NFS mount attempts per directory. */
  const NUM_RETRIES := 5

  datatype VCommand =
    | ListVirtiofs                                  // findmnt -t virtiofs --json
    | Showmount                                     // showmount -e 100.64.0.2
    | Ping(ip: string)                              // ping -c 1 <ip>
    | Umount(dir: string)                           // sudo umount '<dir>'
    | NfsMount(volumeId: string, dir: string)       // sudo mount -o <NFS_OPTIONS> <NfsSource> '<dir>'
    | VirtiofsMount(disk: string, dir: string)      // sudo mount -t virtiofs '<disk>' '<dir>'
    | CatFstab                                      // sudo cat /etc/fstab
    | WriteFstab(content: string)                   // echo '<content>' | sudo sh -c 'cat > /etc/fstab'

  /** The reply to the command issued at a given position of the log. */
  type Replies = (nat, VCommand) -> Reply
  /** `json.loads` followed by reading `filesystems`, `target` and `source`; None when it raises. */
  type Decoder = string -> Option<seq<VMount>>

  /** The exceptions the conversion can let escape. */
  datatype PyError = DecodeError | TypeError | KeyError(key: string) | IndexError

  /** How a Python call ends: with a return value (None, True or False) or an exception. */
  datatype PyResult = Returned(value: Option<bool>) | Raised(error: PyError)

  /** `c` issued `n` times in a row. */
  function Repeat(c: VCommand, n: nat): (r: seq<VCommand>)
    ensures |r| == n && forall i :: 0 <= i < n ==> r[i] == c
  {
    if n == 0 then [] else [c] + Repeat(c, n - 1)
  }

  lemma RepeatSnoc(c: VCommand, n: nat)
    ensures Repeat(c, n) + [c] == Repeat(c, n + 1)
  {
    assert (Repeat(c, n) + [c])[0] == c;
  }

  // ---------------------------------------------------------------- reading and pinging

  /** What `get_current_mounts` gives back: the listing (None when `findmnt` reported an
      error), or an exception from decoding. */
  datatype Listing = Listed(mounts: Option<seq<VMount>>) | Undecodable

  /** `get_current_mounts`. */
  function ReadMounts(log: seq<VCommand>, replies: Replies, decode: Decoder): (seq<VCommand>, Listing)
  {
    var r := replies(|log|, ListVirtiofs);
    var log1 := log + [ListVirtiofs];
    if ErrTruthy(r) then (log1, Listed(None))
    else if decode(r.out).None? then (log1, Undecodable)
    else (log1, Listed(decode(r.out)))
  }

  /** `verify_ping`. */
  function PingBoth(log: seq<VCommand>, replies: Replies): (seq<VCommand>, bool)
  {
    var r1 := replies(|log|, Ping(START_IP));
    var log1 := log + [Ping(START_IP)];
    if ErrTruthy(r1) then (log1, false)
    else (log1 + [Ping(END_IP)], !ErrTruthy(replies(|log1|, Ping(END_IP))))
  }

  /** `verify_ping` issues the start ping, and the end ping only when the start ping answered
      without error; it reports success exactly when both answered without error. */
  lemma PingBothSpec(log: seq<VCommand>, replies: Replies)
    ensures var (log', ok) := PingBoth(log, replies);
      var first := !ErrTruthy(replies(|log|, Ping(START_IP)));
      && log' == log + [Ping(START_IP)] + (if first then [Ping(END_IP)] else [])
      && (ok <==> first && !ErrTruthy(replies(|log| + 1, Ping(END_IP))))
  {
  }

  // ---------------------------------------------------------------- one mount

  /** How the loop leaves one virtiofs mount. */
  datatype MountFate =
    | Converted   // mounted over NFS
    | Restored    // counted as failed, with a virtiofs remount attempted
    | Unmapped(disk: string)   // `name_to_id[disk_name]` raised `KeyError` after the unmount

  /** An NFS mount attempt succeeds unless `err` is set and stdout lacks the success echo. */
  predicate MountOk(r: Reply)
  {
    !ErrTruthy(r) || (r.Ran? && r.out != "" && Contains(r.out, MOUNT_SUCCESS))
  }

  /** `print_err_and_remount`: one virtiofs remount, whose outcome is only printed. */
  function Restore(log: seq<VCommand>, m: VMount): seq<VCommand>
  {
    log + [VirtiofsMount(m.disk, m.dir)]
  }

  /** The retry loop from attempt `attempt` on. */
  function TryMount(log: seq<VCommand>, m: VMount, volumeId: string, attempt: nat, replies: Replies): (seq<VCommand>, MountFate)
    requires attempt < NUM_RETRIES
    decreases NUM_RETRIES - attempt
  {
    var c := NfsMount(volumeId, m.dir);
    var log1 := log + [c];
    if MountOk(replies(|log|, c)) then (log1, Converted)
    else if attempt == NUM_RETRIES - 1 then (Restore(log1, m), Restored)
    else TryMount(log1, m, volumeId, attempt + 1, replies)
  }

  /** The retry loop issues the same NFS mount until one succeeds, at most `NUM_RETRIES -
      attempt` times; it restores the virtiofs mount only when every one of them failed. */
  lemma TryMountSpec(log: seq<VCommand>, m: VMount, volumeId: string, attempt: nat, replies: Replies)
    requires attempt < NUM_RETRIES
    ensures var (log', fate) := TryMount(log, m, volumeId, attempt, replies);
      var c := NfsMount(volumeId, m.dir);
      var n := NUM_RETRIES - attempt;
      && (fate == Converted || fate == Restored)
      && (fate == Restored <==> forall p :: |log| <= p < |log| + n ==> !MountOk(replies(p, c)))
      && (fate == Restored ==> log' == log + Repeat(c, n) + [VirtiofsMount(m.disk, m.dir)])
      && (fate == Converted ==>
            && |log| < |log'| <= |log| + n
            && log' == log + Repeat(c, |log'| - |log|)
            && MountOk(replies(|log'| - 1, c))
            && forall p :: |log| <= p < |log'| - 1 ==> !MountOk(replies(p, c)))
  {
    TryMountFate(log, m, volumeId, attempt, replies);
    TryMountRestoredLog(log, m, volumeId, attempt, replies);
    TryMountConvertedLog(log, m, volumeId, attempt, replies);
  }

  lemma {:induction false} TryMountFate(log: seq<VCommand>, m: VMount, volumeId: string, attempt: nat, replies: Replies)
    requires attempt < NUM_RETRIES
    decreases NUM_RETRIES - attempt
    ensures var fate := TryMount(log, m, volumeId, attempt, replies).1;
      && (fate == Converted || fate == Restored)
      && (fate == Restored <==>
            forall p :: |log| <= p < |log| + NUM_RETRIES - attempt ==> !MountOk(replies(p, NfsMount(volumeId, m.dir))))
  {
    var c := NfsMount(volumeId, m.dir);
    if !MountOk(replies(|log|, c)) && attempt < NUM_RETRIES - 1 {
      TryMountFate(log + [c], m, volumeId, attempt + 1, replies);
    }
  }

  lemma {:induction false} TryMountRestoredLog(log: seq<VCommand>, m: VMount, volumeId: string, attempt: nat, replies: Replies)
    requires attempt < NUM_RETRIES
    decreases NUM_RETRIES - attempt
    ensures var (log', fate) := TryMount(log, m, volumeId, attempt, replies);
      var c := NfsMount(volumeId, m.dir);
      fate == Restored ==> log' == log + Repeat(c, NUM_RETRIES - attempt) + [VirtiofsMount(m.disk, m.dir)]
  {
    var c := NfsMount(volumeId, m.dir);
    var n := NUM_RETRIES - attempt;
    if !MountOk(replies(|log|, c)) {
      if attempt < NUM_RETRIES - 1 {
        TryMountRestoredLog(log + [c], m, volumeId, attempt + 1, replies);
        assert [c] + Repeat(c, n - 1) == Repeat(c, n);
        assert log + [c] + Repeat(c, n - 1) == log + ([c] + Repeat(c, n - 1));
      } else {
        assert Repeat(c, 1) == [c];
      }
    }
  }

  lemma {:induction false} TryMountConvertedLog(log: seq<VCommand>, m: VMount, volumeId: string, attempt: nat, replies: Replies)
    requires attempt < NUM_RETRIES
    decreases NUM_RETRIES - attempt
    ensures var (log', fate) := TryMount(log, m, volumeId, attempt, replies);
      var c := NfsMount(volumeId, m.dir);
      fate == Converted ==>
        && |log| < |log'| <= |log| + NUM_RETRIES - attempt
        && log' == log + Repeat(c, |log'| - |log|)
        && MountOk(replies(|log'| - 1, c))
        && forall p :: |log| <= p < |log'| - 1 ==> !MountOk(replies(p, c))
  {
    var c := NfsMount(volumeId, m.dir);
    var log1 := log + [c];
    if MountOk(replies(|log|, c)) {
      assert Repeat(c, 1) == [c];
    } else if attempt < NUM_RETRIES - 1 {
      TryMountConvertedLog(log1, m, volumeId, attempt + 1, replies);
      var (log', fate) := TryMount(log1, m, volumeId, attempt + 1, replies);
      if fate == Converted {
        var k := |log'| - |log1|;
        assert [c] + Repeat(c, k) == Repeat(c, k + 1);
        assert log1 + Repeat(c, k) == log + ([c] + Repeat(c, k));
      }
    }
  }

  /** `remount_virtiofs_mounts` for one mount: unmount, then retry the NFS mount. */
  function ConvertOne(log: seq<VCommand>, m: VMount, nameToId: map<string, string>, replies: Replies): (seq<VCommand>, MountFate)
  {
    var u := Umount(m.dir);
    var log1 := log + [u];
    if ErrTruthy(replies(|log|, u)) then (Restore(log1, m), Restored)
    else if m.disk !in nameToId then (log1, Unmapped(m.disk))
    else TryMount(log1, m, nameToId[m.disk], 0, replies)
  }

  /** When the unmount fails no NFS mount is tried: the virtiofs mount is restored and the
      mount counts as failed. */
  lemma ConvertOneUmountFails(log: seq<VCommand>, m: VMount, nameToId: map<string, string>, replies: Replies)
    requires ErrTruthy(replies(|log|, Umount(m.dir)))
    ensures ConvertOne(log, m, nameToId, replies) == (log + [Umount(m.dir), VirtiofsMount(m.disk, m.dir)], Restored)
  {
    assert log + [Umount(m.dir)] + [VirtiofsMount(m.disk, m.dir)] == log + [Umount(m.dir), VirtiofsMount(m.disk, m.dir)];
  }

  /** An unmapped disk raises only after its directory was unmounted, and nothing else is
      issued for it. */
  lemma ConvertOneUnmapped(log: seq<VCommand>, m: VMount, nameToId: map<string, string>, replies: Replies)
    requires !ErrTruthy(replies(|log|, Umount(m.dir))) && m.disk !in nameToId
    ensures ConvertOne(log, m, nameToId, replies) == (log + [Umount(m.dir)], Unmapped(m.disk))
  {
  }

  /** After a successful unmount of a mapped disk, the NFS mount of its volume is tried up to
      five times, stopping at the first success; only when all five fail is the virtiofs
      mount restored and the mount counted as failed. */
  lemma ConvertOneRetries(log: seq<VCommand>, m: VMount, nameToId: map<string, string>, replies: Replies)
    requires !ErrTruthy(replies(|log|, Umount(m.dir))) && m.disk in nameToId
    ensures var (log', fate) := ConvertOne(log, m, nameToId, replies);
      var c := NfsMount(nameToId[m.disk], m.dir);
      var start := |log| + 1;
      && (fate == Converted || fate == Restored)
      && (fate == Restored <==> forall p :: start <= p < start + NUM_RETRIES ==> !MountOk(replies(p, c)))
      && (fate == Restored ==> log' == log + [Umount(m.dir)] + Repeat(c, NUM_RETRIES) + [VirtiofsMount(m.disk, m.dir)])
      && (fate == Converted ==>
            && start < |log'| <= start + NUM_RETRIES
            && log' == log + [Umount(m.dir)] + Repeat(c, |log'| - start)
            && MountOk(replies(|log'| - 1, c)))
  {
    TryMountSpec(log + [Umount(m.dir)], m, nameToId[m.disk], 0, replies);
  }

  // ---------------------------------------------------------------- all mounts

  /** The loop over the mounts from `ms` on, after `fates`: one fate per mount handled,
      stopping at the first `KeyError`. */
  function ConvertEach(log: seq<VCommand>, ms: seq<VMount>, nameToId: map<string, string>, replies: Replies,
                       fates: seq<MountFate>): (seq<VCommand>, seq<MountFate>)
    decreases |ms|
  {
    if ms == [] then (log, fates)
    else
      var (log1, fate) := ConvertOne(log, ms[0], nameToId, replies);
      if fate.Unmapped? then (log1, fates + [fate])
      else ConvertEach(log1, ms[1..], nameToId, replies, fates + [fate])
  }

  /** `failed_count`: the mounts restored to virtiofs. */
  function RestoredCount(fates: seq<MountFate>): (n: nat)
    ensures n <= |fates|
    ensures n == 0 <==> forall i :: 0 <= i < |fates| ==> fates[i] != Restored
  {
    if fates == [] then 0
    else
      assert forall i :: 1 <= i < |fates| ==> fates[i] == fates[1..][i - 1];
      (if fates[0] == Restored then 1 else 0) + RestoredCount(fates[1..])
  }

  /** The loop handles the mounts in order, one fate each, and stops only at a disk missing
      from the mapping: every fate before the last is Converted or Restored, an Unmapped fate
      belongs to a disk with no volume id, and when the loop stops early it is at one. */
  lemma {:induction false} ConvertEachShape(log: seq<VCommand>, ms: seq<VMount>, nameToId: map<string, string>,
                                            replies: Replies, fates: seq<MountFate>)
    decreases |ms|
    ensures var (_, fs) := ConvertEach(log, ms, nameToId, replies, fates);
      && |fates| <= |fs| <= |fates| + |ms|
      && fs[..|fates|] == fates
      && (ms != [] ==> |fs| > |fates|)
      && (forall i :: |fates| <= i < |fs| - 1 ==> !fs[i].Unmapped?)
      && (forall i :: |fates| <= i < |fs| && fs[i].Unmapped? ==>
            fs[i].disk == ms[i - |fates|].disk && fs[i].disk !in nameToId)
      && (|fs| < |fates| + |ms| ==> fs[|fs| - 1].Unmapped?)
  {
    if ms != [] {
      var (log1, fate) := ConvertOne(log, ms[0], nameToId, replies);
      if !fate.Unmapped? {
        ConvertEachShape(log1, ms[1..], nameToId, replies, fates + [fate]);
        var (_, fs) := ConvertEach(log1, ms[1..], nameToId, replies, fates + [fate]);
        assert fs[..|fates| + 1][..|fates|] == fs[..|fates|];
        forall i | |fates| <= i < |fs| && fs[i].Unmapped?
          ensures fs[i].disk == ms[i - |fates|].disk && fs[i].disk !in nameToId
        {
          if i > |fates| {
            assert ms[1..][i - |fates| - 1] == ms[i - |fates|];
          }
        }
      }
    }
  }

  /** When every disk has a volume id the loop handles every mount without raising. */
  lemma AllMappedFinishes(log: seq<VCommand>, ms: seq<VMount>, nameToId: map<string, string>, replies: Replies)
    requires forall i :: 0 <= i < |ms| ==> ms[i].disk in nameToId
    ensures var (_, fs) := ConvertEach(log, ms, nameToId, replies, []);
      |fs| == |ms| && forall i :: 0 <= i < |fs| ==> !fs[i].Unmapped?
  {
    ConvertEachShape(log, ms, nameToId, replies, []);
  }

  /** The unmounts a command sequence holds, in order. */
  function UmountsIn(cs: seq<VCommand>): seq<VCommand>
  {
    if cs == [] then []
    else (if cs[0].Umount? then [cs[0]] else []) + UmountsIn(cs[1..])
  }

  lemma {:induction false} UmountsInAppend(a: seq<VCommand>, b: seq<VCommand>)
    ensures UmountsIn(a + b) == UmountsIn(a) + UmountsIn(b)
  {
    if a == [] {
      assert a + b == b;
    } else {
      var head := if a[0].Umount? then [a[0]] else [];
      assert (a + b)[0] == a[0];
      assert (a + b)[1..] == a[1..] + b;
      assert UmountsIn(a + b) == head + UmountsIn(a[1..] + b);
      UmountsInAppend(a[1..], b);
      assert head + (UmountsIn(a[1..]) + UmountsIn(b)) == (head + UmountsIn(a[1..])) + UmountsIn(b);
    }
  }

  lemma {:induction false} NoUmounts(cs: seq<VCommand>)
    requires forall i :: 0 <= i < |cs| ==> !cs[i].Umount?
    ensures UmountsIn(cs) == []
  {
    if cs != [] {
      NoUmounts(cs[1..]);
    }
  }

  lemma {:induction false} UmountsInRepeat(c: VCommand, n: nat)
    requires !c.Umount?
    ensures UmountsIn(Repeat(c, n)) == []
  {
    if n > 0 {
      UmountsInRepeat(c, n - 1);
      assert Repeat(c, n)[1..] == Repeat(c, n - 1);
    }
  }

  /** Handling one mount unmounts its directory once and nothing else. */
  lemma ConvertOneUmounts(log: seq<VCommand>, m: VMount, nameToId: map<string, string>, replies: Replies)
    ensures var (log', _) := ConvertOne(log, m, nameToId, replies);
      |log| <= |log'| && log'[..|log|] == log && UmountsIn(log'[|log|..]) == [Umount(m.dir)]
  {
    var u := Umount(m.dir);
    var (log', fate) := ConvertOne(log, m, nameToId, replies);
    assert UmountsIn([u]) == [u];
    assert UmountsIn([VirtiofsMount(m.disk, m.dir)]) == [];
    if ErrTruthy(replies(|log|, u)) {
      assert log'[|log|..] == [u] + [VirtiofsMount(m.disk, m.dir)];
      UmountsInAppend([u], [VirtiofsMount(m.disk, m.dir)]);
    } else if m.disk !in nameToId {
      assert log'[|log|..] == [u];
    } else {
      var c := NfsMount(nameToId[m.disk], m.dir);
      ConvertOneRetries(log, m, nameToId, replies);
      UmountsInRepeat(c, NUM_RETRIES);
      UmountsInRepeat(c, |log'| - |log| - 1);
      if fate == Restored {
        assert log'[|log|..] == [u] + (Repeat(c, NUM_RETRIES) + [VirtiofsMount(m.disk, m.dir)]);
        UmountsInAppend(Repeat(c, NUM_RETRIES), [VirtiofsMount(m.disk, m.dir)]);
        UmountsInAppend([u], Repeat(c, NUM_RETRIES) + [VirtiofsMount(m.disk, m.dir)]);
      } else {
        assert log'[|log|..] == [u] + Repeat(c, |log'| - |log| - 1);
        UmountsInAppend([u], Repeat(c, |log'| - |log| - 1));
      }
    }
  }

  /** The unmounts issued for `ms[..k]`. */
  function UmountsFor(ms: seq<VMount>, k: nat): (r: seq<VCommand>)
    requires k <= |ms|
    ensures |r| == k
  {
    if k == 0 then [] else UmountsFor(ms, k - 1) + [Umount(ms[k - 1].dir)]
  }

  /** `UmountsFor(ms, k)` unmounts the directories of `ms[..k]`, one each, in order. */
  lemma {:induction false} UmountsForAt(ms: seq<VMount>, k: nat)
    requires k <= |ms|
    ensures forall i :: 0 <= i < k ==> UmountsFor(ms, k)[i] == Umount(ms[i].dir)
  {
    if k > 0 {
      UmountsForAt(ms, k - 1);
    }
  }

  lemma {:induction false} UmountsForCons(ms: seq<VMount>, k: nat)
    requires 0 < k <= |ms|
    ensures UmountsFor(ms, k) == [Umount(ms[0].dir)] + UmountsFor(ms[1..], k - 1)
  {
    if k > 1 {
      UmountsForCons(ms, k - 1);
      assert ms[1..][k - 2] == ms[k - 1];
      assert UmountsFor(ms, k) == [Umount(ms[0].dir)] + UmountsFor(ms[1..], k - 2) + [Umount(ms[k - 1].dir)];
    }
  }

  /** The loop only appends to the log. */
  lemma {:induction false} ConvertEachExtends(log: seq<VCommand>, ms: seq<VMount>, nameToId: map<string, string>,
                                              replies: Replies, fates: seq<MountFate>)
    decreases |ms|
    ensures var log' := ConvertEach(log, ms, nameToId, replies, fates).0;
      |log| <= |log'| && log'[..|log|] == log
  {
    if ms != [] {
      var (log1, fate) := ConvertOne(log, ms[0], nameToId, replies);
      ConvertOneUmounts(log, ms[0], nameToId, replies);
      if !fate.Unmapped? {
        ConvertEachExtends(log1, ms[1..], nameToId, replies, fates + [fate]);
        var log' := ConvertEach(log1, ms[1..], nameToId, replies, fates + [fate]).0;
        assert log'[..|log1|][..|log|] == log'[..|log|];
      }
    }
  }

  /** Every mount the loop reaches is unmounted exactly once, in the listed order, and no
      other directory is unmounted. */
  lemma ConvertEachUmounts(log: seq<VCommand>, ms: seq<VMount>, nameToId: map<string, string>,
                           replies: Replies, fates: seq<MountFate>)
    ensures var res := ConvertEach(log, ms, nameToId, replies, fates);
      && |fates| <= |res.1| <= |fates| + |ms|
      && |log| <= |res.0| && res.0[..|log|] == log
      && UmountsIn(res.0[|log|..]) == UmountsFor(ms, |res.1| - |fates|)
  {
    ConvertEachShape(log, ms, nameToId, replies, fates);
    ConvertEachExtends(log, ms, nameToId, replies, fates);
    ConvertEachUmountsIn(log, ms, nameToId, replies, fates);
  }

  lemma {:induction false} ConvertEachUmountsIn(log: seq<VCommand>, ms: seq<VMount>, nameToId: map<string, string>,
                                                replies: Replies, fates: seq<MountFate>)
    decreases |ms|, 1
    ensures var res := ConvertEach(log, ms, nameToId, replies, fates);
      |fates| <= |res.1| <= |fates| + |ms| && |log| <= |res.0| &&
      UmountsIn(res.0[|log|..]) == UmountsFor(ms, |res.1| - |fates|)
  {
    if ms == [] {
      assert log[|log|..] == [];
    } else if ConvertOne(log, ms[0], nameToId, replies).1.Unmapped? {
      UmountsStopAt(log, ms, nameToId, replies, fates);
    } else {
      UmountsGoOn(log, ms, nameToId, replies, fates);
    }
  }

  /** A disk with no volume id ends the loop after its unmount. */
  lemma UmountsStopAt(log: seq<VCommand>, ms: seq<VMount>, nameToId: map<string, string>,
                      replies: Replies, fates: seq<MountFate>)
    requires ms != [] && ConvertOne(log, ms[0], nameToId, replies).1.Unmapped?
    ensures var res := ConvertEach(log, ms, nameToId, replies, fates);
      |res.1| == |fates| + 1 && |log| <= |res.0| && UmountsIn(res.0[|log|..]) == UmountsFor(ms, 1)
  {
    ConvertOneUmounts(log, ms[0], nameToId, replies);
    assert UmountsFor(ms, 1) == [Umount(ms[0].dir)];
  }

  /** A converted or restored mount is followed by the rest of the list. */
  lemma {:induction false} UmountsGoOn(log: seq<VCommand>, ms: seq<VMount>, nameToId: map<string, string>,
                                       replies: Replies, fates: seq<MountFate>)
    requires ms != [] && !ConvertOne(log, ms[0], nameToId, replies).1.Unmapped?
    decreases |ms|, 0
    ensures var res := ConvertEach(log, ms, nameToId, replies, fates);
      |fates| < |res.1| <= |fates| + |ms| && |log| <= |res.0| &&
      UmountsIn(res.0[|log|..]) == UmountsFor(ms, |res.1| - |fates|)
  {
    var (log1, fate) := ConvertOne(log, ms[0], nameToId, replies);
    ConvertOneUmounts(log, ms[0], nameToId, replies);
    var fates1 := fates + [fate];
    ConvertEachUmountsIn(log1, ms[1..], nameToId, replies, fates1);
    ConvertEachExtends(log1, ms[1..], nameToId, replies, fates1);
    var res := ConvertEach(log1, ms[1..], nameToId, replies, fates1);
    UmountsThenRest(log, log1, res.0, ms, |res.1| - |fates|);
  }

  /** The unmounts of one mount followed by those of the rest are those of the whole list. */
  lemma UmountsThenRest(log: seq<VCommand>, log1: seq<VCommand>, log': seq<VCommand>, ms: seq<VMount>, k: nat)
    requires |log| <= |log1| <= |log'| && log'[..|log1|] == log1 && 0 < k <= |ms|
    requires UmountsIn(log1[|log|..]) == [Umount(ms[0].dir)]
    requires UmountsIn(log'[|log1|..]) == UmountsFor(ms[1..], k - 1)
    ensures UmountsIn(log'[|log|..]) == UmountsFor(ms, k)
  {
    assert log'[|log|..] == log1[|log|..] + log'[|log1|..];
    UmountsInAppend(log1[|log|..], log'[|log1|..]);
    UmountsForCons(ms, k);
  }

  // ---------------------------------------------------------------- the two passes

  /** `remount_virtiofs_mounts`. */
  function RemountVirtiofs(log: seq<VCommand>, nameToId: map<string, string>, confirm: bool,
                           replies: Replies, decode: Decoder): (seq<VCommand>, PyResult)
  {
    var (log1, listing) := ReadMounts(log, replies, decode);
    if listing.Undecodable? then (log1, Raised(DecodeError))
    else
      var (log2, reachable) := PingBoth(log1, replies);
      if !reachable then (log2, Returned(None))
      else if listing.mounts.None? then (log2, Raised(TypeError))
      else if |listing.mounts.value| == 0 then (log2, Returned(Some(true)))
      else if !confirm then (log2, Returned(None))
      else
        ConvertAll(log2, listing.mounts.value, nameToId, replies)
  }

  /** Before any unmount: an undecodable listing raises before the ping; an unreachable
      server returns None; a failed listing then raises `TypeError` from `len(None)`; no
      mounts return True; a declined prompt returns None. None of these unmounts anything. */
  lemma RemountGates(log: seq<VCommand>, nameToId: map<string, string>, confirm: bool, replies: Replies, decode: Decoder)
    ensures var (log', res) := RemountVirtiofs(log, nameToId, confirm, replies, decode);
      var (log1, listing) := ReadMounts(log, replies, decode);
      var (log2, reachable) := PingBoth(log1, replies);
      && (listing.Undecodable? ==> res == Raised(DecodeError) && log' == log + [ListVirtiofs])
      && (listing.Listed? && !reachable ==> res == Returned(None) && log' == log2 && UmountsIn(log'[|log|..]) == [])
      && (listing == Listed(None) && reachable ==> res == Raised(TypeError) && UmountsIn(log'[|log|..]) == [])
      && (listing == Listed(Some([])) && reachable ==> res == Returned(Some(true)) && UmountsIn(log'[|log|..]) == [])
      && (listing.Listed? && listing.mounts.Some? && |listing.mounts.value| > 0 && reachable && !confirm ==>
            res == Returned(None) && UmountsIn(log'[|log|..]) == [])
  {
    var (log1, listing) := ReadMounts(log, replies, decode);
    var (log2, reachable) := PingBoth(log1, replies);
    PingBothSpec(log1, replies);
    var added := log2[|log|..];
    assert added == [ListVirtiofs, Ping(START_IP)] || added == [ListVirtiofs, Ping(START_IP), Ping(END_IP)];
    NoUmounts(added);
    NoUmounts(log1[|log|..]);
  }

  /** Once the prompt is confirmed, the pass either raises `KeyError` for a disk with no
      volume id, after unmounting every mount up to and including that disk's, or returns
      True or False after unmounting every mount in order: True exactly when every mount
      was converted to NFS. With every disk mapped it never raises. */
  lemma RemountConverts(log: seq<VCommand>, nameToId: map<string, string>, replies: Replies, decode: Decoder)
    requires var (log1, listing) := ReadMounts(log, replies, decode);
      listing.Listed? && listing.mounts.Some? && |listing.mounts.value| > 0 && PingBoth(log1, replies).1
    ensures var (log', res) := RemountVirtiofs(log, nameToId, true, replies, decode);
      var ms := ReadMounts(log, replies, decode).1.mounts.value;
      var log2 := PingBoth(ReadMounts(log, replies, decode).0, replies).0;
      var (_, fates) := ConvertEach(log2, ms, nameToId, replies, []);
      && |log2| <= |log'| && log'[..|log2|] == log2
      && (res.Raised? ==>
            && res.error.KeyError? && res.error.key !in nameToId
            && 0 < |fates| <= |ms| && ms[|fates| - 1].disk == res.error.key
            && UmountsIn(log'[|log2|..]) == UmountsFor(ms, |fates|))
      && (res.Returned? ==>
            && |fates| == |ms| && UmountsIn(log'[|log2|..]) == UmountsFor(ms, |ms|)
            && (res.value == Some(true) <==> forall i :: 0 <= i < |fates| ==> fates[i] == Converted))
      && ((forall i :: 0 <= i < |ms| ==> ms[i].disk in nameToId) ==> res.Returned?)
  {
    var (log1, listing) := ReadMounts(log, replies, decode);
    var (log2, _) := PingBoth(log1, replies);
    var ms := listing.mounts.value;
    assert RemountVirtiofs(log, nameToId, true, replies, decode) == ConvertAll(log2, ms, nameToId, replies);
    ConvertAllOutcome(log2, ms, nameToId, replies);
  }

  /** What the confirmed pass returns once the mounts are listed and the server answers. */
  function ConvertAll(log: seq<VCommand>, ms: seq<VMount>, nameToId: map<string, string>, replies: Replies): (seq<VCommand>, PyResult)
  {
    var (log', fates) := ConvertEach(log, ms, nameToId, replies, []);
    if |fates| > 0 && fates[|fates| - 1].Unmapped? then (log', Raised(KeyError(fates[|fates| - 1].disk)))
    else (log', Returned(Some(RestoredCount(fates) == 0)))
  }

  lemma ConvertAllOutcome(log: seq<VCommand>, ms: seq<VMount>, nameToId: map<string, string>, replies: Replies)
    ensures var (log', res) := ConvertAll(log, ms, nameToId, replies);
      var (_, fates) := ConvertEach(log, ms, nameToId, replies, []);
      && |log| <= |log'| && log'[..|log|] == log
      && (res.Raised? ==>
            && res.error.KeyError? && res.error.key !in nameToId
            && 0 < |fates| <= |ms| && ms[|fates| - 1].disk == res.error.key
            && UmountsIn(log'[|log|..]) == UmountsFor(ms, |fates|))
      && (res.Returned? ==>
            && |fates| == |ms| && UmountsIn(log'[|log|..]) == UmountsFor(ms, |ms|)
            && (res.value == Some(true) <==> forall i :: 0 <= i < |fates| ==> fates[i] == Converted))
      && ((forall i :: 0 <= i < |ms| ==> ms[i].disk in nameToId) ==> res.Returned?)
  {
    ConvertEachShape(log, ms, nameToId, replies, []);
    ConvertEachUmounts(log, ms, nameToId, replies, []);
    var (log', fates) := ConvertEach(log, ms, nameToId, replies, []);
    assert fates[..0] == [];
    if forall i :: 0 <= i < |ms| ==> ms[i].disk in nameToId {
      AllMappedFinishes(log, ms, nameToId, replies);
    }
  }

  /** `remount_fstab_mounts`: it always returns None unless a line raises `IndexError`. */
  function RemountFstab(log: seq<VCommand>, nameToId: map<string, string>, confirm: bool, replies: Replies): (seq<VCommand>, PyResult)
  {
    var r := replies(|log|, CatFstab);
    var log1 := log + [CatFstab];
    if ErrTruthy(r) then (log1, Returned(None))
    else
      var outLines := SplitOn(r.out, '\n');
      if |outLines| < 2 then (log1, Returned(None))
      else if !AllIndexable(outLines) then (log1, Raised(IndexError))
      else if VirtiofsCount(outLines) == 0 || !confirm then (log1, Returned(None))
      else (log1 + [WriteFstab(Join(RewrittenLines(outLines, nameToId), '\n'))], Returned(None))
  }

  /** The pass never returns a value and raises only `IndexError`, exactly when the file
      read has two or more lines and one after the first has fewer than two fields. It
      writes the file only after a confirmed prompt with at least one virtiofs line; the
      text written then splits back into the file's lines with every mapped virtiofs line
      replaced by its NFS line, the first line and every other line left as they were. */
  lemma RemountFstabSpec(log: seq<VCommand>, nameToId: map<string, string>, confirm: bool, replies: Replies)
    requires forall n :: n in nameToId ==> IsValidUuid(nameToId[n])
    ensures var (log', res) := RemountFstab(log, nameToId, confirm, replies);
      var r := replies(|log|, CatFstab);
      var lines := SplitOn(StdOut(r), '\n');
      var readable := !ErrTruthy(r) && |lines| >= 2;
      && (res == Returned(None) || res == Raised(IndexError))
      && (res == Raised(IndexError) <==> readable && !AllIndexable(lines))
      && (log' != log + [CatFstab] <==> readable && AllIndexable(lines) && VirtiofsCount(lines) > 0 && confirm)
      && (log' != log + [CatFstab] ==>
            && |log'| == |log| + 2 && log'[..|log| + 1] == log + [CatFstab]
            && log'[|log| + 1].WriteFstab?
            && SplitOn(log'[|log| + 1].content, '\n') == RewrittenLines(lines, nameToId))
  {
    forall n | n in nameToId ensures NoSpace(nameToId[n]) {
      ValidUuidNoSpace(nameToId[n]);
    }
    var r := replies(|log|, CatFstab);
    WrittenTextSplitsBack(StdOut(r), nameToId);
  }
}
