/** The `/etc/fstab` rewrite of the IP-to-DNS migration: a line-by-line map that moves
    legacy Crusoe NFS entries onto the DNS endpoint, and counts them. */
module DnsFstab {
  import opened Text
  import opened Inventory

  const CRUSOE_NFS_DOMAIN := "nfs.crusoecloudcompute.com"
  /** `vers=3,nconnect=16,spread_reads,spread_writes,remoteports=dns` */
  const DNS_MOUNT_OPTIONS := "vers=3," + "nconnect=16," + "spread_reads,spread_writes," + "remoteports=dns"

  /** Blank lines and comments (after `strip()`) are kept as they are. */
  predicate IsBlankOrComment(line: string)
  {
    var t := Strip(line);
    t == "" || t[0] == '#'
  }

  /** A line `update_fstab` rewrites: at least four fields, type `nfs`, a Crusoe volume
      source, and a source that does not already start with the DNS domain. */
  predicate NeedsMigration(line: string)
  {
    !IsBlankOrComment(line) &&
    var f := Fields(line);
    |f| >= 4 && f[2] == "nfs" && IsVolumeSource(f[0]) && !(CRUSOE_NFS_DOMAIN <= f[0])
  }

  /** The canonical DNS entry; the original options and dump/pass fields are not kept. */
  function DnsLine(volumeId: string, mountPoint: string): string
  {
    Join([VolumeSource(CRUSOE_NFS_DOMAIN, volumeId), mountPoint, "nfs", DNS_MOUNT_OPTIONS, "0", "0"], ' ')
  }

  /** One iteration of the `update_fstab` loop: the new line, and whether it was rewritten. */
  function MigrateLine(line: string): (string, bool)
  {
    if NeedsMigration(line) then
      var f := Fields(line);
      (DnsLine(SplitSource(f[0]).1, f[1]), true)
    else (line, false)
  }

  /** The new fstab lines. */
  function MigratedLines(lines: seq<string>): (r: seq<string>)
    ensures |r| == |lines|
  {
    if lines == [] then [] else MigratedLines(lines[..|lines| - 1]) + [MigrateLine(lines[|lines| - 1]).0]
  }

  /** The number of lines satisfying `p`. */
  function CountWhere(lines: seq<string>, p: string -> bool): nat
  {
    if lines == [] then 0
    else CountWhere(lines[..|lines| - 1], p) + (if p(lines[|lines| - 1]) then 1 else 0)
  }

  /** `nfs_count`: the number of rewritten lines. */
  function MigrationCount(lines: seq<string>): nat
  {
    CountWhere(lines, NeedsMigration)
  }

  /** The loop of `update_fstab`, building `new_lines` by appending and counting rewrites. */
  method UpdateFstabLines(lines: seq<string>) returns (newLines: seq<string>, nfsCount: nat)
    ensures newLines == MigratedLines(lines)
    ensures nfsCount == MigrationCount(lines)
  {
    newLines, nfsCount := [], 0;
    var i := 0;
    while i < |lines|
      invariant 0 <= i <= |lines|
      invariant newLines == MigratedLines(lines[..i])
      invariant nfsCount == MigrationCount(lines[..i])
    {
      MigrationStep(lines, i);
      var (line, rewritten) := MigrateLine(lines[i]);
      newLines := newLines + [line];
      if rewritten {
        nfsCount := nfsCount + 1;
      }
      i := i + 1;
    }
    assert lines[..|lines|] == lines;
  }

  /** One more line: the loop appends its rewrite and counts it when it was rewritten. */
  lemma MigrationStep(lines: seq<string>, i: nat)
    requires i < |lines|
    ensures MigratedLines(lines[..i + 1]) == MigratedLines(lines[..i]) + [MigrateLine(lines[i]).0]
    ensures MigrationCount(lines[..i + 1]) == MigrationCount(lines[..i]) + (if MigrateLine(lines[i]).1 then 1 else 0)
  {
    assert lines[..i + 1][..i] == lines[..i];
  }

  // ---------------------------------------------------------------- properties

  lemma MigratedLinesAt(lines: seq<string>, i: nat)
    requires i < |lines|
    ensures MigratedLines(lines)[i] == MigrateLine(lines[i]).0
  {
    if i < |lines| - 1 {
      MigratedLinesAt(lines[..|lines| - 1], i);
    }
  }

  lemma DomainHasNoSpace()
    ensures NoSpace(CRUSOE_NFS_DOMAIN) && NoSpace(VOLUMES)
  {
  }

  lemma OptionsHaveNoSpace()
    ensures NoSpace(DNS_MOUNT_OPTIONS)
  {
    var a, b, c, d := "vers=3,", "nconnect=16,", "spread_reads,spread_writes,", "remoteports=dns";
    assert NoSpace(a) && NoSpace(b);
    assert NoSpace(c);
    assert NoSpace(d);
    NoSpaceConcat(a, b);
    NoSpaceConcat(a + b, c);
    NoSpaceConcat(a + b + c, d);
  }

  lemma ConstantsHaveNoSpace()
    ensures NoSpace(CRUSOE_NFS_DOMAIN) && NoSpace(VOLUMES) && NoSpace(DNS_MOUNT_OPTIONS)
    ensures NoSpace("nfs") && NoSpace("0")
  {
    DomainHasNoSpace();
    OptionsHaveNoSpace();
  }

  /** A rewritten line splits into the DNS source for the same volume, the same mount
      point, type `nfs`, the DNS options and `0 0`. */
  lemma DnsLineFields(volumeId: string, mountPoint: string)
    requires NoSpace(volumeId)
    requires |mountPoint| > 0 && NoSpace(mountPoint)
    ensures Fields(DnsLine(volumeId, mountPoint)) ==
      [VolumeSource(CRUSOE_NFS_DOMAIN, volumeId), mountPoint, "nfs", DNS_MOUNT_OPTIONS, "0", "0"]
  {
    ConstantsHaveNoSpace();
    var src := VolumeSource(CRUSOE_NFS_DOMAIN, volumeId);
    assert NoSpace(src) by {
      forall k | 0 <= k < |src| ensures !IsSpace(src[k]) {
        if k < |CRUSOE_NFS_DOMAIN| {
          assert src[k] == CRUSOE_NFS_DOMAIN[k];
        } else if k < |CRUSOE_NFS_DOMAIN| + |VOLUMES| {
          assert src[k] == VOLUMES[k - |CRUSOE_NFS_DOMAIN|];
        } else {
          assert src[k] == volumeId[k - |CRUSOE_NFS_DOMAIN| - |VOLUMES|];
        }
      }
    }
    FieldsOfJoin([src, mountPoint, "nfs", DNS_MOUNT_OPTIONS, "0", "0"]);
  }

  /** A rewritten line is never rewritten again. */
  lemma DnsLineIsFinal(volumeId: string, mountPoint: string)
    requires NoSpace(volumeId)
    requires |mountPoint| > 0 && NoSpace(mountPoint)
    ensures !NeedsMigration(DnsLine(volumeId, mountPoint))
  {
    var line := DnsLine(volumeId, mountPoint);
    DnsLineFields(volumeId, mountPoint);
    var src := VolumeSource(CRUSOE_NFS_DOMAIN, volumeId);
    assert CRUSOE_NFS_DOMAIN <= src;
    assert line[0] == 'n';
    JoinEndsWithLast([src, mountPoint, "nfs", DNS_MOUNT_OPTIONS, "0", "0"], ' ');
    assert line[|line| - 1] == '0';
    StripUnchanged(line);
  }

  /** Every line keeps its bytes unless it needs migration, in which case it becomes the
      canonical DNS entry for the same volume and mount point, different from before. */
  lemma {:induction false} MigrateLineSpec(line: string)
    ensures !NeedsMigration(line) ==> MigrateLine(line) == (line, false)
    ensures NeedsMigration(line) ==>
      var f := Fields(line);
      && MigrateLine(line).1
      && Fields(MigrateLine(line).0) ==
         [VolumeSource(CRUSOE_NFS_DOMAIN, SplitSource(f[0]).1), f[1], "nfs", DNS_MOUNT_OPTIONS, "0", "0"]
      && MigrateLine(line).0 != line
  {
    if NeedsMigration(line) {
      var f := Fields(line);
      var v := SplitSource(f[0]).1;
      NoSpaceSlice(f[0], |SplitSource(f[0]).0| + |VOLUMES|, |SplitSource(f[0]).0| + |VOLUMES| + |v|);
      DnsLineFields(v, f[1]);
      assert CRUSOE_NFS_DOMAIN <= VolumeSource(CRUSOE_NFS_DOMAIN, v);
    }
  }

  /** Rewriting is idempotent: applying the map again changes nothing and counts 0. */
  lemma {:induction false} RewriteIdempotent(lines: seq<string>)
    ensures MigratedLines(MigratedLines(lines)) == MigratedLines(lines)
    ensures MigrationCount(MigratedLines(lines)) == 0
  {
    if lines != [] {
      var init := lines[..|lines| - 1];
      var last := lines[|lines| - 1];
      RewriteIdempotent(init);
      var out := MigratedLines(lines);
      assert out[..|out| - 1] == MigratedLines(init);
      var m := MigrateLine(last).0;
      assert out[|out| - 1] == m;
      MigrateLineSpec(last);
      if NeedsMigration(last) {
        var f := Fields(last);
        var v := SplitSource(f[0]).1;
        NoSpaceSlice(f[0], |SplitSource(f[0]).0| + |VOLUMES|, |SplitSource(f[0]).0| + |VOLUMES| + |v|);
        DnsLineIsFinal(v, f[1]);
      }
      assert !NeedsMigration(m);
    }
  }

  /** `nfs_count` is the number of lines that need migration, and line `i` changes exactly
      when it needs migration; the line count is preserved. */
  lemma {:induction false} CountMatchesChanges(lines: seq<string>, i: nat)
    requires i < |lines|
    ensures |MigratedLines(lines)| == |lines|
    ensures MigratedLines(lines)[i] != lines[i] <==> NeedsMigration(lines[i])
    ensures MigrationCount(lines) == 0 <==> forall k :: 0 <= k < |lines| ==> !NeedsMigration(lines[k])
  {
    MigratedLinesAt(lines, i);
    MigrateLineSpec(lines[i]);
    CountZero(lines);
  }

  lemma CountZero(lines: seq<string>)
    ensures MigrationCount(lines) == 0 <==> forall k :: 0 <= k < |lines| ==> !NeedsMigration(lines[k])
  {
    CountWhereZero(lines, NeedsMigration);
  }

  lemma {:induction false} CountWhereZero(lines: seq<string>, p: string -> bool)
    ensures CountWhere(lines, p) == 0 <==> forall k :: 0 <= k < |lines| ==> !p(lines[k])
  {
    if lines != [] {
      var init := lines[..|lines| - 1];
      CountWhereZero(init, p);
      assert forall k :: 0 <= k < |init| ==> init[k] == lines[k];
    }
  }

  /** `update_fstab` reports nothing to migrate exactly when its rewrite would leave the
      file as it is. */
  lemma NothingToMigrate(lines: seq<string>)
    ensures MigrationCount(lines) == 0 <==> MigratedLines(lines) == lines
  {
    CountZero(lines);
    if MigrationCount(lines) == 0 {
      forall k | 0 <= k < |lines| ensures MigratedLines(lines)[k] == lines[k] {
        MigratedLinesAt(lines, k);
        MigrateLineSpec(lines[k]);
      }
    } else {
      var k :| 0 <= k < |lines| && NeedsMigration(lines[k]);
      CountMatchesChanges(lines, k);
    }
  }
}
