/** The `/etc/fstab` rewrite of the virtiofs-to-NFS conversion: every virtiofs line after
    the first whose disk has a volume id becomes the matching NFS line, in place. */
module VirtiofsFstab {
  import opened Text
  import opened VirtiofsInput

  /** The options of every NFS mount the conversion makes. */
  const NFS_OPTIONS := "vers=3," + "nconnect=16," + "spread_reads,spread_writes," + "remoteports=" + START_IP + "-" + END_IP

  /** `100.64.0.2:/volumes/<id>`. */
  function NfsSource(volumeId: string): string
  {
    START_IP + ":" + ExportPath(volumeId)
  }

  /** The fstab line that mounts volume `volumeId` at `dir` over NFS. */
  function NfsLine(volumeId: string, dir: string): string
  {
    Join([NfsSource(volumeId), dir, "nfs", NFS_OPTIONS, "0", "0"], ' ')
  }

  /** A line of at least six fields whose type field is `virtiofs`: one the script counts. */
  predicate IsVirtiofsLine(line: string)
  {
    var f := Fields(line);
    |f| >= 6 && f[2] == "virtiofs"
  }

  /** A line whose first two fields can be read without an `IndexError`. */
  predicate Indexable(line: string)
  {
    |Fields(line)| >= 2
  }

  /** What the loop leaves at a line it examines. */
  function NewLine(line: string, nameToId: map<string, string>): string
  {
    var f := Fields(line);
    if IsVirtiofsLine(line) && f[0] in nameToId then NfsLine(nameToId[f[0]], f[1]) else line
  }

  function RewriteEach(lines: seq<string>, nameToId: map<string, string>): (r: seq<string>)
    ensures |r| == |lines|
    ensures forall k :: 0 <= k < |lines| ==> r[k] == NewLine(lines[k], nameToId)
  {
    if lines == [] then []
    else [NewLine(lines[0], nameToId)] + RewriteEach(lines[1..], nameToId)
  }

  /** `new_lines` after the loop: the first line is never examined, every other line is
      replaced by its rewrite. */
  function RewrittenLines(lines: seq<string>, nameToId: map<string, string>): (r: seq<string>)
    ensures |r| == |lines|
    ensures |lines| > 0 ==> r[0] == lines[0]
    ensures forall k :: 1 <= k < |lines| ==> r[k] == NewLine(lines[k], nameToId)
  {
    if lines == [] then []
    else
      var r := [lines[0]] + RewriteEach(lines[1..], nameToId);
      assert forall k :: 1 <= k < |lines| ==> r[k] == NewLine(lines[1..][k - 1], nameToId);
      r
  }

  function CountVirtiofs(lines: seq<string>): nat
  {
    if lines == [] then 0
    else CountVirtiofs(lines[..|lines| - 1]) + (if IsVirtiofsLine(lines[|lines| - 1]) then 1 else 0)
  }

  lemma CountVirtiofsStep(lines: seq<string>, i: nat)
    requires 1 <= i < |lines|
    ensures CountVirtiofs(lines[1..i + 1]) == CountVirtiofs(lines[1..i]) + (if IsVirtiofsLine(lines[i]) then 1 else 0)
  {
    assert lines[1..i + 1][..i - 1] == lines[1..i];
  }

  /** `virtiofs_mount_count`: the virtiofs lines after the first, mapped or not. */
  function VirtiofsCount(lines: seq<string>): nat
  {
    if lines == [] then 0 else CountVirtiofs(lines[1..])
  }

  /** No line after the first makes the loop raise `IndexError`. */
  predicate AllIndexable(lines: seq<string>)
  {
    forall k :: 1 <= k < |lines| ==> Indexable(lines[k])
  }

  /** The loop of `remount_fstab_mounts`: `ok` is false when a line with fewer than two
      fields raises `IndexError`; otherwise the lines are rewritten in place and counted. */
  method RewriteFstabLines(outLines: seq<string>, nameToId: map<string, string>)
    returns (newLines: seq<string>, count: nat, ok: bool)
    ensures ok <==> AllIndexable(outLines)
    ensures ok ==> newLines == RewrittenLines(outLines, nameToId) && count == VirtiofsCount(outLines)
  {
    newLines := outLines;
    count := 0;
    if |outLines| == 0 {
      return newLines, count, true;
    }
    var i := 1;
    while i < |outLines|
      invariant 1 <= i <= |outLines|
      invariant |newLines| == |outLines|
      invariant forall k :: 1 <= k < i ==> Indexable(outLines[k])
      invariant newLines[0] == outLines[0]
      invariant forall k :: 1 <= k < i ==> newLines[k] == NewLine(outLines[k], nameToId)
      invariant forall k :: i <= k < |outLines| ==> newLines[k] == outLines[k]
      invariant count == CountVirtiofs(outLines[1..i])
    {
      var oldLine := outLines[i];
      var mountOptions := Fields(oldLine);
      if |mountOptions| < 2 {
        return newLines, count, false;
      }
      var mountDir := mountOptions[1];
      var diskName := mountOptions[0];
      CountVirtiofsStep(outLines, i);
      ghost var before := newLines;
      if |mountOptions| >= 6 && mountOptions[2] == "virtiofs" {
        count := count + 1;
        if diskName in nameToId {
          newLines := newLines[i := NfsLine(nameToId[diskName], mountDir)];
        }
      }
      assert newLines == before[i := NewLine(oldLine, nameToId)];
      i := i + 1;
    }
    ghost var r := RewrittenLines(outLines, nameToId);
    assert forall k :: 0 <= k < |r| ==> newLines[k] == r[k];
    assert outLines[1..i] == outLines[1..];
    ok := true;
  }

  // ---------------------------------------------------------------- properties

  lemma NfsFieldsHaveNoSpace(volumeId: string)
    requires NoSpace(volumeId)
    ensures NoSpace(NfsSource(volumeId)) && NoSpace(NFS_OPTIONS)
  {
    var a, b, c, d := "vers=3,", "nconnect=16,", "spread_reads,spread_writes,", "remoteports=";
    assert NoSpace(a) && NoSpace(b);
    assert NoSpace(c);
    assert NoSpace(d);
    assert NoSpace(START_IP) && NoSpace(END_IP) && NoSpace("-");
    NoSpaceConcat(a, b);
    NoSpaceConcat(a + b, c);
    NoSpaceConcat(a + b + c, d);
    NoSpaceConcat(a + b + c + d, START_IP);
    NoSpaceConcat(a + b + c + d + START_IP, "-");
    NoSpaceConcat(a + b + c + d + START_IP + "-", END_IP);
    assert NoSpace(":") && NoSpace("/volumes/");
    NoSpaceConcat(START_IP, ":");
    NoSpaceConcat("/volumes/", volumeId);
    NoSpaceConcat(START_IP + ":", ExportPath(volumeId));
  }

  /** The NFS line reads back as source, directory, `nfs`, the options and `0 0`. */
  lemma NfsLineFields(volumeId: string, dir: string)
    requires NoSpace(volumeId)
    requires |dir| > 0 && NoSpace(dir)
    ensures Fields(NfsLine(volumeId, dir)) == [NfsSource(volumeId), dir, "nfs", NFS_OPTIONS, "0", "0"]
  {
    NfsFieldsHaveNoSpace(volumeId);
    FieldsOfJoin([NfsSource(volumeId), dir, "nfs", NFS_OPTIONS, "0", "0"]);
  }

  /** A line the loop examines keeps its text unless it is a virtiofs line with a mapped
      disk; such a line becomes one that mounts the disk's volume from the NFS server at the
      same directory, and it is no longer a virtiofs line. */
  lemma NewLineSpec(line: string, nameToId: map<string, string>)
    requires forall n :: n in nameToId ==> NoSpace(nameToId[n])
    ensures !(IsVirtiofsLine(line) && Fields(line)[0] in nameToId) ==> NewLine(line, nameToId) == line
    ensures IsVirtiofsLine(line) && Fields(line)[0] in nameToId ==>
      var f := Fields(line);
      && Fields(NewLine(line, nameToId)) == [NfsSource(nameToId[f[0]]), f[1], "nfs", NFS_OPTIONS, "0", "0"]
      && !IsVirtiofsLine(NewLine(line, nameToId))
  {
    if IsVirtiofsLine(line) && Fields(line)[0] in nameToId {
      var f := Fields(line);
      NfsLineFields(nameToId[f[0]], f[1]);
    }
  }

  /** After the rewrite the virtiofs lines left past the first are exactly those whose disk
      has no volume id. */
  lemma RemainingVirtiofs(lines: seq<string>, nameToId: map<string, string>, k: nat)
    requires forall n :: n in nameToId ==> NoSpace(nameToId[n])
    requires 1 <= k < |lines|
    ensures IsVirtiofsLine(RewrittenLines(lines, nameToId)[k]) <==>
      IsVirtiofsLine(lines[k]) && Fields(lines[k])[0] !in nameToId
  {
    NewLineSpec(lines[k], nameToId);
  }

  /** Rewriting twice is rewriting once, when no volume id holds whitespace. */
  lemma RewriteIdempotent(lines: seq<string>, nameToId: map<string, string>)
    requires forall n :: n in nameToId ==> NoSpace(nameToId[n])
    ensures RewrittenLines(RewrittenLines(lines, nameToId), nameToId) == RewrittenLines(lines, nameToId)
  {
    var r := RewrittenLines(lines, nameToId);
    forall k | 1 <= k < |lines| ensures NewLine(r[k], nameToId) == r[k] {
      NewLineSpec(lines[k], nameToId);
    }
  }

  lemma {:induction false} CountVirtiofsZero(lines: seq<string>)
    ensures CountVirtiofs(lines) == 0 <==> forall k :: 0 <= k < |lines| ==> !IsVirtiofsLine(lines[k])
  {
    if lines != [] {
      var init := lines[..|lines| - 1];
      CountVirtiofsZero(init);
      assert forall k :: 0 <= k < |init| ==> init[k] == lines[k];
    }
  }

  /** The count is 0 exactly when no line past the first is a virtiofs line, and then the
      rewrite changes nothing. */
  lemma CountZeroUnchanged(lines: seq<string>, nameToId: map<string, string>)
    ensures VirtiofsCount(lines) == 0 <==> forall k :: 1 <= k < |lines| ==> !IsVirtiofsLine(lines[k])
    ensures VirtiofsCount(lines) == 0 ==> RewrittenLines(lines, nameToId) == lines
  {
    if lines != [] {
      CountVirtiofsZero(lines[1..]);
      assert forall k :: 1 <= k < |lines| ==> lines[1..][k - 1] == lines[k];
    }
  }

  /** Every virtiofs line counts once, whether or not its disk is mapped, so the count
      bounds the number of lines that change. */
  lemma {:induction false} CountBoundsChanges(lines: seq<string>, nameToId: map<string, string>)
    ensures CountVirtiofs(lines) <= |lines|
    ensures |ChangedIn(lines, nameToId)| <= CountVirtiofs(lines)
  {
    if lines != [] {
      CountBoundsChanges(lines[..|lines| - 1], nameToId);
    }
  }

  /** The lines whose rewrite differs from them. */
  function ChangedIn(lines: seq<string>, nameToId: map<string, string>): seq<string>
  {
    if lines == [] then []
    else
      var last := lines[|lines| - 1];
      ChangedIn(lines[..|lines| - 1], nameToId) + (if NewLine(last, nameToId) != last then [last] else [])
  }

  lemma {:induction false} JoinAvoids(words: seq<string>, sep: char, c: char)
    requires c != sep
    requires forall k :: 0 <= k < |words| ==> c !in words[k]
    ensures c !in Join(words, sep)
  {
    if |words| > 1 {
      JoinAvoids(words[1..], sep, c);
    }
  }

  /** The file text written back splits into exactly the rewritten lines, when the lines
      came from splitting the old text and no volume id holds whitespace. */
  lemma WrittenTextSplitsBack(out: string, nameToId: map<string, string>)
    requires forall n :: n in nameToId ==> NoSpace(nameToId[n])
    ensures var r := RewrittenLines(SplitOn(out, '\n'), nameToId);
      SplitOn(Join(r, '\n'), '\n') == r
  {
    var lines := SplitOn(out, '\n');
    SplitOnJoin(out, '\n');
    var r := RewrittenLines(lines, nameToId);
    forall k | 0 <= k < |r| ensures '\n' !in r[k] {
      if k > 0 && IsVirtiofsLine(lines[k]) && Fields(lines[k])[0] in nameToId {
        var f := Fields(lines[k]);
        var words := [NfsSource(nameToId[f[0]]), f[1], "nfs", NFS_OPTIONS, "0", "0"];
        NfsFieldsHaveNoSpace(nameToId[f[0]]);
        forall j | 0 <= j < |words| ensures '\n' !in words[j] {
          assert NoSpace(words[j]);
          assert forall p :: 0 <= p < |words[j]| ==> words[j][p] != '\n';
        }
        JoinAvoids(words, ' ', '\n');
      }
    }
    SplitOnOfJoin(r, '\n');
  }
}
