/** The mount inventory of the IP-to-DNS migration: decoded `findmnt -t nfs --json`
    entries become mount records by splitting each source at ":/volumes/". */
module Inventory {
  import opened Wrappers
  import opened Text

  const VOLUMES := ":/volumes/"
  const NO_MOUNTS_FOUND := "no mounts found"

  /** One decoded `findmnt` filesystem entry; a key the entry lacks reads as "". */
  datatype FindmntEntry = FindmntEntry(source: string, target: string, options: string)

  /** The record saved in the checkpoint for one Crusoe NFS mount. */
  datatype MountRecord = MountRecord(mountPoint: string, volumeId: string, ipAddress: string, options: string)

  /** What the `findmnt -t nfs --json` query produced. */
  datatype FindmntResult =
    | Failed(detail: string)                        // the command failed; `detail` is the error text
    | Blank                                         // it succeeded and printed nothing
    | Printed(decoded: Option<seq<FindmntEntry>>)   // it printed JSON; None when decoding fails

  /** A Crusoe volume source has the form `<address>:/volumes/<volume id>`. */
  predicate IsVolumeSource(source: string)
  {
    Contains(source, VOLUMES)
  }

  /** `<address>:/volumes/<volume id>`, the source a mount call is given. */
  function VolumeSource(address: string, volumeId: string): string
  {
    address + VOLUMES + volumeId
  }

  /** `parts[0]` and `parts[1]` of `source.split(":/volumes/")`: the text before the first
      delimiter, and the text between the first and the second (or the end). */
  function SplitSource(source: string): (r: (string, string))
    requires IsVolumeSource(source)
    ensures |r.0| <= |source| && r.0 == source[..|r.0|] && OccursAt(source, VOLUMES, |r.0|)
    ensures forall j :: 0 <= j < |r.0| ==> !OccursAt(source, VOLUMES, j)
    ensures |r.0| + |VOLUMES| + |r.1| <= |source|
    ensures r.1 == source[|r.0| + |VOLUMES|..|r.0| + |VOLUMES| + |r.1|]
    ensures |r.0| + |VOLUMES| + |r.1| == |source| || OccursAt(source, VOLUMES, |r.0| + |VOLUMES| + |r.1|)
    ensures forall j :: |r.0| + |VOLUMES| <= j < |r.0| + |VOLUMES| + |r.1| ==> !OccursAt(source, VOLUMES, j)
  {
    var i := FindFrom(source, VOLUMES, 0).value;
    var j := i + |VOLUMES|;
    match FindFrom(source, VOLUMES, j)
    case Some(k) => (source[..i], source[j..k])
    case None => (source[..i], source[j..])
  }

  function ToRecord(e: FindmntEntry): MountRecord
    requires IsVolumeSource(e.source)
  {
    var (address, volumeId) := SplitSource(e.source);
    MountRecord(e.target, volumeId, address, e.options)
  }

  /** The loop of `get_current_mounts`: entries whose source is not a Crusoe volume are skipped. */
  function CollectEntries(es: seq<FindmntEntry>): seq<MountRecord>
  {
    if es == [] then []
    else if IsVolumeSource(es[0].source) then [ToRecord(es[0])] + CollectEntries(es[1..])
    else CollectEntries(es[1..])
  }

  /** `get_current_mounts`: None on a query error or undecodable output, [] when nothing is listed. */
  function GetCurrentMounts(q: FindmntResult): (r: Option<seq<MountRecord>>)
    ensures r.None? <==>
      (q.Failed? && q.detail != "" && !Contains(LowerAscii(q.detail), NO_MOUNTS_FOUND)) ||
      q == Printed(None)
    ensures q.Blank? || q.Failed? ==> r.None? || r == Some([])
    ensures q.Printed? && q.decoded.Some? ==> r == Some(CollectEntries(q.decoded.value))
  {
    match q
    // `if err:` is false for an empty error text, and then `not out` holds (out is None)
    case Failed(detail) =>
      if detail == "" || Contains(LowerAscii(detail), NO_MOUNTS_FOUND) then Some([]) else None
    case Blank => Some([])
    case Printed(None) => None
    case Printed(Some(es)) => Some(CollectEntries(es))
  }

  // ---------------------------------------------------------------- collector properties

  /** Collecting distributes over concatenation: the output keeps the input order. */
  lemma {:induction false} CollectAppend(a: seq<FindmntEntry>, b: seq<FindmntEntry>)
    ensures CollectEntries(a + b) == CollectEntries(a) + CollectEntries(b)
  {
    if a == [] {
      assert a + b == b;
    } else {
      assert (a + b)[0] == a[0];
      assert (a + b)[1..] == a[1..] + b;
      CollectAppend(a[1..], b);
    }
  }

  /** A record is collected exactly when some Crusoe-volume entry produces it. */
  lemma {:induction false} CollectMembership(es: seq<FindmntEntry>, r: MountRecord)
    ensures r in CollectEntries(es) <==>
      exists i :: 0 <= i < |es| && IsVolumeSource(es[i].source) && ToRecord(es[i]) == r
  {
    if es != [] {
      CollectMembership(es[1..], r);
      if exists i :: 0 <= i < |es| && IsVolumeSource(es[i].source) && ToRecord(es[i]) == r {
        var i :| 0 <= i < |es| && IsVolumeSource(es[i].source) && ToRecord(es[i]) == r;
        if i > 0 { assert es[1..][i - 1] == es[i]; }
      }
      if exists i :: 0 <= i < |es[1..]| && IsVolumeSource(es[1..][i].source) && ToRecord(es[1..][i]) == r {
        var i :| 0 <= i < |es[1..]| && IsVolumeSource(es[1..][i].source) && ToRecord(es[1..][i]) == r;
        assert es[i + 1] == es[1..][i];
      }
    }
  }

  predicate AllVolumeSources(es: seq<FindmntEntry>)
  {
    forall i :: 0 <= i < |es| ==> IsVolumeSource(es[i].source)
  }

  /** Nothing is dropped exactly when every entry is a Crusoe volume. */
  lemma {:induction false} CollectLength(es: seq<FindmntEntry>)
    ensures |CollectEntries(es)| <= |es|
    ensures |CollectEntries(es)| == |es| <==> AllVolumeSources(es)
  {
    if es != [] {
      CollectLength(es[1..]);
      if IsVolumeSource(es[0].source) {
        if AllVolumeSources(es[1..]) {
          forall i | 0 <= i < |es| ensures IsVolumeSource(es[i].source) {
            if i > 0 { assert es[i] == es[1..][i - 1]; }
          }
        } else {
          var i :| 0 <= i < |es[1..]| && !IsVolumeSource(es[1..][i].source);
          assert es[i + 1] == es[1..][i];
        }
      }
    }
  }

  /** When every entry is a Crusoe volume, the records line up one-to-one with the entries. */
  lemma {:induction false} CollectAligned(es: seq<FindmntEntry>, i: nat)
    requires AllVolumeSources(es)
    requires i < |es|
    ensures |CollectEntries(es)| == |es| && CollectEntries(es)[i] == ToRecord(es[i])
  {
    CollectLength(es);
    if i > 0 {
      assert AllVolumeSources(es[1..]) by {
        forall k | 0 <= k < |es[1..]| ensures IsVolumeSource(es[1..][k].source) {
          assert es[1..][k] == es[k + 1];
        }
      }
      CollectAligned(es[1..], i - 1);
      assert es[1..][i - 1] == es[i];
    }
  }

  // ---------------------------------------------------------------- source round trips

  lemma NotContains(s: string, pat: string, j: nat)
    requires |pat| > 0 && !Contains(s, pat)
    ensures !OccursAt(s, pat, j)
  {
  }

  /** The address never contains the delimiter, and neither does the volume id. */
  lemma SplitSourceParts(source: string)
    requires IsVolumeSource(source)
    ensures !Contains(SplitSource(source).0, VOLUMES)
    ensures !Contains(SplitSource(source).1, VOLUMES)
  {
    var (a, v) := SplitSource(source);
    if Contains(a, VOLUMES) {
      var j := FindFrom(a, VOLUMES, 0).value;
      OccursInSlice(source, VOLUMES, 0, |a|, j);
    }
    if Contains(v, VOLUMES) {
      var j := FindFrom(v, VOLUMES, 0).value;
      var lo := |a| + |VOLUMES|;
      OccursInSlice(source, VOLUMES, lo, lo + |v|, j);
    }
  }

  /** A source holding the delimiter once is rebuilt exactly from its address and volume id. */
  lemma SourceRoundTrip(source: string)
    requires IsVolumeSource(source)
    requires FindFrom(source, VOLUMES, FindFrom(source, VOLUMES, 0).value + |VOLUMES|).None?
    ensures VolumeSource(SplitSource(source).0, SplitSource(source).1) == source
  {
    var (a, v) := SplitSource(source);
    var i := FindFrom(source, VOLUMES, 0).value;
    assert i == |a|;
    assert |a| + |VOLUMES| + |v| == |source|;
    assert source == source[..|a|] + source[|a|..|a| + |VOLUMES|] + source[|a| + |VOLUMES|..];
  }

  /** No occurrence of the delimiter starts inside the address part of a built source. */
  lemma NoOccurrenceBefore(address: string, volumeId: string, j: nat)
    requires !Contains(address, VOLUMES)
    requires j < |address|
    ensures !OccursAt(VolumeSource(address, volumeId), VOLUMES, j)
  {
    var s := VolumeSource(address, volumeId);
    var n := |address|;
    var w := |VOLUMES|;
    if j + w <= n {
      assert s[j..j + w] == address[j..j + w];
      NotContains(address, VOLUMES, j);
    } else if j + w <= |s| {
      // a window straddling the boundary would need the ':' at s[n] inside VOLUMES[1..]
      assert s[n] == ':';
      assert VOLUMES[n - j] != ':';
      assert s[j..j + w][n - j] != VOLUMES[n - j];
    }
  }

  /** No occurrence of the delimiter starts inside the volume-id part of a built source. */
  lemma NoOccurrenceAfter(address: string, volumeId: string, j: nat)
    requires !Contains(volumeId, VOLUMES)
    requires |address| + |VOLUMES| <= j
    ensures !OccursAt(VolumeSource(address, volumeId), VOLUMES, j)
  {
    var s := VolumeSource(address, volumeId);
    var m := |address| + |VOLUMES|;
    var w := |VOLUMES|;
    if j + w <= |s| {
      assert s[m..] == volumeId;
      assert s[j..j + w] == volumeId[j - m..j - m + w];
      NotContains(volumeId, VOLUMES, j - m);
    }
  }

  /** Building a source from an address and a volume id free of the delimiter, and
      splitting it again, gives the two parts back. */
  lemma SplitOfVolumeSource(address: string, volumeId: string)
    requires !Contains(address, VOLUMES) && !Contains(volumeId, VOLUMES)
    ensures IsVolumeSource(VolumeSource(address, volumeId))
    ensures SplitSource(VolumeSource(address, volumeId)) == (address, volumeId)
  {
    var s := VolumeSource(address, volumeId);
    var n := |address|;
    var m := n + |VOLUMES|;
    assert s[..n] == address;
    assert s[n..m] == VOLUMES;
    assert s[m..] == volumeId;
    assert OccursAt(s, VOLUMES, n);
    forall j | 0 <= j < n ensures !OccursAt(s, VOLUMES, j) {
      NoOccurrenceBefore(address, volumeId, j);
    }
    assert FindFrom(s, VOLUMES, 0) == Some(n);
    forall j | m <= j ensures !OccursAt(s, VOLUMES, j) {
      NoOccurrenceAfter(address, volumeId, j);
    }
    assert FindFrom(s, VOLUMES, m).None?;
  }
}
