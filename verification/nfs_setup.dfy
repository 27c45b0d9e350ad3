/** The pure decisions of the NFS driver installer: kernel-release parsing and comparison,
    the choice of driver package, and the "is the driver installed" test. */
module NfsSetup {
  import opened Wrappers
  import opened Text

  const NFS_PACKAGE_URL := "https://github.com/crusoecloud/crusoe-nfs-support/raw/refs/heads/main/vastnfs-dkms_4.0.35-vastdata_all.deb"
  const NFS_PACKAGE_URL_KERNEL_68_PLUS := "https://github.com/crusoecloud/crusoe-nfs-support/raw/refs/heads/main/vastnfs-dkms_4.5.1-vastdata_all.deb"
  const INSTALLED_MARKER := "vastnfs-modules"
  const PARSE_ERROR_PREFIX := "could not parse kernel version "

  // ---------------------------------------------------------------- release cleaning

  /** `raw.split('-')[0].split('+')[0]`. */
  function CleanRelease(raw: string): (v: string)
    ensures v <= raw
    ensures '-' !in v && '+' !in v
    ensures |v| < |raw| ==> raw[|v|] == '-' || raw[|v|] == '+'
  {
    var head := SplitOn(raw, '-')[0];
    SplitOnFirst(raw, '-');
    SplitOnFirst(head, '+');
    SplitOn(head, '+')[0]
  }

  // ---------------------------------------------------------------- integers

  predicate IsDigit(c: char)
  {
    '0' <= c <= '9'
  }

  predicate AllDigits(s: string)
  {
    forall k :: 0 <= k < |s| ==> IsDigit(s[k])
  }

  function DigitValue(c: char): nat
    requires IsDigit(c)
  {
    c as int - '0' as int
  }

  function DigitChar(d: nat): (c: char)
    requires d < 10
    ensures IsDigit(c) && DigitValue(c) == d
  {
    ('0' as int + d) as char
  }

  /** The decimal value of a digit string, most significant digit first. */
  function DigitsValue(s: string): nat
    requires AllDigits(s)
  {
    if s == [] then 0 else 10 * DigitsValue(s[..|s| - 1]) + DigitValue(s[|s| - 1])
  }

  /** Decimal rendering of a natural number, without leading zeros. */
  function ShowNat(n: nat): (s: string)
    ensures |s| > 0 && AllDigits(s)
  {
    if n < 10 then [DigitChar(n)] else ShowNat(n / 10) + [DigitChar(n % 10)]
  }

  lemma {:induction false} ShowNatValue(n: nat)
    ensures DigitsValue(ShowNat(n)) == n
  {
    var s := ShowNat(n);
    if n >= 10 {
      ShowNatValue(n / 10);
      assert s[..|s| - 1] == ShowNat(n / 10);
    }
  }

  /** Python's `int(piece)`, restricted to non-empty ASCII digit strings. */
  function ParseComponent(piece: string): (r: Option<nat>)
    ensures r.Some? <==> |piece| > 0 && AllDigits(piece)
  {
    if |piece| > 0 && AllDigits(piece) then Some(DigitsValue(piece)) else None
  }

  // ---------------------------------------------------------------- versions

  function ParseComponents(pieces: seq<string>): (r: Option<seq<nat>>)
    ensures r.Some? <==> forall k :: 0 <= k < |pieces| ==> ParseComponent(pieces[k]).Some?
    ensures r.Some? ==> (|r.value| == |pieces| &&
      forall k :: 0 <= k < |pieces| ==> ParseComponent(pieces[k]) == Some(r.value[k]))
  {
    if pieces == [] then Some([])
    else
      match (ParseComponent(pieces[0]), ParseComponents(pieces[1..]))
      case (Some(n), Some(ns)) => Some([n] + ns)
      case _ => None
  }

  /** `tuple(map(int, v.split('.')))`, or None where Python raises ValueError. */
  function ParseVersion(v: string): Option<seq<nat>>
  {
    ParseComponents(SplitOn(v, '.'))
  }

  /** The dotted rendering of a version tuple. */
  function ShowVersion(t: seq<nat>): string
  {
    Join(seq(|t|, k requires 0 <= k < |t| => ShowNat(t[k])), '.')
  }

  /** Rendering a version tuple and parsing it again gives the tuple back. */
  lemma VersionRoundTrip(t: seq<nat>)
    requires |t| > 0
    ensures ParseVersion(ShowVersion(t)) == Some(t)
  {
    var parts := seq(|t|, k requires 0 <= k < |t| => ShowNat(t[k]));
    forall k | 0 <= k < |parts| ensures '.' !in parts[k] && ParseComponent(parts[k]) == Some(t[k]) {
      ShowNatValue(t[k]);
    }
    SplitOnOfJoin(parts, '.');
    var r := ParseComponents(parts);
    assert r.Some?;
    assert r.value == t;
  }

  // ---------------------------------------------------------------- tuple order

  /** Python's `a < b` on tuples of integers. */
  predicate TupleLess(a: seq<nat>, b: seq<nat>)
  {
    if a == [] then b != []
    else if b == [] then false
    else if a[0] != b[0] then a[0] < b[0]
    else TupleLess(a[1..], b[1..])
  }

  /** Python's `a >= b` on tuples of integers. */
  predicate TupleGe(a: seq<nat>, b: seq<nat>)
  {
    !TupleLess(a, b)
  }

  /** `a < b` holds exactly when `a` is a proper prefix of `b` or the first difference favours `b`. */
  lemma {:induction false} TupleLessIff(a: seq<nat>, b: seq<nat>)
    ensures TupleLess(a, b) <==>
      (|a| < |b| && a == b[..|a|]) ||
      (exists k :: 0 <= k < |a| && k < |b| && a[..k] == b[..k] && a[k] < b[k])
  {
    if a != [] && b != [] {
      TupleLessIff(a[1..], b[1..]);
      if a[0] == b[0] {
        FirstDifferenceAfterHead(a, b);
        PrefixAfterHead(a, b);
      } else {
        assert a[..0] == b[..0];
      }
    }
  }

  /** With equal heads, the first difference lies in the tails. */
  lemma FirstDifferenceAfterHead(a: seq<nat>, b: seq<nat>)
    requires a != [] && b != [] && a[0] == b[0]
    ensures (exists k :: 0 <= k < |a| && k < |b| && a[..k] == b[..k] && a[k] < b[k]) <==>
      (exists k :: 0 <= k < |a[1..]| && k < |b[1..]| && a[1..][..k] == b[1..][..k] && a[1..][k] < b[1..][k])
  {
    if exists k :: 0 <= k < |a[1..]| && k < |b[1..]| && a[1..][..k] == b[1..][..k] && a[1..][k] < b[1..][k] {
      var k :| 0 <= k < |a[1..]| && k < |b[1..]| && a[1..][..k] == b[1..][..k] && a[1..][k] < b[1..][k];
      assert a[..k + 1] == [a[0]] + a[1..][..k];
      assert b[..k + 1] == [b[0]] + b[1..][..k];
    }
    if exists k :: 0 <= k < |a| && k < |b| && a[..k] == b[..k] && a[k] < b[k] {
      var k :| 0 <= k < |a| && k < |b| && a[..k] == b[..k] && a[k] < b[k];
      assert k > 0;
      assert a[1..][..k - 1] == a[..k][1..];
      assert b[1..][..k - 1] == b[..k][1..];
    }
  }

  /** With equal heads, one sequence is a proper prefix of the other exactly when the tails are. */
  lemma PrefixAfterHead(a: seq<nat>, b: seq<nat>)
    requires a != [] && b != [] && a[0] == b[0]
    ensures (|a| < |b| && a == b[..|a|]) <==> (|a[1..]| < |b[1..]| && a[1..] == b[1..][..|a[1..]|])
  {
    if |a| < |b| && a == b[..|a|] {
      assert a[1..] == b[1..][..|a[1..]|];
    }
    if |a[1..]| < |b[1..]| && a[1..] == b[1..][..|a[1..]|] {
      assert a == [a[0]] + a[1..];
    }
  }

  lemma {:induction false} TupleGeReflexive(a: seq<nat>)
    ensures TupleGe(a, a)
  {
    if a != [] {
      TupleGeReflexive(a[1..]);
    }
  }

  lemma {:induction false} TupleGeAntisymmetric(a: seq<nat>, b: seq<nat>)
    requires TupleGe(a, b) && TupleGe(b, a)
    ensures a == b
  {
    if a != [] && b != [] {
      TupleGeAntisymmetric(a[1..], b[1..]);
      assert a == [a[0]] + a[1..] && b == [b[0]] + b[1..];
    }
  }

  lemma {:induction false} TupleLessTransitive(a: seq<nat>, b: seq<nat>, c: seq<nat>)
    requires TupleLess(a, b) && TupleLess(b, c)
    ensures TupleLess(a, c)
  {
    if a != [] && a[0] == b[0] && b[0] == c[0] {
      TupleLessTransitive(a[1..], b[1..], c[1..]);
    }
  }

  /** `>=` on tuples is a total order: transitive and any two tuples compare. */
  lemma TupleGeTotalOrder(a: seq<nat>, b: seq<nat>, c: seq<nat>)
    ensures TupleGe(a, b) || TupleGe(b, a)
    ensures TupleGe(a, b) && TupleGe(b, c) ==> TupleGe(a, c)
  {
    if TupleLess(a, b) && TupleLess(b, a) {
      TupleLessTransitive(a, b, a);
      TupleGeReflexive(a);
    }
    if TupleGe(a, b) && TupleGe(b, c) && TupleLess(a, c) {
      if TupleLess(b, a) {
        TupleLessTransitive(b, a, c);
      } else {
        TupleGeAntisymmetric(a, b);
      }
    }
  }

  // ---------------------------------------------------------------- is_kernel_at_least

  /** `is_kernel_at_least(target)` with `platform.release()` passed in as `raw`. */
  function IsKernelAtLeast(raw: string, target: string): (r: (bool, Option<string>))
    ensures r.1.None? <==> ParseVersion(CleanRelease(raw)).Some? && ParseVersion(target).Some?
    ensures r.1.None? ==> r.0 == TupleGe(ParseVersion(CleanRelease(raw)).value, ParseVersion(target).value)
    ensures r.1.Some? ==> !r.0 && r.1.value == PARSE_ERROR_PREFIX + raw
  {
    match (ParseVersion(CleanRelease(raw)), ParseVersion(target))
    case (Some(current), Some(wanted)) => (TupleGe(current, wanted), None)
    case _ => (false, Some(PARSE_ERROR_PREFIX + raw))
  }

  /** A release compared with itself as the target is at least itself. */
  lemma KernelAtLeastItself(raw: string)
    requires ParseVersion(CleanRelease(raw)).Some?
    ensures IsKernelAtLeast(raw, CleanRelease(raw)) == (true, None)
  {
    CleanReleaseIdempotent(raw);
    TupleGeReflexive(ParseVersion(CleanRelease(raw)).value);
  }

  lemma CleanReleaseIdempotent(raw: string)
    ensures CleanRelease(CleanRelease(raw)) == CleanRelease(raw)
  {
    var v := CleanRelease(raw);
    var w := CleanRelease(v);
    assert forall i :: 0 <= i < |v| ==> v[i] != '-' && v[i] != '+';
    assert v[..|w|] == w;
  }

  lemma ParseSixEight()
    ensures ParseVersion("6.8") == Some([6, 8])
  {
    assert "6.8" == "6" + ['.'] + "8";
    SplitOnCons("6", '.', "8");
    SplitOnNoSep("8", '.');
    assert SplitOn("6.8", '.') == ["6", "8"];
    assert DigitsValue("6") == 6 by { assert "6"[..0] == []; }
    assert DigitsValue("8") == 8 by { assert "8"[..0] == []; }
    assert AllDigits("6") && AllDigits("8");
    assert ParseComponent("6") == Some(6) && ParseComponent("8") == Some(8);
    var pieces := ["6", "8"];
    assert pieces[0] == "6" && pieces[1] == "8";
    var r := ParseComponents(pieces);
    assert r.Some?;
    assert r.value == [6, 8];
  }

  /** The driver package downloaded by `manually_install_VAST_NFS_driver`. */
  function PackageUrl(raw: string): string
  {
    if IsKernelAtLeast(raw, "6.8").0 then NFS_PACKAGE_URL_KERNEL_68_PLUS else NFS_PACKAGE_URL
  }

  /** The 4.5.1 package is chosen exactly for releases that parse to a tuple >= (6, 8);
      every other release, including an unparsable one, gets the 4.0.35 package. */
  lemma PackageChoice(raw: string)
    ensures PackageUrl(raw) == NFS_PACKAGE_URL_KERNEL_68_PLUS <==>
      ParseVersion(CleanRelease(raw)).Some? && TupleGe(ParseVersion(CleanRelease(raw)).value, [6, 8])
    ensures PackageUrl(raw) != NFS_PACKAGE_URL_KERNEL_68_PLUS ==> PackageUrl(raw) == NFS_PACKAGE_URL
  {
    ParseSixEight();
    assert NFS_PACKAGE_URL_KERNEL_68_PLUS != NFS_PACKAGE_URL by {
      assert |NFS_PACKAGE_URL_KERNEL_68_PLUS| != |NFS_PACKAGE_URL|;
    }
  }

  // ---------------------------------------------------------------- installed check

  /** What `run_command` reports here: the stripped standard output of a command that
      exited with status 0, or the error it hands back for a timeout or a non-zero exit
      status (any other exception is not modelled). */
  datatype SetupReply = Exit0(out: string) | Raised(error: string)

  /** `check_if_VAST_NFS_driver_installed`, given the reply to `dpkg -l | grep vastnfs`. */
  function CheckInstalled(reply: SetupReply): (r: (bool, Option<string>))
    ensures r.0 <==> reply.Exit0? && Contains(reply.out, INSTALLED_MARKER)
    ensures reply.Raised? ==> r.1 == Some(reply.error)
    ensures reply.Exit0? ==> r.1 == None
  {
    match reply
    case Raised(e) => (false, Some(e))
    case Exit0(out) => if out != "" && Contains(out, INSTALLED_MARKER) then (true, None) else (false, None)
  }
}
