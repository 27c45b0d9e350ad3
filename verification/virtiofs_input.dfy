/** The inputs of the virtiofs-to-NFS conversion: command replies, UUID validation, the
    `--name-ids` mapping from disk names to volume ids, and the export check. */
module VirtiofsInput {
  import opened Wrappers
  import opened Text

  /** The two ends of the range of Crusoe NFS server addresses. */
  const START_IP := "100.64.0.2"
  const END_IP := "100.64.0.17"

  /** What this script's `run_command` hands back: the stripped stdout and stderr of a
      command that exited 0, or no output and an exception for one that failed or timed out. */
  datatype Reply = Ran(out: string, err: string) | Failed

  /** The stdout of a reply; empty for a failed command, whose stdout the script never reads. */
  function StdOut(r: Reply): string
  {
    if r.Ran? then r.out else ""
  }

  /** `if err:` — true for a failure, and also for a success that wrote to stderr. */
  predicate ErrTruthy(r: Reply)
  {
    r.Failed? || r.err != ""
  }

  // ---------------------------------------------------------------- UUIDs

  /** Python's `s.replace(pat, '')`: occurrences are removed left to right, without overlap. */
  function RemoveAll(s: string, pat: string): (r: string)
    requires |pat| > 0
    ensures |r| <= |s|
    decreases |s|
  {
    if |s| == 0 then s
    else if pat <= s then RemoveAll(s[|pat|..], pat)
    else [s[0]] + RemoveAll(s[1..], pat)
  }

  predicate IsBrace(c: char)
  {
    c == '{' || c == '}'
  }

  /** Python's `s.strip('{}')`. */
  function StripBraces(s: string): (r: string)
    ensures |r| <= |s|
    decreases |s|
  {
    if |s| > 0 && IsBrace(s[0]) then StripBraces(s[1..])
    else if |s| > 0 && IsBrace(s[|s| - 1]) then StripBraces(s[..|s| - 1])
    else s
  }

  /** Python's `s.replace('-', '')`. */
  function DropDashes(s: string): (r: string)
    ensures |r| <= |s|
    ensures '-' !in r
  {
    if s == [] then []
    else (if s[0] == '-' then [] else [s[0]]) + DropDashes(s[1..])
  }

  predicate IsHexDigit(c: char)
  {
    '0' <= c <= '9' || 'a' <= c <= 'f' || 'A' <= c <= 'F'
  }

  predicate AllHex(s: string)
  {
    forall k :: 0 <= k < |s| ==> IsHexDigit(s[k])
  }

  /** The hex digits `uuid.UUID(s)` goes on to read: the `urn:` and `uuid:` prefixes, the
      surrounding braces and the dashes removed. */
  function UuidDigits(s: string): string
  {
    DropDashes(StripBraces(RemoveAll(RemoveAll(s, "urn:"), "uuid:")))
  }

  /** `is_valid_uuid`: `uuid.UUID(s)` accepts exactly 32 hex digits once the decorations are removed. */
  predicate IsValidUuid(s: string)
    ensures IsValidUuid(s) ==> |s| >= 32
  {
    var h := UuidDigits(s);
    |h| == 32 && AllHex(h)
  }

  /** `a` and `b` joined by a dash. */
  function Dashed(a: string, b: string): string
  {
    a + "-" + b
  }

  /** The canonical 8-4-4-4-12 rendering of 32 hex digits. */
  function Hyphenated(h: string): string
    requires |h| == 32
  {
    Dashed(h[..8], Dashed(h[8..12], Dashed(h[12..16], Dashed(h[16..20], h[20..]))))
  }

  predicate HexOrDash(s: string)
  {
    forall k :: 0 <= k < |s| ==> IsHexDigit(s[k]) || s[k] == '-'
  }

  lemma {:induction false} RemoveAllAbsent(s: string, pat: string)
    requires |pat| > 0 && pat[0] !in s
    ensures RemoveAll(s, pat) == s
    decreases |s|
  {
    if |s| > 0 {
      assert s[0] in s;
      RemoveAllAbsent(s[1..], pat);
      assert [s[0]] + s[1..] == s;
    }
  }

  lemma DashedHexOrDash(a: string, b: string)
    requires HexOrDash(a) && HexOrDash(b)
    ensures HexOrDash(Dashed(a, b))
  {
    var s := Dashed(a, b);
    forall k | 0 <= k < |s| ensures IsHexDigit(s[k]) || s[k] == '-' {
      if k < |a| {
        assert s[k] == a[k];
      } else if k > |a| {
        assert s[k] == b[k - |a| - 1];
      }
    }
  }

  lemma {:induction false} DropDashesDashed(a: string, b: string)
    requires AllHex(a)
    ensures DropDashes(Dashed(a, b)) == a + DropDashes(b)
  {
    if a == [] {
      assert Dashed(a, b) == ['-'] + b;
      assert (['-'] + b)[1..] == b;
    } else {
      assert Dashed(a, b)[1..] == Dashed(a[1..], b);
      DropDashesDashed(a[1..], b);
      assert [a[0]] + a[1..] == a;
    }
  }

  lemma {:induction false} DropDashesHex(s: string)
    requires AllHex(s)
    ensures DropDashes(s) == s
  {
    if s != [] {
      DropDashesHex(s[1..]);
      assert [s[0]] + s[1..] == s;
    }
  }

  lemma HexSlice(h: string, lo: nat, hi: nat)
    requires AllHex(h) && lo <= hi <= |h|
    ensures AllHex(h[lo..hi]) && HexOrDash(h[lo..hi])
  {
    forall k | 0 <= k < hi - lo ensures IsHexDigit(h[lo..hi][k]) {
      assert h[lo..hi][k] == h[lo + k];
    }
  }

  /** A string of hex digits and dashes that starts and ends with a digit passes the
      prefix and brace removal untouched. */
  lemma UndecoratedKept(s: string)
    requires HexOrDash(s) && |s| > 0 && IsHexDigit(s[0]) && IsHexDigit(s[|s| - 1])
    ensures StripBraces(RemoveAll(RemoveAll(s, "urn:"), "uuid:")) == s
  {
    assert 'u' !in s by {
      forall k | 0 <= k < |s| ensures s[k] != 'u' {
        assert IsHexDigit(s[k]) || s[k] == '-';
      }
    }
    RemoveAllAbsent(s, "urn:");
    RemoveAllAbsent(s, "uuid:");
    assert !IsBrace(s[0]) && !IsBrace(s[|s| - 1]);
  }

  /** 32 hex digits, in either case, are a valid UUID. */
  lemma HexUuidAccepted(h: string)
    requires |h| == 32 && AllHex(h)
    ensures IsValidUuid(h)
  {
    HexSlice(h, 0, 32);
    assert h[0..32] == h;
    UndecoratedKept(h);
    DropDashesHex(h);
  }

  /** Hex digits and dashes, starting and ending with a digit. */
  predicate Rendering(s: string)
  {
    HexOrDash(s) && |s| > 0 && IsHexDigit(s[0]) && IsHexDigit(s[|s| - 1])
  }

  lemma DashedRendering(a: string, b: string)
    requires AllHex(a) && |a| > 0 && Rendering(b)
    ensures Rendering(Dashed(a, b))
  {
    HexSlice(a, 0, |a|);
    assert a[0..|a|] == a;
    DashedHexOrDash(a, b);
    assert Dashed(a, b)[0] == a[0];
    assert Dashed(a, b)[|Dashed(a, b)| - 1] == b[|b| - 1];
  }

  /** The five groups of a hyphenated UUID are hex digits. */
  lemma HyphenatedGroups(h: string)
    requires |h| == 32 && AllHex(h)
    ensures AllHex(h[..8]) && AllHex(h[8..12]) && AllHex(h[12..16]) && AllHex(h[16..20]) && AllHex(h[20..])
    ensures h[..8] + (h[8..12] + (h[12..16] + (h[16..20] + h[20..]))) == h
  {
    HexSlice(h, 0, 8); HexSlice(h, 8, 12); HexSlice(h, 12, 16); HexSlice(h, 16, 20); HexSlice(h, 20, 32);
    assert h[0..8] == h[..8] && h[20..32] == h[20..];
  }

  lemma HyphenatedRendering(h: string)
    requires |h| == 32 && AllHex(h)
    ensures Rendering(Hyphenated(h))
  {
    var a, b, c, d, e := h[..8], h[8..12], h[12..16], h[16..20], h[20..];
    HyphenatedGroups(h);
    HexSlice(e, 0, |e|);
    assert e[0..|e|] == e;
    DashedRendering(d, e);
    DashedRendering(c, Dashed(d, e));
    DashedRendering(b, Dashed(c, Dashed(d, e)));
    DashedRendering(a, Dashed(b, Dashed(c, Dashed(d, e))));
  }

  lemma HyphenatedDigits(h: string)
    requires |h| == 32 && AllHex(h)
    ensures DropDashes(Hyphenated(h)) == h
  {
    var a, b, c, d, e := h[..8], h[8..12], h[12..16], h[16..20], h[20..];
    HyphenatedGroups(h);
    DropDashesHex(e);
    DropDashesDashed(d, e);
    DropDashesDashed(c, Dashed(d, e));
    DropDashesDashed(b, Dashed(c, Dashed(d, e)));
    DropDashesDashed(a, Dashed(b, Dashed(c, Dashed(d, e))));
  }

  /** Every canonical 8-4-4-4-12 rendering of 32 hex digits, in either case, is a valid UUID. */
  lemma CanonicalUuidAccepted(h: string)
    requires |h| == 32 && AllHex(h)
    ensures IsValidUuid(Hyphenated(h))
  {
    HyphenatedRendering(h);
    UndecoratedKept(Hyphenated(h));
    HyphenatedDigits(h);
  }

  lemma {:induction false} RemoveAllKeeps(s: string, pat: string, c: char)
    requires |pat| > 0
    ensures c in s ==> c in RemoveAll(s, pat) || c in pat
    decreases |s|
  {
    if |s| > 0 {
      if pat <= s {
        RemoveAllKeeps(s[|pat|..], pat, c);
        assert s == pat + s[|pat|..];
      } else {
        RemoveAllKeeps(s[1..], pat, c);
        assert s == [s[0]] + s[1..];
      }
    }
  }

  lemma {:induction false} StripBracesKeeps(s: string, c: char)
    ensures c in s ==> c in StripBraces(s) || IsBrace(c)
    decreases |s|
  {
    if |s| > 0 && IsBrace(s[0]) {
      StripBracesKeeps(s[1..], c);
      assert s == [s[0]] + s[1..];
    } else if |s| > 0 && IsBrace(s[|s| - 1]) {
      StripBracesKeeps(s[..|s| - 1], c);
      assert s == s[..|s| - 1] + [s[|s| - 1]];
    }
  }

  lemma {:induction false} DropDashesKeeps(s: string, c: char)
    ensures c in s ==> c in DropDashes(s) || c == '-'
  {
    if s != [] {
      DropDashesKeeps(s[1..], c);
      assert s == [s[0]] + s[1..];
    }
  }

  /** A valid UUID holds no whitespace: every character is a hex digit or one of the
      decorations the validation removes. */
  lemma ValidUuidNoSpace(s: string)
    requires IsValidUuid(s)
    ensures NoSpace(s)
  {
    var s1 := RemoveAll(s, "urn:");
    var s2 := RemoveAll(s1, "uuid:");
    var h := UuidDigits(s);
    forall k | 0 <= k < |s| ensures !IsSpace(s[k]) {
      var c := s[k];
      RemoveAllKeeps(s, "urn:", c);
      RemoveAllKeeps(s1, "uuid:", c);
      StripBracesKeeps(s2, c);
      DropDashesKeeps(StripBraces(s2), c);
      if c in h {
        var j :| 0 <= j < |h| && h[j] == c;
        assert IsHexDigit(h[j]);
      }
    }
  }

  // ---------------------------------------------------------------- the name-to-id mapping

  /** How one `name,id` piece of `--name-ids` reads. */
  datatype PairCheck = MissingComma | BadUuid(name: string, id: string) | Pair(name: string, id: string)

  function CheckPair(piece: string): (r: PairCheck)
    ensures r.MissingComma? <==> ',' !in piece
    ensures r.Pair? ==> IsValidUuid(r.id)
  {
    if ',' !in piece then MissingComma
    else
      SplitOnHasSep(piece, ',');
      var parts := SplitOn(piece, ',');
      if IsValidUuid(parts[1]) then Pair(parts[0], parts[1]) else BadUuid(parts[0], parts[1])
  }

  /** The error message for a piece that does not read as a pair. */
  function PairError(piece: string, c: PairCheck): string
  {
    match c
    case MissingComma => "missing comma for " + piece + "; see -h for more details"
    case BadUuid(name, id) => "invalid disk UUID for name " + name + ": '" + id + "'"
    case Pair(_, _) => ""
  }

  /** The loop of `get_name_to_id_mapping` from `acc` on: the first bad piece stops it with
      its message; each good one sets its name to its id. */
  function ParsePairs(pieces: seq<string>, acc: map<string, string>): (Option<map<string, string>>, string)
  {
    if pieces == [] then (Some(acc), "")
    else
      var c := CheckPair(pieces[0]);
      if c.Pair? then ParsePairs(pieces[1..], acc[c.name := c.id])
      else (None, PairError(pieces[0], c))
  }

  /** `get_name_to_id_mapping`. */
  method GetNameToIdMapping(nameIds: string) returns (mapping: Option<map<string, string>>, err: string)
    ensures (mapping, err) == ParsePairs(SplitOn(nameIds, '+'), map[])
  {
    var pieces := SplitOn(nameIds, '+');
    var nameToId: map<string, string> := map[];
    var i := 0;
    while i < |pieces|
      invariant 0 <= i <= |pieces|
      invariant ParsePairs(pieces, map[]) == ParsePairs(pieces[i..], nameToId)
    {
      var c := CheckPair(pieces[i]);
      if !c.Pair? {
        return None, PairError(pieces[i], c);
      }
      nameToId := nameToId[c.name := c.id];
      assert pieces[i..][1..] == pieces[i + 1..];
      i := i + 1;
    }
    return Some(nameToId), "";
  }

  /** The parse fails exactly when some piece is bad, and then the message is the first bad
      piece's, which is never empty. */
  lemma {:induction false} ParsePairsFailure(pieces: seq<string>, acc: map<string, string>)
    ensures var (m, err) := ParsePairs(pieces, acc);
      && (m.None? <==> exists k :: 0 <= k < |pieces| && !CheckPair(pieces[k]).Pair?)
      && (m.None? ==> exists k :: (0 <= k < |pieces| && !CheckPair(pieces[k]).Pair? &&
            (forall j :: 0 <= j < k ==> CheckPair(pieces[j]).Pair?) &&
            err == PairError(pieces[k], CheckPair(pieces[k])) && err != ""))
  {
    if pieces != [] {
      var c := CheckPair(pieces[0]);
      if c.Pair? {
        ParsePairsFailure(pieces[1..], acc[c.name := c.id]);
        if exists k :: 0 <= k < |pieces| && !CheckPair(pieces[k]).Pair? {
          var k :| 0 <= k < |pieces| && !CheckPair(pieces[k]).Pair?;
          assert pieces[1..][k - 1] == pieces[k];
        }
        if ParsePairs(pieces, acc).0.None? {
          var k :| 0 <= k < |pieces[1..]| && !CheckPair(pieces[1..][k]).Pair? &&
            (forall j :: 0 <= j < k ==> CheckPair(pieces[1..][j]).Pair?) &&
            ParsePairs(pieces, acc).1 == PairError(pieces[1..][k], CheckPair(pieces[1..][k]));
          assert pieces[k + 1] == pieces[1..][k];
          forall j | 0 <= j < k + 1 ensures CheckPair(pieces[j]).Pair? {
            if j > 0 { assert pieces[j] == pieces[1..][j - 1]; }
          }
        }
      }
    }
  }

  /** Every piece reads as a pair. */
  predicate AllPairs(pieces: seq<string>)
  {
    forall j :: 0 <= j < |pieces| ==> CheckPair(pieces[j]).Pair?
  }

  /** Some piece names `n`. */
  predicate Names(pieces: seq<string>, n: string)
  {
    exists j :: 0 <= j < |pieces| && CheckPair(pieces[j]).Pair? && CheckPair(pieces[j]).name == n
  }

  lemma AllPairsTail(pieces: seq<string>)
    requires pieces != [] && AllPairs(pieces)
    ensures CheckPair(pieces[0]).Pair? && AllPairs(pieces[1..])
  {
    forall j | 0 <= j < |pieces| - 1 ensures CheckPair(pieces[1..][j]).Pair? {
      assert pieces[1..][j] == pieces[j + 1];
    }
  }

  lemma NamesCons(pieces: seq<string>, n: string)
    requires pieces != []
    ensures Names(pieces, n) <==>
      (CheckPair(pieces[0]).Pair? && CheckPair(pieces[0]).name == n) || Names(pieces[1..], n)
  {
    if Names(pieces[1..], n) {
      var j :| 0 <= j < |pieces[1..]| && CheckPair(pieces[1..][j]).Pair? && CheckPair(pieces[1..][j]).name == n;
      assert pieces[j + 1] == pieces[1..][j];
    }
    if Names(pieces, n) {
      var j :| 0 <= j < |pieces| && CheckPair(pieces[j]).Pair? && CheckPair(pieces[j]).name == n;
      if j > 0 { assert pieces[1..][j - 1] == pieces[j]; }
    }
  }

  /** When every piece reads as a pair the parse succeeds with no error, and its names are
      those of `acc` and of the pieces. */
  lemma {:induction false} ParsePairsKeys(pieces: seq<string>, acc: map<string, string>)
    requires AllPairs(pieces)
    ensures var (m, err) := ParsePairs(pieces, acc);
      m.Some? && err == "" && forall n :: n in m.value <==> n in acc || Names(pieces, n)
  {
    if pieces != [] {
      AllPairsTail(pieces);
      var c := CheckPair(pieces[0]);
      ParsePairsKeys(pieces[1..], acc[c.name := c.id]);
      forall n ensures Names(pieces, n) <==> c.name == n || Names(pieces[1..], n) {
        NamesCons(pieces, n);
      }
    }
  }

  /** A successful parse maps each piece's name to the id of the last piece with that name:
      a later duplicate wins. */
  lemma {:induction false} ParsePairsLastWins(pieces: seq<string>, acc: map<string, string>, k: nat)
    requires AllPairs(pieces) && k < |pieces|
    requires forall j :: k < j < |pieces| ==> CheckPair(pieces[j]).name != CheckPair(pieces[k]).name
    ensures ParsePairs(pieces, acc).0.Some?
    ensures CheckPair(pieces[k]).name in ParsePairs(pieces, acc).0.value
    ensures ParsePairs(pieces, acc).0.value[CheckPair(pieces[k]).name] == CheckPair(pieces[k]).id
  {
    AllPairsTail(pieces);
    var c := CheckPair(pieces[0]);
    var rest := pieces[1..];
    if k == 0 {
      ParsePairsKeeps(rest, acc[c.name := c.id], c.name);
    } else {
      assert rest[k - 1] == pieces[k];
      forall j | k - 1 < j < |rest| ensures CheckPair(rest[j]).name != CheckPair(rest[k - 1]).name {
        assert rest[j] == pieces[j + 1];
      }
      ParsePairsLastWins(rest, acc[c.name := c.id], k - 1);
    }
  }

  /** A successful parse keeps the value `acc` gives every name no piece mentions. */
  lemma {:induction false} ParsePairsKeeps(pieces: seq<string>, acc: map<string, string>, n: string)
    requires AllPairs(pieces) && n in acc && !Names(pieces, n)
    ensures ParsePairs(pieces, acc).0.Some?
    ensures n in ParsePairs(pieces, acc).0.value && ParsePairs(pieces, acc).0.value[n] == acc[n]
  {
    if pieces != [] {
      AllPairsTail(pieces);
      NamesCons(pieces, n);
      var c := CheckPair(pieces[0]);
      ParsePairsKeeps(pieces[1..], acc[c.name := c.id], n);
    }
  }

  /** Every id a parse produces is a valid UUID, given that those already in `acc` are. */
  lemma {:induction false} ParsePairsValid(pieces: seq<string>, acc: map<string, string>)
    requires forall n :: n in acc ==> IsValidUuid(acc[n])
    ensures var m := ParsePairs(pieces, acc).0;
      m.Some? ==> forall n :: n in m.value ==> IsValidUuid(m.value[n])
  {
    if pieces != [] {
      var c := CheckPair(pieces[0]);
      if c.Pair? {
        ParsePairsValid(pieces[1..], acc[c.name := c.id]);
      }
    }
  }

  // ---------------------------------------------------------------- export check

  /** One virtiofs mount as `findmnt -t virtiofs --json` lists it: its directory and the
      disk name it mounts. */
  datatype VMount = VMount(dir: string, disk: string)

  /** The export path of a volume in `showmount` output. */
  function ExportPath(volumeId: string): (p: string)
    ensures |p| > 0
  {
    "/volumes/" + volumeId
  }

  /** The loop of `verify_all_mounts_exist`: every mount's disk has an id whose export is listed. */
  function AllExported(mounts: seq<VMount>, nameToId: map<string, string>, out: string): (r: bool)
    ensures r <==> forall i :: 0 <= i < |mounts| ==>
      mounts[i].disk in nameToId && Contains(out, ExportPath(nameToId[mounts[i].disk]))
  {
    if mounts == [] then true
    else if mounts[0].disk !in nameToId then false
    else if !Contains(out, ExportPath(nameToId[mounts[0].disk])) then false
    else
      var r := AllExported(mounts[1..], nameToId, out);
      assert forall i :: 1 <= i < |mounts| ==> mounts[i] == mounts[1..][i - 1];
      r
  }

  /** `verify_all_mounts_exist`, given the reply of `showmount -e 100.64.0.2`. */
  function VerifyAllMountsExist(mounts: seq<VMount>, nameToId: map<string, string>, showmount: Reply): (r: bool)
    ensures r <==> !ErrTruthy(showmount) && forall i :: 0 <= i < |mounts| ==>
      mounts[i].disk in nameToId && Contains(showmount.out, ExportPath(nameToId[mounts[i].disk]))
  {
    !ErrTruthy(showmount) && AllExported(mounts, nameToId, showmount.out)
  }
}
