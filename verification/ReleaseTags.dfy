/**
 Resolving release tags: `match_tag` and the `ref` output of tools/scripts/resolve_release.py.
 A component with a crate owns the tags that start with its crate name and "-v".
 */
module ReleaseTags {
  import opened Common

  /** A manifest component; components without a crate have no tag prefix. */
  datatype Unit = Unit(name: string, crate: Option<string>) {
    function TagPrefix(): Option<string> {
      match crate
      case None => None
      case Some(c) => Some(c + "-v")
    }
  }

  // ----- SemVer ---------------------------------------------------------------------------------

  predicate IsDigit(c: char) {
    '0' <= c <= '9'
  }

  predicate PreChar(c: char) {
    IsDigit(c) || 'A' <= c <= 'Z' || 'a' <= c <= 'z' || c == '.' || c == '-'
  }

  /** The characters of numbers and of pre-release parts, by their codes: digits; digits, letters, dot, hyphen. */
  lemma CharsAre(c: char)
    ensures IsDigit(c) <==> 48 <= c as int <= 57
    ensures PreChar(c) <==> var n := c as int; 48 <= n <= 57 || 65 <= n <= 90 || 97 <= n <= 122 || n == 46 || n == 45
  {
  }

  /** The places in [0-9]+ . [0-9]+ . [0-9]+ (- [0-9A-Za-z.-]+)? between two characters. */
  datatype Place = Start | Major | Dot1 | Minor | Dot2 | Patch | Hyphen | Pre | Dead

  function Next(p: Place, c: char): Place {
    match p
    case Start => if IsDigit(c) then Major else Dead
    case Major => if IsDigit(c) then Major else if c == '.' then Dot1 else Dead
    case Dot1 => if IsDigit(c) then Minor else Dead
    case Minor => if IsDigit(c) then Minor else if c == '.' then Dot2 else Dead
    case Dot2 => if IsDigit(c) then Patch else Dead
    case Patch => if IsDigit(c) then Patch else if c == '-' then Hyphen else Dead
    case Hyphen => if PreChar(c) then Pre else Dead
    case Pre => if PreChar(c) then Pre else Dead
    case Dead => Dead
  }

  function Scan(s: string): Place {
    if s == [] then Start else Next(Scan(s[..|s| - 1]), s[|s| - 1])
  }

  /** MAJOR.MINOR.PATCH and an optional pre-release part. */
  predicate SemVer(s: string) {
    Scan(s) == Patch || Scan(s) == Pre
  }

  /** What the pattern matches: the end anchor also holds before one final newline. */
  predicate SemVerMatch(s: string) {
    SemVer(s) || (s != [] && s[|s| - 1] == '\n' && SemVer(s[..|s| - 1]))
  }

  // ----- The scanner accepts the pattern --------------------------------------------------------------

  predicate Digits(s: string) {
    s != [] && forall i :: 0 <= i < |s| ==> IsDigit(s[i])
  }

  predicate PreRelease(s: string) {
    |s| > 1 && s[0] == '-' && forall i :: 1 <= i < |s| ==> PreChar(s[i])
  }

  /** The parts of a version text. */
  datatype Version = Version(major: string, minor: string, patch: string, pre: string) {
    predicate Valid() {
      Digits(major) && Digits(minor) && Digits(patch) && (pre == [] || PreRelease(pre))
    }
    function Core(): string {
      major + "." + minor + "." + patch
    }
  }

  lemma {:induction false} ScanDigits(p: string, d: string)
    requires Digits(d)
    ensures match Scan(p)
            case Start => Scan(p + d) == Major
            case Dot1 => Scan(p + d) == Minor
            case Dot2 => Scan(p + d) == Patch
            case _ => true
  {
    var s, init := p + d, d[..|d| - 1];
    assert s[..|s| - 1] == p + init;
    if |d| > 1 {
      ScanDigits(p, init);
    } else {
      assert p + init == p;
    }
  }

  lemma ScanChar(p: string, c: char)
    ensures Scan(p + [c]) == Next(Scan(p), c)
  {
    assert (p + [c])[..|p|] == p;
  }

  lemma {:induction false} ScanPre(p: string, d: string)
    requires Scan(p) == Patch && PreRelease(d)
    ensures Scan(p + d) == Pre
  {
    var s, init := p + d, d[..|d| - 1];
    assert s[..|s| - 1] == p + init;
    if |d| > 2 {
      ScanPre(p, init);
    } else {
      assert init == ['-'];
      ScanChar(p, '-');
    }
  }

  lemma ScanFromStart(d: string)
    requires Digits(d)
    ensures Scan(d) == Major
  {
    ScanDigits([], d);
    assert [] + d == d;
  }

  /** A further number and the dot before it. */
  lemma ScanDotDigits(p: string, d: string)
    requires Digits(d) && (Scan(p) == Major || Scan(p) == Minor)
    ensures Scan(p + "." + d) == if Scan(p) == Major then Minor else Patch
  {
    ScanChar(p, '.');
    ScanDigits(p + ".", d);
  }

  /** Every text of the documented form is accepted. */
  lemma FormIsAccepted(v: Version)
    requires v.Valid()
    ensures SemVer(v.Core() + v.pre)
  {
    ScanFromStart(v.major);
    ScanDotDigits(v.major, v.minor);
    ScanDotDigits(v.major + "." + v.minor, v.patch);
    if v.pre == [] {
      assert v.Core() + v.pre == v.Core();
    } else {
      ScanPre(v.Core(), v.pre);
    }
  }

  /** What has been read at each place. */
  ghost predicate Read(p: Place, v: Version, s: string) {
    match p
    case Start => s == []
    case Major => s == v.major && Digits(v.major)
    case Dot1 => s == v.major + "." && Digits(v.major)
    case Minor => s == v.major + "." + v.minor && Digits(v.major) && Digits(v.minor)
    case Dot2 => s == v.major + "." + v.minor + "." && Digits(v.major) && Digits(v.minor)
    case Patch => s == v.Core() && Digits(v.major) && Digits(v.minor) && Digits(v.patch)
    case Hyphen => s == v.Core() + "-" && Digits(v.major) && Digits(v.minor) && Digits(v.patch)
    case Pre => s == v.Core() + v.pre && Digits(v.major) && Digits(v.minor) && Digits(v.patch) && PreRelease(v.pre)
    case Dead => true
  }

  /** One more character extends the part being read. */
  lemma ReadMore(p: Place, v: Version, s: string, c: char) returns (w: Version)
    requires Read(p, v, s)
    ensures Read(Next(p, c), w, s + [c])
  {
    w := v;
    match p
    case Start => w := v.(major := [c]);
    case Major => w := if c == '.' then v else v.(major := v.major + [c]);
    case Dot1 => w := v.(minor := [c]);
    case Minor =>
      AppendAssoc(v.major + ".", v.minor, [c]);
      w := if c == '.' then v else v.(minor := v.minor + [c]);
    case Dot2 => w := v.(patch := [c]);
    case Patch =>
      AppendAssoc(v.major + "." + v.minor + ".", v.patch, [c]);
      w := if c == '-' then v else v.(patch := v.patch + [c]);
    case Hyphen =>
      AppendAssoc(v.Core(), "-", [c]);
      w := v.(pre := "-" + [c]);
    case Pre =>
      AppendAssoc(v.Core(), v.pre, [c]);
      w := v.(pre := v.pre + [c]);
    case Dead =>
  }

  lemma {:induction false} AcceptedIsRead(s: string) returns (v: Version)
    ensures Read(Scan(s), v, s)
  {
    if s == [] {
      v := Version([], [], [], []);
    } else {
      var u := AcceptedIsRead(s[..|s| - 1]);
      v := ReadMore(Scan(s[..|s| - 1]), u, s[..|s| - 1], s[|s| - 1]);
      assert s[..|s| - 1] + [s[|s| - 1]] == s;
    }
  }

  /** The accepted texts are exactly those of the documented form. */
  lemma SemVerIff(s: string)
    ensures SemVer(s) <==> exists v: Version :: v.Valid() && s == v.Core() + v.pre
  {
    if SemVer(s) {
      var v := AcceptedIsRead(s);
      var w := if Scan(s) == Patch then v.(pre := []) else v;
      assert w.Valid() && s == w.Core() + w.pre;
    }
    if v: Version :| v.Valid() && s == v.Core() + v.pre {
      FormIsAccepted(v);
    }
  }

  /** What the pattern accepts: numbers, a pre-release part or none, and possibly one newline at the end. */
  lemma SemVerMatchIff(s: string)
    ensures SemVerMatch(s)
            <==> exists v: Version :: v.Valid() && (s == v.Core() + v.pre || s == v.Core() + v.pre + "\n")
  {
    SemVerIff(s);
    if s != [] && s[|s| - 1] == '\n' {
      var init := s[..|s| - 1];
      SemVerIff(init);
      assert s == init + "\n";
    }
    if v: Version :| v.Valid() && s == v.Core() + v.pre + "\n" {
      FormIsAccepted(v);
      assert s[..|s| - 1] == v.Core() + v.pre;
    }
  }

  // ----- Matching ---------------------------------------------------------------------------------

  /** The tag is this unit's prefix and a version. */
  predicate Candidate(u: Unit, ref: string) {
    && u.crate.Some?
    && u.TagPrefix().value <= ref
    && SemVerMatch(ref[|u.TagPrefix().value|..])
  }

  function PrefixLen(u: Unit): nat {
    match u.TagPrefix()
    case None => 0
    case Some(p) => |p|
  }

  /** The unit a tag resolves to, of the first `n`: the longest prefix, and the earliest of those. */
  function Best(units: seq<Unit>, ref: string, n: nat): (b: Option<nat>)
    requires n <= |units|
    ensures b.Some? ==> b.value < n && Candidate(units[b.value], ref)
    ensures b.Some? ==> forall j :: 0 <= j < n && Candidate(units[j], ref) ==>
              PrefixLen(units[j]) < PrefixLen(units[b.value])
              || (PrefixLen(units[j]) == PrefixLen(units[b.value]) && b.value <= j)
    ensures b.None? ==> forall j :: 0 <= j < n ==> !Candidate(units[j], ref)
  {
    if n == 0 then None
    else
      var before := Best(units, ref, n - 1);
      if Candidate(units[n - 1], ref)
         && (before.None? || PrefixLen(units[n - 1]) > PrefixLen(units[before.value]))
      then Some(n - 1) else before
  }

  /** The `ref` field of the outputs: the tag a unit and a version make. */
  function RefOf(u: Unit, version: string): string {
    match u.TagPrefix()
    case None => ""
    case Some(p) => p + version
  }

  /** The result for the first `n` units. */
  function Resolved(units: seq<Unit>, ref: string, n: nat): Option<(Unit, string)>
    requires n <= |units|
  {
    match Best(units, ref, n)
    case None => None
    case Some(i) => Some((units[i], ref[PrefixLen(units[i])..]))
  }

  /** A tag that resolves is spelled again by the unit and the version it resolves to. */
  lemma ResolvedSpellsTag(units: seq<Unit>, ref: string)
    ensures var r := Resolved(units, ref, |units|);
            r.Some? ==> RefOf(r.value.0, r.value.1) == ref && SemVerMatch(r.value.1)
  {
    var b := Best(units, ref, |units|);
    if b.Some? {
      var p := units[b.value].TagPrefix().value;
      assert p + ref[|p|..] == ref;
    }
  }

  /** Resolves a tag to a unit and a version, or to nothing. */
  method MatchTag(units: seq<Unit>, ref: string) returns (r: Option<(Unit, string)>)
    ensures r == Resolved(units, ref, |units|)
  {
    r := None;
    for n := 0 to |units|
      invariant r == Resolved(units, ref, n)
    {
      var unit := units[n];
      var prefix := unit.TagPrefix();
      if prefix.Some? && prefix.value != [] && prefix.value <= ref {
        var suffix := ref[|prefix.value|..];
        if SemVerMatch(suffix) && (r.None? || |prefix.value| > PrefixLen(r.value.0)) {
          r := Some((unit, suffix));
        }
      }
    }
  }

  // ----- Which tags come back ---------------------------------------------------------------------------

  /** At `k` the version holds "-v" followed by another version. */
  predicate HidesTagAt(version: string, k: int) {
    && 0 <= k && k + 2 <= |version|
    && version[k] == '-' && version[k + 1] == 'v' && SemVerMatch(version[k + 2..])
  }

  /** Unit `j` is named like everything before the tag that the version of unit `i` hides at `k`. */
  predicate Claims(units: seq<Unit>, i: nat, version: string, j: nat, k: int)
    requires i < |units| && units[i].crate.Some?
  {
    j < |units| && HidesTagAt(version, k) && units[j].crate == Some(units[i].crate.value + "-v" + version[..k])
  }

  ghost predicate Claimed(units: seq<Unit>, i: nat, version: string)
    requires i < |units| && units[i].crate.Some?
  {
    exists j: nat, k :: Claims(units, i, version, j, k)
  }

  /** The tag of unit `i` and `version` resolves to unit `i` and `version`. */
  ghost predicate ComesBack(units: seq<Unit>, i: nat, version: string)
    requires i < |units|
  {
    && Best(units, RefOf(units[i], version), |units|) == Some(i)
    && Resolved(units, RefOf(units[i], version), |units|) == Some((units[i], version))
  }

  lemma {:induction false} ScanStartsWithDigit(s: string)
    requires s != [] && Scan(s) != Dead
    ensures IsDigit(s[0])
  {
    if |s| > 1 {
      ScanStartsWithDigit(s[..|s| - 1]);
    } else {
      assert s[..0] == [];
    }
  }

  lemma SemVerStartsWithDigit(s: string)
    requires SemVerMatch(s)
    ensures s != [] && IsDigit(s[0])
  {
    if SemVer(s) {
      ScanStartsWithDigit(s);
    } else {
      ScanStartsWithDigit(s[..|s| - 1]);
    }
  }

  /** A longer prefix that also matches a tag belongs to a crate that claims it. */
  lemma LongerPrefixClaims(units: seq<Unit>, i: nat, version: string, j: nat)
    requires i < |units| && units[i].crate.Some? && SemVerMatch(version) && j < |units|
    requires Candidate(units[j], RefOf(units[i], version)) && PrefixLen(units[j]) > PrefixLen(units[i])
    ensures Claims(units, i, version, j, PrefixLen(units[j]) - PrefixLen(units[i]) - 2)
  {
    var p, q, ref := units[i].TagPrefix().value, units[j].TagPrefix().value, RefOf(units[i], version);
    var m := |q| - |p|;
    assert ref[|q|..] == version[m..];
    assert q[|q| - 1] == 'v' && q[|q| - 2] == '-';
    assert ref[|q| - 1] == version[m - 1];
    SemVerStartsWithDigit(version);
    assert m >= 2;
    assert ref[|q| - 2] == version[m - 2];
    var name := units[j].crate.value;
    assert name == q[..|q| - 2] == ref[..|q| - 2] == p + version[..m - 2];
  }

  lemma SamePrefixSameCrate(u: Unit, other: Unit, ref: string)
    requires u.crate.Some? && Candidate(u, ref) && Candidate(other, ref) && PrefixLen(other) == PrefixLen(u)
    ensures other.crate == u.crate
  {
    var p, q := u.TagPrefix().value, other.TagPrefix().value;
    assert p == ref[..|p|] && q == ref[..|q|];
    assert u.crate.value == p[..|p| - 2] && other.crate.value == q[..|q| - 2];
  }

  lemma PrefixOfSum(a: string, b: string)
    ensures a <= a + b && (a + b)[|a|..] == b
  {
  }

  lemma HiddenRef(crate: string, version: string, k: nat)
    requires HidesTagAt(version, k)
    ensures (crate + "-v") + version == ((crate + "-v" + version[..k]) + "-v") + version[k + 2..]
  {
    var head := crate + "-v";
    assert version == version[..k] + ("-v" + version[k + 2..]);
    AppendAssoc(head, version[..k], "-v" + version[k + 2..]);
    AppendAssoc(head + version[..k], "-v", version[k + 2..]);
  }

  /** A unit is a candidate for its own tags. */
  lemma OwnCandidate(u: Unit, version: string)
    requires u.crate.Some? && SemVerMatch(version)
    ensures Candidate(u, RefOf(u, version)) && RefOf(u, version)[PrefixLen(u)..] == version
  {
    PrefixOfSum(u.TagPrefix().value, version);
  }

  /** A crate that claims a tag is a candidate with a longer prefix. */
  lemma ClaimantWins(units: seq<Unit>, i: nat, version: string, j: nat, k: nat)
    requires i < |units| && units[i].crate.Some? && Claims(units, i, version, j, k)
    ensures Candidate(units[j], RefOf(units[i], version)) && PrefixLen(units[j]) > PrefixLen(units[i])
  {
    HiddenRef(units[i].crate.value, version, k);
    PrefixOfSum(units[j].TagPrefix().value, version[k + 2..]);
  }

  /**
   For any list of components: the tag of a component comes back exactly when no listed crate claims it and
   no earlier component has the same crate.
   */
  lemma ComesBackIff(units: seq<Unit>, i: nat, version: string)
    requires i < |units| && units[i].crate.Some? && SemVerMatch(version)
    ensures ComesBack(units, i, version)
            <==> !Claimed(units, i, version) && forall j :: 0 <= j < i ==> units[j].crate != units[i].crate
  {
    var ref := RefOf(units[i], version);
    OwnCandidate(units[i], version);
    var b := Best(units, ref, |units|);
    if ComesBack(units, i, version) {
      forall j: nat, k | Claims(units, i, version, j, k)
        ensures false
      {
        ClaimantWins(units, i, version, j, k);
      }
      forall j | 0 <= j < i && units[j].crate == units[i].crate
        ensures false
      {
        assert Candidate(units[j], ref);
      }
    } else if PrefixLen(units[b.value]) > PrefixLen(units[i]) {
      LongerPrefixClaims(units, i, version, b.value);
    } else {
      SamePrefixSameCrate(units[i], units[b.value], ref);
    }
  }

  // ----- Cargo crates ------------------------------------------------------------------------------------

  /** Behind the first dot of a version there is a dot. */
  lemma {:induction false} DotRead(s: string)
    requires Scan(s) != Start && Scan(s) != Major && Scan(s) != Dead
    ensures '.' in s
  {
    var init := s[..|s| - 1];
    assert s == init + [s[|s| - 1]];
    if s[|s| - 1] != '.' {
      DotRead(init);
    }
  }

  lemma {:induction false} ScanPrefix(s: string, k: nat)
    requires Scan(s) != Dead && k <= |s|
    ensures Scan(s[..k]) != Dead
    decreases |s|
  {
    if k < |s| {
      assert s[..|s| - 1][..k] == s[..k];
      ScanPrefix(s[..|s| - 1], k);
    } else {
      assert s[..k] == s;
    }
  }

  /** What precedes a hyphen in a version holds a dot. */
  lemma DotBeforeHyphen(version: string, k: nat)
    requires SemVerMatch(version) && k < |version| && version[k] == '-'
    ensures '.' in version[..k]
  {
    var core := if SemVer(version) then version else version[..|version| - 1];
    assert core[..k + 1] == version[..k] + ['-'] && core[..k] == version[..k];
    ScanPrefix(core, k + 1);
    ScanChar(version[..k], '-');
    DotRead(version[..k]);
  }

  /** A crate that claims a tag has a dot in its name. */
  lemma ClaimantHasDot(units: seq<Unit>, i: nat, version: string, j: nat, k: int)
    requires i < |units| && units[i].crate.Some? && SemVerMatch(version) && Claims(units, i, version, j, k)
    ensures '.' in units[j].crate.value
  {
    DotBeforeHyphen(version, k);
    var t :| 0 <= t < k && version[..k][t] == '.';
    var head := units[i].crate.value + "-v";
    assert units[j].crate.value[|head| + t] == '.';
  }

  ghost predicate DistinctCrates(units: seq<Unit>) {
    forall i, j :: 0 <= i < j < |units| && units[i].crate.Some? ==> units[i].crate != units[j].crate
  }

  /** Cargo allows no dot in a crate name, and then every accepted version of every component comes back,
      however the prefixes overlap. */
  lemma DotlessCratesComeBack(units: seq<Unit>, i: nat, version: string)
    requires i < |units| && units[i].crate.Some? && SemVerMatch(version) && DistinctCrates(units)
    requires forall j :: 0 <= j < |units| && units[j].crate.Some? ==> '.' !in units[j].crate.value
    ensures ComesBack(units, i, version)
  {
    forall j: nat, k | Claims(units, i, version, j, k)
      ensures false
    {
      ClaimantHasDot(units, i, version, j, k);
    }
    ComesBackIff(units, i, version);
  }

  /** A version without a hyphen comes back for any crate names. */
  lemma PlainVersionComesBack(units: seq<Unit>, i: nat, version: string)
    requires i < |units| && units[i].crate.Some? && SemVerMatch(version) && DistinctCrates(units)
    requires '-' !in version
    ensures ComesBack(units, i, version)
  {
    ComesBackIff(units, i, version);
  }

  lemma ExampleVersions()
    ensures SemVerMatch("1.0.0") && SemVerMatch("1.0.0-v1.0.0") && HidesTagAt("1.0.0-v1.0.0", 5)
  {
    FormIsAccepted(Version("1", "0", "0", "-v1.0.0"));
    FormIsAccepted(Version("1", "0", "0", ""));
    assert Version("1", "0", "0", "").Core() + "" == "1.0.0";
    assert Version("1", "0", "0", "-v1.0.0").Core() + "-v1.0.0" == "1.0.0-v1.0.0";
    assert "1.0.0-v1.0.0"[7..] == "1.0.0";
  }

  /** With a dot in a crate name the claim is real: the tag a-v1.0.0-v1.0.0 of crate `a` goes to a crate named
      a-v1.0.0. */
  lemma ClaimedTagExample()
    ensures var units := [Unit("one", Some("a")), Unit("two", Some("a-v1.0.0"))];
            && DistinctCrates(units)
            && SemVerMatch("1.0.0-v1.0.0") && RefOf(units[0], "1.0.0-v1.0.0") == "a-v1.0.0-v1.0.0"
            && Resolved(units, "a-v1.0.0-v1.0.0", 2) == Some((units[1], "1.0.0"))
  {
    var units := [Unit("one", Some("a")), Unit("two", Some("a-v1.0.0"))];
    ExampleVersions();
    ExampleIsClaimed(units, "1.0.0-v1.0.0");
    var ref := "a-v1.0.0-v1.0.0";
    assert RefOf(units[0], "1.0.0-v1.0.0") == ref;
    assert PrefixLen(units[1]) == 10 && ref[10..] == "1.0.0";
    assert Best(units, ref, 1) == None || Best(units, ref, 1) == Some(0);
    assert Best(units, ref, 2) == Some(1);
  }

  lemma ExampleIsClaimed(units: seq<Unit>, version: string)
    requires units == [Unit("one", Some("a")), Unit("two", Some("a-v1.0.0"))] && version == "1.0.0-v1.0.0"
    requires HidesTagAt(version, 5)
    ensures Candidate(units[1], RefOf(units[0], version)) && PrefixLen(units[1]) > PrefixLen(units[0])
  {
    assert version[..5] == "1.0.0";
    assert "a" + "-v" + "1.0.0" == "a-v1.0.0";
    assert Claims(units, 0, version, 1, 5);
    ClaimantWins(units, 0, version, 1, 5);
  }
}
