/** The update service (services/UpdateService.ts): the three-slot version
    comparison, the update decision taken on the API's app-version payload,
    and the checks `downloadAndInstall` makes before it downloads anything
    (platform, file name, stale packages, free space). */
module Update {
  import opened Wrappers
  import opened Decimal
  import opened JsText
  import opened JsNumber
  import opened Lexicographic
  import opened Types
  import opened Build
  import Simulation
  import ApiManager

  // ---------------------------------------------------------------------------
  // compareVersions
  // ---------------------------------------------------------------------------

  /** `parts[i]` of a number array; past the end it is `undefined`, which
      compares like NaN: neither below nor above anything. */
  function At(parts: seq<Num>, i: nat): (n: Num)
    ensures i >= |parts| ==> n.NaN?
  {
    if i < |parts| then parts[i] else NaN
  }

  /** Position `k` is the first position from `from` on (among the three
      inspected) where one side is below the other. */
  predicate FirstDifference(p1: seq<Num>, p2: seq<Num>, from: nat, k: nat) {
    && from <= k < 3
    && !Incomparable(At(p1, k), At(p2, k))
    && forall j :: from <= j < k ==> Incomparable(At(p1, j), At(p2, j))
  }

  /** The loop of `compareVersions` from position `i` on. */
  function CompareFrom(p1: seq<Num>, p2: seq<Num>, i: nat): (r: int)
    requires i <= 3
    ensures r == -1 || r == 0 || r == 1
    decreases 3 - i
  {
    if i == 3 then 0
    else if Less(At(p2, i), At(p1, i)) then 1
    else if Less(At(p1, i), At(p2, i)) then -1
    else CompareFrom(p1, p2, i + 1)
  }

  /** The loop answers 0 exactly when no inspected position decides, and
      otherwise the sign of the first position that does. */
  lemma {:induction false} CompareFromMeaning(p1: seq<Num>, p2: seq<Num>, i: nat)
    requires i <= 3
    ensures CompareFrom(p1, p2, i) == 0 <==> forall j :: i <= j < 3 ==> Incomparable(At(p1, j), At(p2, j))
    ensures CompareFrom(p1, p2, i) == 1 ==>
      exists k :: FirstDifference(p1, p2, i, k) && Less(At(p2, k), At(p1, k))
    ensures CompareFrom(p1, p2, i) == -1 ==>
      exists k :: FirstDifference(p1, p2, i, k) && Less(At(p1, k), At(p2, k))
    decreases 3 - i
  {
    if i < 3 {
      if Less(At(p2, i), At(p1, i)) || Less(At(p1, i), At(p2, i)) {
        assert FirstDifference(p1, p2, i, i);
      } else {
        CompareFromMeaning(p1, p2, i + 1);
        var r := CompareFrom(p1, p2, i + 1);
        if r == 1 {
          var k :| FirstDifference(p1, p2, i + 1, k) && Less(At(p2, k), At(p1, k));
          assert FirstDifference(p1, p2, i, k);
        } else if r == -1 {
          var k :| FirstDifference(p1, p2, i + 1, k) && Less(At(p1, k), At(p2, k));
          assert FirstDifference(p1, p2, i, k);
        }
      }
    }
  }

  /** `compareVersions(v1, v2)`: both versions are split on `.` and read with
      `Number`, and the first three positions are compared in order. */
  function CompareVersions(v1: string, v2: string): (r: int)
    ensures r == -1 || r == 0 || r == 1
  {
    CompareFrom(VersionNumbers(v1), VersionNumbers(v2), 0)
  }

  /** The comparison is 0 exactly when none of the first three positions
      decides: at each, the two numbers are equal, or one side is missing or
      non-numeric (and so is neither below nor above the other). Otherwise
      it is 1 or -1 as the first deciding position is above or below. */
  lemma CompareVersionsMeaning(v1: string, v2: string)
    ensures var p1, p2 := VersionNumbers(v1), VersionNumbers(v2);
      && (CompareVersions(v1, v2) == 0 <==> forall j :: 0 <= j < 3 ==> Incomparable(At(p1, j), At(p2, j)))
      && (CompareVersions(v1, v2) == 1 ==> exists k :: FirstDifference(p1, p2, 0, k) && Less(At(p2, k), At(p1, k)))
      && (CompareVersions(v1, v2) == -1 ==> exists k :: FirstDifference(p1, p2, 0, k) && Less(At(p1, k), At(p2, k)))
  {
    CompareFromMeaning(VersionNumbers(v1), VersionNumbers(v2), 0);
  }

  // ---------------------------------------------------------------------------
  // Properties of compareVersions
  // ---------------------------------------------------------------------------

  /** Every version compares equal to itself, also one with missing or
      non-numeric segments. */
  lemma CompareVersionsReflexive(v: string)
    ensures CompareVersions(v, v) == 0
  {
    var p := VersionNumbers(v);
    forall j | 0 <= j < 3
      ensures Incomparable(At(p, j), At(p, j))
    {
      LessIrreflexive(At(p, j));
    }
    CompareVersionsMeaning(v, v);
  }

  lemma {:induction false} CompareFromAntisymmetric(p1: seq<Num>, p2: seq<Num>, i: nat)
    requires i <= 3
    ensures CompareFrom(p2, p1, i) == -CompareFrom(p1, p2, i)
    decreases 3 - i
  {
    if i < 3 {
      LessAsymmetric(At(p1, i), At(p2, i));
      CompareFromAntisymmetric(p1, p2, i + 1);
    }
  }

  /** Swapping the arguments negates the result. */
  lemma CompareVersionsAntisymmetric(a: string, b: string)
    ensures CompareVersions(b, a) == -CompareVersions(a, b)
  {
    CompareFromAntisymmetric(VersionNumbers(a), VersionNumbers(b), 0);
  }

  lemma {:induction false} CompareFromFirstThree(p1: seq<Num>, q1: seq<Num>, p2: seq<Num>, i: nat)
    requires i <= 3
    requires forall j :: 0 <= j < 3 ==> At(p1, j) == At(q1, j)
    ensures CompareFrom(p1, p2, i) == CompareFrom(q1, p2, i)
    ensures CompareFrom(p2, p1, i) == CompareFrom(p2, q1, i)
    decreases 3 - i
  {
    if i < 3 {
      CompareFromFirstThree(p1, q1, p2, i + 1);
    }
  }

  /** Only the first three segments are inspected: appending segments to a
      three-segment version never changes how it compares. */
  lemma CompareVersionsIgnoresExtraSegments(parts: seq<string>, more: seq<string>, other: string)
    requires |parts| == 3
    requires forall i :: 0 <= i < |parts| ==> '.' !in parts[i]
    requires forall i :: 0 <= i < |more| ==> '.' !in more[i]
    ensures CompareVersions(Join(parts + more, '.'), other) == CompareVersions(Join(parts, '.'), other)
    ensures CompareVersions(other, Join(parts + more, '.')) == CompareVersions(other, Join(parts, '.'))
  {
    ExtraSegmentsKeepFirstThree(parts, more);
    CompareFromFirstThree(VersionNumbers(Join(parts + more, '.')), VersionNumbers(Join(parts, '.')),
                          VersionNumbers(other), 0);
  }

  lemma ExtraSegmentsKeepFirstThree(parts: seq<string>, more: seq<string>)
    requires |parts| == 3
    requires forall i :: 0 <= i < |parts| ==> '.' !in parts[i]
    requires forall i :: 0 <= i < |more| ==> '.' !in more[i]
    ensures forall j :: 0 <= j < 3 ==>
      At(VersionNumbers(Join(parts + more, '.')), j) == At(VersionNumbers(Join(parts, '.')), j)
  {
    SplitJoin(parts, '.');
    SplitJoin(parts + more, '.');
    forall j | 0 <= j < 3
      ensures At(VersionNumbers(Join(parts + more, '.')), j) == At(VersionNumbers(Join(parts, '.')), j)
    {
      assert (parts + more)[j] == parts[j];
    }
  }

  /** JavaScript `<` on integers is integer `<`. */
  lemma LessOfInts(x: int, y: int)
    ensures Less(FromInt(x), FromInt(y)) <==> x < y
  {
    assert Value(FromInt(x)) == x as real && Value(FromInt(y)) == y as real;
  }

  lemma {:induction false} CompareFromOfNats(a: seq<nat>, b: seq<nat>, i: nat)
    requires |a| >= 3 && |b| >= 3 && i <= 3
    ensures CompareFrom(Simulation.NatNumbers(a), Simulation.NatNumbers(b), i) == LexCompare(a[i..3], b[i..3])
    decreases 3 - i
  {
    if i < 3 {
      var p := Simulation.NatNumbers(a);
      var q := Simulation.NatNumbers(b);
      assert At(p, i) == FromInt(a[i]) && At(q, i) == FromInt(b[i]);
      LessOfInts(a[i], b[i]);
      LessOfInts(b[i], a[i]);
      CompareFromOfNats(a, b, i + 1);
      assert a[i..3][0] == a[i] && b[i..3][0] == b[i];
      assert a[i..3][1..] == a[i + 1..3] && b[i..3][1..] == b[i + 1..3];
    }
  }

  /** On versions made of naturals (each below `10^21`, so written in plain
      decimal) with at least three segments, the comparison is the
      lexicographic comparison of the first three. */
  lemma CompareVersionsOfNats(a: seq<nat>, b: seq<nat>)
    requires |a| >= 3 && |b| >= 3
    requires Simulation.Printable(a) && Simulation.Printable(b)
    ensures CompareVersions(Simulation.NatVersion(a), Simulation.NatVersion(b)) == LexCompare(a[..3], b[..3])
  {
    Simulation.NatVersionNumbers(a);
    Simulation.NatVersionNumbers(b);
    CompareReadNats(Simulation.NatVersion(a), Simulation.NatVersion(b), a, b);
  }

  /** Versions that read as naturals compare as those naturals do. */
  lemma CompareReadNats(v1: string, v2: string, a: seq<nat>, b: seq<nat>)
    requires |a| >= 3 && |b| >= 3
    requires VersionNumbers(v1) == Simulation.NatNumbers(a)
    requires VersionNumbers(v2) == Simulation.NatNumbers(b)
    ensures CompareVersions(v1, v2) == LexCompare(a[..3], b[..3])
  {
    CompareFromOfNats(a, b, 0);
    assert a[0..3] == a[..3] && b[0..3] == b[..3];
  }

  /** On such versions both comparators of the system agree: the API
      manager's `isVersionValid(current, required)` holds exactly when
      `compareVersions(current, required) >= 0`. */
  lemma ComparatorsAgreeOnNats(current: seq<nat>, required: seq<nat>)
    requires |current| >= 3 && |required| >= 3
    requires Simulation.Printable(current) && Simulation.Printable(required)
    ensures ApiManager.IsVersionValid(Simulation.NatVersion(current), Simulation.NatVersion(required))
        <==> CompareVersions(Simulation.NatVersion(current), Simulation.NatVersion(required)) >= 0
  {
    CompareVersionsOfNats(current, required);
    TripleOfNatVersion(current);
    TripleOfNatVersion(required);
  }

  lemma TripleOfNatVersion(ns: seq<nat>)
    requires |ns| >= 3
    ensures ApiManager.Triple(ApiManager.ParseVersion(Simulation.NatVersion(ns))) == ns[..3]
  {
    var v := ApiManager.ParseVersion(Simulation.NatVersion(ns));
    assert v == ApiManager.Version(ns[0], ns[1], ns[2]) by {
      ApiManager.ParseVersionOfNats(ns);
    }
    assert ns[..3] == [ns[0], ns[1], ns[2]];
  }

  /** The first three segments are numbers (not NaN, not missing). */
  predicate NumericPrefix(p: seq<Num>) {
    forall j :: 0 <= j < 3 ==> !At(p, j).NaN?
  }

  lemma {:induction false} CompareFromTransitive(p: seq<Num>, q: seq<Num>, s: seq<Num>, i: nat)
    requires i <= 3
    requires NumericPrefix(p) && NumericPrefix(q) && NumericPrefix(s)
    requires CompareFrom(p, q, i) <= 0 && CompareFrom(q, s, i) <= 0
    ensures CompareFrom(p, s, i) <= 0
    decreases 3 - i
  {
    if i < 3 {
      var x, y, z := At(p, i), At(q, i), At(s, i);
      if !Less(x, y) && !Less(y, z) {
        IncomparableMeansEqualValue(x, y);
        IncomparableMeansEqualValue(y, z);
        CompareFromTransitive(p, q, s, i + 1);
      } else if Less(x, y) && Less(y, z) {
        LessTransitive(x, y, z);
      } else if Less(x, y) {
        IncomparableMeansEqualValue(y, z);
      } else {
        IncomparableMeansEqualValue(x, y);
      }
    }
  }

  /** On versions whose first three segments are all numbers, "at or
      before" is transitive. */
  lemma CompareVersionsTransitive(a: string, b: string, c: string)
    requires NumericPrefix(VersionNumbers(a)) && NumericPrefix(VersionNumbers(b)) && NumericPrefix(VersionNumbers(c))
    requires CompareVersions(a, b) <= 0 && CompareVersions(b, c) <= 0
    ensures CompareVersions(a, c) <= 0
  {
    CompareFromTransitive(VersionNumbers(a), VersionNumbers(b), VersionNumbers(c), 0);
  }

  /** `x.y` with one-digit segments reads as those two numbers. */
  lemma VersionNumbersOfDigitPair(x: char, y: char)
    requires IsDigit(x) && IsDigit(y)
    ensures VersionNumbers([x, '.', y]) == Simulation.NatNumbers([DigitValue(x), DigitValue(y)])
  {
    var ns: seq<nat> := [DigitValue(x), DigitValue(y)];
    assert Simulation.NatVersion(ns) == [x, '.', y] by {
      SingleDigitText(x);
      SingleDigitText(y);
      Simulation.NatVersionSpelled(ns);
    }
    assert Simulation.Printable(ns);
    Simulation.NatVersionNumbers(ns);
  }

  /** `x.y.z` with one-digit segments reads as those three numbers. */
  lemma VersionNumbersOfDigitTriple(x: char, y: char, z: char)
    requires IsDigit(x) && IsDigit(y) && IsDigit(z)
    ensures VersionNumbers([x, '.', y, '.', z]) == Simulation.NatNumbers([DigitValue(x), DigitValue(y), DigitValue(z)])
  {
    var ns: seq<nat> := [DigitValue(x), DigitValue(y), DigitValue(z)];
    assert Simulation.NatVersion(ns) == [x, '.', y, '.', z] by {
      SingleDigitText(x);
      SingleDigitText(y);
      SingleDigitText(z);
      Simulation.NatVersionSpelled(ns);
    }
    assert Simulation.Printable(ns);
    Simulation.NatVersionNumbers(ns);
  }

  /** Two versions of three one-digit segments compare as their digit
      values do. */
  lemma CompareDigitTriples(x: char, y: char, z: char, a: char, b: char, c: char)
    requires IsDigit(x) && IsDigit(y) && IsDigit(z) && IsDigit(a) && IsDigit(b) && IsDigit(c)
    ensures CompareVersions([x, '.', y, '.', z], [a, '.', b, '.', c])
         == LexCompare([DigitValue(x), DigitValue(y), DigitValue(z)], [DigitValue(a), DigitValue(b), DigitValue(c)])
  {
    var ns: seq<nat> := [DigitValue(x), DigitValue(y), DigitValue(z)];
    var ms: seq<nat> := [DigitValue(a), DigitValue(b), DigitValue(c)];
    assert ns[..3] == ns && ms[..3] == ms;
    assert CompareVersions([x, '.', y, '.', z], [a, '.', b, '.', c]) == LexCompare(ns[..3], ms[..3]) by {
      VersionNumbersOfDigitTriple(x, y, z);
      VersionNumbersOfDigitTriple(a, b, c);
      CompareReadNats([x, '.', y, '.', z], [a, '.', b, '.', c], ns, ms);
    }
  }

  /** A two-segment version against a three-segment one with the same first
      two numbers: the missing third segment decides nothing, so they are
      equal. */
  lemma MissingPatchDecidesNothing(x: char, y: char, z: char)
    requires IsDigit(x) && IsDigit(y) && IsDigit(z)
    ensures CompareVersions([x, '.', y], [x, '.', y, '.', z]) == 0
  {
    VersionNumbersOfDigitPair(x, y);
    VersionNumbersOfDigitTriple(x, y, z);
    LessIrreflexive(FromInt(DigitValue(x)));
    LessIrreflexive(FromInt(DigitValue(y)));
    CompareVersionsMeaning([x, '.', y], [x, '.', y, '.', z]);
  }

  /** "1.0" compares equal to "1.0.5". */
  lemma ShortVersionExample()
    ensures CompareVersions("1.0", "1.0.5") == 0
  {
    MissingPatchDecidesNothing('1', '0', '5');
  }

  /** Equality under `compareVersions` is not transitive once a segment is
      missing: `x.y.z` and `x.y.w` both equal `x.y`, yet with `w < z` the
      first is above the second. */
  lemma MissingSegmentBreaksTransitivity(x: char, y: char, z: char, w: char)
    requires IsDigit(x) && IsDigit(y) && IsDigit(z) && IsDigit(w)
    requires DigitValue(w) < DigitValue(z)
    ensures CompareVersions([x, '.', y, '.', z], [x, '.', y]) == 0
    ensures CompareVersions([x, '.', y], [x, '.', y, '.', w]) == 0
    ensures CompareVersions([x, '.', y, '.', z], [x, '.', y, '.', w]) == 1
  {
    assert CompareVersions([x, '.', y, '.', z], [x, '.', y]) == 0 by {
      MissingPatchDecidesNothing(x, y, z);
      CompareVersionsAntisymmetric([x, '.', y], [x, '.', y, '.', z]);
    }
    assert CompareVersions([x, '.', y], [x, '.', y, '.', w]) == 0 by {
      MissingPatchDecidesNothing(x, y, w);
    }
    var a, b, c, d := DigitValue(x), DigitValue(y), DigitValue(z), DigitValue(w);
    assert CompareVersions([x, '.', y, '.', z], [x, '.', y, '.', w]) == 1 by {
      CompareDigitTriples(x, y, z, x, y, w);
      LexLeqTriple(a, b, d, a, b, c);
      assert [a, b, c] != [a, b, d] by {
        assert [a, b, c][2] != [a, b, d][2];
      }
    }
  }

  /** "1.0.5" and "1.0.3" both compare equal to "1.0", and "1.0.5" is above
      "1.0.3". */
  lemma CompareVersionsNotTransitive()
    ensures CompareVersions("1.0.5", "1.0") == 0
    ensures CompareVersions("1.0", "1.0.3") == 0
    ensures CompareVersions("1.0.5", "1.0.3") == 1
  {
    MissingSegmentBreaksTransitivity('1', '0', '5', '3');
  }

  // ---------------------------------------------------------------------------
  // checkForUpdates
  // ---------------------------------------------------------------------------

  /** `Platform.OS === 'android' ? 'Android' : 'iOS'`. */
  function PlatformName(os: string): (name: string)
    ensures name == "Android" <==> os == "android"
    ensures name == "Android" || name == "iOS"
  {
    if os == "android" then "Android" else "iOS"
  }

  /** The path of the app-version request: `Sistema/GetAppVersion` under the
      base URL, then the platform. */
  function UpdateEndpoint(os: string): (endpoint: string)
    ensures Split(endpoint, '/') == Split(ApiManager.GetUrl("Sistema", "GetAppVersion"), '/') + [PlatformName(os)]
    ensures EndsWith(endpoint, "/Android") <==> os == "android"
  {
    var base := ApiManager.GetUrl("Sistema", "GetAppVersion");
    PlatformSegment(base, os);
    base + "/" + PlatformName(os)
  }

  lemma PlatformSegment(base: string, os: string)
    ensures Split(base + "/" + PlatformName(os), '/') == Split(base, '/') + [PlatformName(os)]
    ensures EndsWith(base + "/" + PlatformName(os), "/Android") <==> os == "android"
  {
    SplitAppend(base, '/', PlatformName(os));
    AndroidSuffix(base, os);
  }

  lemma AndroidSuffix(base: string, os: string)
    ensures EndsWith(base + "/" + PlatformName(os), "/Android") <==> os == "android"
  {
    if os == "android" {
      AndroidEndpointSuffix(base);
    } else {
      IosEndpointSuffix(base);
    }
  }

  lemma AndroidEndpointSuffix(base: string)
    ensures EndsWith(base + "/" + "Android", "/Android")
  {
    assert base + "/" + "Android" == base + "/Android";
    EndsWithAppended(base, "/Android");
  }

  lemma IosEndpointSuffix(base: string)
    ensures !EndsWith(base + "/" + "iOS", "/Android")
  {
    var endpoint := base + "/" + "iOS";
    assert endpoint[|endpoint| - 1] == 'S';
    EndsWithLast(endpoint, "/Android");
  }

  /** A text ending with `suffix` ends with its last character. */
  lemma EndsWithLast(s: string, suffix: string)
    requires |suffix| >= 1
    ensures EndsWith(s, suffix) ==> s[|s| - 1] == suffix[|suffix| - 1]
  {
    if EndsWith(s, suffix) {
      assert s[|s| - |suffix|..][|suffix| - 1] == s[|s| - 1];
    }
  }

  /** What the app-version request came back with: an exception or the
      15-second timeout, a response without data, or data. */
  datatype UpdateResponse = UpdateRequestFailed | UpdateNoData | UpdateData(info: AppVersionInfo)

  /** The decision on a payload, for the installed version `currentVersion`.
      A missing `versionActual` or `versionMinima` makes `split` throw, and
      the exception ends the check with `null` (`None`). Forcing the update
      when the build is below the minimum, whatever the server's flag says,
      is deliberate. */
  function Decide(info: AppVersionInfo, currentVersion: string): (r: Option<UpdateInfo>)
    ensures r.None? <==> info.versionActual.None? || info.versionMinima.None?
    ensures r.Some? ==>
      && (r.value.needsUpdate <==> CompareVersions(currentVersion, info.versionActual.value) < 0)
      && (r.value.isCompatible <==> CompareVersions(currentVersion, info.versionMinima.value) >= 0)
      && (r.value.forceUpdate <==> info.actualizacionForzada || !r.value.isCompatible)
      && r.value.latestVersion == info.versionActual.value
      && r.value.currentVersion == currentVersion
      && r.value.downloadUrl == info.urlDescarga
      && r.value.releaseNotes == info.notasVersion
  {
    match (info.versionActual, info.versionMinima)
    case (Some(latest), Some(minimum)) =>
      var needsUpdate := CompareVersions(currentVersion, latest) < 0;
      var isCompatible := CompareVersions(currentVersion, minimum) >= 0;
      Some(UpdateInfo(needsUpdate, isCompatible, info.actualizacionForzada || !isCompatible,
                      latest, currentVersion, info.urlDescarga, info.notasVersion))
    case _ => None
  }

  /** `checkForUpdates()`. The current version is the real build version
      (not the simulated one). Without usable data the result is `null`,
      never a made-up "no update" record. */
  function CheckForUpdates(response: UpdateResponse, build: BuildConfig): (r: Option<UpdateInfo>)
    ensures !response.UpdateData? ==> r.None?
    ensures response.UpdateData? ==> r == Decide(response.info, RealAppVersion(build))
    ensures r.Some? ==> r.value.currentVersion == RealAppVersion(build)
  {
    match response
    case UpdateData(info) => Decide(info, RealAppVersion(build))
    case _ => None
  }

  /** An incompatible build is always forced to update, and a forced update
      without the server flag means the build is incompatible. */
  lemma IncompatibleForcesUpdate(response: UpdateResponse, build: BuildConfig)
    requires CheckForUpdates(response, build).Some?
    ensures var u := CheckForUpdates(response, build).value;
      && (!u.isCompatible ==> u.forceUpdate)
      && (u.forceUpdate && !response.info.actualizacionForzada ==> !u.isCompatible)
  {
  }

  /** A build at least as new as the latest (in the order of the first three
      segments) needs no update, and one that needs no update is not below
      the latest. */
  lemma NeedsUpdateMeansOlder(latest: seq<nat>, minimum: seq<nat>, current: seq<nat>, info: AppVersionInfo)
    requires |latest| >= 3 && |minimum| >= 3 && |current| >= 3
    requires Simulation.Printable(latest) && Simulation.Printable(minimum) && Simulation.Printable(current)
    requires info.versionActual == Some(Simulation.NatVersion(latest))
    requires info.versionMinima == Some(Simulation.NatVersion(minimum))
    ensures var u := Decide(info, Simulation.NatVersion(current)).value;
      && (u.needsUpdate <==> !LexLeq(latest[..3], current[..3]))
      && (u.isCompatible <==> LexLeq(minimum[..3], current[..3]))
  {
    CompareVersionsOfNats(current, latest);
    CompareVersionsOfNats(current, minimum);
  }

  /** Scenario: installed 1.0.0, latest 1.0.1, minimum 1.0.0, no server flag:
      an update exists, the build is compatible, nothing is forced. */
  lemma AvailableUpdateScenario(notes: Option<string>, url: Option<string>)
    ensures var info := AppVersionInfo(Some("1.0.1"), Some("1.0.0"), url, notes, false);
      Decide(info, "1.0.0") == Some(UpdateInfo(true, true, false, "1.0.1", "1.0.0", url, notes))
  {
    assert CompareVersions("1.0.0", "1.0.1") == -1 by {
      CompareDigitTriples('1', '0', '0', '1', '0', '1');
      LexLeqTriple(1, 0, 0, 1, 0, 1);
    }
    CompareVersionsReflexive("1.0.0");
    UpdateAvailable(AppVersionInfo(Some("1.0.1"), Some("1.0.0"), url, notes, false), "1.0.0");
  }

  /** A build below the latest and at or above the minimum, without the
      server flag: an update is offered and not forced. */
  lemma UpdateAvailable(info: AppVersionInfo, currentVersion: string)
    requires info.versionActual.Some? && info.versionMinima.Some? && !info.actualizacionForzada
    requires CompareVersions(currentVersion, info.versionActual.value) < 0
    requires CompareVersions(currentVersion, info.versionMinima.value) >= 0
    ensures Decide(info, currentVersion)
         == Some(UpdateInfo(true, true, false, info.versionActual.value, currentVersion, info.urlDescarga, info.notasVersion))
  {
  }

  /** Scenario: installed 0.9.0, minimum 1.0.0, no server flag: the build is
      incompatible and the update is forced all the same. */
  lemma BelowMinimumScenario(latest: string, notes: Option<string>, url: Option<string>)
    ensures var info := AppVersionInfo(Some(latest), Some("1.0.0"), url, notes, false);
      var u := Decide(info, "0.9.0");
      u.Some? && !u.value.isCompatible && u.value.forceUpdate
  {
    assert CompareVersions("0.9.0", "1.0.0") == -1 by {
      CompareDigitTriples('0', '9', '0', '1', '0', '0');
      LexLeqTriple(0, 9, 0, 1, 0, 0);
    }
    BelowMinimumForcesUpdate(AppVersionInfo(Some(latest), Some("1.0.0"), url, notes, false), "0.9.0");
  }

  /** A build below the minimum is incompatible and forced to update. */
  lemma BelowMinimumForcesUpdate(info: AppVersionInfo, currentVersion: string)
    requires info.versionActual.Some? && info.versionMinima.Some?
    requires CompareVersions(currentVersion, info.versionMinima.value) < 0
    ensures var u := Decide(info, currentVersion);
      u.Some? && !u.value.isCompatible && u.value.forceUpdate
  {
    var u := Decide(info, currentVersion);
    assert u.Some?;
    assert !u.value.isCompatible;
  }

  /** A build one patch behind on "1.0.5"-style minima is compatible if it
      omits its patch: "1.0" passes a minimum of "1.0.5". */
  lemma ShortBuildVersionPassesMinimum(latest: string, url: Option<string>, notes: Option<string>)
    ensures var u := Decide(AppVersionInfo(Some(latest), Some("1.0.5"), url, notes, false), "1.0");
      u.Some? && u.value.isCompatible && !u.value.forceUpdate
  {
    ShortVersionExample();
  }

  // ---------------------------------------------------------------------------
  // downloadAndInstall: the checks before the download
  // ---------------------------------------------------------------------------

  /** `downloadUrl.split('/').pop() || 'update.apk'`: the whole text after
      the last `/` (or the whole URL when it has none), or "update.apk" when
      that text is empty, that is when the URL is empty or ends in `/`. */
  function DownloadFileName(downloadUrl: string): (name: string)
    ensures name != "" && '/' !in name
    ensures downloadUrl == "" || downloadUrl[|downloadUrl| - 1] == '/' ==> name == "update.apk"
    ensures downloadUrl != "" && downloadUrl[|downloadUrl| - 1] != '/' ==>
      && EndsWith(downloadUrl, name)
      && (|name| == |downloadUrl| || downloadUrl[|downloadUrl| - |name| - 1] == '/')
  {
    var parts := Split(downloadUrl, '/');
    var last := parts[|parts| - 1];
    SplitLastPiece(downloadUrl, '/');
    if last == "" then "update.apk" else last
  }

  /** The last piece of `s.split(d)` is the whole text after the last `d`
      (all of `s` when there is none); it is empty exactly when `s` is empty
      or ends in `d`. */
  lemma SplitLastPiece(s: string, d: char)
    ensures var last := Split(s, d)[|Split(s, d)| - 1];
      && EndsWith(s, last)
      && (|last| == |s| || s[|s| - |last| - 1] == d)
      && (last == "" <==> s == "" || s[|s| - 1] == d)
  {
    JoinedLastPiece(s, Split(s, d), d);
  }

  /** The same for any separator-free pieces that join to `s`. */
  lemma JoinedLastPiece(s: string, parts: seq<string>, d: char)
    requires |parts| >= 1 && Join(parts, d) == s
    requires forall i :: 0 <= i < |parts| ==> d !in parts[i]
    ensures var last := parts[|parts| - 1];
      && EndsWith(s, last)
      && (|last| == |s| || s[|s| - |last| - 1] == d)
      && (last == "" <==> s == "" || s[|s| - 1] == d)
  {
    var last := parts[|parts| - 1];
    assert d !in last;
    JoinLastPiece(parts, d);
    if |parts| == 1 {
      assert s == last;
    } else {
      JoinSeparatorBeforeLast(parts, d);
    }
    if last != "" {
      assert s[|s| - 1] == last[|last| - 1];
    }
  }

  /** Joining pieces ends with the last piece. */
  lemma {:induction false} JoinLastPiece(parts: seq<string>, d: char)
    requires |parts| >= 1
    ensures EndsWith(Join(parts, d), parts[|parts| - 1])
    decreases |parts|
  {
    if |parts| > 1 {
      JoinLastPiece(parts[1..], d);
      assert parts[1..][|parts[1..]| - 1] == parts[|parts| - 1];
    }
  }

  /** With several pieces, the separator stands right before the last one. */
  lemma {:induction false} JoinSeparatorBeforeLast(parts: seq<string>, d: char)
    requires |parts| >= 2
    ensures |Join(parts, d)| > |parts[|parts| - 1]|
    ensures Join(parts, d)[|Join(parts, d)| - |parts[|parts| - 1]| - 1] == d
    decreases |parts|
  {
    var rest := parts[1..];
    var head := parts[0] + [d];
    var tail := Join(rest, d);
    assert Join(parts, d) == head + tail;
    if |rest| == 1 {
      assert tail == parts[1];
      assert (head + tail)[|head| - 1] == d;
    } else {
      JoinSeparatorBeforeLast(rest, d);
      var last := rest[|rest| - 1];
      assert last == parts[|parts| - 1];
      var k := |tail| - |last| - 1;
      assert (head + tail)[|head| + k] == tail[k];
    }
  }

  /** The name is the text after the last `/` whenever that text is not
      empty; a URL that ends in `/` falls back. */
  lemma DownloadFileNameOfPath(prefix: string, name: string)
    requires name != "" && '/' !in name
    ensures DownloadFileName(prefix + "/" + name) == name
    ensures DownloadFileName(prefix + "/") == "update.apk"
  {
    SplitAppend(prefix, '/', name);
    SplitAppend(prefix, '/', "");
    assert prefix + "/" == prefix + "/" + "";
  }

  /** `file.endsWith('.apk')`. */
  predicate IsApk(file: string) {
    EndsWith(file, ".apk")
  }

  /** `files.filter(file => file.endsWith('.apk'))`: the Android packages of
      the cache, in directory order. */
  function ApkFiles(files: seq<string>): (r: seq<string>)
    ensures |r| <= |files|
    ensures forall f :: f in r ==> IsApk(f)
    ensures forall f :: multiset(r)[f] == if IsApk(f) then multiset(files)[f] else 0
  {
    if files == [] then []
    else
      var rest := ApkFiles(files[1..]);
      assert files == [files[0]] + files[1..];
      if IsApk(files[0]) then [files[0]] + rest else rest
  }

  const MinSpaceMb: nat := 100
  const Mebibyte: nat := 1024 * 1024
  const MinSpaceBytes: nat := MinSpaceMb * Mebibyte

  /** `Math.round(diskSpace / (1024 * 1024))`: the free space in whole
      megabytes, halves rounded up. */
  function FreeMegabytes(diskSpace: nat): (mb: nat)
    ensures mb * Mebibyte <= diskSpace + Mebibyte / 2 < (mb + 1) * Mebibyte
  {
    (diskSpace + Mebibyte / 2) / Mebibyte
  }

  /** The alert shown when the free space is below the minimum. */
  function InsufficientSpaceMessage(diskSpace: nat): string {
    "No hay suficiente espacio en el dispositivo.\n\nEspacio libre: "
    + (NatToDecimal(FreeMegabytes(diskSpace)) + " MB") + "\n" + RequiredSpaceLine
  }

  const RequiredSpaceLine := "Requerido: " + NatToDecimal(MinSpaceMb) + " MB"

  /** How far `downloadAndInstall` gets before the download starts: refused
      with an alert (and `false`), or on to the download of `fileUri`. Either
      way `deleted` lists the old packages removed from the cache first. */
  datatype Precheck =
    | Refused(title: string, message: string, deleted: seq<string>)
    | Proceed(fileUri: string, deleted: seq<string>)

  /** The cache directory prefixed to a name: JavaScript writes a `null`
      directory as "null". */
  function InCache(cacheDirectory: Option<string>, name: string): (path: string)
    ensures cacheDirectory.Some? ==> path == cacheDirectory.value + name
  {
    (if cacheDirectory.Some? then cacheDirectory.value else "null") + name
  }

  /** The paths the clean-up deletes: each Android package of the listing
      under the cache directory, in listing order; nothing when the cache
      directory is unknown (or empty). */
  function StaleApks(cacheDirectory: Option<string>, cachedFiles: seq<string>): (paths: seq<string>)
    ensures !Truthy(cacheDirectory) ==> paths == []
    ensures Truthy(cacheDirectory) ==> |paths| == |ApkFiles(cachedFiles)|
  {
    var apks := ApkFiles(cachedFiles);
    if Truthy(cacheDirectory)
    then seq(|apks|, i requires 0 <= i < |apks| => cacheDirectory.value + apks[i])
    else []
  }

  /** What the device answers while `downloadAndInstall` prepares: the cache
      directory; the listing of it (`None` when `readDirectoryAsync`
      rejects); the position, among the deletions, of the first
      `deleteAsync` that rejects (`None` when none does); and the free space
      in bytes (`None` when `getFreeDiskStorageAsync` rejects). */
  datatype Device = Device(
    cacheDirectory: Option<string>,
    listing: Option<seq<string>>,
    failingDelete: Option<nat>,
    freeSpace: Option<nat>)

  /** The paths the clean-up really removes. A rejected listing or deletion
      is swallowed by the inner `catch`, which also skips the deletions
      still to come; so the packages go in listing order up to the first
      failure, and the rest stay. */
  function Cleanup(device: Device): (deleted: seq<string>)
    ensures device.listing.None? ==> deleted == []
    ensures device.listing.Some? ==> deleted <= StaleApks(device.cacheDirectory, device.listing.value)
    ensures device.listing.Some? && device.failingDelete.None? ==>
      deleted == StaleApks(device.cacheDirectory, device.listing.value)
    ensures device.listing.Some? && device.failingDelete.Some? ==>
      |deleted| == Min(device.failingDelete.value, |StaleApks(device.cacheDirectory, device.listing.value)|)
  {
    match device.listing
    case None => []
    case Some(files) =>
      var stale := StaleApks(device.cacheDirectory, files);
      match device.failingDelete
      case Some(k) => if k < |stale| then stale[..k] else stale
      case None => stale
  }

  function Min(a: nat, b: nat): nat {
    if a < b then a else b
  }

  /** Everything the clean-up removes is an Android package listed in the
      cache directory. */
  lemma CleanupRemovesOnlyCachedPackages(device: Device, p: string)
    requires p in Cleanup(device)
    ensures device.listing.Some? && Truthy(device.cacheDirectory)
    ensures exists f :: f in device.listing.value && IsApk(f) && p == device.cacheDirectory.value + f
  {
    var stale := StaleApks(device.cacheDirectory, device.listing.value);
    assert p in stale by {
      var i :| 0 <= i < |Cleanup(device)| && Cleanup(device)[i] == p;
      assert stale[i] == p;
    }
    StaleApksAreCachedPackages(device.cacheDirectory, device.listing.value);
  }

  const PlatformMessage := "Auto-actualización solo disponible en Android"
  const DownloadFailedPrefix := "No se pudo descargar la actualización: "

  /** The steps of `downloadAndInstall` up to the download. Only Android
      installs packages. A missing download URL makes `split` throw before
      the clean-up; a rejected free-space query throws after it; either
      error reaches the outer `catch`, which alerts "Error" with the
      error's message (`errorText`, produced by the runtime). The old
      packages are deleted before the free space is measured, so a refusal
      for lack of space has deleted them too. Less than 100 MB free refuses
      the download. */
  function PrepareDownload(os: string, downloadUrl: Option<string>, device: Device,
                           errorText: string): (r: Precheck)
    ensures r.Proceed? <==>
      os == "android" && downloadUrl.Some? && device.freeSpace.Some? && device.freeSpace.value >= MinSpaceBytes
    ensures os != "android" ==> r == Refused("Error", PlatformMessage, [])
    ensures os == "android" && downloadUrl.None? ==> r == Refused("Error", DownloadFailedPrefix + errorText, [])
    ensures os == "android" && downloadUrl.Some? ==> r.deleted == Cleanup(device)
    ensures os == "android" && downloadUrl.Some? && device.freeSpace.None? ==>
      r.Refused? && r.title == "Error" && r.message == DownloadFailedPrefix + errorText
    ensures os == "android" && downloadUrl.Some? && device.freeSpace.Some? && device.freeSpace.value < MinSpaceBytes ==>
      r.Refused? && r.title == "Espacio Insuficiente" && r.message == InsufficientSpaceMessage(device.freeSpace.value)
    ensures r.Proceed? ==> r.fileUri == InCache(device.cacheDirectory, DownloadFileName(downloadUrl.value))
  {
    if os != "android" then Refused("Error", PlatformMessage, [])
    else match downloadUrl
      case None => Refused("Error", DownloadFailedPrefix + errorText, [])
      case Some(url) =>
        var fileUri := InCache(device.cacheDirectory, DownloadFileName(url));
        var deleted := Cleanup(device);
        match device.freeSpace
        case None => Refused("Error", DownloadFailedPrefix + errorText, deleted)
        case Some(space) =>
          if space < MinSpaceBytes
          then Refused("Espacio Insuficiente", InsufficientSpaceMessage(space), deleted)
          else Proceed(fileUri, deleted)
  }

  /** An update offered without `urlDescarga` cannot be downloaded: handing
      its `downloadUrl` on, as the screens do, ends in the generic error
      alert with nothing deleted. */
  lemma UpdateWithoutUrlFails(info: AppVersionInfo, currentVersion: string, device: Device, errorText: string)
    requires info.urlDescarga.None?
    requires info.versionActual.Some? && info.versionMinima.Some?
    ensures Decide(info, currentVersion).Some?
    ensures PrepareDownload("android", Decide(info, currentVersion).value.downloadUrl, device, errorText)
      == Refused("Error", DownloadFailedPrefix + errorText, [])
  {
  }

  /** The insufficient-space alert shows the rounded free space and ends
      with the required amount. */
  lemma InsufficientSpaceMessageShape(diskSpace: nat)
    ensures Contains(InsufficientSpaceMessage(diskSpace), NatToDecimal(FreeMegabytes(diskSpace)) + " MB")
    ensures EndsWith(InsufficientSpaceMessage(diskSpace), RequiredSpaceLine)
  {
    var head := "No hay suficiente espacio en el dispositivo.\n\nEspacio libre: ";
    var shown := NatToDecimal(FreeMegabytes(diskSpace)) + " MB";
    OccursAfter(head, shown, "\n" + RequiredSpaceLine);
    assert head + shown + "\n" + RequiredSpaceLine == head + shown + ("\n" + RequiredSpaceLine);
    EndsWithAppended(head + shown + "\n", RequiredSpaceLine);
  }

  lemma OccursAfter(a: string, b: string, c: string)
    ensures Contains(a + b + c, b)
  {
    assert (a + b + c)[|a|..|a| + |b|] == b;
    assert OccursAt(a + b + c, b, |a|);
  }

  lemma EndsWithAppended(a: string, b: string)
    ensures EndsWith(a + b, b)
  {
    assert (a + b)[|a|..] == b;
  }

  /** The required amount is written "100". */
  lemma MinSpaceText()
    ensures NatToDecimal(MinSpaceMb) == "100"
    ensures RequiredSpaceLine == "Requerido: 100 MB"
  {
    assert NatToDecimal(1) == "1";
    assert NatToDecimal(10) == NatToDecimal(1) + [DigitChar(0)];
    assert NatToDecimal(100) == NatToDecimal(10) + [DigitChar(0)];
  }

  /** The clean-up deletes exactly the Android packages of the cache: every
      deleted path is the cache directory followed by a listed `.apk` file,
      and every listed `.apk` file is deleted. */
  lemma StaleApksAreCachedPackages(cacheDirectory: Option<string>, cachedFiles: seq<string>)
    requires Truthy(cacheDirectory)
    ensures forall p :: p in StaleApks(cacheDirectory, cachedFiles) <==>
      exists f :: f in cachedFiles && IsApk(f) && p == cacheDirectory.value + f
  {
    var paths := StaleApks(cacheDirectory, cachedFiles);
    var apks := ApkFiles(cachedFiles);
    forall p | p in paths
      ensures exists f :: f in cachedFiles && IsApk(f) && p == cacheDirectory.value + f
    {
      var i :| 0 <= i < |paths| && paths[i] == p;
      var f := apks[i];
      assert f in multiset(apks);
      assert f in cachedFiles;
    }
    forall f | f in cachedFiles && IsApk(f)
      ensures cacheDirectory.value + f in paths
    {
      assert multiset(apks)[f] > 0;
      var i :| 0 <= i < |apks| && apks[i] == f;
      assert paths[i] == cacheDirectory.value + f;
    }
  }
}
