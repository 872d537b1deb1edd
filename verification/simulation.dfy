/** The simulation service (services/SimulationService.ts): an optional
    override of the installed application version, kept in memory and
    mirrored field by field into the key-value store.

    Every operation is a function from the service fields and the store to
    their new values; the clock (`new Date().toISOString()`) is the `now`
    parameter and the build metadata is a `BuildConfig`. */
module Simulation {
  import opened Wrappers
  import opened Decimal
  import opened JsText
  import opened JsNumber
  import opened Storage
  import opened Build

  /** The instance fields. `installCount` is a JavaScript number that is
      either an integer or NaN (`None`), which is what `parseInt` makes of a
      stored counter that does not start with digits. */
  datatype Service = Service(enabled: bool, appVersion: string, buildDate: string, installCount: Option<int>)

  /** The service together with the store it writes through to. */
  datatype Sim = Sim(svc: Service, store: Store)

  /** The snapshot `getState()` returns. */
  datatype SimulationState = SimulationState(
    enabled: bool,
    appVersion: string,
    buildDate: string,
    installCount: Option<int>,
    realAppVersion: string)

  /** The counter as a JavaScript number. */
  function CountNumber(c: Option<int>): Num {
    match c
    case None => NaN
    case Some(i) => FromInt(i)
  }

  /** `installCount.toString()`: what the counter is persisted as. */
  function CountText(c: Option<int>): string {
    NumberToString(CountNumber(c))
  }

  /** The `simulation_enabled` value for a flag. */
  function FlagText(enabled: bool): string {
    if enabled then "true" else "false"
  }

  // ---------------------------------------------------------------------------
  // Reading the store
  // ---------------------------------------------------------------------------

  /** `initialize()`: reload every field from the store. Only the exact text
      "true" enables simulation; an absent or empty version falls back to the
      real build version and an absent or empty date to `now`; the counter is
      `parseInt` of the stored text, "0" when absent or empty. */
  function Initialize(store: Store, build: BuildConfig, now: string): (svc: Service)
    ensures svc.enabled <==> GetItem(store, SimulationEnabled) == Some("true")
    ensures svc.appVersion != ""
    ensures Truthy(GetItem(store, SimulatedAppVersion)) ==> svc.appVersion == store[SimulatedAppVersion]
    ensures !Truthy(GetItem(store, SimulatedAppVersion)) ==> svc.appVersion == RealAppVersion(build)
    ensures Truthy(GetItem(store, SimulatedBuildDate)) ==> svc.buildDate == store[SimulatedBuildDate]
    ensures !Truthy(GetItem(store, SimulatedBuildDate)) ==> svc.buildDate == now
    ensures !Truthy(GetItem(store, SimulationInstallCount)) ==> svc.installCount == Some(0)
    ensures Truthy(GetItem(store, SimulationInstallCount)) ==>
      svc.installCount == ParseInt(store[SimulationInstallCount])
  {
    var count := ParseInt(Or(GetItem(store, SimulationInstallCount), "0"));
    assert !Truthy(GetItem(store, SimulationInstallCount)) ==> count == Some(0) by {
      ParseIntOfNat(0, "");
      assert NatToDecimal(0) + "" == "0";
    }
    Service(
      GetItem(store, SimulationEnabled) == Some("true"),
      Or(GetItem(store, SimulatedAppVersion), RealAppVersion(build)),
      Or(GetItem(store, SimulatedBuildDate), now),
      count)
  }

  /** `getAppVersion()`: the effective application version. */
  function GetAppVersion(svc: Service, build: BuildConfig): (v: string)
    ensures svc.enabled ==> v == svc.appVersion
    ensures !svc.enabled ==> v == RealAppVersion(build)
  {
    if svc.enabled then svc.appVersion else RealAppVersion(build)
  }

  /** A counter stored as the decimal text of `n` (for example "3" after
      three installs) reloads as `n`. */
  lemma StoredCountReloads(store: Store, build: BuildConfig, now: string, n: nat)
    requires GetItem(store, SimulationInstallCount) == Some(NatToDecimal(n))
    ensures Initialize(store, build, now).installCount == Some(n)
  {
    ParseIntOfNat(n, "");
    assert NatToDecimal(n) + "" == NatToDecimal(n);
  }

  /** `getState()`: reload the fields from the store, then report them with
      the real build version. The store itself is only read. */
  function GetState(s: Sim, build: BuildConfig, now: string): (r: (Sim, SimulationState))
    ensures r.0.store == s.store
    ensures r.0.svc == Initialize(s.store, build, now)
    ensures r.1 == SimulationState(r.0.svc.enabled, r.0.svc.appVersion, r.0.svc.buildDate,
                                   r.0.svc.installCount, RealAppVersion(build))
  {
    var svc := Initialize(s.store, build, now);
    (Sim(svc, s.store),
     SimulationState(svc.enabled, svc.appVersion, svc.buildDate, svc.installCount, RealAppVersion(build)))
  }

  // ---------------------------------------------------------------------------
  // Writers
  // ---------------------------------------------------------------------------

  /** `setAppVersion(version)`: no validation; memory and store both take it. */
  function SetAppVersion(s: Sim, version: string): (r: Sim)
    ensures r.svc == s.svc.(appVersion := version)
    ensures GetItem(r.store, SimulatedAppVersion) == Some(version)
    ensures OnlyChanged(s.store, r.store, {SimulatedAppVersion})
  {
    Sim(s.svc.(appVersion := version), SetItem(s.store, SimulatedAppVersion, version))
  }

  /** `setBuildDate(date)`. */
  function SetBuildDate(s: Sim, date: string): (r: Sim)
    ensures r.svc == s.svc.(buildDate := date)
    ensures GetItem(r.store, SimulatedBuildDate) == Some(date)
    ensures OnlyChanged(s.store, r.store, {SimulatedBuildDate})
  {
    Sim(s.svc.(buildDate := date), SetItem(s.store, SimulatedBuildDate, date))
  }

  /** `incrementInstallCount()`: `installCount++`, persisted as its decimal
      text; returns the new count. NaN stays NaN. */
  function IncrementInstallCount(s: Sim): (r: (Sim, Option<int>))
    ensures s.svc.installCount.Some? ==> r.1 == Some(s.svc.installCount.value + 1)
    ensures s.svc.installCount.None? ==> r.1 == None
    ensures r.0.svc == s.svc.(installCount := r.1)
    ensures GetItem(r.0.store, SimulationInstallCount) == Some(CountText(r.1))
    ensures OnlyChanged(s.store, r.0.store, {SimulationInstallCount})
  {
    var count := match s.svc.installCount
      case None => None
      case Some(n) => Some(n + 1);
    (Sim(s.svc.(installCount := count), SetItem(s.store, SimulationInstallCount, CountText(count))), count)
  }

  /** Whether `setEnabled(enabled)` seeds the simulated version: only when
      enabling and the store holds no (or an empty) simulated version. */
  predicate SeedsVersion(s: Sim, enabled: bool) {
    enabled && !Truthy(GetItem(s.store, SimulatedAppVersion))
  }

  /** `setEnabled(enabled)`: persist the flag; when enabling with no stored
      version, seed the version with the real one and stamp the date. */
  function SetEnabled(s: Sim, enabled: bool, build: BuildConfig, now: string): (r: Sim)
    ensures r.svc.enabled == enabled
    ensures GetItem(r.store, SimulationEnabled) == Some(FlagText(enabled))
    ensures r.svc.installCount == s.svc.installCount
    ensures SeedsVersion(s, enabled) ==>
      && r.svc.appVersion == RealAppVersion(build) && r.svc.buildDate == now
      && GetItem(r.store, SimulatedAppVersion) == Some(RealAppVersion(build))
      && GetItem(r.store, SimulatedBuildDate) == Some(now)
      && OnlyChanged(s.store, r.store, {SimulationEnabled, SimulatedAppVersion, SimulatedBuildDate})
    ensures !SeedsVersion(s, enabled) ==>
      && r.svc.appVersion == s.svc.appVersion && r.svc.buildDate == s.svc.buildDate
      && OnlyChanged(s.store, r.store, {SimulationEnabled})
  {
    var s1 := Sim(s.svc.(enabled := enabled), SetItem(s.store, SimulationEnabled, FlagText(enabled)));
    assert GetItem(s1.store, SimulatedAppVersion) == GetItem(s.store, SimulatedAppVersion);
    if enabled && !Truthy(GetItem(s1.store, SimulatedAppVersion)) then
      SetBuildDate(SetAppVersion(s1, RealAppVersion(build)), now)
    else s1
  }

  // ---------------------------------------------------------------------------
  // incrementVersion
  // ---------------------------------------------------------------------------

  /** The array step of `incrementVersion`: with three or more numbers the
      third is incremented in place; with two, a 1 is appended; with one,
      0 and 1 are appended. */
  function IncrementParts(parts: seq<Num>): (r: seq<Num>)
    requires |parts| >= 1
    ensures |r| == if |parts| >= 3 then |parts| else 3
    ensures |parts| >= 3 ==> r[2] == Increment(parts[2])
    ensures forall i :: 0 <= i < |parts| && i != 2 ==> r[i] == parts[i]
    ensures |parts| == 2 ==> r[2] == FromInt(1)
    ensures |parts| == 1 ==> r[1] == FromInt(0) && r[2] == FromInt(1)
  {
    if |parts| >= 3 then parts[2 := Increment(parts[2])]
    else if |parts| == 2 then parts + [FromInt(1)]
    else parts + [FromInt(0), FromInt(1)]
  }

  /** The numbers of a version print without a fraction or exponent, and so
      does the third one once incremented: then `join('.')` loses nothing. */
  predicate IncrementsPlainly(ns: seq<Num>) {
    && (forall i :: 0 <= i < |ns| ==> PlainNumber(ns[i]))
    && (|ns| >= 3 ==> PlainNumber(Increment(ns[2])))
  }

  /** `incrementVersion(version)`: `split('.').map(Number)`, the array step,
      then `join('.')`. Reading the result back gives the array step applied
      to the numbers read from the input: `max(3, n)` segments, the third
      incremented when present, every other segment (also those after the
      third) unchanged. */
  function IncrementVersion(version: string): (r: string)
    ensures r != ""
    ensures IncrementsPlainly(VersionNumbers(version)) ==>
      VersionNumbers(r) == IncrementParts(VersionNumbers(version))
  {
    var ns := VersionNumbers(version);
    var parts := IncrementParts(ns);
    var r := JoinNumbers(parts);
    assert r != "" by {
      var texts := seq(|parts|, i requires 0 <= i < |parts| => NumberToString(parts[i]));
      assert r == texts[0] + "." + Join(texts[1..], '.');
    }
    assert IncrementsPlainly(ns) ==> VersionNumbers(r) == parts by {
      if IncrementsPlainly(ns) {
        IncrementedPartsReadBack(ns);
      }
    }
    r
  }

  // ---------------------------------------------------------------------------
  // Compound operations
  // ---------------------------------------------------------------------------

  /** The version `simulateSuccessfulInstall(newVersion)` installs: the given
      one, unless it is absent or empty, in which case the current simulated
      version incremented. */
  function InstalledVersion(svc: Service, newVersion: Option<string>): string {
    if Truthy(newVersion) then newVersion.value else IncrementVersion(svc.appVersion)
  }

  /** `simulateSuccessfulInstall(newVersion)`: a no-op while simulation is
      disabled; otherwise set the version, stamp the date and count one more
      install. */
  function SimulateSuccessfulInstall(s: Sim, newVersion: Option<string>, now: string): (r: Sim)
    ensures !s.svc.enabled ==> r == s
    ensures s.svc.enabled ==>
      && r.svc.enabled
      && r.svc.appVersion == InstalledVersion(s.svc, newVersion)
      && r.svc.buildDate == now
      && (s.svc.installCount.Some? ==> r.svc.installCount == Some(s.svc.installCount.value + 1))
      && (s.svc.installCount.None? ==> r.svc.installCount == None)
      && GetItem(r.store, SimulatedAppVersion) == Some(r.svc.appVersion)
      && GetItem(r.store, SimulatedBuildDate) == Some(now)
      && GetItem(r.store, SimulationInstallCount) == Some(CountText(r.svc.installCount))
      && OnlyChanged(s.store, r.store, {SimulatedAppVersion, SimulatedBuildDate, SimulationInstallCount})
  {
    if !s.svc.enabled then s
    else
      var s1 := SetAppVersion(s, InstalledVersion(s.svc, newVersion));
      var s2 := SetBuildDate(s1, now);
      IncrementInstallCount(s2).0
  }

  /** `reset()`: back to the real version, a fresh date and a zero counter,
      whether or not simulation is enabled. */
  function Reset(s: Sim, build: BuildConfig, now: string): (r: Sim)
    ensures r.svc == Service(s.svc.enabled, RealAppVersion(build), now, Some(0))
    ensures GetItem(r.store, SimulatedAppVersion) == Some(RealAppVersion(build))
    ensures GetItem(r.store, SimulatedBuildDate) == Some(now)
    ensures GetItem(r.store, SimulationInstallCount) == Some("0")
    ensures OnlyChanged(s.store, r.store, {SimulatedAppVersion, SimulatedBuildDate, SimulationInstallCount})
  {
    var s1 := SetBuildDate(SetAppVersion(s, RealAppVersion(build)), now);
    Sim(s1.svc.(installCount := Some(0)), SetItem(s1.store, SimulationInstallCount, "0"))
  }

  // ---------------------------------------------------------------------------
  // Memory and store stay in step
  // ---------------------------------------------------------------------------

  /** The in-memory fields are what a reload of the store would produce: the
      flag, version and counter read back as held, and the build date is
      stored (a reload would otherwise stamp a fresh one). */
  ghost predicate InSync(s: Sim, build: BuildConfig) {
    && (s.svc.enabled <==> GetItem(s.store, SimulationEnabled) == Some("true"))
    && s.svc.appVersion == Or(GetItem(s.store, SimulatedAppVersion), RealAppVersion(build))
    && Truthy(GetItem(s.store, SimulatedBuildDate))
    && s.svc.buildDate == s.store[SimulatedBuildDate]
    && s.svc.installCount == ParseInt(Or(GetItem(s.store, SimulationInstallCount), "0"))
  }

  /** While in sync, `getState()` (and so `initialize()`) reloads exactly the
      fields already held, at any time. */
  lemma GetStateKeepsSyncedFields(s: Sim, build: BuildConfig, now: string)
    requires InSync(s, build)
    ensures GetState(s, build, now).0 == s
    ensures GetState(s, build, now).1.appVersion == s.svc.appVersion
    ensures GetState(s, build, now).1.installCount == s.svc.installCount
  {
  }

  /** After a reload the fields are in sync as soon as a build date is stored. */
  lemma GetStateEstablishesSync(s: Sim, build: BuildConfig, now: string)
    requires Truthy(GetItem(s.store, SimulatedBuildDate))
    ensures InSync(GetState(s, build, now).0, build)
  {
  }

  lemma SetAppVersionKeepsSync(s: Sim, version: string, build: BuildConfig)
    requires InSync(s, build) && version != ""
    ensures InSync(SetAppVersion(s, version), build)
  {
    var r := SetAppVersion(s, version);
    assert GetItem(r.store, SimulationEnabled) == GetItem(s.store, SimulationEnabled);
    assert GetItem(r.store, SimulatedBuildDate) == GetItem(s.store, SimulatedBuildDate);
    assert GetItem(r.store, SimulationInstallCount) == GetItem(s.store, SimulationInstallCount);
  }

  /** `setAppVersion("")` is accepted in memory but reloads as the real build
      version: an empty version is where memory and store part ways. */
  lemma EmptyVersionReloadsAsReal(s: Sim, build: BuildConfig, now: string)
    ensures SetAppVersion(s, "").svc.appVersion == ""
    ensures GetState(SetAppVersion(s, ""), build, now).0.svc.appVersion == RealAppVersion(build)
  {
  }

  lemma SetBuildDateKeepsSync(s: Sim, date: string, build: BuildConfig)
    requires InSync(s, build) && date != ""
    ensures InSync(SetBuildDate(s, date), build)
  {
    var r := SetBuildDate(s, date);
    assert GetItem(r.store, SimulationEnabled) == GetItem(s.store, SimulationEnabled);
    assert GetItem(r.store, SimulatedAppVersion) == GetItem(s.store, SimulatedAppVersion);
    assert GetItem(r.store, SimulationInstallCount) == GetItem(s.store, SimulationInstallCount);
  }

  /** `parseInt("NaN")` is NaN: a NaN counter persists and reloads as NaN. */
  lemma ParseIntOfNaNText()
    ensures ParseInt("NaN") == None
  {
    ParseIntOfNonNumeric("NaN");
  }

  /** `parseInt("0")` is 0: the counter a reset writes reloads as 0. */
  lemma ParseIntOfZeroText()
    ensures ParseInt("0") == Some(0)
  {
    ParseIntOfNat(0, "");
    assert NatToDecimal(0) + "" == "0";
  }

  /** The persisted counter text reads back as the count it was printed
      from, for NaN and for integers printed without an exponent. */
  lemma CountTextReadsBack(count: Option<int>)
    requires count.Some? ==> -PlainLimit < count.value < PlainLimit
    ensures Truthy(Some(CountText(count)))
    ensures ParseInt(CountText(count)) == count
  {
    match count
    case None =>
      ParseIntOfNaNText();
    case Some(n) =>
      IntegerRoundTrip(n);
      ParseIntOfEmptyText();
  }

  /** `parseInt("")` is NaN. */
  lemma ParseIntOfEmptyText()
    ensures ParseInt("") == None
  {
    assert TrimStart("") == "";
  }

  /** The persisted counter reads back as the in-memory one, as long as the
      new count is printed without an exponent (below `10^21` in magnitude). */
  lemma IncrementInstallCountKeepsSync(s: Sim, build: BuildConfig)
    requires InSync(s, build)
    requires s.svc.installCount.Some? ==> -PlainLimit < s.svc.installCount.value + 1 < PlainLimit
    ensures InSync(IncrementInstallCount(s).0, build)
  {
    var (r, count) := IncrementInstallCount(s);
    assert GetItem(r.store, SimulationEnabled) == GetItem(s.store, SimulationEnabled);
    assert GetItem(r.store, SimulatedAppVersion) == GetItem(s.store, SimulatedAppVersion);
    assert GetItem(r.store, SimulatedBuildDate) == GetItem(s.store, SimulatedBuildDate);
    CountTextReadsBack(count);
    assert Or(GetItem(r.store, SimulationInstallCount), "0") == CountText(count);
  }

  lemma SetEnabledKeepsSync(s: Sim, enabled: bool, build: BuildConfig, now: string)
    requires InSync(s, build) && now != ""
    ensures InSync(SetEnabled(s, enabled, build, now), build)
  {
    var r := SetEnabled(s, enabled, build, now);
    assert GetItem(r.store, SimulationInstallCount) == GetItem(s.store, SimulationInstallCount);
    if !SeedsVersion(s, enabled) {
      assert GetItem(r.store, SimulatedAppVersion) == GetItem(s.store, SimulatedAppVersion);
      assert GetItem(r.store, SimulatedBuildDate) == GetItem(s.store, SimulatedBuildDate);
    }
  }

  lemma SimulateSuccessfulInstallKeepsSync(s: Sim, newVersion: Option<string>, build: BuildConfig, now: string)
    requires InSync(s, build) && now != ""
    requires s.svc.installCount.Some? ==> -PlainLimit < s.svc.installCount.value + 1 < PlainLimit
    ensures InSync(SimulateSuccessfulInstall(s, newVersion, now), build)
  {
    if s.svc.enabled {
      var s1 := SetAppVersion(s, InstalledVersion(s.svc, newVersion));
      SetAppVersionKeepsSync(s, InstalledVersion(s.svc, newVersion), build);
      var s2 := SetBuildDate(s1, now);
      SetBuildDateKeepsSync(s1, now, build);
      IncrementInstallCountKeepsSync(s2, build);
    }
  }

  /** `reset()` brings version, date and counter into step with the store
      whatever they held before; only the flag has to agree already. */
  lemma ResetRestoresSync(s: Sim, build: BuildConfig, now: string)
    requires s.svc.enabled <==> GetItem(s.store, SimulationEnabled) == Some("true")
    requires now != ""
    ensures InSync(Reset(s, build, now), build)
  {
    var r := Reset(s, build, now);
    assert GetItem(r.store, SimulationEnabled) == GetItem(s.store, SimulationEnabled);
    ParseIntOfZeroText();
    assert Or(GetItem(r.store, SimulationInstallCount), "0") == "0";
  }

  // ---------------------------------------------------------------------------
  // Behaviour across calls
  // ---------------------------------------------------------------------------

  /** Enabling a second time (at any later time) changes nothing: the first
      call either found a stored version or seeded one. Disabling twice is
      the same as disabling once. */
  lemma SetEnabledIdempotent(s: Sim, enabled: bool, build: BuildConfig, now: string, later: string)
    ensures SetEnabled(SetEnabled(s, enabled, build, now), enabled, build, later)
         == SetEnabled(s, enabled, build, now)
  {
    var r1 := SetEnabled(s, enabled, build, now);
    var r2 := SetEnabled(r1, enabled, build, later);
    assert !SeedsVersion(r1, enabled);
    assert r2.svc == r1.svc;
    assert r1.store[SimulationEnabled] == FlagText(enabled);
    assert r2.store == r1.store[SimulationEnabled := FlagText(enabled)];
  }

  /** First-time enabling with nothing stored: the effective version becomes
      the real build version and the build date is stamped with `now`. */
  lemma FirstEnableSeedsRealVersion(s: Sim, build: BuildConfig, now: string)
    requires SimulatedAppVersion !in s.store
    ensures SetEnabled(s, true, build, now).svc.appVersion == RealAppVersion(build)
    ensures SetEnabled(s, true, build, now).svc.buildDate == now
    ensures GetAppVersion(SetEnabled(s, true, build, now).svc, build) == RealAppVersion(build)
    ensures GetItem(SetEnabled(s, true, build, now).store, SimulatedAppVersion) == Some(RealAppVersion(build))
  {
  }

  /** Enabling when a version is already stored keeps the simulated version. */
  lemma EnableKeepsStoredVersion(s: Sim, build: BuildConfig, now: string)
    requires Truthy(GetItem(s.store, SimulatedAppVersion))
    ensures SetEnabled(s, true, build, now).svc.appVersion == s.svc.appVersion
    ensures SetEnabled(s, true, build, now).svc.buildDate == s.svc.buildDate
  {
  }

  /** `reset()` twice at the same instant is `reset()` once. */
  lemma ResetIdempotent(s: Sim, build: BuildConfig, now: string)
    ensures Reset(Reset(s, build, now), build, now) == Reset(s, build, now)
  {
    var r1 := Reset(s, build, now);
    var r2 := Reset(r1, build, now);
    assert r2.svc == r1.svc;
    assert r2.store == r1.store;
  }

  /** An install while simulation is enabled moves the effective version to
      the installed one. */
  lemma InstallMovesEffectiveVersion(s: Sim, newVersion: Option<string>, build: BuildConfig, now: string)
    requires s.svc.enabled
    ensures GetAppVersion(SimulateSuccessfulInstall(s, newVersion, now).svc, build)
         == InstalledVersion(s.svc, newVersion)
  {
  }

  // ---------------------------------------------------------------------------
  // incrementVersion
  // ---------------------------------------------------------------------------

  /** A version written as dot-separated naturals in plain decimal. */
  function NatVersion(ns: seq<nat>): string {
    Join(seq(|ns|, i requires 0 <= i < |ns| => NatToDecimal(ns[i])), '.')
  }

  /** The naturals as JavaScript numbers. */
  function NatNumbers(ns: seq<nat>): (r: seq<Num>)
    ensures |r| == |ns|
    ensures forall i :: 0 <= i < |ns| ==> r[i] == FromInt(ns[i])
  {
    seq(|ns|, i requires 0 <= i < |ns| => FromInt(ns[i]))
  }

  /** Every part is below `10^21`, so `toString` prints it plainly. */
  predicate Printable(ns: seq<nat>) {
    forall i :: 0 <= i < |ns| ==> ns[i] < PlainLimit
  }

  /** A natural-number version is what `join('.')` makes of its numbers,
      and `split('.').map(Number)` reads those numbers back. */
  lemma NatVersionNumbers(ns: seq<nat>)
    requires |ns| >= 1 && Printable(ns)
    ensures NatVersion(ns) == JoinNumbers(NatNumbers(ns))
    ensures VersionNumbers(NatVersion(ns)) == NatNumbers(ns)
  {
    var nums := NatNumbers(ns);
    forall i | 0 <= i < |ns|
      ensures NumberToString(nums[i]) == NatToDecimal(ns[i]) && PlainNumber(nums[i])
    {
      NumberToStringOfNat(ns[i]);
    }
    assert seq(|nums|, i requires 0 <= i < |nums| => NumberToString(nums[i]))
        == seq(|ns|, i requires 0 <= i < |ns| => NatToDecimal(ns[i]));
    JoinNumbersRoundTrip(nums);
  }

  /** The array step of `incrementVersion` on naturals. */
  function IncrementNats(ns: seq<nat>): (r: seq<nat>)
    requires |ns| >= 1
    ensures |r| == if |ns| >= 3 then |ns| else 3
    ensures forall i :: 0 <= i < |ns| && i != 2 ==> r[i] == ns[i]
    ensures |ns| >= 3 ==> r[2] == ns[2] + 1
    ensures |ns| < 3 ==> r[2] == 1 && r[1] == (if |ns| == 2 then ns[1] else 0)
  {
    if |ns| >= 3 then ns[2 := ns[2] + 1]
    else if |ns| == 2 then ns + [1]
    else ns + [0, 1]
  }

  /** The array step keeps every number printable when the incremented
      third is, so joining and splitting it again is lossless. */
  lemma IncrementedPartsReadBack(ns: seq<Num>)
    requires |ns| >= 1 && IncrementsPlainly(ns)
    ensures VersionNumbers(JoinNumbers(IncrementParts(ns))) == IncrementParts(ns)
  {
    var parts := IncrementParts(ns);
    forall i | 0 <= i < |parts|
      ensures PlainNumber(parts[i])
    {
      if i < |ns| && i != 2 {
        assert parts[i] == ns[i];
      }
    }
    JoinNumbersRoundTrip(parts);
  }

  /** On a natural-number version `incrementVersion` works digit-exactly: the
      text it returns is the version of the incremented naturals. */
  lemma IncrementNatVersion(ns: seq<nat>)
    requires |ns| >= 1 && Printable(ns)
    requires |ns| >= 3 ==> ns[2] + 1 < PlainLimit
    ensures IncrementVersion(NatVersion(ns)) == NatVersion(IncrementNats(ns))
  {
    IncrementVersionSteps(NatVersion(ns));
    IncrementNatSteps(ns);
  }

  /** `incrementVersion` reads the numbers, applies the array step and joins. */
  lemma IncrementVersionSteps(version: string)
    ensures IncrementVersion(version) == JoinNumbers(IncrementParts(VersionNumbers(version)))
  {
  }

  /** The three stages of `incrementVersion` on a natural-number version:
      reading gives the naturals, the array step increments them, and
      joining writes the incremented version. */
  lemma IncrementNatSteps(ns: seq<nat>)
    requires |ns| >= 1 && Printable(ns)
    requires |ns| >= 3 ==> ns[2] + 1 < PlainLimit
    ensures VersionNumbers(NatVersion(ns)) == NatNumbers(ns)
    ensures IncrementParts(NatNumbers(ns)) == NatNumbers(IncrementNats(ns))
    ensures JoinNumbers(NatNumbers(IncrementNats(ns))) == NatVersion(IncrementNats(ns))
  {
    IncrementNatsPrintable(ns);
    NatVersionNumbers(ns);
    IncrementPartsOfNats(ns);
    NatVersionNumbers(IncrementNats(ns));
  }

  /** The array step keeps every part below `10^21` when the incremented
      third is. */
  lemma IncrementNatsPrintable(ns: seq<nat>)
    requires |ns| >= 1 && Printable(ns)
    requires |ns| >= 3 ==> ns[2] + 1 < PlainLimit
    ensures Printable(IncrementNats(ns))
  {
  }

  /** The array step commutes with turning naturals into numbers. */
  lemma IncrementPartsOfNats(ns: seq<nat>)
    requires |ns| >= 1
    ensures IncrementParts(NatNumbers(ns)) == NatNumbers(IncrementNats(ns))
  {
    var a := IncrementParts(NatNumbers(ns));
    var b := NatNumbers(IncrementNats(ns));
    assert |a| == |b|;
    forall i | 0 <= i < |a|
      ensures a[i] == b[i]
    {
      if i == 2 && |ns| >= 3 {
        assert Increment(FromInt(ns[2])) == FromInt(ns[2] + 1);
      }
    }
  }

  /** A natural-number version of one, two or three parts, spelled out. */
  lemma NatVersionSpelled(ns: seq<nat>)
    requires 1 <= |ns| <= 3
    ensures |ns| == 1 ==> NatVersion(ns) == NatToDecimal(ns[0])
    ensures |ns| == 2 ==> NatVersion(ns) == NatToDecimal(ns[0]) + "." + NatToDecimal(ns[1])
    ensures |ns| == 3 ==> NatVersion(ns) == NatToDecimal(ns[0]) + "." + NatToDecimal(ns[1]) + "." + NatToDecimal(ns[2])
  {
    var t := seq(|ns|, i requires 0 <= i < |ns| => NatToDecimal(ns[i]));
    if |ns| == 2 {
      assert t[1..] == [t[1]];
      assert Join(t, '.') == t[0] + "." + Join(t[1..], '.');
    } else if |ns| == 3 {
      assert t[1..][1..] == [t[2]];
      assert Join(t[1..], '.') == t[1] + "." + t[2];
    }
  }

  /** The versions of the first documented example, as text. */
  lemma PatchExampleTexts()
    ensures NatVersion([1, 0, 0]) == "1.0.0" && NatVersion([1, 0, 1]) == "1.0.1"
  {
    NatVersionSpelled([1, 0, 0]);
    NatVersionSpelled([1, 0, 1]);
  }

  lemma PatchExampleSteps()
    ensures VersionNumbers(NatVersion([1, 0, 0])) == NatNumbers([1, 0, 0])
    ensures IncrementParts(NatNumbers([1, 0, 0])) == NatNumbers([1, 0, 1])
    ensures JoinNumbers(NatNumbers([1, 0, 1])) == NatVersion([1, 0, 1])
  {
    IncrementNatSteps([1, 0, 0]);
    assert IncrementNats([1, 0, 0]) == [1, 0, 1];
  }

  /** The first documented example: "1.0.0" becomes "1.0.1". */
  lemma IncrementPatchExample()
    ensures IncrementVersion("1.0.0") == "1.0.1"
  {
    PatchExampleTexts();
    IncrementVersionSteps(NatVersion([1, 0, 0]));
    PatchExampleSteps();
  }

  /** The versions of the second documented example, as text. */
  lemma PastNineExampleTexts()
    ensures NatVersion([1, 2, 9]) == "1.2.9" && NatVersion([1, 2, 10]) == "1.2.10"
  {
    assert NatToDecimal(10) == "10";
    NatVersionSpelled([1, 2, 9]);
    NatVersionSpelled([1, 2, 10]);
  }

  lemma PastNineExampleSteps()
    ensures VersionNumbers(NatVersion([1, 2, 9])) == NatNumbers([1, 2, 9])
    ensures IncrementParts(NatNumbers([1, 2, 9])) == NatNumbers([1, 2, 10])
    ensures JoinNumbers(NatNumbers([1, 2, 10])) == NatVersion([1, 2, 10])
  {
    IncrementNatSteps([1, 2, 9]);
    assert IncrementNats([1, 2, 9]) == [1, 2, 10];
  }

  /** The second documented example: "1.2.9" becomes "1.2.10", with no carry
      into the minor part. */
  lemma IncrementPastNineExample()
    ensures IncrementVersion("1.2.9") == "1.2.10"
  {
    PastNineExampleTexts();
    IncrementVersionSteps(NatVersion([1, 2, 9]));
    PastNineExampleSteps();
  }

  /** The versions of a one-part example, as text. */
  lemma OnePartExampleTexts()
    ensures NatVersion([2]) == "2" && NatVersion([2, 0, 1]) == "2.0.1"
  {
    NatVersionSpelled([2]);
    NatVersionSpelled([2, 0, 1]);
  }

  lemma OnePartExampleSteps()
    ensures VersionNumbers(NatVersion([2])) == NatNumbers([2])
    ensures IncrementParts(NatNumbers([2])) == NatNumbers([2, 0, 1])
    ensures JoinNumbers(NatNumbers([2, 0, 1])) == NatVersion([2, 0, 1])
  {
    IncrementNatSteps([2]);
    assert IncrementNats([2]) == [2, 0, 1];
  }

  /** One part gains a zero minor part and a patch of 1: "2" becomes "2.0.1". */
  lemma IncrementOnePartExample()
    ensures IncrementVersion("2") == "2.0.1"
  {
    OnePartExampleTexts();
    IncrementVersionSteps(NatVersion([2]));
    OnePartExampleSteps();
  }

  /** The versions of a two-part example, as text. */
  lemma TwoPartExampleTexts()
    ensures NatVersion([1, 5]) == "1.5" && NatVersion([1, 5, 1]) == "1.5.1"
  {
    NatVersionSpelled([1, 5]);
    NatVersionSpelled([1, 5, 1]);
  }

  lemma TwoPartExampleSteps()
    ensures VersionNumbers(NatVersion([1, 5])) == NatNumbers([1, 5])
    ensures IncrementParts(NatNumbers([1, 5])) == NatNumbers([1, 5, 1])
    ensures JoinNumbers(NatNumbers([1, 5, 1])) == NatVersion([1, 5, 1])
  {
    IncrementNatSteps([1, 5]);
    assert IncrementNats([1, 5]) == [1, 5, 1];
  }

  /** Two parts gain a patch of 1: "1.5" becomes "1.5.1". */
  lemma IncrementTwoPartExample()
    ensures IncrementVersion("1.5") == "1.5.1"
  {
    TwoPartExampleTexts();
    IncrementVersionSteps(NatVersion([1, 5]));
    TwoPartExampleSteps();
  }
}
