/** The API manager (services/ApiManagerService.ts): where the API lives,
    how request paths are formed, and the decision whether the API and this
    client may work together, taken from the `/version` response.

    The HTTP request itself is abstracted into `VersionResponse`; the client
    version it sends and compares is the simulation service's effective
    version, passed in as a string. */
module ApiManager {
  import opened Wrappers
  import opened Decimal
  import opened JsText
  import opened JsNumber
  import opened Lexicographic
  import opened Types
  import opened Storage
  import Simulation
  import Build

  /** `REQUIRED_API_VERSION`. */
  const RequiredApiVersion := "1.0.0"

  /** The base URL used when none is stored. */
  const DefaultApiUrl := "http://localhost:5000/api"

  // ---------------------------------------------------------------------------
  // Base URL and request paths
  // ---------------------------------------------------------------------------

  /** `initialize()`: the base URL is the stored endpoint, unless it is absent
      or empty. */
  function ApiUrl(store: Store): (url: string)
    ensures url != ""
    ensures Truthy(GetItem(store, ApiEndpoint)) ==> url == store[ApiEndpoint]
    ensures !Truthy(GetItem(store, ApiEndpoint)) ==> url == DefaultApiUrl
  {
    Or(GetItem(store, ApiEndpoint), DefaultApiUrl)
  }

  /** `setApiUrl(url)`: persist the URL and initialise again. Returns the new
      store and the base URL in force afterwards: the given URL, or the
      default when it is empty. */
  function SetApiUrl(store: Store, url: string): (r: (Store, string))
    ensures GetItem(r.0, ApiEndpoint) == Some(url)
    ensures OnlyChanged(store, r.0, {ApiEndpoint})
    ensures url != "" ==> r.1 == url
    ensures url == "" ==> r.1 == DefaultApiUrl
  {
    var store' := SetItem(store, ApiEndpoint, url);
    (store', ApiUrl(store'))
  }

  /** `getUrl(controller, methodName)`: the two path pieces around one `/`. When
      neither piece holds a `/`, splitting the path on `/` gives them back. */
  function GetUrl(controller: string, methodName: string): (path: string)
    ensures |path| == |controller| + 1 + |methodName|
    ensures path[..|controller|] == controller && path[|controller|] == '/'
    ensures path[|controller| + 1..] == methodName
    ensures '/' !in controller && '/' !in methodName ==> Split(path, '/') == [controller, methodName]
  {
    var path := controller + "/" + methodName;
    assert '/' !in controller && '/' !in methodName ==> Split(path, '/') == [controller, methodName] by {
      if '/' !in controller && '/' !in methodName {
        assert Join([controller, methodName], '/') == path by {
          assert [controller, methodName][1..] == [methodName];
        }
        SplitJoin([controller, methodName], '/');
      }
    }
    path
  }

  // ---------------------------------------------------------------------------
  // parseVersion and isVersionValid
  // ---------------------------------------------------------------------------

  /** The triple `parseVersion` returns. */
  datatype Version = Version(major: int, minor: int, patch: int)

  /** The version as a sequence, for comparison under `LexLeq`. */
  function Triple(v: Version): (t: seq<int>)
    ensures |t| == 3
  {
    [v.major, v.minor, v.patch]
  }

  /** `parseInt(part, 10) || 0`: the integer value of the leading digits
      (after white space and one sign), 0 when there are none. */
  function SegmentValue(part: string): int {
    ParseInt(part).GetOr(0)
  }

  /** `parts[i] || 0` on the mapped array: 0 past its end. */
  function ValueAt(values: seq<int>, i: nat): int {
    if i < |values| then values[i] else 0
  }

  /** `parseVersion(version)`: total; the first three dot-separated segments
      read with `parseInt`, a missing segment or one without leading digits
      reading as 0. */
  function ParseVersion(version: string): (v: Version)
    ensures |Split(version, '.')| < 2 ==> v.minor == 0
    ensures |Split(version, '.')| < 3 ==> v.patch == 0
    ensures forall i :: 0 <= i < 3 && i < |Split(version, '.')| && ParseInt(Split(version, '.')[i]).Some? ==>
      Triple(v)[i] == ParseInt(Split(version, '.')[i]).value
    ensures forall i :: 0 <= i < 3 && i < |Split(version, '.')| && ParseInt(Split(version, '.')[i]).None? ==>
      Triple(v)[i] == 0
  {
    var parts := Split(version, '.');
    var values := seq(|parts|, i requires 0 <= i < |parts| => SegmentValue(parts[i]));
    Version(ValueAt(values, 0), ValueAt(values, 1), ValueAt(values, 2))
  }

  /** `isVersionValid(current, required)`: the chain of comparisons on major,
      minor and patch. It holds exactly when the required triple is at or
      before the current one in lexicographic order. */
  function IsVersionValid(current: string, required: string): (ok: bool)
    ensures ok <==> LexLeq(Triple(ParseVersion(required)), Triple(ParseVersion(current)))
  {
    var c := ParseVersion(current);
    var q := ParseVersion(required);
    var ok :=
      if c.major > q.major then true
      else if c.major < q.major then false
      else if c.minor > q.minor then true
      else if c.minor < q.minor then false
      else c.patch >= q.patch;
    LexLeqTriple(q.major, q.minor, q.patch, c.major, c.minor, c.patch);
    ok
  }

  lemma {:induction false} IsVersionValidReflexive(v: string)
    ensures IsVersionValid(v, v)
  {
    LexLeqReflexive(Triple(ParseVersion(v)));
  }

  lemma {:induction false} IsVersionValidTransitive(a: string, b: string, c: string)
    requires IsVersionValid(a, b) && IsVersionValid(b, c)
    ensures IsVersionValid(a, c)
  {
    LexLeqTransitive(Triple(ParseVersion(c)), Triple(ParseVersion(b)), Triple(ParseVersion(a)));
  }

  lemma {:induction false} IsVersionValidTotal(a: string, b: string)
    ensures IsVersionValid(a, b) || IsVersionValid(b, a)
  {
    LexLeqTotal(Triple(ParseVersion(a)), Triple(ParseVersion(b)));
  }

  /** Versions valid against each other parse to the same triple. */
  lemma {:induction false} IsVersionValidAntisymmetric(a: string, b: string)
    requires IsVersionValid(a, b) && IsVersionValid(b, a)
    ensures ParseVersion(a) == ParseVersion(b)
  {
    LexLeqAntisymmetric(Triple(ParseVersion(a)), Triple(ParseVersion(b)));
    var x := ParseVersion(a);
    var y := ParseVersion(b);
    assert Triple(x)[0] == Triple(y)[0] && Triple(x)[1] == Triple(y)[1] && Triple(x)[2] == Triple(y)[2];
  }

  /** Segments that are a natural in decimal followed by text that does not
      continue the digits (and holds no `.`) parse to those naturals; the
      segments after the third do not matter. */
  lemma ParseVersionOfDigitPrefixes(parts: seq<string>, ns: seq<nat>, tails: seq<string>)
    requires |parts| == |ns| == |tails| >= 3
    requires forall i :: 0 <= i < |parts| ==> parts[i] == NatToDecimal(ns[i]) + tails[i]
    requires forall i :: 0 <= i < |tails| ==> '.' !in tails[i]
    requires forall i :: 0 <= i < |tails| ==> tails[i] == [] || !IsDigit(tails[i][0])
    ensures ParseVersion(Join(parts, '.')) == Version(ns[0], ns[1], ns[2])
  {
    forall i | 0 <= i < |parts|
      ensures '.' !in parts[i] && ParseInt(parts[i]) == Some(ns[i])
    {
      var d := NatToDecimal(ns[i]);
      assert forall j | 0 <= j < |d| :: d[j] != '.' by {
        assert forall j | 0 <= j < |d| :: IsDigit(d[j]);
      }
      ParseIntOfNat(ns[i], tails[i]);
    }
    SplitJoin(parts, '.');
  }

  /** For naturals `a.b.c` (and anything after), `parseVersion` reads back
      `(a, b, c)` exactly. */
  lemma ParseVersionOfNats(ns: seq<nat>)
    requires |ns| >= 3
    ensures ParseVersion(Simulation.NatVersion(ns)) == Version(ns[0], ns[1], ns[2])
  {
    var parts := seq(|ns|, i requires 0 <= i < |ns| => NatToDecimal(ns[i]));
    var tails := seq(|ns|, i requires 0 <= i < |ns| => "");
    forall i | 0 <= i < |ns|
      ensures parts[i] == NatToDecimal(ns[i]) + tails[i]
    {
      assert NatToDecimal(ns[i]) + "" == NatToDecimal(ns[i]);
    }
    ParseVersionOfDigitPrefixes(parts, ns, tails);
  }

  /** `a.b.c` written out parses to `(a, b, c)`: the form in which concrete
      versions are read below. */
  lemma ParseVersionOfSpelled(a: nat, b: nat, c: nat, version: string)
    requires version == NatToDecimal(a) + "." + NatToDecimal(b) + "." + NatToDecimal(c)
    ensures ParseVersion(version) == Version(a, b, c)
  {
    Simulation.NatVersionSpelled([a, b, c]);
    ParseVersionOfNats([a, b, c]);
  }

  /** A version of three one-digit segments parses to their values. */
  lemma ParseVersionOfDigitTriple(x: char, y: char, z: char)
    requires IsDigit(x) && IsDigit(y) && IsDigit(z)
    ensures ParseVersion([x, '.', y, '.', z]) == Version(DigitValue(x), DigitValue(y), DigitValue(z))
  {
    SingleDigitText(x);
    SingleDigitText(y);
    SingleDigitText(z);
    ParseVersionOfSpelled(DigitValue(x), DigitValue(y), DigitValue(z), [x, '.', y, '.', z]);
  }

  /** Only the first three segments matter: appending more segments to a
      three-segment version does not change what it parses to. */
  lemma ParseVersionIgnoresExtraSegments(parts: seq<string>, more: seq<string>)
    requires |parts| == 3
    requires forall i :: 0 <= i < |parts| ==> '.' !in parts[i]
    requires forall i :: 0 <= i < |more| ==> '.' !in more[i]
    ensures ParseVersion(Join(parts + more, '.')) == ParseVersion(Join(parts, '.'))
  {
    SplitJoin(parts, '.');
    SplitJoin(parts + more, '.');
  }

  /** A text without digits or dots parses to (0, 0, 0): `parseVersion`
      never fails. The empty string and "x" are instances. */
  lemma ParseVersionWithoutDigits(s: string)
    requires forall i :: 0 <= i < |s| ==> !IsDigit(s[i]) && s[i] != '.'
    ensures ParseVersion(s) == Version(0, 0, 0)
  {
    SplitNoSeparator(s, '.');
    var t := TrimStart(s);
    var u := UnsignedPart(t);
    if u != [] {
      TrimStartIsSuffix(s);
      assert u[0] == s[|s| - |u|];
    }
  }

  /** A segment without leading digits reads as 0 while its neighbours keep
      their values: `x.c.z` with a non-numeric middle parses to (x, 0, z). */
  lemma ParseVersionNonNumericMiddle(x: char, c: char, z: char)
    requires IsDigit(x) && IsDigit(z)
    requires !IsDigit(c) && c != '.' && !IsWhiteSpace(c) && c != '+' && c != '-'
    ensures ParseVersion([x, '.', c, '.', z]) == Version(DigitValue(x), 0, DigitValue(z))
  {
    var parts := [[x], [c], [z]];
    assert Join(parts, '.') == [x, '.', c, '.', z] by {
      assert parts[1..] == [[c], [z]] && parts[1..][1..] == [[z]];
      assert Join([[c], [z]], '.') == [c] + ['.'] + [z];
    }
    SplitJoin(parts, '.');
    ParseIntOfDigits([x], "");
    ParseIntOfDigits([z], "");
    assert [x] + "" == [x] && [z] + "" == [z];
    ParseIntOfNonNumeric([c]);
  }

  /** "1.x.3" parses to 1.0.3. */
  lemma ParseVersionMixedExample()
    ensures ParseVersion("1.x.3") == Version(1, 0, 3)
  {
    ParseVersionNonNumericMiddle('1', 'x', '3');
  }

  lemma ParseVersionOfEmptyAndX()
    ensures ParseVersion("") == Version(0, 0, 0)
    ensures ParseVersion("x") == Version(0, 0, 0)
  {
    ParseVersionWithoutDigits("");
    ParseVersionWithoutDigits("x");
  }

  // ---------------------------------------------------------------------------
  // checkApiVersion
  // ---------------------------------------------------------------------------

  /** What the `GET /version` request came back with: an exception (network
      error, timeout, non-2xx status), a response without data, or data. */
  datatype VersionResponse = VersionRequestFailed | VersionNoData | VersionData(info: ApiVersionInfo)

  /** The record `checkApiVersion` resolves to; absent properties are `None`. */
  datatype ApiCheckResult = ApiCheckResult(
    isValid: bool,
    currentVersion: Option<string>,
    apiInfo: Option<ApiVersionInfo>,
    message: Option<string>)

  const NoVersionMessage := "No se pudo obtener versión de la API"

  /** The message for a client older than the API accepts. */
  function ClientTooOldMessage(clientVersion: string, minClientVersion: string): string {
    "Versión de su App: " + clientVersion + "\n"
    + "Versión mínima requerida: " + minClientVersion + "\n\n"
    + "Necesita actualizar su aplicación."
  }

  /** The message for an API this client cannot work with. */
  function IncompatibleApiMessage(apiVersion: string): string {
    "Versión de la API: " + apiVersion + "\n"
    + "Versión requerida: " + RequiredApiVersion + "\n\n"
    + "La API no es compatible."
  }

  /** `apiInfo.version || '0.0.0'`. */
  function ApiVersionOf(info: ApiVersionInfo): string {
    Or(info.version, "0.0.0")
  }

  /** `apiInfo.compatible_versions || []`. */
  function CompatibleVersionsOf(info: ApiVersionInfo): seq<string> {
    info.compatibleVersions.GetOr([])
  }

  /** The API names a minimum client version and this client is below it. */
  predicate ClientBelowMinimum(info: ApiVersionInfo, clientVersion: string) {
    Truthy(info.minClientVersion) && !IsVersionValid(clientVersion, info.minClientVersion.value)
  }

  /** The API version is the required one, is listed as compatible with it,
      or is at least it. These backward-compatibility rules are deliberate. */
  predicate ApiCompatible(apiVersion: string, compatible: seq<string>) {
    apiVersion == RequiredApiVersion
    || RequiredApiVersion in compatible
    || IsVersionValid(apiVersion, RequiredApiVersion)
  }

  /** `checkApiVersion()`, as written. A failed request lets the client go on
      (fail-open, deliberate); a response without data is invalid with a
      message; with data, a client below the minimum is refused first, and
      otherwise validity is API compatibility. The message built for an
      incompatible API is not part of the returned record. */
  function CheckApiVersion(response: VersionResponse, clientVersion: string): (r: ApiCheckResult)
    ensures response.VersionRequestFailed? ==> r == ApiCheckResult(true, None, None, None)
    ensures response.VersionNoData? ==> r == ApiCheckResult(false, None, None, Some(NoVersionMessage))
    ensures response.VersionData? ==>
      && r.currentVersion == Some(ApiVersionOf(response.info))
      && r.apiInfo == Some(response.info)
    ensures response.VersionData? && ClientBelowMinimum(response.info, clientVersion) ==>
      && !r.isValid
      && r.message == Some(ClientTooOldMessage(clientVersion, response.info.minClientVersion.value))
    ensures response.VersionData? && !ClientBelowMinimum(response.info, clientVersion) ==>
      && (r.isValid <==> ApiCompatible(ApiVersionOf(response.info), CompatibleVersionsOf(response.info)))
      && r.message == None
  {
    match response
    case VersionRequestFailed => ApiCheckResult(true, None, None, None)
    case VersionNoData => ApiCheckResult(false, None, None, Some(NoVersionMessage))
    case VersionData(info) =>
      var apiVersion := ApiVersionOf(info);
      if Truthy(info.minClientVersion) && !IsVersionValid(clientVersion, info.minClientVersion.value) then
        ApiCheckResult(false, Some(apiVersion), Some(info),
                       Some(ClientTooOldMessage(clientVersion, info.minClientVersion.value)))
      else
        var isValid := ApiCompatible(apiVersion, CompatibleVersionsOf(info));
        ApiCheckResult(isValid, Some(apiVersion), Some(info), None)
  }

  /** `checkApiVersion()` as evidently intended: the same decision, with the
      incompatible-API message returned along with `isValid = false`. */
  function CheckApiVersionIntended(response: VersionResponse, clientVersion: string): (r: ApiCheckResult)
    ensures response.VersionData? && !r.isValid ==> Truthy(r.message)
    ensures response.VersionData? && !ClientBelowMinimum(response.info, clientVersion)
            && !ApiCompatible(ApiVersionOf(response.info), CompatibleVersionsOf(response.info)) ==>
      r.message == Some(IncompatibleApiMessage(ApiVersionOf(response.info)))
    ensures r.isValid == CheckApiVersion(response, clientVersion).isValid
    ensures r.currentVersion == CheckApiVersion(response, clientVersion).currentVersion
    ensures r.apiInfo == CheckApiVersion(response, clientVersion).apiInfo
    ensures r.isValid || !response.VersionData? ==> r == CheckApiVersion(response, clientVersion)
  {
    var r := CheckApiVersion(response, clientVersion);
    if response.VersionData? && !r.isValid && r.message.None? then
      r.(message := Some(IncompatibleApiMessage(ApiVersionOf(response.info))))
    else r
  }

  // ---------------------------------------------------------------------------
  // What the screens do with the result (App.tsx, app/index.tsx)
  // ---------------------------------------------------------------------------

  /** How a screen reacts to a check result: with an API version it reports
      the connection and raises a compatibility warning only for an invalid
      result that carries a message; without one it reports a connection
      error with the message or a generic text. */
  datatype ScreenOutcome = Connected(warning: Option<string>) | ConnectionError(alert: string)

  function ScreenReaction(r: ApiCheckResult): (o: ScreenOutcome)
    ensures o.Connected? <==> Truthy(r.currentVersion)
    ensures o.Connected? && o.warning.Some? ==> !r.isValid && Some(o.warning.value) == r.message
    ensures o.Connected? && !r.isValid && Truthy(r.message) ==> o.warning.Some?
  {
    if Truthy(r.currentVersion) then
      Connected(if !r.isValid && Truthy(r.message) then Some(r.message.value) else None)
    else ConnectionError(Or(r.message, "No se pudo conectar a la API"))
  }

  // ---------------------------------------------------------------------------
  // Properties of the decision
  // ---------------------------------------------------------------------------

  /** The client-too-old message names both versions. */
  lemma ClientTooOldMessageNamesBoth(clientVersion: string, minClientVersion: string)
    ensures Contains(ClientTooOldMessage(clientVersion, minClientVersion), clientVersion)
    ensures Contains(ClientTooOldMessage(clientVersion, minClientVersion), minClientVersion)
  {
    var m := ClientTooOldMessage(clientVersion, minClientVersion);
    var p1 := "Versión de su App: ";
    var k2 := |p1| + |clientVersion| + 1 + |"Versión mínima requerida: "|;
    assert OccursAt(m, clientVersion, |p1|);
    assert OccursAt(m, minClientVersion, k2);
  }

  /** The incompatible-API message names both the API version and the
      required one. */
  lemma IncompatibleApiMessageNamesBoth(apiVersion: string)
    ensures Contains(IncompatibleApiMessage(apiVersion), apiVersion)
    ensures Contains(IncompatibleApiMessage(apiVersion), RequiredApiVersion)
  {
    var m := IncompatibleApiMessage(apiVersion);
    var p1 := "Versión de la API: ";
    var k2 := |p1| + |apiVersion| + 1 + |"Versión requerida: "|;
    assert OccursAt(m, apiVersion, |p1|);
    assert OccursAt(m, RequiredApiVersion, k2);
  }

  /** A client below the minimum is refused whatever the API version: the
      minimum-client check takes precedence over compatibility. */
  lemma ClientCheckTakesPrecedence(info: ApiVersionInfo, clientVersion: string)
    requires ClientBelowMinimum(info, clientVersion)
    ensures var r := CheckApiVersion(VersionData(info), clientVersion);
      && !r.isValid && r.message.Some?
      && Contains(r.message.value, clientVersion)
      && Contains(r.message.value, info.minClientVersion.value)
  {
    ClientTooOldMessageNamesBoth(clientVersion, info.minClientVersion.value);
  }

  /** The exact-match rule adds nothing to `isVersionValid` (a version is
      valid against itself); the compatible list is the only way an API
      below the required version is accepted. */
  lemma ApiCompatibleMeaning(apiVersion: string, compatible: seq<string>)
    ensures ApiCompatible(apiVersion, compatible)
        <==> RequiredApiVersion in compatible
             || LexLeq(Triple(ParseVersion(RequiredApiVersion)), Triple(ParseVersion(apiVersion)))
  {
    if apiVersion == RequiredApiVersion {
      IsVersionValidReflexive(apiVersion);
    }
  }

  /** The required version parses to (1, 0, 0). */
  lemma RequiredApiVersionTriple()
    ensures ParseVersion(RequiredApiVersion) == Version(1, 0, 0)
  {
    ParseVersionOfDigitTriple('1', '0', '0');
  }

  /** Scenario: the API requires client 2.0.0 and the client is 1.5.0: the
      result is invalid, its message names both versions, and this happens
      whatever the API version and compatible list are. */
  lemma ClientTooOldScenario(info: ApiVersionInfo)
    requires info.minClientVersion == Some("2.0.0")
    ensures var r := CheckApiVersion(VersionData(info), "1.5.0");
      && !r.isValid && r.message.Some?
      && Contains(r.message.value, "1.5.0") && Contains(r.message.value, "2.0.0")
  {
    ParseVersionOfDigitTriple('1', '5', '0');
    ParseVersionOfDigitTriple('2', '0', '0');
    LexLeqTriple(2, 0, 0, 1, 5, 0);
    assert ClientBelowMinimum(info, "1.5.0");
    ClientCheckTakesPrecedence(info, "1.5.0");
  }

  /** Scenario: API version "1.0.0" with an empty compatible list (and no
      minimum client version) is valid. */
  lemma ExactApiVersionScenario(info: ApiVersionInfo, clientVersion: string)
    requires info.version == Some(RequiredApiVersion)
    requires info.compatibleVersions == Some([])
    requires !Truthy(info.minClientVersion)
    ensures CheckApiVersion(VersionData(info), clientVersion).isValid
    ensures CheckApiVersion(VersionData(info), clientVersion).currentVersion == Some(RequiredApiVersion)
  {
  }

  // ---------------------------------------------------------------------------
  // The dropped message
  // ---------------------------------------------------------------------------

  /** As written, an incompatible API yields `isValid = false` with no
      message, so the screens report a working connection and raise no
      compatibility warning, although a message naming both versions was
      built for exactly this case. */
  lemma IncompatibleApiIsNotWarned(info: ApiVersionInfo, clientVersion: string)
    requires !ClientBelowMinimum(info, clientVersion)
    requires !ApiCompatible(ApiVersionOf(info), CompatibleVersionsOf(info))
    ensures !CheckApiVersion(VersionData(info), clientVersion).isValid
    ensures ScreenReaction(CheckApiVersion(VersionData(info), clientVersion)) == Connected(None)
  {
  }

  /** A concrete case: API version 0.9.0, no compatible list, no minimum. */
  lemma IncompatibleApiExample(clientVersion: string)
    ensures var r := CheckApiVersion(VersionData(ApiVersionInfo(Some("0.9.0"), None, None, None, None)), clientVersion);
      && !r.isValid && r.currentVersion == Some("0.9.0")
      && ScreenReaction(r) == Connected(None)
  {
    var info := ApiVersionInfo(Some("0.9.0"), None, None, None, None);
    ParseVersionOfDigitTriple('0', '9', '0');
    RequiredApiVersionTriple();
    LexLeqTriple(1, 0, 0, 0, 9, 0);
    assert !IsVersionValid("0.9.0", RequiredApiVersion);
    IncompatibleApiIsNotWarned(info, clientVersion);
  }

  /** With the message returned, every refusal that comes with API data
      reaches the user as a compatibility warning. */
  lemma IntendedCheckAlwaysWarns(response: VersionResponse, clientVersion: string)
    requires response.VersionData?
    requires !CheckApiVersionIntended(response, clientVersion).isValid
    ensures ScreenReaction(CheckApiVersionIntended(response, clientVersion)).warning.Some?
  {
  }

  /** The effective client version the check compares is the simulated one
      while simulation is enabled: raising the simulated version above the
      API's minimum is what lets a too-old build through. */
  lemma SimulatedVersionDecides(svc: Simulation.Service, build: Build.BuildConfig, info: ApiVersionInfo)
    requires svc.enabled && Truthy(info.minClientVersion)
    ensures CheckApiVersion(VersionData(info), Simulation.GetAppVersion(svc, build)).isValid
            ==> IsVersionValid(svc.appVersion, info.minClientVersion.value)
  {
  }
}
