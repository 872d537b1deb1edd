/** The records the services exchange with the remote API and the screens
    (types/index.ts), plus the build metadata both services read.

    JSON fields that the code reads defensively, or whose absence changes
    what the code does, are `Option`s: `None` is a missing (or `null`) field. */
module Types {
  import opened Wrappers

  /** The result of an update check handed to the screens. */
  datatype UpdateInfo = UpdateInfo(
    needsUpdate: bool,
    isCompatible: bool,
    forceUpdate: bool,
    latestVersion: string,
    currentVersion: string,
    downloadUrl: Option<string>,
    releaseNotes: Option<string>)

  /** The payload of `Sistema/GetAppVersion/{platform}`. A missing
      `actualizacionForzada` behaves as `false` under `||`, so it is a plain
      boolean here. */
  datatype AppVersionInfo = AppVersionInfo(
    versionActual: Option<string>,
    versionMinima: Option<string>,
    urlDescarga: Option<string>,
    notasVersion: Option<string>,
    actualizacionForzada: bool)

  /** The payload of `/version`. */
  datatype ApiVersionInfo = ApiVersionInfo(
    version: Option<string>,
    compatibleVersions: Option<seq<string>>,
    minClientVersion: Option<string>,
    framework: Option<string>,
    title: Option<string>)
}

/** Build metadata of the installed application (`Constants.expoConfig`). */
module Build {
  import opened Wrappers
  import opened JsText

  /** `version` is `Constants.expoConfig?.version`: absent when the
      configuration or its version is missing. */
  datatype BuildConfig = BuildConfig(version: Option<string>)

  /** The version the application was really built with, falling back to
      "1.0.0" when the configuration has none (or an empty one). */
  function RealAppVersion(b: BuildConfig): (v: string)
    ensures v != ""
    ensures Truthy(b.version) ==> v == b.version.value
    ensures !Truthy(b.version) ==> v == "1.0.0"
  {
    Or(b.version, "1.0.0")
  }
}
