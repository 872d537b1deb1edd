/** The persistent key-value store (utils/Storage.ts): a flat map from string
    keys to string values. A read that fails is indistinguishable from an
    absent key; a write always lands (failed writes are not modelled). */
module Storage {
  import opened Wrappers

  type Store = map<string, string>

  const ApiEndpoint := "api_endpoint"
  const SimulationEnabled := "simulation_enabled"
  const SimulatedAppVersion := "simulated_app_version"
  const SimulatedBuildDate := "simulated_build_date"
  const SimulationInstallCount := "simulation_install_count"

  /** `Storage.getItem(key)`: the stored value, or `null` (`None`). */
  function GetItem(store: Store, key: string): (r: Option<string>)
    ensures r.Some? <==> key in store
    ensures r.Some? ==> r.value == store[key]
  {
    if key in store then Some(store[key]) else None
  }

  /** `Storage.setItem(key, value)`: a read of `key` now yields `value`, and
      every other key reads as before. */
  function SetItem(store: Store, key: string, value: string): (r: Store)
    ensures GetItem(r, key) == Some(value)
    ensures forall k :: k != key ==> GetItem(r, k) == GetItem(store, k)
  {
    store[key := value]
  }

  /** Every key outside `keys` reads the same in `after` as in `before`. */
  ghost predicate OnlyChanged(before: Store, after: Store, keys: set<string>) {
    forall k :: k !in keys ==> GetItem(after, k) == GetItem(before, k)
  }
}
