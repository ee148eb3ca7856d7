/** The inputs `update_component_configs` and `write_bindings` share: one
    `Component` per crate of the build and the build-wide
    `GenerationSettings`. */
module Components {
  import opened Wrappers
  import opened KotlinConfig
  import opened Paths

  /** `uniffi_bindgen::Component`: the parts of the `ComponentInterface` the
      orchestration reads (`namespace()`, `crate_name()`) and the config. */
  datatype Component = Component(namespace: string, crateName: string, config: Config)

  /** `GenerationSettings`: the output directory, the build-wide cdylib name
      if one was given, and whether to run the formatter afterwards. */
  datatype GenerationSettings = GenerationSettings(outDir: Path, cdylib: Option<string>, tryFormatCode: bool)

  /** A component's effective Kotlin package (`config.package_name()`). */
  function EffectivePackage(c: Component): string
  {
    PackageName(c.config, c.namespace)
  }

  /** The crate names of a build. */
  function CrateNames(cs: seq<Component>): set<string>
  {
    set i | 0 <= i < |cs| :: cs[i].crateName
  }

  /** No two components of the build share a crate name. */
  predicate DistinctCrates(cs: seq<Component>)
  {
    forall i, j :: 0 <= i < |cs| && 0 <= j < |cs| && i != j ==> cs[i].crateName != cs[j].crateName
  }
}
