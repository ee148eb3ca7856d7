# gobley-uniffi-bindgen orchestration, modelled in Dafny

This project models the orchestration layer of gobley's Kotlin (Multiplatform)
binding generator, `KotlinBindingGenerator` in
`crates/gobley-uniffi-bindgen/src/lib.rs`. It takes the generator from a raw
TOML configuration to a list of file writes. Four steps are modelled:

- **Configuration resolution** (`new_config`). The `[bindings.kotlin]` table
  is used if the document has one, otherwise the document root. That table is
  deserialised into a `Config`. The `force_multiplatform` override comes last:
  it forces `kotlin_multiplatform` on and, if no targets were given, fills in
  `[Jvm, Android, Native]`.
- **Cross-component linking** (`update_component_configs`). Missing
  `package_name` and `cdylib_name` values are filled in. A crate name →
  package map is built over the whole build. Each component then gets an
  `external_packages` entry for every other crate, but only where that key is
  still missing.
- **Emission dispatch** (`write_bindings`). The external `generate_bindings`
  returns a bundle of variant texts. Each present text becomes a file write,
  in a fixed order. The C header goes to its own tree.
- **Destination paths** (`write_bindings_target`, `write_cinterop`). These are
  pure functions from the output directory, the mode, the package, the
  namespace and the variant to a path.

Files and modules:

| file | module | models |
|---|---|---|
| `wrappers.dfy` | `Wrappers` | `Option`, `Result` |
| `toml.dfy` | `Toml` | the TOML value tree and `Value::get` |
| `config.dfy` | `KotlinConfig` | `Config`, `ConfigKotlinTarget`, `Config::package_name()`, a reference decoder |
| `resolver.dfy` | `Resolver` | `KotlinBindingGenerator`, `new_config`, the unit tests |
| `paths.dfy` | `Paths` | `split('.')`, source and header destination paths |
| `components.dfy` | `Components` | `Component`, `GenerationSettings` |
| `linker.dfy` | `Linker` | `update_component_configs` |
| `dispatch.dfy` | `Dispatch` | `write_bindings`, its per-component dispatch and its loop over components |

Modelling choices:

- **Deserialisation is a parameter.** `NewConfig` takes `decode` as a
  parameter standing for serde's `try_into`. Any error it returns is passed
  back unchanged.
- **A reference decoder replays the unit tests.** `KotlinConfig.Decode` is an
  assumption about the `Config` type, which is not part of this model. It
  reads the five fields with serde's usual defaults and ignores unknown keys.
- **`Config::package_name()` is assumed.** It is taken to return the explicit
  name, or else `"uniffi." + namespace`. This matches the default that
  lib.rs:76 inserts.
- **HashMap iteration order is a parameter.** The order of lib.rs:91 is the
  `order` argument of `UpdateComponentConfigs`. `LinkOrderIndependent` proves
  that the result does not depend on it.
- **Duplicate crate names: last wins.** `HashMap::from_iter` keeps the last
  pair for a repeated crate name, and `PackageMap` does the same.
- **`generate_bindings` is a parameter.** It is the `generate` argument of
  `WriteBindings`. Writes become values of type `Write`, each a path plus its
  content.

Behaviour that follows the code as written:

- **Targets are not deduplicated.** `kotlin_targets` is a plain list. The override (lib.rs:56) only tests whether it is empty, so an explicit list keeps its order and any repeated entries. `Resolver.ForcedIsMultiplatform` states that every listed target stays in place.
- **A `bindings` table without `kotlin` falls back to the root.** `get("bindings").and_then(get("kotlin"))` is `None` in that case, so the root document is used.
- **A non-table `kotlin` entry is still selected.** If `bindings.kotlin` exists but is not a table, it is still the configuration source, and any failure comes from deserialisation.

## Model

| member | source | states |
|---|---|---|
| Resolver.NewGenerator | crates/gobley-uniffi-bindgen/src/lib.rs:21-32 | a new generator does not force multiplatform mode |
| Resolver.WithMultiplatform | crates/gobley-uniffi-bindgen/src/lib.rs:34-37 | the builder sets the override flag to the given value |
| Toml.Get | crates/gobley-uniffi-bindgen/src/lib.rs:46-47 | a lookup finds an entry exactly when the value is a table holding the key, and returns that entry |
| Resolver.NestedTable | crates/gobley-uniffi-bindgen/src/lib.rs:45-47 | the nested lookup succeeds exactly when the root is a table whose `bindings` entry is a table holding `kotlin`, and returns that entry |
| Resolver.SelectKotlinTable | crates/gobley-uniffi-bindgen/src/lib.rs:44-48 | the configuration source is the `bindings.kotlin` entry when the root is a table with a `bindings` table that holds `kotlin`; otherwise it is the root itself, including when `bindings` exists but has no `kotlin` |
| Resolver.ApplyOverride | crates/gobley-uniffi-bindgen/src/lib.rs:52-63 | without the flag the config is unchanged; with it, `kotlin_multiplatform` is true and an empty target list becomes `[Jvm, Android, Native]`; a non-empty list is always kept; package, cdylib and external packages are untouched |
| Resolver.NewConfig | crates/gobley-uniffi-bindgen/src/lib.rs:43-66 | resolution succeeds exactly when decoding the selected table succeeds; a decoding error is returned unchanged; on success the result is the override applied to the decoded config |
| Resolver.ShapePrecedence | crates/gobley-uniffi-bindgen/src/lib.rs:45-48 | two documents with the same `bindings.kotlin` table resolve identically, whatever their root-level keys |
| Resolver.FlatMatchesNested | crates/gobley-uniffi-bindgen/src/lib.rs:44-48 | a flat document resolves exactly like the same table placed under `[bindings.kotlin]` |
| Resolver.NoOverrideIsDecode | crates/gobley-uniffi-bindgen/src/lib.rs:50-53 | without the override, resolution is plain deserialisation of the selected table |
| Resolver.ForcedIsMultiplatform | crates/gobley-uniffi-bindgen/src/lib.rs:53-62 | with the override, any successful result is multiplatform with at least one target, and keeps every target the document named in its original position |
| Resolver.OverrideIdempotent | crates/gobley-uniffi-bindgen/src/lib.rs:53-63 | applying the override twice equals applying it once |
| Resolver.DefaultTargetsEachOnce | crates/gobley-uniffi-bindgen/src/lib.rs:57-61 | the default target list holds each of the three targets exactly once |
| Resolver.NestedFormatTest | crates/gobley-uniffi-bindgen/src/lib.rs:187-200 | a nested document yields its package name and multiplatform flag |
| Resolver.FlatFormatTest | crates/gobley-uniffi-bindgen/src/lib.rs:202-214 | a flat document yields its package name and multiplatform flag |
| Resolver.FlagOverridesConfigTest | crates/gobley-uniffi-bindgen/src/lib.rs:216-231 | the override wins over `kotlin_multiplatform = false` and supplies three targets |
| Resolver.TargetDefaultsTest | crates/gobley-uniffi-bindgen/src/lib.rs:233-249 | the override with no targets yields Jvm, Android and Native |
| Resolver.ExplicitTargetsPreservedTest | crates/gobley-uniffi-bindgen/src/lib.rs:251-265 | the override keeps an explicit `["jvm"]` target list exactly |
| KotlinConfig.PackageName | crates/gobley-uniffi-bindgen/src/lib.rs:76 | (assumed `Config::package_name()`) the explicit package name when set, otherwise `uniffi.<namespace>`, the same default the first pass inserts |
| KotlinConfig.ParseTarget | crates/gobley-uniffi-bindgen/src/lib.rs:257 | a recognised target name parses to the target with that name; an unrecognised one parses to nothing |
| KotlinConfig.DecodeTargets | crates/gobley-uniffi-bindgen/src/lib.rs:50 | reference decoder (assumed): a target list decodes exactly when every item is a string that names a target, and then every item is that target's name |
| KotlinConfig.DecodeEncode | crates/gobley-uniffi-bindgen/src/lib.rs:50 | reference decoder (assumed): every config decodes back from its own TOML encoding |
| KotlinConfig.DecodeIgnoresUnknownKeys | crates/gobley-uniffi-bindgen/src/lib.rs:50 | reference decoder (assumed): adding an unrecognised key never changes the decoding result |
| KotlinConfig.DecodeReadsKeys | crates/gobley-uniffi-bindgen/src/lib.rs:50 | reference decoder (assumed): a decoded config agrees with each recognised key of its table, and absent keys give the serde defaults: `package_name` and `cdylib_name` are present exactly when the key is, a present flag, target list or package table is read as written (targets item by item, packages key by key), and an absent flag, target list or package table gives `false`, `[]` or an empty map |
| Paths.Split | crates/gobley-uniffi-bindgen/src/lib.rs:147 | splitting the package name on `.` yields at least one piece, and no piece contains a `.` |
| Paths.JoinSplit | crates/gobley-uniffi-bindgen/src/lib.rs:147 | the pieces of the package name join back to the package name |
| Paths.SplitJoin | crates/gobley-uniffi-bindgen/src/lib.rs:147 | dot-free pieces, once joined and split again, give the same pieces |
| Paths.SourceDir | crates/gobley-uniffi-bindgen/src/lib.rs:142-153 | the destination directory is the output directory, then `<target>Main` or `main`, then `kotlin`, then one directory per `.`-separated piece of the package name, pieces that join back to the package name |
| Paths.SourcePathShape | crates/gobley-uniffi-bindgen/src/lib.rs:142-154 | the file `write_bindings_target` writes (`Paths.SourcePath`) is the output directory, then `<target>Main` or `main`, then `kotlin`, then exactly the `.`-separated pieces of the package name as directories (which join back to the package name), then `<namespace>.<target>.kt` |
| Paths.SourceFileNameInjective | crates/gobley-uniffi-bindgen/src/lib.rs:148 | a generated file name determines both the namespace and the variant |
| Paths.SourcePathInjective | crates/gobley-uniffi-bindgen/src/lib.rs:142-154 | for one output directory, a source path, taken as a list of segments, determines the mode, the package name, the namespace and the variant |
| Paths.DistinctVariantsDistinctPaths | crates/gobley-uniffi-bindgen/src/lib.rs:142-154 | for a fixed namespace, distinct variants go to distinct files |
| Paths.SingleTargetCollapse | crates/gobley-uniffi-bindgen/src/lib.rs:142-146 | outside multiplatform mode all variants share one directory under `main`, yet distinct variants still get distinct files |
| Paths.MultiplatformSeparatesSourceSets | crates/gobley-uniffi-bindgen/src/lib.rs:142-143 | in multiplatform mode distinct variants get distinct source-set directories |
| Paths.HeaderPath | crates/gobley-uniffi-bindgen/src/lib.rs:171-177 | the header is the output directory, then `nativeInterop`, `cinterop`, `headers`, `<namespace>`, then a file named `<namespace>.h` |
| Paths.HeaderPathsSeparate | crates/gobley-uniffi-bindgen/src/lib.rs:171-177 | a header path is never a source path, and it determines its namespace |
| Linker.FillNames | crates/gobley-uniffi-bindgen/src/lib.rs:73-83 | after the first pass both names are set; a configured name is never replaced; the package default is `uniffi.<namespace>`; the cdylib default is the build-wide cdylib, else `uniffi_<namespace>`; nothing else changes, and the effective package is unchanged |
| Linker.PackageMap | crates/gobley-uniffi-bindgen/src/lib.rs:85-89 | the crate → package map has exactly the build's crate names as keys |
| Linker.PackageMapLastWins | crates/gobley-uniffi-bindgen/src/lib.rs:85-89 | a crate name maps to the effective package of the last component with that crate |
| Linker.PackageMapOfDistinct | crates/gobley-uniffi-bindgen/src/lib.rs:85-89 | with distinct crate names, each crate maps to its own component's package |
| Linker.PackageMapRespectsPackages | crates/gobley-uniffi-bindgen/src/lib.rs:85-89 | the map depends only on each component's crate name and effective package |
| Linker.InsertIfAbsent | crates/gobley-uniffi-bindgen/src/lib.rs:92-98 | one step of the third pass keeps every existing entry, adds the crate as a key unless it is the component's own, and maps a newly added crate to its package |
| Linker.InsertEach | crates/gobley-uniffi-bindgen/src/lib.rs:90-99 | the third pass for one component keeps every existing entry, and its keys are the old keys plus every visited crate except the component's own |
| Linker.Completed | crates/gobley-uniffi-bindgen/src/lib.rs:90-99 | the completed map's keys are the old keys plus every given crate other than the component's own |
| Linker.InsertEachIsCompleted | crates/gobley-uniffi-bindgen/src/lib.rs:90-99 | the insert-if-absent loop, visiting keys in any order, computes the order-free completion over the keys it visits |
| Linker.LinkOne | crates/gobley-uniffi-bindgen/src/lib.rs:90-99 | the third pass on one component changes only `external_packages`, and sets it to the completion |
| Linker.UpdateComponentConfigs | crates/gobley-uniffi-bindgen/src/lib.rs:68-102 | for any iteration order of the crate map, every component ends up as the order-free `Linked` description says |
| Linker.LinkNameDefaults | crates/gobley-uniffi-bindgen/src/lib.rs:73-82 | after linking every component has both names; a configured name is never replaced; the defaults are `uniffi.<namespace>` and the build-wide cdylib, else `uniffi_<namespace>` |
| Linker.LinkKeepsEffectivePackage | crates/gobley-uniffi-bindgen/src/lib.rs:76 | a component reports the same effective package before and after linking |
| Linker.LinkExternalPackagesGrow | crates/gobley-uniffi-bindgen/src/lib.rs:90-99 | every entry present before linking keeps its value; every new key is the crate of another component in the build |
| Linker.LinkComplete | crates/gobley-uniffi-bindgen/src/lib.rs:85-99 | every other crate gets a key; a key that was absent maps to the last such component's package; the component's own crate is present afterwards only if it was present before |
| Linker.LinkInsertsResolvedPackage | crates/gobley-uniffi-bindgen/src/lib.rs:85-99 | with distinct crate names, an inserted value is the package name that the other component ends up with |
| Linker.LinkOrderIndependent | crates/gobley-uniffi-bindgen/src/lib.rs:90-99 | two iteration orders of the crate map give the same linked build |
| Linker.LinkExactCount | crates/gobley-uniffi-bindgen/src/lib.rs:85-99 | N components with distinct crates and no explicit mappings end with exactly N − 1 external packages each |
| Linker.LinkIdempotent | crates/gobley-uniffi-bindgen/src/lib.rs:73-99 | linking an already linked build changes nothing |
| Dispatch.WriteTarget | crates/gobley-uniffi-bindgen/src/lib.rs:112-125 | a call of `write_bindings_target` is a source write of the given variant carrying the given text, to the source path for the component's mode, effective package and namespace |
| Dispatch.WriteCinterop | crates/gobley-uniffi-bindgen/src/lib.rs:127-128 | a call of `write_cinterop` is a header write carrying the given text, to the component's header path, a file owned by its namespace |
| Dispatch.ComponentWrites | crates/gobley-uniffi-bindgen/src/lib.rs:112-129 | `common` is always written first; the last write is the header exactly when the bundle has one |
| Dispatch.ComponentWritesUnrolled | crates/gobley-uniffi-bindgen/src/lib.rs:112-129 | the unrolled dispatch equals a walk over `common, jvm, android, native, stub` followed by the header |
| Dispatch.SourceWritesOnlyPresent | crates/gobley-uniffi-bindgen/src/lib.rs:114-125 | the walk writes only present variants, each with its own content and path |
| Dispatch.SourceWritesComplete | crates/gobley-uniffi-bindgen/src/lib.rs:114-125 | the walk writes every present variant it visits |
| Dispatch.SourceWritesOrdered | crates/gobley-uniffi-bindgen/src/lib.rs:114-125 | the walk writes in the order it visits the variants |
| Dispatch.DispatchWritesOnlyPresent | crates/gobley-uniffi-bindgen/src/lib.rs:112-125 | `common` is first, and a source file is written only for a present variant, with that variant's content and destination |
| Dispatch.DispatchWritesEveryPresent | crates/gobley-uniffi-bindgen/src/lib.rs:112-125 | every present variant is written to its destination |
| Dispatch.DispatchOrder | crates/gobley-uniffi-bindgen/src/lib.rs:112-125 | source files are written in the order common, jvm, android, native, stub, and before any header |
| Dispatch.DispatchHeaderLast | crates/gobley-uniffi-bindgen/src/lib.rs:127-129 | a header write exists exactly when the bundle has a header; it is the last write, carries the header and goes to the cinterop path |
| Dispatch.WriteBindings | crates/gobley-uniffi-bindgen/src/lib.rs:104-132 | a run reports no error exactly when generation succeeds for every component |
| Dispatch.EachComponentWrites | crates/gobley-uniffi-bindgen/src/lib.rs:109-130 | when every component generates successfully, there is one list of writes per component, in build order, and each is that component's dispatch of its own bundle |
| Dispatch.WriteBindingsWritesEveryComponent | crates/gobley-uniffi-bindgen/src/lib.rs:109-131 | a successful run performs every component's writes, component after component in build order, and nothing else |
| Dispatch.WriteBindingsStopsAtFirstError | crates/gobley-uniffi-bindgen/src/lib.rs:109-110 | a run reports the first failing component's error and has written exactly what a run over the components before it writes |
| Dispatch.ComponentWritesOwned | crates/gobley-uniffi-bindgen/src/lib.rs:142-154 | every file a component writes is named after its namespace: `<ns>.<target>.kt` outside the header tree, or the header tree's `<ns>.h` |
| Dispatch.OwnedPathsDisjoint | crates/gobley-uniffi-bindgen/src/lib.rs:148 | files named after different namespaces are different files |
| Dispatch.ComponentWritesDistinctPaths | crates/gobley-uniffi-bindgen/src/lib.rs:112-129 | one component never writes the same file twice |
| Dispatch.WriteBindingsOwned | crates/gobley-uniffi-bindgen/src/lib.rs:109-131 | every write of a run belongs to one of the build's components |
| Dispatch.WriteBindingsDistinctPaths | crates/gobley-uniffi-bindgen/src/lib.rs:109-131 | with distinct namespaces, a whole run never writes the same file twice |

## Left out

- Filesystem effects are not performed: `create_dir_all`, `fs::write`, `File::create` and their `.unwrap()` panics (lib.rs:156-157, 176-179). They are modelled as a list of `Write` values, so I/O failures are not modelled.
- The `ktlint` subprocess and the `println!` diagnostics (lib.rs:159-166) are left out. The formatter is an external, best-effort process, and `try_format_code` only decides whether it runs.
- serde deserialisation is not modelled. `try_into` is a parameter of `NewConfig`, and its type errors are serde's behaviour. `KotlinConfig.Decode` is only a reference that replays the unit tests.
- `generate_bindings` and the `Config`/`ConfigKotlinTarget` definitions are not part of this model. `generate_bindings` is a parameter. `Config` keeps only the five fields the orchestration touches.
- Paths.SourcePathInjective: holds of paths as segment lists. On disk, package names such as `a..b` and `a.b`, `.a` and `a`, or `a/b` and `a.b` can name the same directory, because `Utf8PathBuf` drops empty components and splits on `/`.
- `Utf8PathBuf` normalisation is left out. Paths are plain segment sequences, so a package name such as `a..b` yields an empty segment here, where the real path type may behave differently.
- TOML floats and date-times are left out of `Toml.Value`, because no step inspects them.
