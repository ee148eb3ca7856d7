/** The Kotlin generator's `Config` and `ConfigKotlinTarget`, as far as the
    orchestration layer reads and writes them.

    The type itself lives in the generator's `gen_kotlin_multiplatform` module,
    which is not part of this model: the fields below are the ones the
    orchestration code touches, and `PackageName` is the assumed behaviour of
    `Config::package_name()`. */
module KotlinConfig {
  import opened Wrappers
  import opened Toml

  /** `ConfigKotlinTarget`: the Kotlin Multiplatform targets a build can select. */
  datatype Target = Jvm | Android | Native

  datatype Config = Config(
    packageName: Option<string>,            // package_name
    cdylibName: Option<string>,             // cdylib_name
    kotlinMultiplatform: bool,              // kotlin_multiplatform
    kotlinTargets: seq<Target>,             // kotlin_targets
    externalPackages: map<string, string>   // external_packages: crate name -> Kotlin package
  )

  /** The target list the multiplatform override fills in when none was given. */
  const DefaultTargets: seq<Target> := [Jvm, Android, Native]

  /** The package a component's bindings get when none is configured. */
  function DefaultPackageName(namespace: string): string
  {
    "uniffi." + namespace
  }

  /** `Config::package_name()` (assumed): the explicit package name, else the
      namespace-derived default. */
  function PackageName(c: Config, namespace: string): (r: string)
    ensures c.packageName.Some? ==> r == c.packageName.value
    ensures c.packageName.None? ==> r == "uniffi." + namespace
  {
    c.packageName.UnwrapOr(DefaultPackageName(namespace))
  }

  // ---------------------------------------------------------------------------
  // A reference decoder for the `try_into` step. The real one is derived by serde
  // from the unseen `Config` type; this one reads the five fields above with
  // serde's usual defaults (absent option -> None, absent flag -> false, absent
  // list or table -> empty) and ignores every other key.
  // ---------------------------------------------------------------------------

  datatype DecodeError =
    | NotATable
    | InvalidType(key: string)
    | UnknownVariant(key: string, name: string)

  /** The TOML spelling of a target in `kotlin_targets`. */
  function TargetName(t: Target): string
  {
    match t
    case Jvm => "jvm"
    case Android => "android"
    case Native => "native"
  }

  function ParseTarget(name: string): (r: Option<Target>)
    ensures r.Some? ==> TargetName(r.value) == name
    ensures r.None? ==> forall t :: TargetName(t) != name
  {
    if name == "jvm" then Some(Jvm)
    else if name == "android" then Some(Android)
    else if name == "native" then Some(Native)
    else None
  }

  /** Decodes the items of the `kotlin_targets` array, failing on the first item
      that is not the name of a target. */
  function DecodeTargets(items: seq<Value>): (r: Result<seq<Target>, DecodeError>)
    ensures r.Ok? <==> forall i :: 0 <= i < |items| ==> items[i].String? && ParseTarget(items[i].str).Some?
    ensures r.Ok? ==> |r.value| == |items|
    ensures r.Ok? ==> forall i :: 0 <= i < |items| ==> items[i] == String(TargetName(r.value[i]))
    decreases |items|
  {
    if |items| == 0 then Ok([])
    else if !items[0].String? then Err(InvalidType("kotlin_targets"))
    else
      match ParseTarget(items[0].str)
      case None => Err(UnknownVariant("kotlin_targets", items[0].str))
      case Some(t) =>
        var rest :- DecodeTargets(items[1..]);
        Ok([t] + rest)
  }

  function DecodeOptionalString(t: map<string, Value>, key: string): Result<Option<string>, DecodeError>
  {
    if key !in t then Ok(None)
    else if t[key].String? then Ok(Some(t[key].str))
    else Err(InvalidType(key))
  }

  function DecodeFlag(t: map<string, Value>, key: string): Result<bool, DecodeError>
  {
    if key !in t then Ok(false)
    else if t[key].Boolean? then Ok(t[key].flag)
    else Err(InvalidType(key))
  }

  function DecodeTargetList(t: map<string, Value>, key: string): Result<seq<Target>, DecodeError>
  {
    if key !in t then Ok([])
    else if t[key].Array? then DecodeTargets(t[key].items)
    else Err(InvalidType(key))
  }

  function DecodeStringMap(t: map<string, Value>, key: string): Result<map<string, string>, DecodeError>
  {
    if key !in t then Ok(map[])
    else if !t[key].Table? then Err(InvalidType(key))
    else
      var m := t[key].entries;
      if forall k :: k in m ==> m[k].String? then Ok(map k | k in m :: m[k].str)
      else Err(InvalidType(key))
  }

  /** The keys the decoder reads; every other key of the table is ignored. */
  const RecognizedKeys: set<string> :=
    {"package_name", "cdylib_name", "kotlin_multiplatform", "kotlin_targets", "external_packages"}

  function Decode(v: Value): Result<Config, DecodeError>
  {
    if !v.Table? then Err(NotATable)
    else
      var t := v.entries;
      var packageName :- DecodeOptionalString(t, "package_name");
      var cdylibName :- DecodeOptionalString(t, "cdylib_name");
      var multiplatform :- DecodeFlag(t, "kotlin_multiplatform");
      var targets :- DecodeTargetList(t, "kotlin_targets");
      var external :- DecodeStringMap(t, "external_packages");
      Ok(Config(packageName, cdylibName, multiplatform, targets, external))
  }

  function EncodeTargets(ts: seq<Target>): seq<Value>
  {
    seq(|ts|, i requires 0 <= i < |ts| => String(TargetName(ts[i])))
  }

  /** The TOML table a configuration is written as: the inverse of `Decode`. */
  function Encode(c: Config): Value
  {
    var base := map[
      "kotlin_multiplatform" := Boolean(c.kotlinMultiplatform),
      "kotlin_targets" := Array(EncodeTargets(c.kotlinTargets)),
      "external_packages" := Table(map k | k in c.externalPackages :: String(c.externalPackages[k]))
    ];
    var withPackage := if c.packageName.Some? then base["package_name" := String(c.packageName.value)] else base;
    var withCdylib := if c.cdylibName.Some? then withPackage["cdylib_name" := String(c.cdylibName.value)] else withPackage;
    Table(withCdylib)
  }

  lemma {:induction false} DecodeTargetsOfNames(ts: seq<Target>)
    ensures DecodeTargets(EncodeTargets(ts)) == Ok(ts)
    decreases |ts|
  {
    if |ts| > 0 {
      assert EncodeTargets(ts)[1..] == EncodeTargets(ts[1..]);
      DecodeTargetsOfNames(ts[1..]);
      assert [ts[0]] + ts[1..] == ts;
    }
  }

  /** Round trip: every configuration decodes back from its own encoding. */
  lemma DecodeEncode(c: Config)
    ensures Decode(Encode(c)) == Ok(c)
  {
    var t := Encode(c).entries;
    DecodeTargetsOfNames(c.kotlinTargets);
    assert DecodeOptionalString(t, "package_name") == Ok(c.packageName);
    assert DecodeOptionalString(t, "cdylib_name") == Ok(c.cdylibName);
    assert DecodeFlag(t, "kotlin_multiplatform") == Ok(c.kotlinMultiplatform);
    assert DecodeTargetList(t, "kotlin_targets") == Ok(c.kotlinTargets);
    var ext := t["external_packages"].entries;
    assert forall k :: k in ext ==> ext[k].String?;
    assert (map k | k in ext :: ext[k].str) == c.externalPackages;
    assert DecodeStringMap(t, "external_packages") == Ok(c.externalPackages);
  }

  /** Keys the decoder does not recognise never change its result (forward
      compatibility). */
  lemma DecodeIgnoresUnknownKeys(t: map<string, Value>, key: string, extra: Value)
    requires key !in RecognizedKeys
    ensures Decode(Table(t[key := extra])) == Decode(Table(t))
  {
  }

  /** A decoded configuration, wherever it succeeds, agrees with each recognised
      key of the table it came from, and every absent key gives serde's default
      (`None`, `false`, an empty list, an empty map). */
  lemma DecodeReadsKeys(t: map<string, Value>)
    requires Decode(Table(t)).Ok?
    ensures var c := Decode(Table(t)).value;
      && (c.packageName.Some? <==> "package_name" in t)
      && (c.packageName.Some? ==> t["package_name"] == String(c.packageName.value))
      && (c.cdylibName.Some? <==> "cdylib_name" in t)
      && (c.cdylibName.Some? ==> t["cdylib_name"] == String(c.cdylibName.value))
      && ("kotlin_multiplatform" in t ==> t["kotlin_multiplatform"] == Boolean(c.kotlinMultiplatform))
      && ("kotlin_multiplatform" !in t ==> !c.kotlinMultiplatform)
      && ("kotlin_targets" !in t ==> c.kotlinTargets == [])
      && ("kotlin_targets" in t ==> t["kotlin_targets"] == Array(EncodeTargets(c.kotlinTargets)))
      && ("external_packages" !in t ==> c.externalPackages == map[])
      && ("external_packages" in t ==> t["external_packages"].Table?)
      && ("external_packages" in t ==> c.externalPackages.Keys == t["external_packages"].entries.Keys)
      && ("external_packages" in t ==> forall k :: k in c.externalPackages ==> t["external_packages"].entries[k] == String(c.externalPackages[k]))
  {
    if "kotlin_targets" in t {
      var items := t["kotlin_targets"].items;
      var ts := Decode(Table(t)).value.kotlinTargets;
      assert DecodeTargets(items) == Ok(ts);
      assert items == EncodeTargets(ts);
    }
  }
}
