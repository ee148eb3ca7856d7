/** Configuration resolution: `KotlinBindingGenerator::new_config`.

    The document shape is chosen first (`[bindings.kotlin]` if present, else
    the document root), the chosen table is deserialised by `decode` (serde's
    `try_into`, a parameter here), and the generator's `force_multiplatform`
    flag is applied last. */
module Resolver {
  import opened Wrappers
  import opened Toml
  import opened KotlinConfig

  /** `KotlinBindingGenerator`: the only generator-wide setting is the
      command-line override. */
  datatype Generator = Generator(forceMultiplatform: bool)

  /** `KotlinBindingGenerator::new()` / `default()`. */
  function NewGenerator(): (g: Generator)
    ensures !g.forceMultiplatform
  {
    Generator(false)
  }

  /** `with_multiplatform(enabled)`. */
  function WithMultiplatform(g: Generator, enabled: bool): (r: Generator)
    ensures r.forceMultiplatform == enabled
  {
    g.(forceMultiplatform := enabled)
  }

  /** The nested lookup: the `kotlin` entry of the root's `bindings` entry,
      present only when both are tables holding those keys. */
  function NestedTable(root: Value): (r: Option<Value>)
    ensures r.Some? <==> root.Table? && "bindings" in root.entries && root.entries["bindings"].Table?
                         && "kotlin" in root.entries["bindings"].entries
    ensures r.Some? ==> r.value == root.entries["bindings"].entries["kotlin"]
  {
    match Get(root, "bindings")
    case None => None
    case Some(b) => Get(b, "kotlin")
  }

  /** The configuration source: the `bindings.kotlin` entry when the root has
      one, the root itself otherwise. */
  function SelectKotlinTable(root: Value): (sub: Value)
    ensures root.Table? && "bindings" in root.entries && root.entries["bindings"].Table?
            && "kotlin" in root.entries["bindings"].entries
            ==> sub == root.entries["bindings"].entries["kotlin"]
    ensures !(root.Table? && "bindings" in root.entries && root.entries["bindings"].Table?
              && "kotlin" in root.entries["bindings"].entries)
            ==> sub == root
  {
    NestedTable(root).UnwrapOr(root)
  }

  /** The `force_multiplatform` override applied to a deserialised config. */
  function ApplyOverride(g: Generator, c: Config): (r: Config)
    ensures !g.forceMultiplatform ==> r == c
    ensures g.forceMultiplatform ==> r.kotlinMultiplatform
    ensures g.forceMultiplatform && |c.kotlinTargets| == 0 ==> r.kotlinTargets == [Jvm, Android, Native]
    ensures |c.kotlinTargets| > 0 ==> r.kotlinTargets == c.kotlinTargets
    ensures r.packageName == c.packageName && r.cdylibName == c.cdylibName
    ensures r.externalPackages == c.externalPackages
  {
    if g.forceMultiplatform then
      var forced := c.(kotlinMultiplatform := true);
      if |forced.kotlinTargets| == 0 then forced.(kotlinTargets := DefaultTargets) else forced
    else
      c
  }

  /** `new_config`: shape selection, deserialisation, override. A
      deserialisation error is returned unchanged and nothing is overridden. */
  function NewConfig<E>(g: Generator, root: Value, decode: Value -> Result<Config, E>): (r: Result<Config, E>)
    ensures decode(SelectKotlinTable(root)).Err? ==> r == decode(SelectKotlinTable(root))
    ensures r.Ok? <==> decode(SelectKotlinTable(root)).Ok?
    ensures r.Ok? ==> r.value == ApplyOverride(g, decode(SelectKotlinTable(root)).value)
  {
    var config :- decode(SelectKotlinTable(root));
    Ok(ApplyOverride(g, config))
  }

  /** The nested-shape document holding `sub` under `[bindings.kotlin]`. */
  function Nest(sub: Value): Value
  {
    Singleton("bindings", Singleton("kotlin", sub))
  }

  /** Shape precedence: once `bindings.kotlin` exists, the root-level keys are
      ignored — two documents with the same nested table resolve identically,
      whatever else they hold. */
  lemma ShapePrecedence<E>(g: Generator, root1: Value, root2: Value, decode: Value -> Result<Config, E>)
    requires NestedTable(root1).Some? && NestedTable(root1) == NestedTable(root2)
    ensures NewConfig(g, root1, decode) == NewConfig(g, root2, decode)
  {
  }

  /** The two shapes agree: a flat document resolves exactly like the same
      table placed under `[bindings.kotlin]`. */
  lemma FlatMatchesNested<E>(g: Generator, root: Value, decode: Value -> Result<Config, E>)
    requires NestedTable(root).None?
    ensures NewConfig(g, root, decode) == NewConfig(g, Nest(root), decode)
  {
  }

  /** Without the override, resolution is plain deserialisation. */
  lemma NoOverrideIsDecode<E>(root: Value, decode: Value -> Result<Config, E>)
    ensures NewConfig(Generator(false), root, decode) == decode(SelectKotlinTable(root))
  {
  }

  /** With the override, a successful resolution is always multiplatform and
      always has at least one target; every target the document named is kept,
      in place. */
  lemma ForcedIsMultiplatform<E>(root: Value, decode: Value -> Result<Config, E>)
    requires NewConfig(Generator(true), root, decode).Ok?
    ensures var c := NewConfig(Generator(true), root, decode).value;
      && c.kotlinMultiplatform
      && |c.kotlinTargets| > 0
      && var d := decode(SelectKotlinTable(root)).value;
         forall i :: 0 <= i < |d.kotlinTargets| ==> c.kotlinTargets[i] == d.kotlinTargets[i]
  {
  }

  /** Applying the override a second time changes nothing. */
  lemma OverrideIdempotent(g: Generator, c: Config)
    ensures ApplyOverride(g, ApplyOverride(g, c)) == ApplyOverride(g, c)
  {
  }

  /** The default target list holds each of the three targets exactly once. */
  lemma DefaultTargetsEachOnce(t: Target)
    ensures multiset(DefaultTargets)[t] == 1
  {
  }

  // ---------------------------------------------------------------------------
  // The unit tests of lib.rs, replayed with the reference decoder.
  // ---------------------------------------------------------------------------

  const TestPackage: string := "com.example.test"

  lemma NestedFormatTest()
    ensures var doc := Nest(Table(map["package_name" := String(TestPackage), "kotlin_multiplatform" := Boolean(true)]));
      var r := NewConfig(NewGenerator(), doc, Decode);
      r.Ok? && r.value.packageName == Some(TestPackage) && r.value.kotlinMultiplatform
  {
  }

  lemma FlatFormatTest()
    ensures var doc := Table(map["package_name" := String(TestPackage), "kotlin_multiplatform" := Boolean(true)]);
      var r := NewConfig(NewGenerator(), doc, Decode);
      r.Ok? && r.value.packageName == Some(TestPackage) && r.value.kotlinMultiplatform
  {
  }

  lemma FlagOverridesConfigTest()
    ensures var doc := Nest(Table(map["package_name" := String(TestPackage), "kotlin_multiplatform" := Boolean(false)]));
      var r := NewConfig(WithMultiplatform(NewGenerator(), true), doc, Decode);
      r.Ok? && r.value.kotlinMultiplatform && |r.value.kotlinTargets| == 3
  {
  }

  lemma TargetDefaultsTest()
    ensures var doc := Nest(Table(map["package_name" := String(TestPackage)]));
      var r := NewConfig(WithMultiplatform(NewGenerator(), true), doc, Decode);
      && r.Ok? && r.value.kotlinMultiplatform && |r.value.kotlinTargets| == 3
      && Jvm in r.value.kotlinTargets && Android in r.value.kotlinTargets && Native in r.value.kotlinTargets
  {
  }

  lemma ExplicitTargetsPreservedTest()
    ensures var doc := Nest(Table(map["package_name" := String(TestPackage), "kotlin_targets" := Array([String("jvm")])]));
      var r := NewConfig(WithMultiplatform(NewGenerator(), true), doc, Decode);
      r.Ok? && r.value.kotlinTargets == [Jvm]
  {
  }
}
