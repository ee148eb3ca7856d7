/** Cross-component linking: `KotlinBindingGenerator::update_component_configs`.

    Three passes over the build: fill in missing package and cdylib names,
    collect the crate name -> package map, then give every component an
    `external_packages` entry for every other crate it does not already map.
    The third pass iterates a `HashMap`, whose order is not specified; it is
    the parameter `order` here, and `LinkOrderIndependent` shows it does not
    matter. */
module Linker {
  import opened Wrappers
  import opened KotlinConfig
  import opened Components

  /** The cdylib name a component gets when its config names none. */
  function DefaultCdylibName(settings: GenerationSettings, namespace: string): string
  {
    settings.cdylib.UnwrapOr("uniffi_" + namespace)
  }

  /** First pass, for one component: `get_or_insert_with` on `package_name`
      and `cdylib_name`. */
  function FillNames(settings: GenerationSettings, c: Component): (r: Component)
    ensures r.namespace == c.namespace && r.crateName == c.crateName
    ensures r.config.packageName.Some? && r.config.cdylibName.Some?
    ensures c.config.packageName.Some? ==> r.config.packageName == c.config.packageName
    ensures c.config.packageName.None? ==> r.config.packageName == Some("uniffi." + c.namespace)
    ensures c.config.cdylibName.Some? ==> r.config.cdylibName == c.config.cdylibName
    ensures c.config.cdylibName.None? && settings.cdylib.Some? ==> r.config.cdylibName == settings.cdylib
    ensures c.config.cdylibName.None? && settings.cdylib.None? ==> r.config.cdylibName == Some("uniffi_" + c.namespace)
    ensures r.config.(packageName := c.config.packageName, cdylibName := c.config.cdylibName) == c.config
    ensures EffectivePackage(r) == EffectivePackage(c)
  {
    var packageName := c.config.packageName.UnwrapOr(DefaultPackageName(c.namespace));
    var cdylibName := c.config.cdylibName.UnwrapOr(DefaultCdylibName(settings, c.namespace));
    c.(config := c.config.(packageName := Some(packageName), cdylibName := Some(cdylibName)))
  }

  function FillAllNames(settings: GenerationSettings, cs: seq<Component>): (r: seq<Component>)
    ensures |r| == |cs|
    ensures forall i :: 0 <= i < |cs| ==> r[i] == FillNames(settings, cs[i])
  {
    seq(|cs|, i requires 0 <= i < |cs| => FillNames(settings, cs[i]))
  }

  /** Component `i` is the last one of the build with its crate name. */
  predicate LastOfCrate(cs: seq<Component>, i: int)
    requires 0 <= i < |cs|
  {
    forall j :: i < j < |cs| ==> cs[j].crateName != cs[i].crateName
  }

  /** Second pass: `HashMap::from_iter` of (crate name, package name) pairs.
      A later pair with the same crate name overwrites an earlier one. */
  function PackageMap(cs: seq<Component>): (m: map<string, string>)
    ensures m.Keys == CrateNames(cs)
    decreases |cs|
  {
    if |cs| == 0 then map[]
    else
      var init := cs[..|cs| - 1];
      var last := cs[|cs| - 1];
      assert CrateNames(cs) == CrateNames(init) + {last.crateName} by {
        assert forall i :: 0 <= i < |init| ==> init[i] == cs[i];
      }
      PackageMap(init)[last.crateName := EffectivePackage(last)]
  }

  /** Last wins: a crate name maps to the package of the last component
      carrying it. */
  lemma {:induction false} PackageMapLastWins(cs: seq<Component>, i: int)
    requires 0 <= i < |cs| && LastOfCrate(cs, i)
    ensures cs[i].crateName in PackageMap(cs)
    ensures PackageMap(cs)[cs[i].crateName] == EffectivePackage(cs[i])
    decreases |cs|
  {
    if i < |cs| - 1 {
      var init := cs[..|cs| - 1];
      assert init[i] == cs[i];
      assert LastOfCrate(init, i) by {
        forall j | i < j < |init|
          ensures init[j].crateName != init[i].crateName
        {
          assert init[j] == cs[j];
        }
      }
      PackageMapLastWins(init, i);
      assert cs[|cs| - 1].crateName != cs[i].crateName;
    }
  }

  /** With distinct crate names, every component's crate maps to its own
      effective package. */
  lemma PackageMapOfDistinct(cs: seq<Component>, i: int)
    requires DistinctCrates(cs) && 0 <= i < |cs|
    ensures PackageMap(cs)[cs[i].crateName] == EffectivePackage(cs[i])
  {
    PackageMapLastWins(cs, i);
  }

  /** The body of the third pass for one (crate, package) pair: insert only
      for another crate, and only if the key is absent. */
  function InsertIfAbsent(ext: map<string, string>, own: string, crate: string, pkg: string): (r: map<string, string>)
    ensures forall k :: k in ext ==> k in r && r[k] == ext[k]
    ensures r.Keys == ext.Keys + (if crate == own then {} else {crate})
    ensures crate != own && crate !in ext ==> r[crate] == pkg
  {
    if crate != own && crate !in ext then ext[crate := pkg] else ext
  }

  /** The third pass for one component: `InsertIfAbsent` for every key of
      `packages`, visited in `order`. */
  function InsertEach(ext: map<string, string>, own: string, packages: map<string, string>, order: seq<string>): (r: map<string, string>)
    requires forall i :: 0 <= i < |order| ==> order[i] in packages
    ensures forall k :: k in ext ==> k in r && r[k] == ext[k]
    ensures r.Keys == ext.Keys + (Elems(order) - {own})
    decreases |order|
  {
    if |order| == 0 then ext
    else InsertEach(InsertIfAbsent(ext, own, order[0], packages[order[0]]), own, packages, order[1..])
  }

  /** The elements of an iteration order. */
  function Elems(order: seq<string>): set<string>
  {
    set k | k in order
  }

  /** The order-free description of the third pass: every existing entry kept,
      plus every other crate of `crates` mapped to its package. */
  function Completed(ext: map<string, string>, own: string, packages: map<string, string>, crates: set<string>): (r: map<string, string>)
    requires crates <= packages.Keys
    ensures r.Keys == ext.Keys + (crates - {own})
  {
    map k | k in ext.Keys + (crates - {own}) :: if k in ext then ext[k] else packages[k]
  }

  /** Inserting one more crate into the completed map is completing over one
      more crate. */
  lemma CompletedStep(ext: map<string, string>, own: string, packages: map<string, string>, crate: string, crates: set<string>)
    requires crates <= packages.Keys && crate in packages
    ensures Completed(InsertIfAbsent(ext, own, crate, packages[crate]), own, packages, crates)
         == Completed(ext, own, packages, crates + {crate})
  {
  }

  /** Completing a completed map changes nothing. */
  lemma CompletedIdempotent(ext: map<string, string>, own: string, packages: map<string, string>, crates: set<string>)
    requires crates <= packages.Keys
    ensures Completed(Completed(ext, own, packages, crates), own, packages, crates) == Completed(ext, own, packages, crates)
  {
  }

  /** Whatever the visiting order, the third pass computes `Completed`. */
  lemma {:induction false} InsertEachIsCompleted(ext: map<string, string>, own: string, packages: map<string, string>, order: seq<string>)
    requires forall i :: 0 <= i < |order| ==> order[i] in packages
    ensures Elems(order) <= packages.Keys
    ensures InsertEach(ext, own, packages, order) == Completed(ext, own, packages, Elems(order))
    decreases |order|
  {
    if |order| == 0 {
      assert Completed(ext, own, packages, {}) == ext;
    } else {
      var ext' := InsertIfAbsent(ext, own, order[0], packages[order[0]]);
      InsertEachIsCompleted(ext', own, packages, order[1..]);
      assert Elems(order) == Elems(order[1..]) + {order[0]} by {
        assert forall k :: k in order[1..] ==> k in order;
        assert forall k :: k in order ==> k == order[0] || k in order[1..];
      }
      CompletedStep(ext, own, packages, order[0], Elems(order[1..]));
    }
  }

  /** Third pass for one component. */
  function LinkOne(c: Component, packages: map<string, string>, order: seq<string>): (r: Component)
    requires forall i :: 0 <= i < |order| ==> order[i] in packages
    ensures r.namespace == c.namespace && r.crateName == c.crateName
    ensures r.config.(externalPackages := c.config.externalPackages) == c.config
    ensures r.config.externalPackages == Completed(c.config.externalPackages, c.crateName, packages, Elems(order))
  {
    InsertEachIsCompleted(c.config.externalPackages, c.crateName, packages, order);
    c.(config := c.config.(externalPackages := InsertEach(c.config.externalPackages, c.crateName, packages, order)))
  }

  /** The order-free description of what linking makes of component `i`:
      names filled in, and `external_packages` completed over every crate of
      the build. */
  function Linked(settings: GenerationSettings, cs: seq<Component>, i: int): Component
    requires 0 <= i < |cs|
  {
    var named := FillNames(settings, cs[i]);
    named.(config := named.config.(externalPackages :=
      Completed(cs[i].config.externalPackages, cs[i].crateName, PackageMap(cs), CrateNames(cs))))
  }

  /** `update_component_configs`, with `order` the iteration order of the
      crate -> package map (which holds exactly the build's crate names).
      Whatever the order, every component ends up as `Linked` describes. */
  function UpdateComponentConfigs(settings: GenerationSettings, cs: seq<Component>, order: seq<string>): (r: seq<Component>)
    requires Elems(order) == CrateNames(cs)
    ensures |r| == |cs|
    ensures forall i :: 0 <= i < |cs| ==> r[i] == Linked(settings, cs, i)
  {
    var named := FillAllNames(settings, cs);
    var packages := PackageMap(named);
    assert CrateNames(named) == CrateNames(cs);
    assert packages == PackageMap(cs) by {
      PackageMapRespectsPackages(named, cs);
    }
    seq(|named|, i requires 0 <= i < |named| => LinkOne(named[i], packages, order))
  }

  /** The crate -> package map only depends on each component's crate name and
      effective package. */
  lemma {:induction false} PackageMapRespectsPackages(cs1: seq<Component>, cs2: seq<Component>)
    requires |cs1| == |cs2|
    requires forall i :: 0 <= i < |cs1| ==> cs1[i].crateName == cs2[i].crateName && EffectivePackage(cs1[i]) == EffectivePackage(cs2[i])
    ensures PackageMap(cs1) == PackageMap(cs2)
    decreases |cs1|
  {
    if |cs1| > 0 {
      PackageMapRespectsPackages(cs1[..|cs1| - 1], cs2[..|cs2| - 1]);
    }
  }

  /** Name defaults: after linking every component has a package and a cdylib
      name; a configured one is never replaced, a missing package name becomes
      `uniffi.<namespace>` and a missing cdylib name the build-wide one, else
      `uniffi_<namespace>`. */
  lemma LinkNameDefaults(settings: GenerationSettings, cs: seq<Component>, order: seq<string>, i: int)
    requires Elems(order) == CrateNames(cs) && 0 <= i < |cs|
    ensures var c := UpdateComponentConfigs(settings, cs, order)[i].config;
      && c.packageName.Some? && c.cdylibName.Some?
      && (cs[i].config.packageName.Some? ==> c.packageName == cs[i].config.packageName)
      && (cs[i].config.packageName.None? ==> c.packageName == Some("uniffi." + cs[i].namespace))
      && (cs[i].config.cdylibName.Some? ==> c.cdylibName == cs[i].config.cdylibName)
      && (cs[i].config.cdylibName.None? && settings.cdylib.Some? ==> c.cdylibName == settings.cdylib)
      && (cs[i].config.cdylibName.None? && settings.cdylib.None? ==> c.cdylibName == Some("uniffi_" + cs[i].namespace))
  {
  }

  /** The effective package a component reports is the same before and after
      linking. */
  lemma LinkKeepsEffectivePackage(settings: GenerationSettings, cs: seq<Component>, order: seq<string>, i: int)
    requires Elems(order) == CrateNames(cs) && 0 <= i < |cs|
    ensures EffectivePackage(UpdateComponentConfigs(settings, cs, order)[i]) == EffectivePackage(cs[i])
  {
  }

  /** External packages only grow: every entry present before linking is
      there afterwards with the same value (an explicit mapping is never
      overwritten), and every new key is the crate of another component. */
  lemma LinkExternalPackagesGrow(settings: GenerationSettings, cs: seq<Component>, order: seq<string>, i: int)
    requires Elems(order) == CrateNames(cs) && 0 <= i < |cs|
    ensures var before := cs[i].config.externalPackages;
      var after := UpdateComponentConfigs(settings, cs, order)[i].config.externalPackages;
      && (forall k :: k in before ==> k in after && after[k] == before[k])
      && (forall k :: k in after && k !in before ==> k in CrateNames(cs) && k != cs[i].crateName)
  {
  }

  /** Linking completeness: every other crate of the build gets a key, and a
      key that was absent maps to the package of the last component with that
      crate name; the component's own crate is never inserted. */
  lemma LinkComplete(settings: GenerationSettings, cs: seq<Component>, order: seq<string>, i: int, j: int)
    requires Elems(order) == CrateNames(cs) && 0 <= i < |cs| && 0 <= j < |cs|
    ensures var before := cs[i].config.externalPackages;
      var after := UpdateComponentConfigs(settings, cs, order)[i].config.externalPackages;
      && (cs[j].crateName != cs[i].crateName ==> cs[j].crateName in after)
      && (cs[j].crateName != cs[i].crateName && cs[j].crateName !in before && LastOfCrate(cs, j) ==>
            after[cs[j].crateName] == EffectivePackage(cs[j]))
      && (cs[i].crateName in after <==> cs[i].crateName in before)
  {
    if LastOfCrate(cs, j) {
      PackageMapLastWins(cs, j);
    }
  }

  /** With distinct crate names, an inserted value is exactly the package name
      the other component ends up with. */
  lemma LinkInsertsResolvedPackage(settings: GenerationSettings, cs: seq<Component>, order: seq<string>, i: int, j: int)
    requires Elems(order) == CrateNames(cs) && DistinctCrates(cs)
    requires 0 <= i < |cs| && 0 <= j < |cs| && i != j
    requires cs[j].crateName !in cs[i].config.externalPackages
    ensures var r := UpdateComponentConfigs(settings, cs, order);
      r[i].config.externalPackages[cs[j].crateName] == r[j].config.packageName.value
  {
    PackageMapOfDistinct(cs, j);
  }

  /** The result does not depend on the order the crate -> package map is
      iterated in. */
  lemma LinkOrderIndependent(settings: GenerationSettings, cs: seq<Component>, order1: seq<string>, order2: seq<string>)
    requires Elems(order1) == CrateNames(cs) && Elems(order2) == CrateNames(cs)
    ensures UpdateComponentConfigs(settings, cs, order1) == UpdateComponentConfigs(settings, cs, order2)
  {
    var r1 := UpdateComponentConfigs(settings, cs, order1);
    var r2 := UpdateComponentConfigs(settings, cs, order2);
    forall i | 0 <= i < |cs|
      ensures r1[i] == r2[i]
    {
      assert r1[i].config == r2[i].config;
    }
  }

  /** A build of distinct crates has as many crate names as components. */
  lemma {:induction false} DistinctCrateCount(cs: seq<Component>)
    requires DistinctCrates(cs)
    ensures |CrateNames(cs)| == |cs|
    decreases |cs|
  {
    if |cs| > 0 {
      var init := cs[..|cs| - 1];
      assert DistinctCrates(init) by {
        forall i, j | 0 <= i < |init| && 0 <= j < |init| && i != j
          ensures init[i].crateName != init[j].crateName
        {
          assert init[i] == cs[i] && init[j] == cs[j];
        }
      }
      DistinctCrateCount(init);
      assert CrateNames(cs) == CrateNames(init) + {cs[|cs| - 1].crateName} by {
        assert forall i :: 0 <= i < |init| ==> init[i] == cs[i];
      }
      assert cs[|cs| - 1].crateName !in CrateNames(init) by {
        forall i | 0 <= i < |init|
          ensures init[i].crateName != cs[|cs| - 1].crateName
        {
          assert init[i] == cs[i];
        }
      }
    }
  }

  /** Linking N components with distinct crates and no explicit mappings
      leaves each with exactly N - 1 external packages. */
  lemma LinkExactCount(settings: GenerationSettings, cs: seq<Component>, order: seq<string>, i: int)
    requires Elems(order) == CrateNames(cs) && DistinctCrates(cs) && 0 <= i < |cs|
    requires forall j :: 0 <= j < |cs| ==> cs[j].config.externalPackages == map[]
    ensures |UpdateComponentConfigs(settings, cs, order)[i].config.externalPackages| == |cs| - 1
  {
    var after := UpdateComponentConfigs(settings, cs, order)[i].config.externalPackages;
    assert after.Keys == CrateNames(cs) - {cs[i].crateName};
    DistinctCrateCount(cs);
  }

  /** A linked component is a fixed point of `Linked` once the crate names and
      the crate -> package map are those of the original build. */
  lemma LinkedIsFixedPoint(settings: GenerationSettings, cs: seq<Component>, r: seq<Component>, i: int)
    requires |r| == |cs| && 0 <= i < |cs| && r[i] == Linked(settings, cs, i)
    requires CrateNames(r) == CrateNames(cs) && PackageMap(r) == PackageMap(cs)
    ensures Linked(settings, r, i) == r[i]
  {
    var own := cs[i].crateName;
    var ext := r[i].config.externalPackages;
    CompletedIdempotent(cs[i].config.externalPackages, own, PackageMap(cs), CrateNames(cs));
    assert Completed(ext, own, PackageMap(r), CrateNames(r)) == ext;
    var named := FillNames(settings, r[i]);
    assert named == r[i];
  }

  /** Linking an already linked build changes nothing. */
  lemma LinkIdempotent(settings: GenerationSettings, cs: seq<Component>, order: seq<string>)
    requires Elems(order) == CrateNames(cs)
    ensures var r := UpdateComponentConfigs(settings, cs, order);
      CrateNames(r) == CrateNames(cs) && UpdateComponentConfigs(settings, r, order) == r
  {
    var r := UpdateComponentConfigs(settings, cs, order);
    assert forall i :: 0 <= i < |cs| ==> r[i].crateName == cs[i].crateName && EffectivePackage(r[i]) == EffectivePackage(cs[i]);
    assert CrateNames(r) == CrateNames(cs);
    PackageMapRespectsPackages(r, cs);
    var r2 := UpdateComponentConfigs(settings, r, order);
    forall i | 0 <= i < |cs|
      ensures r2[i] == r[i]
    {
      LinkedIsFixedPoint(settings, cs, r, i);
    }
  }
}
