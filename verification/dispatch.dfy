/** Emission dispatch: `KotlinBindingGenerator::write_bindings`.

    For each component the external `generate_bindings` (a parameter here)
    yields the text of every variant; the dispatcher turns the present ones
    into file writes — `common` first, then `jvm`, `android`, `native` and
    `stub` when present, and the C header, when present, last and into the
    separate cinterop tree. The writes are returned as a value instead of
    being performed. */
module Dispatch {
  import opened Wrappers
  import opened Paths
  import opened Components

  /** What `generate_bindings` returns for one component. */
  datatype Bindings = Bindings(
    common: string,
    jvm: Option<string>,
    android: Option<string>,
    native: Option<string>,
    stub: Option<string>,
    header: Option<string>)

  /** One file write: Kotlin source through `write_bindings_target`, or the
      C header through `write_cinterop`. */
  datatype Write =
    | SourceWrite(variant: Variant, path: Path, content: string)
    | HeaderWrite(path: Path, content: string)

  /** The text a bundle holds for a variant; `common` is always there. */
  function Content(b: Bindings, v: Variant): Option<string>
  {
    match v
    case Common => Some(b.common)
    case Jvm => b.jvm
    case Android => b.android
    case Native => b.native
    case Stub => b.stub
  }

  /** The position of a variant in the write order. */
  function Rank(v: Variant): nat
  {
    match v
    case Common => 0
    case Jvm => 1
    case Android => 2
    case Native => 3
    case Stub => 4
  }

  /** One call of `write_bindings_target`: the variant's text goes to the
      component's source path for that variant, a file named after the
      component's namespace. */
  function WriteTarget(settings: GenerationSettings, c: Component, v: Variant, content: string): (w: Write)
    ensures w.SourceWrite? && w.variant == v && w.content == content
    ensures w.path == SourcePath(settings.outDir, c.config.kotlinMultiplatform, EffectivePackage(c), c.namespace, v)
  {
    SourceWrite(v, SourcePath(settings.outDir, c.config.kotlinMultiplatform, EffectivePackage(c), c.namespace, v), content)
  }

  /** One call of `write_cinterop`: the header text goes to the component's
      file in the cinterop header tree. */
  function WriteCinterop(outDir: Path, c: Component, content: string): (w: Write)
    ensures w.HeaderWrite? && w.content == content
    ensures w.path == HeaderPath(outDir, c.namespace)
    ensures Owned(outDir, w, c.namespace)
  {
    HeaderWrite(HeaderPath(outDir, c.namespace), content)
  }

  /** An optional variant: one source write when the bundle holds its text,
      none otherwise. */
  function WriteIfPresent(settings: GenerationSettings, c: Component, v: Variant, content: Option<string>): seq<Write>
  {
    if content.Some? then [WriteTarget(settings, c, v, content.value)] else []
  }

  /** The writes `write_bindings` performs for one component, in order. */
  function ComponentWrites(settings: GenerationSettings, c: Component, b: Bindings): (ws: seq<Write>)
    ensures |ws| >= 1 && ws[0] == WriteTarget(settings, c, Common, b.common)
    ensures b.header.Some? <==> ws[|ws| - 1].HeaderWrite?
    ensures b.header.Some? ==> ws[|ws| - 1] == WriteCinterop(settings.outDir, c, b.header.value)
  {
    [WriteTarget(settings, c, Common, b.common)]
      + WriteIfPresent(settings, c, Jvm, b.jvm)
      + WriteIfPresent(settings, c, Android, b.android)
      + WriteIfPresent(settings, c, Native, b.native)
      + WriteIfPresent(settings, c, Stub, b.stub)
      + HeaderWrites(settings, c, b)
  }

  /** The header write, when the bundle has a header. */
  function HeaderWrites(settings: GenerationSettings, c: Component, b: Bindings): seq<Write>
  {
    if b.header.Some? then [WriteCinterop(settings.outDir, c, b.header.value)] else []
  }

  /** The source variants in the order `write_bindings` considers them. */
  const WriteOrder: seq<Variant> := [Common, Jvm, Android, Native, Stub]

  /** A reference for the source writes: the present variants of `vs`, in
      the order of `vs`. */
  function SourceWrites(settings: GenerationSettings, c: Component, b: Bindings, vs: seq<Variant>): seq<Write>
    decreases |vs|
  {
    if |vs| == 0 then []
    else WriteIfPresent(settings, c, vs[0], Content(b, vs[0])) + SourceWrites(settings, c, b, vs[1..])
  }

  /** The unrolled dispatch of `write_bindings` is the reference walk over
      `WriteOrder` followed by the header. */
  lemma ComponentWritesUnrolled(settings: GenerationSettings, c: Component, b: Bindings)
    ensures ComponentWrites(settings, c, b) == SourceWrites(settings, c, b, WriteOrder) + HeaderWrites(settings, c, b)
  {
    var common := WriteIfPresent(settings, c, Common, Content(b, Common));
    var jvm := WriteIfPresent(settings, c, Jvm, Content(b, Jvm));
    var android := WriteIfPresent(settings, c, Android, Content(b, Android));
    var native := WriteIfPresent(settings, c, Native, Content(b, Native));
    var stub := WriteIfPresent(settings, c, Stub, Content(b, Stub));
    assert common == [WriteTarget(settings, c, Common, b.common)];
    assert [Stub][1..] == [];
    assert SourceWrites(settings, c, b, [Stub]) == stub;
    assert [Native, Stub][1..] == [Stub];
    assert SourceWrites(settings, c, b, [Native, Stub]) == native + stub;
    assert [Android, Native, Stub][1..] == [Native, Stub];
    assert SourceWrites(settings, c, b, [Android, Native, Stub]) == android + (native + stub);
    assert [Jvm, Android, Native, Stub][1..] == [Android, Native, Stub];
    assert SourceWrites(settings, c, b, [Jvm, Android, Native, Stub]) == jvm + (android + (native + stub));
    assert WriteOrder[1..] == [Jvm, Android, Native, Stub];
    assert SourceWrites(settings, c, b, WriteOrder) == common + (jvm + (android + (native + stub)));
    assert common + (jvm + (android + (native + stub))) == common + jvm + android + native + stub;
  }

  /** Variants listed in strictly increasing write order. */
  predicate StrictlyOrdered(vs: seq<Variant>)
  {
    forall i, j :: 0 <= i < j < |vs| ==> Rank(vs[i]) < Rank(vs[j])
  }

  /** What the reference walk over `vs` writes: only source writes of
      present variants of `vs`, each with its own content and path. */
  predicate WritesPresentOf(settings: GenerationSettings, c: Component, b: Bindings, vs: seq<Variant>, ws: seq<Write>)
  {
    forall i :: 0 <= i < |ws| ==>
      && ws[i].SourceWrite? && ws[i].variant in vs && Content(b, ws[i].variant).Some?
      && ws[i] == WriteTarget(settings, c, ws[i].variant, Content(b, ws[i].variant).value)
  }

  /** Source writes in strictly increasing write order. */
  predicate WritesOrdered(ws: seq<Write>)
  {
    forall i, j :: 0 <= i < j < |ws| && ws[i].SourceWrite? && ws[j].SourceWrite? ==> Rank(ws[i].variant) < Rank(ws[j].variant)
  }

  /** The reference walk writes only present variants of `vs`, each with its
      own content and path. */
  lemma {:induction false} SourceWritesOnlyPresent(settings: GenerationSettings, c: Component, b: Bindings, vs: seq<Variant>)
    ensures WritesPresentOf(settings, c, b, vs, SourceWrites(settings, c, b, vs))
    decreases |vs|
  {
    if |vs| > 0 {
      var tail := vs[1..];
      var rest := SourceWrites(settings, c, b, tail);
      var head := WriteIfPresent(settings, c, vs[0], Content(b, vs[0]));
      SourceWritesOnlyPresent(settings, c, b, tail);
      var ws := head + rest;
      assert SourceWrites(settings, c, b, vs) == ws;
      forall i | 0 <= i < |ws|
        ensures ws[i].SourceWrite? && ws[i].variant in vs && Content(b, ws[i].variant).Some?
        ensures ws[i] == WriteTarget(settings, c, ws[i].variant, Content(b, ws[i].variant).value)
      {
        if i >= |head| {
          assert ws[i] == rest[i - |head|];
          assert rest[i - |head|].variant in tail;
        }
      }
    }
  }

  /** The reference walk writes every present variant of `vs`. */
  lemma {:induction false} SourceWritesComplete(settings: GenerationSettings, c: Component, b: Bindings, vs: seq<Variant>, v: Variant)
    requires v in vs && Content(b, v).Some?
    ensures WriteTarget(settings, c, v, Content(b, v).value) in SourceWrites(settings, c, b, vs)
    decreases |vs|
  {
    var head := WriteIfPresent(settings, c, vs[0], Content(b, vs[0]));
    var rest := SourceWrites(settings, c, b, vs[1..]);
    assert SourceWrites(settings, c, b, vs) == head + rest;
    if v != vs[0] {
      assert v in vs[1..];
      SourceWritesComplete(settings, c, b, vs[1..], v);
    }
  }

  /** The reference walk writes in the order of `vs`. */
  lemma {:induction false} SourceWritesOrdered(settings: GenerationSettings, c: Component, b: Bindings, vs: seq<Variant>)
    requires StrictlyOrdered(vs)
    ensures WritesOrdered(SourceWrites(settings, c, b, vs))
    decreases |vs|
  {
    if |vs| > 0 {
      var tail := vs[1..];
      var rest := SourceWrites(settings, c, b, tail);
      var head := WriteIfPresent(settings, c, vs[0], Content(b, vs[0]));
      assert StrictlyOrdered(tail) by {
        forall i, j | 0 <= i < j < |tail|
          ensures Rank(tail[i]) < Rank(tail[j])
        {
          assert tail[i] == vs[i + 1] && tail[j] == vs[j + 1];
        }
      }
      SourceWritesOrdered(settings, c, b, tail);
      SourceWritesOnlyPresent(settings, c, b, tail);
      var ws := head + rest;
      assert SourceWrites(settings, c, b, vs) == ws;
      forall j | 0 <= j < |rest|
        ensures rest[j].SourceWrite? && Rank(vs[0]) < Rank(rest[j].variant)
      {
        var k :| 0 <= k < |tail| && tail[k] == rest[j].variant;
        assert vs[k + 1] == tail[k];
      }
      forall i, j | 0 <= i < j < |ws| && ws[i].SourceWrite? && ws[j].SourceWrite?
        ensures Rank(ws[i].variant) < Rank(ws[j].variant)
      {
        if i >= |head| {
          assert ws[i] == rest[i - |head|] && ws[j] == rest[j - |head|];
        } else {
          assert ws[j] == rest[j - |head|];
        }
      }
    }
  }

  /** `common` is written first, and a source file is written only for a
      present variant, with that variant's content and path. */
  lemma DispatchWritesOnlyPresent(settings: GenerationSettings, c: Component, b: Bindings)
    ensures var ws := ComponentWrites(settings, c, b);
      && ws[0] == WriteTarget(settings, c, Common, b.common)
      && forall i :: 0 <= i < |ws| && ws[i].SourceWrite? ==>
           Content(b, ws[i].variant).Some? && ws[i] == WriteTarget(settings, c, ws[i].variant, Content(b, ws[i].variant).value)
  {
    ComponentWritesUnrolled(settings, c, b);
    SourceWritesOnlyPresent(settings, c, b, WriteOrder);
    var src := SourceWrites(settings, c, b, WriteOrder);
    var ws := ComponentWrites(settings, c, b);
    forall i | 0 <= i < |ws| && ws[i].SourceWrite?
      ensures Content(b, ws[i].variant).Some? && ws[i] == WriteTarget(settings, c, ws[i].variant, Content(b, ws[i].variant).value)
    {
      assert i < |src| && ws[i] == src[i];
    }
  }

  /** Every present variant — `common` always, `jvm`, `android`, `native`,
      `stub` when the bundle has them — is written. */
  lemma DispatchWritesEveryPresent(settings: GenerationSettings, c: Component, b: Bindings, v: Variant)
    requires Content(b, v).Some?
    ensures WriteTarget(settings, c, v, Content(b, v).value) in ComponentWrites(settings, c, b)
  {
    ComponentWritesUnrolled(settings, c, b);
    assert v in WriteOrder;
    SourceWritesComplete(settings, c, b, WriteOrder, v);
  }

  /** Source files are written in the order `common`, `jvm`, `android`,
      `native`, `stub`, and all of them before any header. */
  lemma DispatchOrder(settings: GenerationSettings, c: Component, b: Bindings)
    ensures var ws := ComponentWrites(settings, c, b);
      forall i, j :: 0 <= i < j < |ws| && ws[j].SourceWrite? ==> ws[i].SourceWrite? && Rank(ws[i].variant) < Rank(ws[j].variant)
  {
    ComponentWritesUnrolled(settings, c, b);
    SourceWritesOnlyPresent(settings, c, b, WriteOrder);
    SourceWritesOrdered(settings, c, b, WriteOrder);
    var src := SourceWrites(settings, c, b, WriteOrder);
    var ws := ComponentWrites(settings, c, b);
    forall i, j | 0 <= i < j < |ws| && ws[j].SourceWrite?
      ensures ws[i].SourceWrite? && Rank(ws[i].variant) < Rank(ws[j].variant)
    {
      assert j < |src|;
      assert ws[j] == src[j] && ws[i] == src[i];
    }
  }

  /** A header write is the last write, carries the bundle's header and goes
      to the cinterop tree; there is one exactly when the bundle has a header. */
  lemma DispatchHeaderLast(settings: GenerationSettings, c: Component, b: Bindings)
    ensures var ws := ComponentWrites(settings, c, b);
      && (forall i :: 0 <= i < |ws| && ws[i].HeaderWrite? ==> i == |ws| - 1 && ws[i] == WriteCinterop(settings.outDir, c, b.header.value))
      && (b.header.Some? <==> exists i :: 0 <= i < |ws| && ws[i].HeaderWrite?)
  {
    ComponentWritesUnrolled(settings, c, b);
    SourceWritesOnlyPresent(settings, c, b, WriteOrder);
    var src := SourceWrites(settings, c, b, WriteOrder);
    var hdr := HeaderWrites(settings, c, b);
    var ws := ComponentWrites(settings, c, b);
    forall i | 0 <= i < |ws| && ws[i].HeaderWrite?
      ensures i == |ws| - 1 && ws[i] == WriteCinterop(settings.outDir, c, b.header.value)
    {
      assert i >= |src|;
      assert ws[i] == hdr[i - |src|];
    }
    if b.header.Some? {
      assert ws[|ws| - 1].HeaderWrite?;
    }
  }

  // ---------------------------------------------------------------------------
  // The loop over components.
  // ---------------------------------------------------------------------------

  /** The outcome of a `write_bindings` run: the writes performed, and the
      `generate_bindings` error that ended it early, if any. */
  datatype Run<E> = Run(writes: seq<Write>, failure: Option<E>)

  /** `write_bindings`: components in order; the first `generate_bindings`
      error is returned by `?`, and the writes of the components before it
      have already happened. */
  function WriteBindings<E>(settings: GenerationSettings, cs: seq<Component>, generate: Component -> Result<Bindings, E>): (r: Run<E>)
    ensures r.failure.None? <==> forall i :: 0 <= i < |cs| ==> generate(cs[i]).Ok?
    decreases |cs|
  {
    if |cs| == 0 then Run([], None)
    else
      match generate(cs[0])
      case Err(e) => Run([], Some(e))
      case Ok(b) =>
        var rest := WriteBindings(settings, cs[1..], generate);
        assert forall i :: 1 <= i < |cs| ==> cs[1..][i - 1] == cs[i];
        Run(ComponentWrites(settings, cs[0], b) + rest.writes, rest.failure)
  }

  /** The writes of several components, one after another. */
  function Flatten(wss: seq<seq<Write>>): seq<Write>
    decreases |wss|
  {
    if |wss| == 0 then [] else wss[0] + Flatten(wss[1..])
  }

  /** What each component's bundle turns into, for a build whose every
      component generated successfully. */
  function EachComponentWrites<E>(settings: GenerationSettings, cs: seq<Component>, generate: Component -> Result<Bindings, E>): (wss: seq<seq<Write>>)
    requires forall i :: 0 <= i < |cs| ==> generate(cs[i]).Ok?
    ensures |wss| == |cs|
    ensures forall i :: 0 <= i < |cs| ==> wss[i] == ComponentWrites(settings, cs[i], generate(cs[i]).value)
  {
    seq(|cs|, i requires 0 <= i < |cs| => ComponentWrites(settings, cs[i], generate(cs[i]).value))
  }

  /** A successful run writes every component's files, component by
      component in build order, and nothing else. */
  lemma {:induction false} WriteBindingsWritesEveryComponent<E>(settings: GenerationSettings, cs: seq<Component>, generate: Component -> Result<Bindings, E>)
    requires forall i :: 0 <= i < |cs| ==> generate(cs[i]).Ok?
    ensures WriteBindings(settings, cs, generate).writes == Flatten(EachComponentWrites(settings, cs, generate))
    decreases |cs|
  {
    if |cs| > 0 {
      var wss := EachComponentWrites(settings, cs, generate);
      assert forall i :: 0 <= i < |cs| - 1 ==> cs[1..][i] == cs[i + 1];
      WriteBindingsWritesEveryComponent(settings, cs[1..], generate);
      assert wss[1..] == EachComponentWrites(settings, cs[1..], generate);
    }
  }

  /** A run stops at the first failing component: it reports that
      component's error, and has written exactly what a run over the
      components before it writes. */
  lemma {:induction false} WriteBindingsStopsAtFirstError<E>(settings: GenerationSettings, cs: seq<Component>, generate: Component -> Result<Bindings, E>, k: int)
    requires 0 <= k < |cs| && generate(cs[k]).Err?
    requires forall j :: 0 <= j < k ==> generate(cs[j]).Ok?
    ensures WriteBindings(settings, cs, generate).failure == Some(generate(cs[k]).error)
    ensures WriteBindings(settings, cs, generate).writes == WriteBindings(settings, cs[..k], generate).writes
    decreases k
  {
    if k > 0 {
      assert cs[1..][..k - 1] == cs[..k][1..];
      WriteBindingsStopsAtFirstError(settings, cs[1..], generate, k - 1);
    }
  }

  /** The file a write would create belongs to the component with namespace
      `ns`: the header tree's `<ns>/<ns>.h`, or a Kotlin source below
      `outDir` named `<ns>.<variant>.kt`. */
  predicate Owned(outDir: Path, w: Write, ns: string)
  {
    match w
    case HeaderWrite(p, _) => p == HeaderPath(outDir, ns)
    case SourceWrite(v, p, _) =>
      |p| > |outDir| && p[..|outDir|] == outDir && p[|outDir|] != "nativeInterop" && p[|p| - 1] == SourceFileName(ns, v)
  }

  /** Every write of a component is owned by its namespace. */
  lemma ComponentWritesOwned(settings: GenerationSettings, c: Component, b: Bindings, w: Write)
    requires w in ComponentWrites(settings, c, b)
    ensures Owned(settings.outDir, w, c.namespace)
  {
    var ws := ComponentWrites(settings, c, b);
    var i :| 0 <= i < |ws| && ws[i] == w;
    if w.SourceWrite? {
      DispatchWritesOnlyPresent(settings, c, b);
      var v := w.variant;
      assert w.path == SourcePath(settings.outDir, c.config.kotlinMultiplatform, EffectivePackage(c), c.namespace, v);
      SourcePathShape(settings.outDir, c.config.kotlinMultiplatform, EffectivePackage(c), c.namespace, v);
      SourceSetIsNotHeaderTree(c.config.kotlinMultiplatform, v);
    } else {
      DispatchHeaderLast(settings, c, b);
    }
  }

  /** Files owned by different namespaces are different files. */
  lemma OwnedPathsDisjoint(outDir: Path, w1: Write, ns1: string, w2: Write, ns2: string)
    requires Owned(outDir, w1, ns1) && Owned(outDir, w2, ns2) && ns1 != ns2
    ensures w1.path != w2.path
  {
    var p1, p2 := w1.path, w2.path;
    if w1.HeaderWrite? && w2.HeaderWrite? {
      assert p1[|outDir| + 3] == ns1 && p2[|outDir| + 3] == ns2;
    } else if w1.SourceWrite? && w2.SourceWrite? {
      if p1[|p1| - 1] == p2[|p2| - 1] {
        SourceFileNameInjective(ns1, w1.variant, ns2, w2.variant);
      }
    } else {
      assert p1[|outDir|] != p2[|outDir|];
    }
  }

  /** No two paths of a list of writes are the same file. */
  predicate DistinctPaths(ws: seq<Write>)
  {
    forall i, j :: 0 <= i < j < |ws| ==> ws[i].path != ws[j].path
  }

  /** One component never writes the same file twice. */
  lemma ComponentWritesDistinctPaths(settings: GenerationSettings, c: Component, b: Bindings)
    ensures DistinctPaths(ComponentWrites(settings, c, b))
  {
    DispatchWritesOnlyPresent(settings, c, b);
    DispatchOrder(settings, c, b);
    var ws := ComponentWrites(settings, c, b);
    var outDir := settings.outDir;
    var mp := c.config.kotlinMultiplatform;
    var pkg := EffectivePackage(c);
    forall i, j | 0 <= i < j < |ws|
      ensures ws[i].path != ws[j].path
    {
      assert ws[i].SourceWrite?;
      if ws[j].SourceWrite? {
        DistinctVariantsDistinctPaths(outDir, mp, pkg, c.namespace, ws[i].variant, ws[j].variant);
      } else {
        HeaderPathsSeparate(outDir, c.namespace, mp, pkg, c.namespace, ws[i].variant);
      }
    }
  }

  /** Every write of a run is owned by one of the build's components. */
  lemma {:induction false} WriteBindingsOwned<E>(settings: GenerationSettings, cs: seq<Component>, generate: Component -> Result<Bindings, E>, w: Write)
    requires w in WriteBindings(settings, cs, generate).writes
    ensures exists j :: 0 <= j < |cs| && Owned(settings.outDir, w, cs[j].namespace)
    decreases |cs|
  {
    var b := generate(cs[0]).value;
    var rest := WriteBindings(settings, cs[1..], generate);
    if w in ComponentWrites(settings, cs[0], b) {
      ComponentWritesOwned(settings, cs[0], b, w);
    } else {
      assert w in rest.writes;
      WriteBindingsOwned(settings, cs[1..], generate, w);
      var j :| 0 <= j < |cs[1..]| && Owned(settings.outDir, w, cs[1..][j].namespace);
      assert cs[1..][j] == cs[j + 1];
    }
  }

  /** Two write lists that are each free of repeated files, and share no
      file, concatenate to a list free of repeated files. */
  lemma DistinctPathsConcat(a: seq<Write>, b: seq<Write>)
    requires DistinctPaths(a) && DistinctPaths(b)
    requires forall x, y :: x in a && y in b ==> x.path != y.path
    ensures DistinctPaths(a + b)
  {
    var ws := a + b;
    forall i, j | 0 <= i < j < |ws|
      ensures ws[i].path != ws[j].path
    {
      if j < |a| {
        assert ws[i] == a[i] && ws[j] == a[j];
      } else if i >= |a| {
        assert ws[i] == b[i - |a|] && ws[j] == b[j - |a|];
      } else {
        assert ws[i] == a[i] && ws[j] == b[j - |a|];
      }
    }
  }

  /** With distinct namespaces, a run never writes the same file twice — so
      the writes could be carried out in any order or in parallel. */
  lemma {:induction false} WriteBindingsDistinctPaths<E>(settings: GenerationSettings, cs: seq<Component>, generate: Component -> Result<Bindings, E>)
    requires forall i, j :: 0 <= i < j < |cs| ==> cs[i].namespace != cs[j].namespace
    ensures DistinctPaths(WriteBindings(settings, cs, generate).writes)
    decreases |cs|
  {
    if |cs| > 0 && generate(cs[0]).Ok? {
      var b := generate(cs[0]).value;
      var head := ComponentWrites(settings, cs[0], b);
      var rest := WriteBindings(settings, cs[1..], generate).writes;
      assert WriteBindings(settings, cs, generate).writes == head + rest;
      ComponentWritesDistinctPaths(settings, cs[0], b);
      WriteBindingsDistinctPaths(settings, cs[1..], generate);
      forall x, y | x in head && y in rest
        ensures x.path != y.path
      {
        ComponentWritesOwned(settings, cs[0], b, x);
        WriteBindingsOwned(settings, cs[1..], generate, y);
        var k :| 0 <= k < |cs[1..]| && Owned(settings.outDir, y, cs[1..][k].namespace);
        assert cs[1..][k] == cs[k + 1];
        OwnedPathsDisjoint(settings.outDir, x, cs[0].namespace, y, cs[k + 1].namespace);
      }
      DistinctPathsConcat(head, rest);
    }
  }
}
