/** Destination paths of generated files (`write_bindings_target`,
    `write_cinterop`). A path is the sequence of its segments; joining a
    segment onto a `Utf8PathBuf` is appending to the sequence. */
module Paths {

  type Path = seq<string>

  /** The generated file variants of `write_bindings`, in the order it writes them. */
  datatype Variant = Common | Jvm | Android | Native | Stub

  /** The `target` string passed to `write_bindings_target`. */
  function VariantName(v: Variant): string
  {
    match v
    case Common => "common"
    case Jvm => "jvm"
    case Android => "android"
    case Native => "native"
    case Stub => "stub"
  }

  /** `str::split(sep)`: the maximal runs of non-separator characters, with an
      empty piece on either side of every separator. */
  function Split(s: string, sep: char): (parts: seq<string>)
    ensures |parts| >= 1
    ensures forall i :: 0 <= i < |parts| ==> sep !in parts[i]
    decreases |s|
  {
    if |s| == 0 then [""]
    else
      var rest := Split(s[1..], sep);
      if s[0] == sep then [""] + rest
      else [[s[0]] + rest[0]] + rest[1..]
  }

  /** `slice::join(sep)` over a non-empty list of pieces. */
  function Join(parts: seq<string>, sep: char): string
    requires |parts| >= 1
    decreases |parts|
  {
    if |parts| == 1 then parts[0] else parts[0] + [sep] + Join(parts[1..], sep)
  }

  /** Splitting loses nothing: the pieces join back to the original string. */
  lemma {:induction false} JoinSplit(s: string, sep: char)
    ensures Join(Split(s, sep), sep) == s
    decreases |s|
  {
    if |s| > 0 {
      var rest := Split(s[1..], sep);
      JoinSplit(s[1..], sep);
      if s[0] == sep {
        assert Split(s, sep)[1..] == rest;
      } else {
        var parts := Split(s, sep);
        if |rest| == 1 {
          assert parts == [[s[0]] + rest[0]];
        } else {
          assert parts[1..] == rest[1..];
          assert Join(rest, sep) == rest[0] + [sep] + Join(rest[1..], sep);
        }
      }
    }
  }

  /** Joining separator-free pieces and splitting again gives the pieces back. */
  lemma {:induction false} SplitJoin(parts: seq<string>, sep: char)
    requires |parts| >= 1
    requires forall i :: 0 <= i < |parts| ==> sep !in parts[i]
    ensures Split(Join(parts, sep), sep) == parts
    decreases |parts|, |parts[0]|
  {
    if |parts[0]| == 0 {
      if |parts| > 1 {
        SplitJoin(parts[1..], sep);
        assert Join(parts, sep) == [sep] + Join(parts[1..], sep);
        assert ([sep] + Join(parts[1..], sep))[1..] == Join(parts[1..], sep);
        assert [""] + parts[1..] == parts;
      }
    } else {
      var c := parts[0][0];
      var shorter := [parts[0][1..]] + parts[1..];
      assert sep !in shorter[0];
      assert forall i :: 1 <= i < |shorter| ==> shorter[i] == parts[i];
      SplitJoin(shorter, sep);
      assert shorter[1..] == parts[1..];
      assert Join(parts, sep) == [c] + Join(shorter, sep) by {
        if |parts| == 1 {
          assert parts[0] == [c] + parts[0][1..];
        } else {
          assert parts[0] == [c] + parts[0][1..];
          assert Join(parts, sep) == parts[0] + [sep] + Join(parts[1..], sep);
          assert Join(shorter, sep) == shorter[0] + [sep] + Join(shorter[1..], sep);
        }
      }
      var joined := [c] + Join(shorter, sep);
      assert joined[0] == c && c != sep;
      assert joined[1..] == Join(shorter, sep);
      var rest := Split(Join(shorter, sep), sep);
      assert Split(joined, sep) == [[c] + rest[0]] + rest[1..];
      assert rest == shorter;
      assert [c] + rest[0] == parts[0];
      assert rest[1..] == parts[1..];
      assert [parts[0]] + parts[1..] == parts;
    }
  }

  /** The source-set directory: `<target>Main` in multiplatform mode, `main`
      for every variant otherwise. */
  function SourceSetName(multiplatform: bool, v: Variant): string
  {
    if multiplatform then VariantName(v) + "Main" else "main"
  }

  /** `<namespace>.<target>.kt`. */
  function SourceFileName(namespace: string, v: Variant): string
  {
    namespace + "." + VariantName(v) + ".kt"
  }

  /** `out_dir/<source set>/kotlin/<package split on '.'>`: one directory
      per dot-separated piece of the package name. */
  function SourceDir(outDir: Path, multiplatform: bool, packageName: string, v: Variant): (d: Path)
    ensures |d| == |outDir| + 2 + |Split(packageName, '.')|
    ensures d[..|outDir|] == outDir
    ensures d[|outDir|] == SourceSetName(multiplatform, v) && d[|outDir| + 1] == "kotlin"
    ensures d[|outDir| + 2..] == Split(packageName, '.')
    ensures Join(d[|outDir| + 2..], '.') == packageName
  {
    JoinSplit(packageName, '.');
    outDir + [SourceSetName(multiplatform, v), "kotlin"] + Split(packageName, '.')
  }

  /** The file `write_bindings_target` writes: `<namespace>.<target>.kt` inside
      the variant's source directory. */
  function SourcePath(outDir: Path, multiplatform: bool, packageName: string, namespace: string, v: Variant): Path
  {
    SourceDir(outDir, multiplatform, packageName, v) + [SourceFileName(namespace, v)]
  }

  /** Read back, a source path gives the output directory, the source set,
      one directory per dot-separated piece of the package name (which join
      back to the package name) and the file name it was built from. */
  lemma SourcePathShape(outDir: Path, multiplatform: bool, packageName: string, namespace: string, v: Variant)
    ensures var p := SourcePath(outDir, multiplatform, packageName, namespace, v);
      && |p| >= |outDir| + 4
      && p[..|outDir|] == outDir
      && p[|outDir|] == SourceSetName(multiplatform, v) && p[|outDir| + 1] == "kotlin"
      && p[|outDir| + 2 .. |p| - 1] == Split(packageName, '.')
      && Join(p[|outDir| + 2 .. |p| - 1], '.') == packageName
      && p[|p| - 1] == SourceFileName(namespace, v)
  {
    var p := SourcePath(outDir, multiplatform, packageName, namespace, v);
    assert p[|outDir| + 2 .. |p| - 1] == Split(packageName, '.');
    JoinSplit(packageName, '.');
  }

  /** `out_dir/nativeInterop/cinterop/headers/<namespace>`. */
  function HeaderDir(outDir: Path, namespace: string): Path
  {
    outDir + ["nativeInterop", "cinterop", "headers", namespace]
  }

  /** The file `write_cinterop` writes: `<header dir>/<namespace>.h`. */
  function HeaderPath(outDir: Path, namespace: string): (p: Path)
    ensures |p| == |outDir| + 5
    ensures p[..|outDir|] == outDir
    ensures p[|outDir|] == "nativeInterop" && p[|outDir| + 1] == "cinterop" && p[|outDir| + 2] == "headers"
    ensures p[|outDir| + 3] == namespace
    ensures p[|p| - 1] == namespace + ".h"
  {
    HeaderDir(outDir, namespace) + [namespace + ".h"]
  }

  /** A common suffix cancels. */
  lemma SuffixCancels(a: string, b: string, k: string)
    requires a + k == b + k
    ensures a == b
  {
    assert a == (a + k)[..|a|];
    assert b == (b + k)[..|b|];
  }

  /** In `prefix + "." + name` with a dot-free `name`, the last dot marks the
      boundary, so both parts are determined by the whole. */
  lemma LastDotSplitsUniquely(x1: string, n1: string, x2: string, n2: string)
    requires '.' !in n1 && '.' !in n2
    requires x1 + "." + n1 == x2 + "." + n2
    ensures x1 == x2 && n1 == n2
  {
    var s := x1 + "." + n1;
    assert s == x2 + "." + n2;
    assert |n1| == |n2| by {
      assert s[|x1|] == '.' && s[|x2|] == '.';
    }
    assert n1 == s[|x1| + 1..] == n2;
    assert x1 == s[..|x1|] == x2;
  }

  /** A generated file name determines both the namespace and the variant. */
  lemma SourceFileNameInjective(ns1: string, v1: Variant, ns2: string, v2: Variant)
    requires SourceFileName(ns1, v1) == SourceFileName(ns2, v2)
    ensures ns1 == ns2 && v1 == v2
  {
    var a := ns1 + "." + VariantName(v1);
    var b := ns2 + "." + VariantName(v2);
    assert a + ".kt" == b + ".kt";
    SuffixCancels(a, b, ".kt");
    LastDotSplitsUniquely(ns1, VariantName(v1), ns2, VariantName(v2));
  }

  /** A source path determines everything it was computed from besides the
      output directory: mode, package name, namespace and variant. */
  lemma SourcePathInjective(outDir: Path, mp1: bool, pkg1: string, ns1: string, v1: Variant,
                            mp2: bool, pkg2: string, ns2: string, v2: Variant)
    requires SourcePath(outDir, mp1, pkg1, ns1, v1) == SourcePath(outDir, mp2, pkg2, ns2, v2)
    ensures ns1 == ns2 && v1 == v2 && pkg1 == pkg2 && mp1 == mp2
  {
    SourcePathShape(outDir, mp1, pkg1, ns1, v1);
    SourcePathShape(outDir, mp2, pkg2, ns2, v2);
    SourceFileNameInjective(ns1, v1, ns2, v2);
    assert SourceSetName(mp1, v1) == SourceSetName(mp2, v2);
  }

  /** For a fixed namespace, distinct variants are written to distinct files. */
  lemma DistinctVariantsDistinctPaths(outDir: Path, mp: bool, pkg: string, ns: string, v1: Variant, v2: Variant)
    requires v1 != v2
    ensures SourcePath(outDir, mp, pkg, ns, v1) != SourcePath(outDir, mp, pkg, ns, v2)
  {
    if SourcePath(outDir, mp, pkg, ns, v1) == SourcePath(outDir, mp, pkg, ns, v2) {
      SourcePathInjective(outDir, mp, pkg, ns, v1, mp, pkg, ns, v2);
    }
  }

  /** Single-target mode: every variant shares one directory under `main`,
      and the variants are still told apart by file name. */
  lemma SingleTargetCollapse(outDir: Path, pkg: string, ns: string, v1: Variant, v2: Variant)
    ensures SourceDir(outDir, false, pkg, v1) == SourceDir(outDir, false, pkg, v2)
    ensures SourceDir(outDir, false, pkg, v1)[|outDir|] == "main"
    ensures v1 != v2 ==> SourcePath(outDir, false, pkg, ns, v1) != SourcePath(outDir, false, pkg, ns, v2)
  {
    if v1 != v2 {
      DistinctVariantsDistinctPaths(outDir, false, pkg, ns, v1, v2);
    }
  }

  /** Multiplatform mode: distinct variants get distinct source-set
      directories. */
  lemma MultiplatformSeparatesSourceSets(outDir: Path, pkg: string, v1: Variant, v2: Variant)
    requires v1 != v2
    ensures SourceDir(outDir, true, pkg, v1) != SourceDir(outDir, true, pkg, v2)
  {
    var d1 := SourceDir(outDir, true, pkg, v1);
    var d2 := SourceDir(outDir, true, pkg, v2);
    assert d1[|outDir|] == VariantName(v1) + "Main";
    assert d2[|outDir|] == VariantName(v2) + "Main";
    if VariantName(v1) + "Main" == VariantName(v2) + "Main" {
      SuffixCancels(VariantName(v1), VariantName(v2), "Main");
    }
  }

  /** No source set is named like the header tree's root. */
  lemma SourceSetIsNotHeaderTree(multiplatform: bool, v: Variant)
    ensures SourceSetName(multiplatform, v) != "nativeInterop"
  {
  }

  /** Header files never collide with source files, and a header path
      determines its namespace. */
  lemma HeaderPathsSeparate(outDir: Path, ns: string, mp: bool, pkg: string, ns2: string, v: Variant)
    ensures HeaderPath(outDir, ns) != SourcePath(outDir, mp, pkg, ns2, v)
    ensures forall ns3 :: HeaderPath(outDir, ns) == HeaderPath(outDir, ns3) ==> ns == ns3
  {
    var s := SourcePath(outDir, mp, pkg, ns2, v);
    SourcePathShape(outDir, mp, pkg, ns2, v);
    SourceSetIsNotHeaderTree(mp, v);
    assert s[|outDir|] != "nativeInterop";
    forall ns3 | HeaderPath(outDir, ns) == HeaderPath(outDir, ns3)
      ensures ns == ns3
    {
      assert HeaderPath(outDir, ns3)[|outDir| + 3] == ns3;
    }
  }
}
