/**
 `render_imports`: one synthetic import line per dependency whose module leaf
 is not `__init__`, aliased by the leaf and a per-leaf occurrence counter.
 */
module Imports {
  import opened Text
  import opened ModulePaths

  /**
   The imported module: the last component. `split` never returns an empty
   list, so `render_imports`'s zero-length-address `ValueError` cannot be raised.
   */
  function Leaf(dep: string): string
  {
    var parts := ModuleParts(dep);
    parts[|parts| - 1]
  }

  /** The package the module is imported from: the other components joined by `.`. */
  function FromPackage(dep: string): string
  {
    var parts := ModuleParts(dep);
    Join(parts[..|parts| - 1], '.')
  }

  /** A package entry contributes no importable name and is skipped. */
  predicate IsPackageEntry(dep: string)
  {
    Leaf(dep) == "__init__"
  }

  /** The alias of the `k`-th import of a leaf: the leaf followed by `k` in decimal. */
  function Alias(leaf: string, k: nat): string
  {
    leaf + Decimal(k)
  }

  /** The line for `dep` as the `k`-th import of its leaf. */
  function ImportLine(dep: string, k: nat): string
  {
    var leaf := Leaf(dep);
    var from := FromPackage(dep);
    if from != "" then "from " + from + " import " + leaf + " as " + Alias(leaf, k)
    else "import " + leaf + " as " + Alias(leaf, k)
  }

  /** The `Counter` of leaves imported so far; a missing key counts zero. */
  type Counter = map<string, nat>

  function Count(seen: Counter, leaf: string): nat
  {
    if leaf in seen then seen[leaf] else 0
  }

  /**
   The generator of `render_imports` resumed with counter `seen`: each kept
   dependency bumps its leaf's count and is rendered with the new count.
   */
  function RenderFrom(deps: seq<string>, seen: Counter): (lines: seq<string>)
    ensures |lines| <= |deps|
    decreases |deps|
  {
    if |deps| == 0 then []
    else if IsPackageEntry(deps[0]) then RenderFrom(deps[1..], seen)
    else
      var leaf := Leaf(deps[0]);
      var k := Count(seen, leaf) + 1;
      [ImportLine(deps[0], k)] + RenderFrom(deps[1..], seen[leaf := k])
  }

  /** `render_imports(deps)`, collected into a list. */
  function RenderImports(deps: seq<string>): seq<string>
  {
    RenderFrom(deps, map[])
  }

  // ---------------------------------------------------------------------------
  // Reference definition: which dependencies are rendered, and with which count

  /** The dependencies that produce a line, in input order. */
  function Kept(deps: seq<string>): (kept: seq<string>)
    ensures |kept| <= |deps|
    decreases |deps|
  {
    if |deps| == 0 then []
    else if IsPackageEntry(deps[0]) then Kept(deps[1..])
    else [deps[0]] + Kept(deps[1..])
  }

  /** How many dependencies of `deps` have leaf `leaf`. */
  function CountLeaf(deps: seq<string>, leaf: string): nat
    decreases |deps|
  {
    if |deps| == 0 then 0
    else (if Leaf(deps[0]) == leaf then 1 else 0) + CountLeaf(deps[1..], leaf)
  }

  /** The occurrence number of `kept[i]`'s leaf among `kept[..i + 1]`: 1 for its first import. */
  function Occurrence(kept: seq<string>, i: nat): nat
    requires i < |kept|
  {
    CountLeaf(kept[..i + 1], Leaf(kept[i]))
  }

  /** The count the `i`-th kept dependency's leaf reaches when counting starts from `seen`. */
  function ExpectedCount(kept: seq<string>, seen: Counter, i: nat): nat
    requires i < |kept|
  {
    Count(seen, Leaf(kept[i])) + Occurrence(kept, i)
  }

  /** The lines `RenderFrom(deps, seen)` gives are the ones the reference definition expects. */
  ghost predicate RendersKept(deps: seq<string>, seen: Counter)
  {
    && |RenderFrom(deps, seen)| == |Kept(deps)|
    && forall i :: 0 <= i < |Kept(deps)| ==>
         RenderFrom(deps, seen)[i] == ImportLine(Kept(deps)[i], ExpectedCount(Kept(deps), seen, i))
  }

  /**
   The generator, started from any counter, renders the `i`-th kept
   dependency with its leaf's old count plus its occurrence number.
   */
  lemma {:induction false} RenderFromLines(deps: seq<string>, seen: Counter)
    ensures RendersKept(deps, seen)
    decreases |deps|
  {
    if |deps| > 0 {
      var dep := deps[0];
      if IsPackageEntry(dep) {
        RenderFromLines(deps[1..], seen);
      } else {
        var leaf := Leaf(dep);
        RenderFromLines(deps[1..], seen[leaf := Count(seen, leaf) + 1]);
        RenderKeptStep(deps, seen);
      }
    }
  }

  /** One step of the induction: a kept first dependency, then the rest from the bumped counter. */
  lemma RenderKeptStep(deps: seq<string>, seen: Counter)
    requires |deps| > 0 && !IsPackageEntry(deps[0])
    requires RendersKept(deps[1..], seen[Leaf(deps[0]) := Count(seen, Leaf(deps[0])) + 1])
    ensures RendersKept(deps, seen)
  {
    var dep, leaf := deps[0], Leaf(deps[0]);
    var seen' := seen[leaf := Count(seen, leaf) + 1];
    var lines, kept := RenderFrom(deps, seen), Kept(deps);
    var tail, rest := RenderFrom(deps[1..], seen'), Kept(deps[1..]);
    assert kept == [dep] + rest;
    assert lines == [ImportLine(dep, Count(seen, leaf) + 1)] + tail;
    forall i | 0 <= i < |kept|
      ensures lines[i] == ImportLine(kept[i], ExpectedCount(kept, seen, i))
    {
      RenderKeptLine(dep, seen, lines, kept, tail, rest, i);
    }
  }

  /** The `i`-th line of that step, from the shapes of the lines and of the kept dependencies. */
  lemma RenderKeptLine(dep: string, seen: Counter, lines: seq<string>, kept: seq<string>,
                       tail: seq<string>, rest: seq<string>, i: nat)
    requires kept == [dep] + rest
    requires lines == [ImportLine(dep, Count(seen, Leaf(dep)) + 1)] + tail
    requires |tail| == |rest|
    requires forall j :: 0 <= j < |rest| ==>
      tail[j] == ImportLine(rest[j], ExpectedCount(rest, seen[Leaf(dep) := Count(seen, Leaf(dep)) + 1], j))
    requires i < |kept|
    ensures lines[i] == ImportLine(kept[i], ExpectedCount(kept, seen, i))
  {
    if i == 0 {
      FirstKeptCount(kept, seen);
      assert kept[0] == dep && lines[0] == ImportLine(dep, Count(seen, Leaf(dep)) + 1);
    } else {
      var seen' := seen[Leaf(dep) := Count(seen, Leaf(dep)) + 1];
      LaterKeptCount(kept, seen, i);
      assert kept[1..] == rest;
      assert ExpectedCount(kept, seen, i) == ExpectedCount(rest, seen', i - 1);
      assert kept[i] == rest[i - 1] && lines[i] == tail[i - 1];
    }
  }

  /** The first kept dependency is its leaf's next import. */
  lemma FirstKeptCount(kept: seq<string>, seen: Counter)
    requires |kept| > 0
    ensures ExpectedCount(kept, seen, 0) == Count(seen, Leaf(kept[0])) + 1
  {
    assert kept[..1] == [kept[0]];
    assert CountLeaf([kept[0]], Leaf(kept[0])) == 1;
  }

  /** A later kept dependency counts as the one before it in the tail, from the bumped counter. */
  lemma LaterKeptCount(kept: seq<string>, seen: Counter, i: nat)
    requires 0 < i < |kept|
    ensures var seen' := seen[Leaf(kept[0]) := Count(seen, Leaf(kept[0])) + 1];
      ExpectedCount(kept, seen, i) == ExpectedCount(kept[1..], seen', i - 1)
  {
    OccurrenceAfterHead(kept, i);
    assert kept[1..][i - 1] == kept[i];
  }

  /** Dropping the head of `kept` lowers a later occurrence number by one exactly when the leaves agree. */
  lemma OccurrenceAfterHead(kept: seq<string>, i: nat)
    requires 0 < i < |kept|
    ensures Occurrence(kept, i)
         == (if Leaf(kept[0]) == Leaf(kept[i]) then 1 else 0) + Occurrence(kept[1..], i - 1)
  {
    assert kept[..i + 1][1..] == kept[1..][..i];
  }

  /**
   `render_imports` yields, in input order, one line per dependency that is
   not a package entry; the `k`-th occurrence of a leaf is aliased `leaf + str(k)`.
   */
  lemma RenderImportsLines(deps: seq<string>)
    ensures var lines, kept := RenderImports(deps), Kept(deps);
      && |lines| == |kept|
      && forall i :: 0 <= i < |kept| ==> lines[i] == ImportLine(kept[i], Occurrence(kept, i))
  {
    var kept := Kept(deps);
    RenderFromLines(deps, map[]);
    forall i | 0 <= i < |kept|
      ensures RenderImports(deps)[i] == ImportLine(kept[i], Occurrence(kept, i))
    {
      assert ExpectedCount(kept, map[], i) == Occurrence(kept, i);
    }
  }

  /** A skipped package entry advances no counter: dropping it changes no line. */
  lemma PackageEntrySkipped(before: seq<string>, dep: string, after: seq<string>)
    requires IsPackageEntry(dep)
    ensures RenderImports(before + [dep] + after) == RenderImports(before + after)
  {
    KeptSkips(before, dep, after);
    RenderImportsLines(before + [dep] + after);
    RenderImportsLines(before + after);
  }

  lemma {:induction false} KeptSkips(before: seq<string>, dep: string, after: seq<string>)
    requires IsPackageEntry(dep)
    ensures Kept(before + [dep] + after) == Kept(before + after)
    decreases |before|
  {
    if |before| == 0 {
      assert before + [dep] + after == [dep] + after;
      assert before + after == after;
      KeptCons(dep, after);
    } else {
      var b, tail := before[0], before[1..];
      KeptSkips(tail, dep, after);
      assert before + [dep] + after == [b] + (tail + [dep] + after);
      assert before + after == [b] + (tail + after);
      var with, without := tail + [dep] + after, tail + after;
      KeptCons(b, with);
      KeptCons(b, without);
      if !IsPackageEntry(b) {
        assert Kept([b] + with) == [b] + Kept(with) == [b] + Kept(without) == Kept([b] + without);
      }
    }
  }

  /** `Kept` on a dependency followed by others. */
  lemma KeptCons(d: string, rest: seq<string>)
    ensures Kept([d] + rest) == if IsPackageEntry(d) then Kept(rest) else [d] + Kept(rest)
  {
    assert ([d] + rest)[0] == d && ([d] + rest)[1..] == rest;
  }

  /** Among the first `i + 1` kept dependencies, a leaf occurs once per earlier sibling plus itself. */
  lemma {:induction false} OccurrenceGrows(kept: seq<string>, i: nat, j: nat)
    requires i < j < |kept| && Leaf(kept[i]) == Leaf(kept[j])
    ensures Occurrence(kept, i) < Occurrence(kept, j)
  {
    var l := Leaf(kept[i]);
    CountLeafSplit(kept[..j + 1], i + 1, l);
    assert kept[..j + 1][..i + 1] == kept[..i + 1];
    CountLeafSplit(kept[..j + 1][i + 1..], j - i - 1, l);
    assert kept[..j + 1][i + 1..][j - i - 1..] == [kept[j]];
  }

  lemma {:induction false} CountLeafSplit(s: seq<string>, k: nat, leaf: string)
    requires k <= |s|
    ensures CountLeaf(s, leaf) == CountLeaf(s[..k], leaf) + CountLeaf(s[k..], leaf)
    decreases k
  {
    if k > 0 {
      CountLeafSplit(s[1..], k - 1, leaf);
      assert s[1..][..k - 1] == s[..k][1..];
      assert s[1..][k - 1..] == s[k..];
    }
  }

  /** The first import of a leaf is aliased with suffix `1`. */
  lemma FirstOccurrenceIsOne(kept: seq<string>, i: nat)
    requires i < |kept|
    requires forall j :: 0 <= j < i ==> Leaf(kept[j]) != Leaf(kept[i])
    ensures Occurrence(kept, i) == 1
  {
    CountLeafSplit(kept[..i + 1], i, Leaf(kept[i]));
    assert kept[..i + 1][..i] == kept[..i];
    CountLeafAbsent(kept[..i], Leaf(kept[i]));
    assert kept[..i + 1][i..] == [kept[i]];
  }

  lemma {:induction false} CountLeafAbsent(s: seq<string>, leaf: string)
    requires forall j :: 0 <= j < |s| ==> Leaf(s[j]) != leaf
    ensures CountLeaf(s, leaf) == 0
    decreases |s|
  {
    if |s| > 0 {
      CountLeafAbsent(s[1..], leaf);
    }
  }

  /**
   Two imports of the same leaf never share an alias; a first import is
   aliased `leaf + "1"`.
   */
  lemma AliasesDistinctPerLeaf(deps: seq<string>, i: nat, j: nat)
    requires var kept := Kept(deps);
      i < j < |kept| && Leaf(kept[i]) == Leaf(kept[j])
    ensures var kept := Kept(deps);
      Alias(Leaf(kept[i]), Occurrence(kept, i)) != Alias(Leaf(kept[j]), Occurrence(kept, j))
  {
    var kept := Kept(deps);
    var l := Leaf(kept[i]);
    OccurrenceGrows(kept, i, j);
    if Alias(l, Occurrence(kept, i)) == Alias(l, Occurrence(kept, j)) {
      assert Decimal(Occurrence(kept, i)) == Alias(l, Occurrence(kept, i))[|l|..];
      assert Decimal(Occurrence(kept, j)) == Alias(l, Occurrence(kept, j))[|l|..];
      DecimalInjective(Occurrence(kept, i), Occurrence(kept, j));
    }
  }

  /**
   Aliases are only unique per leaf: the eleventh import of `a` and the first
   import of `a1` are both aliased `a11`.
   */
  lemma AliasesMayCollideAcrossLeaves()
    ensures Alias("a", 11) == Alias("a1", 1) == "a11"
  {
  }

  /**
   A worked case: two modules with leaf `c` get aliases `c1` and `c2`, and a
   package entry produces no line.
   */
  lemma RenderExample()
    ensures RenderImports(["x/c.py", "p/__init__.py", "c.py"]) == ["from x import c as c1", "import c as c2"]
  {
    var deps := ["x/c.py", "p/__init__.py", "c.py"];
    var first := ExampleNested();
    ExampleTail();
    assert deps[1..] == ["p/__init__.py", "c.py"];
    assert RenderFrom(deps, map[]) == [first] + RenderFrom(["p/__init__.py", "c.py"], map["c" := 1]);
  }

  /** After one import of `c`, a package entry and then `c.py` render as the second import of `c`. */
  lemma ExampleTail()
    ensures RenderFrom(["p/__init__.py", "c.py"], map["c" := 1]) == ["import c as c2"]
  {
    var seen: Counter := map["c" := 1];
    var line := ExampleTopLevel();
    ExamplePackage();
    assert RenderFrom(["c.py"], seen) == [line] by {
      assert Count(seen, "c") + 1 == 2;
    }
    assert ["p/__init__.py", "c.py"][1..] == ["c.py"];
  }

  lemma ExampleNested() returns (line: string)
    ensures Leaf("x/c.py") == "c"
    ensures line == ImportLine("x/c.py", 1) == "from x import c as c1"
  {
    assert "x/c.py" == Join(["x", "c"], '/') + ".py";
    PartsOf(["x", "c"], "x/c.py");
    assert ["x", "c"][..1] == ["x"];
    assert Leaf("x/c.py") == "c" && FromPackage("x/c.py") == "x";
    assert Alias("c", 1) == "c1" by {
      assert Decimal(1) == "1";
    }
    line := ImportLine("x/c.py", 1);
    assert line == "from " + "x" + " import " + "c" + " as " + "c1";
    NestedSpelled();
  }

  /** The line of `ExampleNested`, spelled out; kept apart so that each proof stays small. */
  lemma NestedSpelled()
    ensures "from " + "x" + " import " + "c" + " as " + "c1" == "from x import c as c1"
  {
  }

  lemma ExampleTopLevel() returns (line: string)
    ensures Leaf("c.py") == "c"
    ensures line == ImportLine("c.py", 2) == "import c as c2"
  {
    assert "c.py" == Join(["c"], '/') + ".py";
    PartsOf(["c"], "c.py");
    assert Decimal(2) == "2";
    line := ImportLine("c.py", 2);
  }

  lemma ExamplePackage()
    ensures IsPackageEntry("p/__init__.py")
  {
    assert "p/__init__.py" == Join(["p", "__init__"], '/') + ".py";
    PartsOf(["p", "__init__"], "p/__init__.py");
  }

  /** The components of the module file `parts` joined by `/`, plus `.py`. */
  lemma PartsOf(parts: seq<string>, path: string)
    requires |parts| >= 1 && Unseparated(parts, '/')
    requires path == Join(parts, '/') + ".py"
    ensures ModuleParts(path) == parts
  {
    RemoveAppendedSuffix(Join(parts, '/'), ".py");
    SplitJoin(parts, '/');
  }
}
