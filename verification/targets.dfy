/**
 The per-target transform (`handle_python_module`) and the pipeline
 (`rename_python_targets`) that runs it over every Python target with one
 shared rename table. Records of other types are dropped.
 */
module Targets {
  import opened Text
  import opened RenameMaps
  import opened Addresses
  import opened ModulePaths
  import opened Imports

  /**
   A target record. `other` holds every further field of the input record,
   passed through untouched; its values are of any type `V`.
   */
  datatype TargetInfo<V> = TargetInfo(
    address: Address,
    targetType: string,
    dependencies: seq<string>,
    dependenciesRaw: seq<string>,
    other: map<string, V>)

  /** A transformed target: the record's fields plus the synthesized module text. */
  datatype TargetWithContent<V> = TargetWithContent(
    address: Address,
    targetType: string,
    dependencies: seq<string>,
    dependenciesRaw: seq<string>,
    other: map<string, V>,
    content: string)

  /**
   `set(dependencies).difference(dependencies_raw)`: the inferred
   dependencies. Raw entries that are not dependencies are simply ignored.
   */
  function InferredDeps<V>(info: TargetInfo<V>): (s: set<string>)
    ensures forall d :: d in s <==> d in info.dependencies && d !in info.dependenciesRaw
  {
    ToSet(info.dependencies) - ToSet(info.dependenciesRaw)
  }

  /**
   `xs` lists the set `s`, each member once. Python iterates a set in an
   order of its own; the model takes that order as a parameter.
   */
  predicate Enumerates(xs: seq<string>, s: set<string>)
  {
    && (forall i, j :: 0 <= i < j < |xs| ==> xs[i] != xs[j])
    && (forall i :: 0 <= i < |xs| ==> xs[i] in s)
    && (forall x :: x in s ==> x in xs)
  }

  /**
   `[rename_python_module(x, rename_map) for x in paths]`: each path renamed
   in turn, the table of each call feeding the next. Every result is the
   path's renaming under the final table.
   */
  function RenameAll(rm: RenameMap, paths: seq<string>): (res: (seq<string>, RenameMap))
    ensures |res.0| == |paths|
    ensures Extends(rm, res.1)
    ensures NamesAvoidSlash(rm) ==> NamesAvoidSlash(res.1)
    ensures forall i :: 0 <= i < |paths| ==>
      Covers(res.1.m, ModuleParts(paths[i])) && res.0[i] == RenamedPath(res.1.m, paths[i])
    decreases |paths|
  {
    if |paths| == 0 then ([], rm)
    else
      var head := RenamePythonModule(rm, paths[0]);
      var tail := RenameAll(head.1, paths[1..]);
      RenamedPathStable(head.1.m, tail.1.m, paths[0]);
      PrependRenamed(paths, head.0, tail.0, tail.1.m);
      ([head.0] + tail.0, tail.1)
  }

  lemma PrependRenamed(paths: seq<string>, first: string, rest: seq<string>, m: map<string, string>)
    requires |paths| > 0 && |rest| == |paths| - 1
    requires Covers(m, ModuleParts(paths[0])) && first == RenamedPath(m, paths[0])
    requires forall i :: 0 <= i < |rest| ==>
      Covers(m, ModuleParts(paths[1..][i])) && rest[i] == RenamedPath(m, paths[1..][i])
    ensures forall i :: 0 <= i < |paths| ==>
      Covers(m, ModuleParts(paths[i])) && ([first] + rest)[i] == RenamedPath(m, paths[i])
  {
    forall i | 0 < i < |paths|
      ensures Covers(m, ModuleParts(paths[i])) && ([first] + rest)[i] == RenamedPath(m, paths[i])
    {
      assert paths[i] == paths[1..][i - 1];
    }
  }

  /** A module text: every import line followed by a newline. */
  function Terminated(lines: seq<string>): string
    decreases |lines|
  {
    if |lines| == 0 then "" else lines[0] + "\n" + Terminated(lines[1..])
  }

  /** `"\n".join([*lines, ""])` is each line followed by a newline, and empty when there are no lines. */
  lemma {:induction false} JoinTerminated(lines: seq<string>)
    ensures Join(lines + [""], '\n') == Terminated(lines)
    ensures Terminated(lines) == "" <==> |lines| == 0
    decreases |lines|
  {
    if |lines| > 0 {
      JoinTerminated(lines[1..]);
      assert (lines + [""])[1..] == lines[1..] + [""];
      assert (lines + [""])[0] == lines[0];
    }
  }

  /** The module text of the renamed dependencies. */
  function Content(renamedDeps: seq<string>): (content: string)
    ensures content == Terminated(RenderImports(renamedDeps))
  {
    var lines := RenderImports(renamedDeps);
    JoinTerminated(lines);
    Join(lines + [""], '\n')
  }

  /**
   `out` is `info` transformed under the final table `m` with the inferred
   dependencies taken in `order`: the address path and the dependencies
   renamed, every other field kept, the raw dependencies cleared, and the
   content rendered from the renamed dependencies.
   */
  ghost predicate Transformed<V>(out: TargetWithContent<V>, info: TargetInfo<V>, order: seq<string>, m: map<string, string>)
  {
    && out.address.name == info.address.name
    && out.address.subtarget == info.address.subtarget
    && out.targetType == info.targetType
    && out.other == info.other
    && out.dependenciesRaw == []
    && Covers(m, ModuleParts(info.address.path))
    && out.address.path == RenamedPath(m, info.address.path)
    && |out.dependencies| == |order|
    && (forall i :: 0 <= i < |order| ==>
          Covers(m, ModuleParts(order[i])) && out.dependencies[i] == RenamedPath(m, order[i]))
    && out.content == Terminated(RenderImports(out.dependencies))
  }

  /**
   `handle_python_module(info, target_type, rename_map)`, with `inferred`
   the order in which Python happens to iterate the inferred set. The
   target's own path is renamed before its dependencies. `targetType` is
   accepted and unused, as in `peek_reader.py`.
   */
  function HandlePythonModule<V>(info: TargetInfo<V>, targetType: string, inferred: seq<string>, rm: RenameMap)
    : (res: (TargetWithContent<V>, RenameMap))
    requires Enumerates(inferred, InferredDeps(info))
    ensures Extends(rm, res.1)
    ensures NamesAvoidSlash(rm) ==> NamesAvoidSlash(res.1)
    ensures Transformed(res.0, info, inferred, res.1.m)
  {
    var (newPath, rm1) := RenamePythonModule(rm, info.address.path);
    var (renamedDeps, rm2) := RenameAll(rm1, inferred);
    RenamedPathStable(rm1.m, rm2.m, info.address.path);
    var out := TargetWithContent(
      Address(newPath, info.address.name, info.address.subtarget),
      info.targetType, renamedDeps, [], info.other, Content(renamedDeps));
    (out, rm2)
  }

  /** Handling a target renames its path and then its inferred dependencies as one batch, in that order. */
  lemma HandleRenamesPathFirst<V>(info: TargetInfo<V>, targetType: string, inferred: seq<string>, rm: RenameMap)
    requires Enumerates(inferred, InferredDeps(info))
    ensures var (out, rm') := HandlePythonModule(info, targetType, inferred, rm);
      var batch := RenameAll(rm, [info.address.path] + inferred);
      && rm' == batch.1
      && batch.0 == [out.address.path] + out.dependencies
  {
    var paths := [info.address.path] + inferred;
    assert paths[0] == info.address.path && paths[1..] == inferred;
  }

  /** The components a batch of paths sends through the table, path by path. */
  function BatchKeys(paths: seq<string>): seq<string>
    decreases |paths|
  {
    if |paths| == 0 then [] else RenamedKeys(ModuleParts(paths[0])) + BatchKeys(paths[1..])
  }

  /** Renaming a batch of paths leaves the table that assigning all their components in order leaves. */
  lemma {:induction false} RenameAllTable(rm: RenameMap, paths: seq<string>)
    ensures RenameAll(rm, paths).1 == AssignMany(rm, BatchKeys(paths)).1
    decreases |paths|
  {
    if |paths| > 0 {
      var head := RenamePythonModule(rm, paths[0]).1;
      RenameTable(rm, paths[0]);
      RenameAllTable(head, paths[1..]);
      AssignManyAppend(rm, RenamedKeys(ModuleParts(paths[0])), BatchKeys(paths[1..]));
      assert RenameAll(rm, paths).1 == RenameAll(head, paths[1..]).1;
    }
  }

  /** The components handling a target sends through the table: its own path's first. */
  function TargetKeys<V>(info: TargetInfo<V>, order: seq<string>): (keys: seq<string>)
    ensures keys == RenamedKeys(ModuleParts(info.address.path)) + BatchKeys(order)
  {
    var paths := [info.address.path] + order;
    assert paths[0] == info.address.path && paths[1..] == order;
    BatchKeys(paths)
  }

  /**
   Handling a target draws one new name per component the table lacks, in
   the order the path and then the dependencies list them.
   */
  lemma HandleDraws<V>(info: TargetInfo<V>, targetType: string, inferred: seq<string>, rm: RenameMap)
    requires Enumerates(inferred, InferredDeps(info))
    ensures var rm' := HandlePythonModule(info, targetType, inferred, rm).1;
      && rm' == AssignMany(rm, TargetKeys(info, inferred)).1
      && DrawnInOrder(rm, rm', NewKeys(rm.m.Keys, TargetKeys(info, inferred)))
  {
    HandleRenamesPathFirst(info, targetType, inferred, rm);
    RenameAllTable(rm, [info.address.path] + inferred);
    AssignManyDraws(rm, TargetKeys(info, inferred));
  }

  /**
   The target's own path is renamed first: its new components take the
   generator's next names, before any dependency draws one.
   */
  lemma HandleDrawsPathFirst<V>(info: TargetInfo<V>, targetType: string, inferred: seq<string>, rm: RenameMap)
    requires Enumerates(inferred, InferredDeps(info))
    ensures var rm' := HandlePythonModule(info, targetType, inferred, rm).1;
      var own := NewKeys(rm.m.Keys, RenamedKeys(ModuleParts(info.address.path)));
      forall j :: 0 <= j < |own| ==> own[j] in rm'.m && rm'.m[own[j]] == rm.gen(rm.next + j)
  {
    var keys := RenamedKeys(ModuleParts(info.address.path));
    var own := NewKeys(rm.m.Keys, keys);
    NewKeysAppend(rm.m.Keys, keys, BatchKeys(inferred));
    HandleDraws(info, targetType, inferred, rm);
    var nk := NewKeys(rm.m.Keys, TargetKeys(info, inferred));
    assert forall j :: 0 <= j < |own| ==> nk[j] == own[j];
  }

  /** The renaming of a set of paths under a table that covers them. */
  function RenamedSet(m: map<string, string>, s: set<string>): set<string>
  {
    set d | d in s && Covers(m, ModuleParts(d)) :: RenamedPath(m, d)
  }

  /**
   The dependencies of a handled target are exactly the renamed inferred
   dependencies, `set(dependencies) - dependencies_raw`.
   */
  lemma HandledDependencies<V>(info: TargetInfo<V>, targetType: string, inferred: seq<string>, rm: RenameMap)
    requires Enumerates(inferred, InferredDeps(info))
    ensures var (out, rm') := HandlePythonModule(info, targetType, inferred, rm);
      ToSet(out.dependencies) == RenamedSet(rm'.m, InferredDeps(info))
  {
    var (out, rm') := HandlePythonModule(info, targetType, inferred, rm);
    TransformedDependencies(out, info, inferred, rm'.m);
  }

  lemma TransformedDependencies<V>(out: TargetWithContent<V>, info: TargetInfo<V>, order: seq<string>, m: map<string, string>)
    requires Enumerates(order, InferredDeps(info))
    requires Transformed(out, info, order, m)
    ensures ToSet(out.dependencies) == RenamedSet(m, InferredDeps(info))
  {
    var s := InferredDeps(info);
    forall x | x in ToSet(out.dependencies)
      ensures x in RenamedSet(m, s)
    {
      var i :| 0 <= i < |out.dependencies| && out.dependencies[i] == x;
      assert order[i] in s;
    }
    forall x | x in RenamedSet(m, s)
      ensures x in ToSet(out.dependencies)
    {
      var d :| d in s && Covers(m, ModuleParts(d)) && RenamedPath(m, d) == x;
      var i :| 0 <= i < |order| && order[i] == d;
      assert out.dependencies[i] == x;
    }
  }

  /** A transformed target stays transformed under any later table of the same run. */
  lemma TransformedStable<V>(out: TargetWithContent<V>, info: TargetInfo<V>, order: seq<string>,
                             m1: map<string, string>, m2: map<string, string>)
    requires Transformed(out, info, order, m1)
    requires forall k :: k in m1 ==> k in m2 && m2[k] == m1[k]
    ensures Transformed(out, info, order, m2)
  {
    RenamedPathStable(m1, m2, info.address.path);
    forall i | 0 <= i < |order|
      ensures Covers(m2, ModuleParts(order[i])) && out.dependencies[i] == RenamedPath(m2, order[i])
    {
      RenamedPathStable(m1, m2, order[i]);
    }
  }

  // ---------------------------------------------------------------------------
  // The pipeline

  /** The keys of `type_to_handler`; both route to `handle_python_module`. */
  predicate IsPythonTarget(targetType: string)
  {
    targetType == "python_source" || targetType == "python_test"
  }

  /** `orders[i]` is an iteration order of target `i`'s inferred dependencies. */
  predicate OrdersFor<V>(infos: seq<TargetInfo<V>>, orders: seq<seq<string>>)
  {
    |orders| == |infos| && forall i :: 0 <= i < |infos| ==> Enumerates(orders[i], InferredDeps(infos[i]))
  }

  /** The targets the pipeline handles, in input order. */
  function Relevant<V>(infos: seq<TargetInfo<V>>): (r: seq<TargetInfo<V>>)
    ensures |r| <= |infos|
    ensures forall j :: 0 <= j < |r| ==> IsPythonTarget(r[j].targetType)
    ensures (forall i :: 0 <= i < |infos| ==> IsPythonTarget(infos[i].targetType)) ==> r == infos
    decreases |infos|
  {
    if |infos| == 0 then []
    else if IsPythonTarget(infos[0].targetType) then [infos[0]] + Relevant(infos[1..])
    else Relevant(infos[1..])
  }

  /** The iteration orders of the targets the pipeline handles, aligned with `Relevant`. */
  function RelevantOrders<V>(infos: seq<TargetInfo<V>>, orders: seq<seq<string>>): (r: seq<seq<string>>)
    requires |orders| == |infos|
    ensures |r| == |Relevant(infos)|
    decreases |infos|
  {
    if |infos| == 0 then []
    else if IsPythonTarget(infos[0].targetType) then [orders[0]] + RelevantOrders(infos[1..], orders[1..])
    else RelevantOrders(infos[1..], orders[1..])
  }

  /** One record is kept exactly when it is a Python target. */
  lemma RelevantSingle<V>(x: TargetInfo<V>)
    ensures Relevant([x]) == if IsPythonTarget(x.targetType) then [x] else []
  {
    assert [x][1..] == [];
  }

  /** The filter works record by record: a concatenation is filtered piece by piece, in order. */
  lemma {:induction false} RelevantAppend<V>(a: seq<TargetInfo<V>>, b: seq<TargetInfo<V>>)
    ensures Relevant(a + b) == Relevant(a) + Relevant(b)
    decreases |a|
  {
    if |a| == 0 {
      assert a + b == b;
    } else {
      assert (a + b)[0] == a[0];
      assert (a + b)[1..] == a[1..] + b;
      RelevantAppend(a[1..], b);
    }
  }

  /**
   The comprehension of `rename_python_targets`, resumed with table `rm`:
   every Python target handled in input order, one table threaded through.
   */
  function RenameTargets<V>(rm: RenameMap, infos: seq<TargetInfo<V>>, orders: seq<seq<string>>)
    : (res: (seq<TargetWithContent<V>>, RenameMap))
    requires OrdersFor(infos, orders)
    ensures |res.0| == |Relevant(infos)|
    ensures Extends(rm, res.1)
    ensures NamesAvoidSlash(rm) ==> NamesAvoidSlash(res.1)
    decreases |infos|
  {
    if |infos| == 0 then ([], rm)
    else
      OrdersForTail(infos, orders);
      if IsPythonTarget(infos[0].targetType) then
        var (out, rm1) := HandlePythonModule(infos[0], infos[0].targetType, orders[0], rm);
        var (rest, rm2) := RenameTargets(rm1, infos[1..], orders[1..]);
        ([out] + rest, rm2)
      else
        RenameTargets(rm, infos[1..], orders[1..])
  }

  /** `rename_python_targets(peek_data)`: a fresh table for the run, drawing names from `gen`. */
  function RenamePythonTargets<V>(gen: Supply, infos: seq<TargetInfo<V>>, orders: seq<seq<string>>)
    : (out: seq<TargetWithContent<V>>)
    requires OrdersFor(infos, orders)
    ensures |out| == |Relevant(infos)|
  {
    RenameTargets(Fresh(gen), infos, orders).0
  }

  /** The components a run sends through the table: each Python target's, in input order. */
  function RunKeys<V>(infos: seq<TargetInfo<V>>, orders: seq<seq<string>>): seq<string>
    requires |orders| == |infos|
    decreases |infos|
  {
    if |infos| == 0 then []
    else if IsPythonTarget(infos[0].targetType) then TargetKeys(infos[0], orders[0]) + RunKeys(infos[1..], orders[1..])
    else RunKeys(infos[1..], orders[1..])
  }

  /** A run leaves the table that assigning every handled component, in run order, leaves. */
  lemma {:induction false} RenameTargetsTable<V>(rm: RenameMap, infos: seq<TargetInfo<V>>, orders: seq<seq<string>>)
    requires OrdersFor(infos, orders)
    ensures RenameTargets(rm, infos, orders).1 == AssignMany(rm, RunKeys(infos, orders)).1
    decreases |infos|
  {
    if |infos| > 0 {
      OrdersForTail(infos, orders);
      if IsPythonTarget(infos[0].targetType) {
        var rm1 := HandlePythonModule(infos[0], infos[0].targetType, orders[0], rm).1;
        HandleDraws(infos[0], infos[0].targetType, orders[0], rm);
        RenameTargetsTable(rm1, infos[1..], orders[1..]);
        AssignManyAppend(rm, TargetKeys(infos[0], orders[0]), RunKeys(infos[1..], orders[1..]));
        assert RenameTargets(rm, infos, orders).1 == RenameTargets(rm1, infos[1..], orders[1..]).1;
      } else {
        RenameTargetsTable(rm, infos[1..], orders[1..]);
        assert RenameTargets(rm, infos, orders) == RenameTargets(rm, infos[1..], orders[1..]);
      }
    }
  }

  /**
   Across a whole run from a fresh table, the `j`-th distinct component the
   run meets, in target order and path-first within a target, is named
   `gen(j)`, and no other name is drawn.
   */
  lemma RunDraws<V>(gen: Supply, infos: seq<TargetInfo<V>>, orders: seq<seq<string>>)
    requires OrdersFor(infos, orders)
    ensures var rm' := RenameTargets(Fresh(gen), infos, orders).1;
      var nk := NewKeys({}, RunKeys(infos, orders));
      && rm'.next == |nk|
      && forall j :: 0 <= j < |nk| ==> nk[j] in rm'.m && rm'.m[nk[j]] == gen(j)
  {
    var rm0, keys := Fresh(gen), RunKeys(infos, orders);
    var rm' := RenameTargets(rm0, infos, orders).1;
    RenameTargetsTable(rm0, infos, orders);
    AssignManyDraws(rm0, keys);
    assert rm0.m.Keys == {};
    DrawnFromFresh(gen, rm', NewKeys({}, keys));
  }

  lemma OrdersForTail<V>(infos: seq<TargetInfo<V>>, orders: seq<seq<string>>)
    requires OrdersFor(infos, orders) && |infos| > 0
    ensures OrdersFor(infos[1..], orders[1..])
  {
    assert forall i :: 0 < i < |infos| ==> infos[1..][i - 1] == infos[i] && orders[1..][i - 1] == orders[i];
  }

  /** Output `k` is target `k` transformed with iteration order `k`, for every `k`. */
  ghost predicate AllTransformed<V>(outs: seq<TargetWithContent<V>>, infos: seq<TargetInfo<V>>,
                                    orders: seq<seq<string>>, m: map<string, string>)
  {
    && |outs| == |infos| == |orders|
    && forall k :: 0 <= k < |outs| ==> Transformed(outs[k], infos[k], orders[k], m)
  }

  /**
   Every output is the matching Python target transformed under the table
   the run ends with: one table is shared across all targets.
   */
  lemma {:induction false} RenameTargetsTransforms<V>(rm: RenameMap, infos: seq<TargetInfo<V>>, orders: seq<seq<string>>)
    requires OrdersFor(infos, orders)
    ensures var (outs, rm') := RenameTargets(rm, infos, orders);
      AllTransformed(outs, Relevant(infos), RelevantOrders(infos, orders), rm'.m)
    decreases |infos|
  {
    if |infos| > 0 {
      OrdersForTail(infos, orders);
      var rel, relOrders := Relevant(infos[1..]), RelevantOrders(infos[1..], orders[1..]);
      if IsPythonTarget(infos[0].targetType) {
        var (out, rm1) := HandlePythonModule(infos[0], infos[0].targetType, orders[0], rm);
        RenameTargetsTransforms(rm1, infos[1..], orders[1..]);
        var (rest, rm2) := RenameTargets(rm1, infos[1..], orders[1..]);
        TransformedStable(out, infos[0], orders[0], rm1.m, rm2.m);
        assert RenameTargets(rm, infos, orders) == ([out] + rest, rm2);
        assert Relevant(infos) == [infos[0]] + rel;
        assert RelevantOrders(infos, orders) == [orders[0]] + relOrders;
        PrependTransformed(out, rest, infos[0], rel, orders[0], relOrders, rm2.m);
      } else {
        RenameTargetsTransforms(rm, infos[1..], orders[1..]);
        assert RenameTargets(rm, infos, orders) == RenameTargets(rm, infos[1..], orders[1..]);
        assert Relevant(infos) == rel;
        assert RelevantOrders(infos, orders) == relOrders;
      }
    }
  }

  lemma PrependTransformed<V>(out: TargetWithContent<V>, rest: seq<TargetWithContent<V>>,
                              info: TargetInfo<V>, rel: seq<TargetInfo<V>>,
                              order: seq<string>, relOrders: seq<seq<string>>, m: map<string, string>)
    requires Transformed(out, info, order, m)
    requires AllTransformed(rest, rel, relOrders, m)
    ensures AllTransformed([out] + rest, [info] + rel, [order] + relOrders, m)
  {
    var outs, rels, ords := [out] + rest, [info] + rel, [order] + relOrders;
    forall k | 0 <= k < |outs|
      ensures Transformed(outs[k], rels[k], ords[k], m)
    {
      if k > 0 {
        assert outs[k] == rest[k - 1] && rels[k] == rel[k - 1] && ords[k] == relOrders[k - 1];
      }
    }
  }

  /**
   Cross-target consistency: when the supply never produces a `/`, two
   outputs of one run whose original paths share a renamed component `i`
   (a shared directory, say) have the same renamed component `i`.
   */
  lemma PipelineSharedComponent<V>(gen: Supply, infos: seq<TargetInfo<V>>, orders: seq<seq<string>>,
                                   k1: nat, k2: nat, i: nat)
    requires OrdersFor(infos, orders)
    requires SupplyAvoidsSlash(gen)
    requires k1 < |Relevant(infos)| && k2 < |Relevant(infos)|
    requires var p1, p2 := ModuleParts(Relevant(infos)[k1].address.path), ModuleParts(Relevant(infos)[k2].address.path);
      i < |p1| && i < |p2| && p1[i] == p2[i] && !KeptVerbatim(p1, i) && !KeptVerbatim(p2, i)
    ensures var outs := RenamePythonTargets(gen, infos, orders);
      var q1, q2 := ModuleParts(outs[k1].address.path), ModuleParts(outs[k2].address.path);
      i < |q1| && i < |q2| && q1[i] == q2[i]
  {
    var rm := Fresh(gen);
    var (outs, rm') := RenameTargets(rm, infos, orders);
    var rel := Relevant(infos);
    RenameTargetsTransforms(rm, infos, orders);
    assert Transformed(outs[k1], rel[k1], RelevantOrders(infos, orders)[k1], rm'.m);
    assert Transformed(outs[k2], rel[k2], RelevantOrders(infos, orders)[k2], rm'.m);
    RenamedPathParts(rm'.m, rel[k1].address.path);
    RenamedPathParts(rm'.m, rel[k2].address.path);
  }
}
