/**
 `rename_python_module`: a module file path renamed component by component
 through the rename table, so that paths sharing a directory prefix keep a
 shared (renamed) prefix. A final `__init__` or `__main__` is kept verbatim.
 */
module ModulePaths {
  import opened Text
  import opened RenameMaps

  /** The leaf names that are structural, not identifying, and are never renamed. */
  predicate IsReserved(leaf: string)
  {
    leaf == "__init__" || leaf == "__main__"
  }

  /** `path.removesuffix(".py").split("/")`: the components of a module path. */
  function ModuleParts(path: string): (parts: seq<string>)
    ensures |parts| >= 1
  {
    Split(RemoveSuffix(path, ".py"), '/')
  }

  /** Component `i` of `parts` is kept as written: it is the last one and it is reserved. */
  predicate KeptVerbatim(parts: seq<string>, i: int)
  {
    i == |parts| - 1 && i >= 0 && IsReserved(parts[i])
  }

  /** The components that go through the rename table. */
  function RenamedKeys(parts: seq<string>): (keys: seq<string>)
    requires |parts| >= 1
    ensures |keys| == |parts| || (|keys| == |parts| - 1 && KeptVerbatim(parts, |parts| - 1))
    ensures keys == parts[..|keys|]
    ensures |keys| == |parts| - 1 <==> IsReserved(parts[|parts| - 1])
  {
    if IsReserved(parts[|parts| - 1]) then parts[..|parts| - 1] else parts
  }

  /** Every component that is renamed has a name in `m`. */
  predicate Covers(m: map<string, string>, parts: seq<string>)
  {
    forall i :: 0 <= i < |parts| && !KeptVerbatim(parts, i) ==> parts[i] in m
  }

  /**
   The reference renaming: component `i` becomes `m[parts[i]]`, except a
   reserved last component, which stays.
   */
  function RenamedParts(m: map<string, string>, parts: seq<string>): (r: seq<string>)
    requires Covers(m, parts)
    ensures |r| == |parts|
  {
    seq(|parts|, i requires 0 <= i < |parts| && Covers(m, parts) =>
      if KeptVerbatim(parts, i) then parts[i] else m[parts[i]])
  }

  /** The renamed path a table `m` that covers `path` gives it. */
  function RenamedPath(m: map<string, string>, path: string): string
    requires Covers(m, ModuleParts(path))
  {
    Join(RenamedParts(m, ModuleParts(path)), '/') + ".py"
  }

  /**
   `rename_python_module(path, rename_map)`. It has no failure case: `split`
   always yields at least one component. The result ends in `.py`, every
   renamed component now has a name, and, when no name contains a `/`, the
   result has exactly the components `RenamedParts` says.
   */
  function RenamePythonModule(rm: RenameMap, path: string): (res: (string, RenameMap))
    ensures EndsWith(res.0, ".py")
    ensures Extends(rm, res.1)
    ensures res.1.m.Keys == rm.m.Keys + ToSet(RenamedKeys(ModuleParts(path)))
    ensures Covers(res.1.m, ModuleParts(path)) && res.0 == RenamedPath(res.1.m, path)
    ensures NamesAvoidSlash(rm) ==>
      && NamesAvoidSlash(res.1)
      && ModuleParts(res.0) == RenamedParts(res.1.m, ModuleParts(path))
  {
    var parts := ModuleParts(path);
    var keys := RenamedKeys(parts);
    var (names, rm') := AssignMany(rm, keys);
    var renamed := if |keys| < |parts| then names + [parts[|parts| - 1]] else names;
    AssignManyKeys(rm, keys);
    AssignManyNames(rm, keys);
    RenamedComponents(rm', parts, keys, names, renamed);
    RemoveAppendedSuffix(Join(renamed, '/'), ".py");
    SlashFreeShape(rm, keys, renamed);
    (Join(renamed, '/') + ".py", rm')
  }

  /** With `/`-free names the joined components split back into themselves. */
  lemma SlashFreeShape(rm: RenameMap, keys: seq<string>, renamed: seq<string>)
    requires |renamed| >= 1
    requires NamesAvoidSlash(AssignMany(rm, keys).1) ==> Unseparated(renamed, '/')
    ensures NamesAvoidSlash(rm) ==>
      NamesAvoidSlash(AssignMany(rm, keys).1) && Split(Join(renamed, '/'), '/') == renamed
  {
    if NamesAvoidSlash(rm) {
      AssignManyAvoidsSlash(rm, keys);
      SplitJoin(renamed, '/');
    }
  }

  /** The components `rename_python_module` joins are the reference renaming. */
  lemma RenamedComponents(rm: RenameMap, parts: seq<string>, keys: seq<string>, names: seq<string>, renamed: seq<string>)
    requires |parts| >= 1 && keys == RenamedKeys(parts) && |names| == |keys|
    requires forall i :: 0 <= i < |keys| ==> keys[i] in rm.m && names[i] == rm.m[keys[i]]
    requires renamed == if |keys| < |parts| then names + [parts[|parts| - 1]] else names
    ensures Covers(rm.m, parts)
    ensures renamed == RenamedParts(rm.m, parts)
    ensures NamesAvoidSlash(rm) ==> Unseparated(renamed, '/')
  {
    assert Covers(rm.m, parts) by {
      forall i | 0 <= i < |parts| && !KeptVerbatim(parts, i)
        ensures parts[i] in rm.m
      {
        assert i < |keys| && keys[i] == parts[i];
      }
    }
    var ref := RenamedParts(rm.m, parts);
    forall i | 0 <= i < |parts|
      ensures renamed[i] == ref[i]
    {
      if i < |keys| {
        assert keys[i] == parts[i];
        assert !KeptVerbatim(parts, i);
      }
    }
    if NamesAvoidSlash(rm) {
      forall i | 0 <= i < |renamed|
        ensures '/' !in renamed[i]
      {
        if i >= |keys| {
          assert renamed[i] == parts[|parts| - 1];
        }
      }
    }
  }

  /** A later table of the same run renames a covered path the same way. */
  lemma RenamedPathStable(m1: map<string, string>, m2: map<string, string>, path: string)
    requires Covers(m1, ModuleParts(path))
    requires forall k :: k in m1 ==> k in m2 && m2[k] == m1[k]
    ensures Covers(m2, ModuleParts(path))
    ensures RenamedPath(m1, path) == RenamedPath(m2, path)
  {
    assert RenamedParts(m1, ModuleParts(path)) == RenamedParts(m2, ModuleParts(path));
  }

  /** With `/`-free names, the components of a renamed path are the renamed components. */
  lemma RenamedPathParts(m: map<string, string>, path: string)
    requires Covers(m, ModuleParts(path))
    requires forall k :: k in m ==> '/' !in m[k]
    ensures ModuleParts(RenamedPath(m, path)) == RenamedParts(m, ModuleParts(path))
  {
    var parts := ModuleParts(path);
    var renamed := RenamedParts(m, parts);
    forall i | 0 <= i < |renamed|
      ensures '/' !in renamed[i]
    {
      if !KeptVerbatim(parts, i) {
        assert renamed[i] == m[parts[i]];
      }
    }
    RemoveAppendedSuffix(Join(renamed, '/'), ".py");
    SplitJoin(renamed, '/');
  }

  /**
   Renaming again with the table the first call left returns the same path
   and leaves the table as it is.
   */
  lemma RenameIdempotent(rm: RenameMap, path: string)
    ensures var (r, rm') := RenamePythonModule(rm, path);
      RenamePythonModule(rm', path) == (r, rm')
  {
    var (r, rm') := RenamePythonModule(rm, path);
    RenameKnownKeeps(rm', path);
  }

  /** A path whose renamed components all have names already leaves the table as it is. */
  lemma RenameKnownKeeps(rm: RenameMap, path: string)
    requires ToSet(RenamedKeys(ModuleParts(path))) <= rm.m.Keys
    ensures RenamePythonModule(rm, path).1 == rm
  {
    var keys := RenamedKeys(ModuleParts(path));
    assert forall i :: 0 <= i < |keys| ==> keys[i] in ToSet(keys);
    AssignManyKnown(rm, keys);
  }

  /** The table after renaming a path is the table after assigning its renamed components. */
  lemma RenameTable(rm: RenameMap, path: string)
    ensures RenamePythonModule(rm, path).1 == AssignMany(rm, RenamedKeys(ModuleParts(path))).1
  {
  }

  /**
   Renaming a path draws names for its new components from left to right:
   the `j`-th component not yet in the table gets the generator's `j`-th next name.
   */
  lemma RenameDraws(rm: RenameMap, path: string)
    ensures DrawnInOrder(rm, RenamePythonModule(rm, path).1, NewKeys(rm.m.Keys, RenamedKeys(ModuleParts(path))))
  {
    RenameTable(rm, path);
    AssignManyDraws(rm, RenamedKeys(ModuleParts(path)));
  }

  /**
   A reserved last component survives: renaming `dir/__init__.py` ends in
   `/__init__.py` when the directory components are renamed without `/`.
   */
  lemma ReservedLeafKept(rm: RenameMap, path: string)
    requires NamesAvoidSlash(rm)
    requires IsReserved(ModuleParts(path)[|ModuleParts(path)| - 1])
    ensures var (r, rm') := RenamePythonModule(rm, path);
      var out := ModuleParts(r);
      out[|out| - 1] == ModuleParts(path)[|ModuleParts(path)| - 1]
  {
    var parts := ModuleParts(path);
    var (r, rm') := RenamePythonModule(rm, path);
    var renamed := RenamedParts(rm'.m, parts);
    assert ModuleParts(r) == renamed;
    assert KeptVerbatim(parts, |parts| - 1);
    assert renamed[|parts| - 1] == parts[|parts| - 1];
  }

  /** One renaming's table, and a later table of the same run, give a component the same name. */
  lemma SameComponentSameName(m1: map<string, string>, m2: map<string, string>,
                              p1: seq<string>, p2: seq<string>, i: nat)
    requires Covers(m1, p1) && Covers(m2, p2)
    requires forall k :: k in m1 ==> k in m2 && m2[k] == m1[k]
    requires i < |p1| && i < |p2| && p1[i] == p2[i]
    requires !KeptVerbatim(p1, i) && !KeptVerbatim(p2, i)
    ensures RenamedParts(m1, p1)[i] == RenamedParts(m2, p2)[i]
  {
  }

  /**
   The structural-preservation property: two paths renamed one after the
   other with the same table agree on every renamed component they share, so
   a shared directory prefix stays a shared (renamed) prefix.
   */
  lemma SharedPrefixPreserved(rm: RenameMap, path1: string, path2: string, i: nat)
    requires NamesAvoidSlash(rm)
    requires var p1, p2 := ModuleParts(path1), ModuleParts(path2);
      i < |p1| && i < |p2| && p1[i] == p2[i] && !KeptVerbatim(p1, i) && !KeptVerbatim(p2, i)
    ensures var (r1, rm1) := RenamePythonModule(rm, path1);
      var (r2, rm2) := RenamePythonModule(rm1, path2);
      ModuleParts(r1)[i] == ModuleParts(r2)[i]
  {
    var (r1, rm1) := RenamePythonModule(rm, path1);
    var (r2, rm2) := RenamePythonModule(rm1, path2);
    SameComponentSameName(rm1.m, rm2.m, ModuleParts(path1), ModuleParts(path2), i);
  }
}
