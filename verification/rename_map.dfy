/**
 The memoising key-to-pseudonym table (`RenameMap`). The random name generator
 is an uninterpreted supply `gen`; `next` counts how many names have been drawn
 from it, so a fresh name is always `gen(next)`. The table is a value threaded
 through every call instead of a mutable object.
 */
module RenameMaps {
  import opened Text

  /** The pseudonym generator: the n-th name it hands out. */
  type Supply = nat -> string

  datatype RenameMap = RenameMap(gen: Supply, m: map<string, string>, next: nat)

  /** A table at the start of a run: nothing assigned, nothing drawn. */
  function Fresh(gen: Supply): (rm: RenameMap)
    ensures rm.gen == gen
    ensures rm.m.Keys == {}
    ensures |rm.m| == rm.next
  {
    RenameMap(gen, map[], 0)
  }

  /** The assumption made of the generator: its names never contain a `/`. */
  ghost predicate SupplyAvoidsSlash(gen: Supply)
  {
    forall i: nat :: '/' !in gen(i)
  }

  /** Neither the generator nor any name already handed out contains a `/`. */
  ghost predicate NamesAvoidSlash(rm: RenameMap)
  {
    && SupplyAvoidsSlash(rm.gen)
    && forall k :: k in rm.m ==> '/' !in rm.m[k]
  }

  /** `rm'` is a later state of `rm`: same generator, every old entry kept as it was. */
  ghost predicate Extends(rm: RenameMap, rm': RenameMap)
  {
    && rm'.gen == rm.gen
    && rm.next <= rm'.next
    && (forall k :: k in rm.m ==> k in rm'.m && rm'.m[k] == rm.m[k])
  }

  /**
   `assign_name(key)`: the stored pseudonym when `key` is known, otherwise the
   next name of the supply, stored under `key`.
   */
  function AssignName(rm: RenameMap, key: string): (res: (string, RenameMap))
    ensures Extends(rm, res.1)
    ensures res.1.m.Keys == rm.m.Keys + {key}
    ensures key in res.1.m && res.1.m[key] == res.0
    ensures key in rm.m ==> res.0 == rm.m[key] && res.1 == rm
    ensures key !in rm.m ==> res.0 == rm.gen(rm.next) && res.1.next == rm.next + 1
    ensures |res.1.m| - |rm.m| == res.1.next - rm.next
    ensures NamesAvoidSlash(rm) ==> NamesAvoidSlash(res.1)
  {
    if key in rm.m then (rm.m[key], rm)
    else
      var name := rm.gen(rm.next);
      (name, RenameMap(rm.gen, rm.m[key := name], rm.next + 1))
  }

  /** Asking twice is asking once: the second call returns the same name and changes nothing. */
  lemma AssignNameMemoised(rm: RenameMap, key: string)
    ensures var (name, rm') := AssignName(rm, key);
      AssignName(rm', key) == (name, rm')
  {
  }

  /**
   `assign_many(keys)`: `assign_name` applied to each key, left to right, the
   table of each call feeding the next. What the names are is stated by
   `AssignManyNames`.
   */
  function AssignMany(rm: RenameMap, keys: seq<string>): (res: (seq<string>, RenameMap))
    ensures |res.0| == |keys|
    ensures Extends(rm, res.1)
    decreases |keys|
  {
    if |keys| == 0 then ([], rm)
    else
      var head := AssignName(rm, keys[0]);
      var tail := AssignMany(head.1, keys[1..]);
      ([head.0] + tail.0, tail.1)
  }

  /** After `assign_many(keys)` the table knows exactly the old keys and `keys`. */
  lemma {:induction false} AssignManyKeys(rm: RenameMap, keys: seq<string>)
    ensures AssignMany(rm, keys).1.m.Keys == rm.m.Keys + ToSet(keys)
    decreases |keys|
  {
    if |keys| > 0 {
      var rm1 := AssignName(rm, keys[0]).1;
      AssignManyKeys(rm1, keys[1..]);
      ToSetCons(keys);
      assert AssignMany(rm, keys).1 == AssignMany(rm1, keys[1..]).1;
    }
  }

  /** The i-th name `assign_many(keys)` returns is the one now stored for `keys[i]`. */
  lemma {:induction false} AssignManyNames(rm: RenameMap, keys: seq<string>)
    ensures var res := AssignMany(rm, keys);
      forall i :: 0 <= i < |keys| ==> keys[i] in res.1.m && res.0[i] == res.1.m[keys[i]]
    decreases |keys|
  {
    if |keys| > 0 {
      var head := AssignName(rm, keys[0]);
      var tail := AssignMany(head.1, keys[1..]);
      AssignManyNames(head.1, keys[1..]);
      var res := AssignMany(rm, keys);
      assert res.1 == tail.1;
      assert res.0 == [head.0] + tail.0;
      forall i | 0 <= i < |keys|
        ensures keys[i] in res.1.m && res.0[i] == res.1.m[keys[i]]
      {
        if i > 0 {
          assert keys[i] == keys[1..][i - 1];
          assert res.0[i] == tail.0[i - 1];
        }
      }
    }
  }

  /** A generator and table free of `/` stay free of it. */
  lemma {:induction false} AssignManyAvoidsSlash(rm: RenameMap, keys: seq<string>)
    requires NamesAvoidSlash(rm)
    ensures NamesAvoidSlash(AssignMany(rm, keys).1)
    decreases |keys|
  {
    if |keys| > 0 {
      AssignManyAvoidsSlash(AssignName(rm, keys[0]).1, keys[1..]);
    }
  }

  /** Equal keys in one batch get equal names. */
  lemma AssignManyConsistent(rm: RenameMap, keys: seq<string>, i: nat, j: nat)
    requires i < |keys| && j < |keys| && keys[i] == keys[j]
    ensures AssignMany(rm, keys).0[i] == AssignMany(rm, keys).0[j]
  {
    AssignManyNames(rm, keys);
  }

  /** Keys that are all known already: the table is left exactly as it was. */
  lemma {:induction false} AssignManyKnown(rm: RenameMap, keys: seq<string>)
    requires forall i :: 0 <= i < |keys| ==> keys[i] in rm.m
    ensures AssignMany(rm, keys).1 == rm
    decreases |keys|
  {
    if |keys| > 0 {
      AssignManyKnown(rm, keys[1..]);
    }
  }

  /**
   The keys of a batch that `known` lacks, each at its first occurrence, in
   batch order: the keys that make `assign_many` draw a new name.
   */
  function NewKeys(known: set<string>, keys: seq<string>): (nk: seq<string>)
    ensures forall j :: 0 <= j < |nk| ==> nk[j] !in known && nk[j] in keys
    ensures forall k :: k in keys && k !in known ==> k in nk
    ensures ToSet(nk) == ToSet(keys) - known
    ensures forall i, j :: 0 <= i < j < |nk| ==> nk[i] != nk[j]
    decreases |keys|
  {
    if |keys| == 0 then []
    else if keys[0] in known then NewKeys(known, keys[1..])
    else [keys[0]] + NewKeys(known + {keys[0]}, keys[1..])
  }

  /** One key is new exactly when it is not known. */
  lemma NewKeysSingle(known: set<string>, key: string)
    ensures NewKeys(known, [key]) == if key in known then [] else [key]
  {
    assert [key][1..] == [];
  }

  /**
   The new keys of two batches in a row are those of the first, then those
   the second adds. With `NewKeysSingle` this fixes `NewKeys` as the batch's
   unknown keys in the order of their first occurrences.
   */
  lemma {:induction false} NewKeysAppend(known: set<string>, a: seq<string>, b: seq<string>)
    ensures NewKeys(known, a + b) == NewKeys(known, a) + NewKeys(known + ToSet(a), b)
    decreases |a|
  {
    if |a| == 0 {
      assert a + b == b;
      assert NewKeys(known, a) == [];
      assert known + ToSet(a) == known;
    } else {
      assert (a + b)[0] == a[0];
      assert (a + b)[1..] == a[1..] + b;
      ToSetCons(a);
      if a[0] in known {
        NewKeysAppend(known, a[1..], b);
        assert known + ToSet(a) == known + ToSet(a[1..]);
      } else {
        NewKeysAppend(known + {a[0]}, a[1..], b);
        assert known + {a[0]} + ToSet(a[1..]) == known + ToSet(a);
      }
    }
  }

  /**
   From `rm` to `rm'` exactly the names for `nk` were drawn, in order: the
   `j`-th key of `nk` holds the generator's `j`-th next name.
   */
  ghost predicate DrawnInOrder(rm: RenameMap, rm': RenameMap, nk: seq<string>)
  {
    && rm'.next == rm.next + |nk|
    && forall j :: 0 <= j < |nk| ==> nk[j] in rm'.m && rm'.m[nk[j]] == rm.gen(rm.next + j)
  }

  /**
   `assign_many` draws left to right: the `j`-th new key of the batch gets
   the generator's `j`-th next name, and no other name is drawn.
   */
  lemma {:induction false} AssignManyDraws(rm: RenameMap, keys: seq<string>)
    ensures DrawnInOrder(rm, AssignMany(rm, keys).1, NewKeys(rm.m.Keys, keys))
    decreases |keys|
  {
    if |keys| > 0 {
      var head := AssignName(rm, keys[0]).1;
      var rm' := AssignMany(head, keys[1..]).1;
      AssignManyDraws(head, keys[1..]);
      assert AssignMany(rm, keys).1 == rm';
      if keys[0] !in rm.m {
        assert head.m.Keys == rm.m.Keys + {keys[0]};
        var tail := NewKeys(head.m.Keys, keys[1..]);
        assert NewKeys(rm.m.Keys, keys) == [keys[0]] + tail;
        DrawsAfterNew(rm, head, rm', keys[0], tail);
      } else {
        assert NewKeys(rm.m.Keys, keys) == NewKeys(rm.m.Keys, keys[1..]);
      }
    }
  }

  /** A new key drawn first, then the draws of the rest of the batch. */
  lemma DrawsAfterNew(rm: RenameMap, head: RenameMap, rm': RenameMap, key: string, tail: seq<string>)
    requires head.gen == rm.gen && head.next == rm.next + 1
    requires key in head.m && head.m[key] == rm.gen(rm.next)
    requires Extends(head, rm')
    requires DrawnInOrder(head, rm', tail)
    ensures DrawnInOrder(rm, rm', [key] + tail)
  {
    var nk := [key] + tail;
    forall j | 0 <= j < |nk|
      ensures nk[j] in rm'.m && rm'.m[nk[j]] == rm.gen(rm.next + j)
    {
      if j > 0 {
        assert nk[j] == tail[j - 1];
      }
    }
  }

  /** Drawn from a fresh table: the `j`-th key holds the generator's `j`-th name. */
  lemma DrawnFromFresh(gen: Supply, rm': RenameMap, nk: seq<string>)
    requires DrawnInOrder(Fresh(gen), rm', nk)
    ensures rm'.next == |nk|
    ensures forall j :: 0 <= j < |nk| ==> nk[j] in rm'.m && rm'.m[nk[j]] == gen(j)
  {
    assert Fresh(gen).next == 0 && Fresh(gen).gen == gen;
  }

  /** From a fresh table, `assign_many(["x", "y"])` names `x` first. */
  lemma DrawOrderExample(gen: Supply)
    ensures AssignMany(Fresh(gen), ["x", "y"]).0 == [gen(0), gen(1)]
  {
    var keys := ["x", "y"];
    AssignManyNames(Fresh(gen), keys);
    AssignManyDraws(Fresh(gen), keys);
    assert keys[1..] == ["y"] && ["y"][1..] == [];
    assert NewKeys(Fresh(gen).m.Keys, keys) == keys;
    DrawnFromFresh(gen, AssignMany(Fresh(gen), keys).1, keys);
  }

  /** Two batches in a row leave the table the single concatenated batch leaves. */
  lemma {:induction false} AssignManyAppend(rm: RenameMap, a: seq<string>, b: seq<string>)
    ensures AssignMany(rm, a + b).1 == AssignMany(AssignMany(rm, a).1, b).1
    decreases |a|
  {
    if |a| == 0 {
      assert a + b == b;
    } else {
      assert (a + b)[0] == a[0];
      assert (a + b)[1..] == a[1..] + b;
      AssignManyAppend(AssignName(rm, a[0]).1, a[1..], b);
    }
  }

  /**
   `mapping`: a read-only view of everything assigned so far. Its keys are
   exactly those whose assignment would change nothing.
   */
  function Mapping(rm: RenameMap): (view: map<string, string>)
    ensures forall k :: k in view ==> AssignName(rm, k) == (view[k], rm)
    ensures forall k :: k !in view ==> AssignName(rm, k).1.m.Keys != rm.m.Keys
  {
    rm.m
  }
}
