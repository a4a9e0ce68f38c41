# peek_reader renaming core, modelled in Dafny

`obfuscator/peek_reader.py` anonymises a build graph. It reads a list of
target records, each with a build address `[//]path[:name][#subtarget]`, a
target type and dependency paths. It keeps the Python targets, renames every
directory and module component except a final `__init__`/`__main__` through
one memoising table of random pseudonyms, and gives each target a synthetic
module body. That body is one import line per inferred dependency that is not
a package `__init__`. Because one table is shared by the whole
run, two files in the same directory land in the same renamed directory.

The model has six modules, one file each:

- `text.dfy` (`Text`): the Python string built-ins the core relies on. These
  are `sep.join`, `s.split(sep)` for a one-character separator,
  `removesuffix` and `str(n)`. Each is written out on `seq<char>` and proved
  to invert its partner.
- `rename_map.dfy` (`RenameMaps`): `RenameMap` as a value
  `RenameMap(gen, m, next)`. `gen: nat -> string` stands for the random name
  generator, and `next` counts the names drawn so far. The table is threaded
  through every call instead of being mutated.
- `address.dfy` (`Addresses`): `last_path_part`, the address pattern as an
  anchored character scanner, `Address.from_str` and `Address.__str__`.
- `module_paths.dfy` (`ModulePaths`): `rename_python_module`, with a
  reference definition of the renamed path.
- `imports.dfy` (`Imports`): `render_imports`, with a reference definition
  of which dependencies produce a line and which alias counter each gets.
- `targets.dfy` (`Targets`): `TargetInfo`, `TargetWithContent`,
  `handle_python_module`, `type_to_handler` and `rename_python_targets`.

Things the code does that are easy to miss:

- `from_str` fails only on an empty string or one starting with `:` or `#`.
  An empty path cannot be stored, but the pattern accepts nearly anything else.
- `rename_python_module` never fails. `split` always returns at least one
  component, even for an empty path, which becomes `<name>.py`.
- For the same reason the `ValueError("zero-length dependency address")`
  branch of `render_imports` (line 136) can never run. An empty dependency
  renders as an import of its pseudonym; it is not rejected.
- `dependencies_raw` is not checked to be a subset of `dependencies`. Raw
  entries that are not dependencies are ignored (`Targets.InferredDeps`).
- Aliases are unique only per leaf. `a` imported for the eleventh time and
  `a1` imported for the first time are both aliased `a11`
  (`Imports.AliasesMayCollideAcrossLeaves`). The model follows the code.
- `str(from_str(s))` is not always `s`, and `from_str(str(a))` is not always
  `a`. A path ending in `/` with no name is written with an empty name after
  the `:`, and the pattern then drops the subtarget
  (`Addresses.TrailingSlashLosesSubtarget`). With a name, or with no
  subtarget, such a path survives. A path that starts
  with `//` followed by a path character loses those two characters on
  re-parsing. The bare path `//` is kept, because the pattern gives the `//`
  back when a delimiter follows it. An empty path is written as `//` and reads
  back as the path `//` (`Addresses.EmptyPathReparsed`).
  `Addresses.ShowThenParse` is stated for the addresses that avoid these
  cases (`Addresses.WellFormed`). `Addresses.ParseThenShow` is stated for
  strings with an explicit name whose path is not `//` followed by more text.
- Text after the last group is ignored, and a second `:` ends the name, so
  `a:b:c` parses with the name `b` (`Addresses.TrailingTextIgnored`).

Names are drawn from the generator left to right. Within a target, its own
path's components are drawn first, then its dependencies' components. Across
a run, targets are handled in input order. The `j`-th distinct component met
in that order is named by the generator's `j`-th name
(`Targets.RunDraws`).

Python iterates the set of inferred dependencies in an order of its own. The
model takes that order as a parameter, constrained to list the set with no
repeats (`Targets.Enumerates`). Every property holds whatever order is
passed.

## Model

| member | source | states |
|---|---|---|
| Text.Split | obfuscator/peek_reader.py:112 | `split("/")` always yields at least one piece, even for the empty string |
| Text.SplitParts | obfuscator/peek_reader.py:112 | the pieces of `split` contain no separator and join back into the original string |
| Text.JoinInjective | obfuscator/peek_reader.py:117 | `Text.Join` (`sep.join`) is injective: two lists of separator-free parts with the same join are equal |
| Text.SplitJoin | obfuscator/peek_reader.py:112-117 | `split` undoes `Text.Join` for separator-free parts, so a joined renamed path splits back into its components |
| Text.RemoveSuffixRestores | obfuscator/peek_reader.py:112 | `Text.RemoveSuffix` (`removesuffix`) strips one copy of a present suffix, so appending it restores the input, and changes nothing when the suffix is absent |
| Text.RemoveAppendedSuffix | obfuscator/peek_reader.py:117 | stripping `.py` from a path that had `.py` appended gives the path back |
| Text.Decimal | obfuscator/peek_reader.py:130 | `str(k)` is a non-empty digit string that starts with `0` exactly when `k` is 0 |
| Text.DecimalRoundTrip | obfuscator/peek_reader.py:130 | reading the digits of `str(k)` back gives `k` |
| Text.DecimalInjective | obfuscator/peek_reader.py:130 | distinct counters have distinct numerals |
| RenameMaps.Fresh | obfuscator/peek_reader.py:17-19 | a new table draws from the given generator, holds no keys, and has drawn no names |
| RenameMaps.AssignName | obfuscator/peek_reader.py:21-24 | a known key returns its stored name and leaves the table unchanged; an unknown key gets the generator's next name, stored under it; no old entry changes; the table grows by one key per name drawn; `/`-free names stay `/`-free |
| RenameMaps.AssignNameMemoised | obfuscator/peek_reader.py:21-24 | asking for the same key a second time returns the same name and changes nothing |
| RenameMaps.AssignMany | obfuscator/peek_reader.py:26-27 | one name per key, and the table only grows; the order of the draws is stated by `RenameMaps.AssignManyDraws` |
| RenameMaps.AssignManyKeys | obfuscator/peek_reader.py:26-27 | afterwards the table knows exactly the old keys plus the batch's keys |
| RenameMaps.AssignManyNames | obfuscator/peek_reader.py:26-27 | the i-th returned name is the name now stored for the i-th key |
| RenameMaps.AssignManyConsistent | obfuscator/peek_reader.py:26-27 | equal keys in one batch get equal names |
| RenameMaps.AssignManyKnown | obfuscator/peek_reader.py:21-27 | a batch of keys that are all known leaves the table exactly as it was |
| RenameMaps.NewKeys | obfuscator/peek_reader.py:21-27 | the keys of a batch that make `assign_many` draw a name: exactly the batch's keys that are not yet known, as a set, each listed once |
| RenameMaps.NewKeysSingle | obfuscator/peek_reader.py:21-24 | a one-key batch draws a name exactly when its key is not yet known |
| RenameMaps.NewKeysAppend | obfuscator/peek_reader.py:26-27 | the new keys of two batches in a row are those of the first, then those the second adds; with `RenameMaps.NewKeysSingle`, this lists the new keys in the order of their first occurrences |
| RenameMaps.AssignManyDraws | obfuscator/peek_reader.py:21-27 | `assign_many` draws left to right: the j-th new key of the batch gets the generator's j-th next name, and exactly that many names are drawn |
| RenameMaps.AssignManyAppend | obfuscator/peek_reader.py:26-27 | two batches in a row leave the same table as the concatenated batch |
| RenameMaps.DrawOrderExample | obfuscator/peek_reader.py:21-27 | from a fresh table, `assign_many(["x", "y"])` returns the generator's first name, then its second |
| RenameMaps.AssignManyAvoidsSlash | obfuscator/peek_reader.py:26-27 | with a `/`-free generator and table, the table stays `/`-free |
| RenameMaps.Mapping | obfuscator/peek_reader.py:29-31 | the view holds exactly the keys whose assignment would change nothing, with the name `assign_name` would return |
| Addresses.LastPathPart | obfuscator/peek_reader.py:47-48 | the result is the longest `/`-free suffix of the input |
| Addresses.LastPartUnique | obfuscator/peek_reader.py:47-48 | there is only one longest `/`-free suffix |
| Addresses.LastPathPartIsLastSplit | obfuscator/peek_reader.py:47-48 | `rsplit("/", 1)[-1]` equals the last piece of `split("/")` |
| Addresses.RunEnd | obfuscator/peek_reader.py:60 | the greedy `[^:#]+` run consumes only non-delimiters and stops at a delimiter or the end |
| Addresses.RunEndOfBlock | obfuscator/peek_reader.py:60 | a delimiter-free block followed by a delimiter or the end is consumed exactly |
| Addresses.MatchGroup | obfuscator/peek_reader.py:61-62 | an optional group is taken exactly when its marker is followed by a non-delimiter; it consumes nothing exactly when it captures nothing; a capture is non-empty, delimiter-free and runs up to the next delimiter or the end |
| Addresses.MatchGroupText | obfuscator/peek_reader.py:61-62 | the text a group consumed is its marker followed by its capture |
| Addresses.MatchGroupOf | obfuscator/peek_reader.py:61-62 | a group written out in full, followed by the other group or the end, is matched as exactly that group |
| Addresses.MatchAddress | obfuscator/peek_reader.py:57-65 | the pattern fails exactly on an empty string or one starting with `:` or `#`; a match starts right after a leading `//` exactly when a non-delimiter follows the `//`, and otherwise at the beginning; it captures a non-empty delimiter-free path and valid groups |
| Addresses.MatchAddressSpans | obfuscator/peek_reader.py:57-65 | the matched text is the skipped root, the path, then the two groups, and the path runs up to a delimiter or the end; with `Addresses.MatchPositions` (where each group starts) and `Addresses.MatchGroup`, this fixes the groups even when trailing text follows, as in `a:b:c` |
| Addresses.MatchComposed | obfuscator/peek_reader.py:57-65 | the scanner matches `[//]path[:name][#subtarget]` as exactly those groups, up to the end of the text, including the unrooted path `//` |
| Addresses.FromStr | obfuscator/peek_reader.py:67-79 | parsing fails exactly on an empty string or one starting with `:` or `#`; a parsed address has a non-empty path, no delimiters, and no name equal to the last path component |
| Addresses.ParseComposed | obfuscator/peek_reader.py:67-79 | parsing `[//]path[:name][#subtarget]` recovers the path and subtarget, and the name as `Addresses.NormalizedName` keeps it: dropped when it repeats the last path component; this includes `//:n`, `//#t` and `//:n#t` |
| Addresses.RedundantNameDropped | obfuscator/peek_reader.py:74-76 | through `Addresses.NormalizedName`, `p:last(p)[#t]` parses to the same address as `p[#t]`, with or without a root marker |
| Addresses.LastPathPartAfterRoot | obfuscator/peek_reader.py:59-76 | the skipped `//` never changes the last path component |
| Addresses.ShowIsCompose | obfuscator/peek_reader.py:81-85 | `Addresses.ToStr` (`__str__`) writes an address with a path as `path:name[#subtarget]`, the name defaulting to the last path component |
| Addresses.ParseThenShow | obfuscator/peek_reader.py:67-85 | `str(from_str(s)) == s` for `p:n[#t]` with non-empty delimiter-free pieces, unless `p` is `//` followed by more text |
| Addresses.ShowThenParse | obfuscator/peek_reader.py:67-85 | `from_str(str(a)) == a` for every well-formed address, including the bare path `//` and a path ending in `/` that has a name or no subtarget |
| Addresses.ParseBareColon | obfuscator/peek_reader.py:61-79 | `path:` with nothing after the colon parses to the path alone: the name group needs a character after its `:` |
| Addresses.EmptyPathReparsed | obfuscator/peek_reader.py:67-85 | `Addresses.ToStr` writes an empty path as `//`, and `from_str` reads that back as the path `//` with the same name and subtarget |
| Addresses.TrailingTextIgnored | obfuscator/peek_reader.py:57-79 | `a:b:c` parses to path `a`, name `b`, and no subtarget: the match stops at the second `:` |
| Addresses.TrailingSlashLosesSubtarget | obfuscator/peek_reader.py:57-85 | `a/#t` parses with subtarget `t`, is written `a/:#t`, and re-parses without it |
| ModulePaths.ModuleParts | obfuscator/peek_reader.py:112 | a module path always has at least one component |
| ModulePaths.RenamedKeys | obfuscator/peek_reader.py:113-116 | the renamed components are a prefix of the components: all but the last exactly when the last is a reserved `__init__`/`__main__`, all of them otherwise |
| ModulePaths.RenamePythonModule | obfuscator/peek_reader.py:111-117 | the result ends in `.py`; the table gains exactly the renamed components and keeps its old entries; the result is the reference renaming under the new table; with `/`-free names its components are the renamed components |
| ModulePaths.RenamedPathStable | obfuscator/peek_reader.py:111-117 | any later table of the same run renames a covered path the same way |
| ModulePaths.RenamedPathParts | obfuscator/peek_reader.py:111-117 | with `/`-free names, the components of a renamed path are the renamed components |
| ModulePaths.RenameIdempotent | obfuscator/peek_reader.py:111-117 | renaming the same path again with the resulting table returns the same path and changes nothing |
| ModulePaths.RenameTable | obfuscator/peek_reader.py:111-117 | renaming a path leaves the table that assigning its renamed components leaves |
| ModulePaths.RenameDraws | obfuscator/peek_reader.py:111-117 | renaming a path draws names for its new components from left to right |
| ModulePaths.RenameKnownKeeps | obfuscator/peek_reader.py:111-117 | renaming a path whose renamed components all have names already leaves the table unchanged |
| ModulePaths.ReservedLeafKept | obfuscator/peek_reader.py:113-114 | a reserved last component survives renaming unchanged |
| ModulePaths.SameComponentSameName | obfuscator/peek_reader.py:111-117 | a shared renamed component gets the same name from a table and from any later table |
| ModulePaths.SharedPrefixPreserved | obfuscator/peek_reader.py:111-117 | two paths renamed one after the other agree on every renamed component they share, so a shared directory stays shared |
| Imports.RenderFrom | obfuscator/peek_reader.py:120-136 | the generator yields at most one line per dependency |
| Imports.RenderFromLines | obfuscator/peek_reader.py:120-136 | from any counter, the i-th line imports the i-th kept dependency with its leaf's old count plus its occurrence number |
| Imports.RenderImportsLines | obfuscator/peek_reader.py:120-136 | `Imports.RenderImports` (`render_imports`) yields one line per dependency that is not a package entry, in input order; the k-th import of a leaf is aliased `leaf + str(k)`, imported from the dotted package when there is one; each line is `Imports.ImportLine`, built from `Imports.Leaf` (the last component) and `Imports.FromPackage` (the dotted directory part) |
| Imports.PackageEntrySkipped | obfuscator/peek_reader.py:126-127 | an `__init__` dependency neither yields a line nor advances any counter |
| Imports.KeptSkips | obfuscator/peek_reader.py:126-127 | removing a package entry from the input leaves the kept dependencies unchanged |
| Imports.OccurrenceGrows | obfuscator/peek_reader.py:129-130 | a later import of the same leaf has a larger occurrence number |
| Imports.FirstOccurrenceIsOne | obfuscator/peek_reader.py:129-130 | the first import of a leaf is aliased with suffix `1` |
| Imports.AliasesDistinctPerLeaf | obfuscator/peek_reader.py:129-130 | two imports of the same leaf never share an alias |
| Imports.AliasesMayCollideAcrossLeaves | obfuscator/peek_reader.py:130 | aliases of different leaves can coincide (`a` + `11` and `a1` + `1`) |
| Imports.RenderExample | obfuscator/peek_reader.py:120-136 | `["x/c.py", "p/__init__.py", "c.py"]` renders as `from x import c as c1` and `import c as c2` |
| Targets.InferredDeps | obfuscator/peek_reader.py:148 | a dependency is inferred exactly when it is listed and not raw; raw entries that are not dependencies are ignored |
| Targets.RenameAll | obfuscator/peek_reader.py:149 | each path is renamed in turn, and every result is the path's reference renaming under the final table |
| Targets.JoinTerminated | obfuscator/peek_reader.py:150 | `"\n".join([*lines, ""])` is each line followed by a newline, and empty exactly when there are no lines |
| Targets.Content | obfuscator/peek_reader.py:150 | the module text is each import line of the renamed dependencies followed by a newline |
| Targets.HandlePythonModule | obfuscator/peek_reader.py:144-159 | the path and inferred dependencies are renamed under the final table; name, subtarget, type and other fields are kept; raw dependencies are cleared; the content is rendered from the renamed dependencies; the table only grows |
| Targets.RenameAllTable | obfuscator/peek_reader.py:149 | renaming a batch of paths leaves the table that assigning all their components in order leaves |
| Targets.HandleDraws | obfuscator/peek_reader.py:144-149 | handling a target draws one name per component the table lacks, in the order path first, then dependencies |
| Targets.HandleDrawsPathFirst | obfuscator/peek_reader.py:145-149 | the new components of the target's own path take the generator's next names, before any dependency draws one |
| Targets.HandleRenamesPathFirst | obfuscator/peek_reader.py:145-149 | handling a target renames its own path first and then its dependencies, as one batch through one table |
| Targets.HandledDependencies | obfuscator/peek_reader.py:148-155 | the output's dependencies, as a set, are exactly the renamed inferred dependencies |
| Targets.TransformedDependencies | obfuscator/peek_reader.py:148-155 | any transformed target's dependency set is the renaming of the inferred set |
| Targets.TransformedStable | obfuscator/peek_reader.py:168-175 | a handled target stays correctly renamed under every later table of the run |
| Targets.Relevant | obfuscator/peek_reader.py:162-174 | only `python_source` and `python_test` records are handled, and an input of only such records is handled in full |
| Targets.RelevantSingle | obfuscator/peek_reader.py:162-174 | one record is handled exactly when its type is `python_source` or `python_test` |
| Targets.RelevantAppend | obfuscator/peek_reader.py:168-175 | the records handled from a concatenation are those handled from each part, in input order, so a mixed input keeps every Python record in order |
| Targets.RenameTargets | obfuscator/peek_reader.py:168-175 | one output per Python target, one table threaded through the run, which only grows |
| Targets.RenamePythonTargets | obfuscator/peek_reader.py:168-175 | a run yields exactly one output per Python target |
| Targets.RenameTargetsTable | obfuscator/peek_reader.py:168-175 | a run leaves the table that assigning every handled component, in run order, leaves |
| Targets.RunDraws | obfuscator/peek_reader.py:168-175 | from a fresh table, the j-th distinct component a run meets is named by the generator's j-th name, and no other name is drawn |
| Targets.RenameTargetsTransforms | obfuscator/peek_reader.py:168-175 | the k-th output is the k-th Python target transformed under the one table the run ends with |
| Targets.PipelineSharedComponent | obfuscator/peek_reader.py:168-175 | with a `/`-free generator, two outputs of one run whose original paths share a renamed component at position i have the same component at position i |

## Left out

- `TargetInfo.from_dict` and `load_peek_data` (lines 96-108): JSON decoding from standard input. Records enter the model already decoded; `other` is a map to an arbitrary value type.
- `write_python_targets` and `main` (lines 178-192): writing files, creating directories and the process exit code.
- `relative_path_to_components` (lines 34-44): nothing in the core calls it.
- `namesgenerator.get_random_name`: the randomness is replaced by an arbitrary supply `gen: nat -> string`. Nothing is assumed of it except, for the structural lemmas, that its names contain no `/`. Two keys may therefore get the same pseudonym, as they can in `peek_reader.py`.
- `MappingProxyType` (line 31): the read-only wrapper is not modelled; `Mapping` returns the map value itself, which cannot be mutated anyway.
- The order in which Python iterates a set (line 149): it becomes a parameter, and every property holds for any order that lists the set once.
- The regular-expression engine (lines 57-65): only the one pattern is modelled, as a hand-written scanner. That includes the backtracking that gives up the `//` when no path character follows it.
- Addresses.ParseThenShow: stated for strings with an explicit, non-empty name whose path is not `//` followed by more text. A leading `//` before a path character is skipped by the pattern, so `//a:x` reads back as `a:x`. A string without a name, such as `a/#t`, is not covered, and for a path ending in `/` it loses its subtarget (see `Addresses.TrailingSlashLosesSubtarget`).
- Addresses.ShowThenParse: stated only for `Addresses.WellFormed` addresses. A path starting with `//` before a path character loses the `//`. A path ending in `/` loses its subtarget when it has no name. An empty path is written as `//`, which reads back as the path `//` (see `Addresses.EmptyPathReparsed`).
- Imports.RenderFrom: its own contract only bounds the number of lines. What each line is, and which dependencies produce one, is stated by `Imports.RenderFromLines` and `Imports.RenderImportsLines`.
- Targets.RenamePythonTargets: its own contract gives only the number of outputs. What each output is is stated by `Targets.RenameTargetsTransforms`, `Targets.RunDraws` and `Targets.PipelineSharedComponent`.
