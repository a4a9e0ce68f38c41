/**
 Build addresses `[//]path[:name][#subtarget]`: the anchored match of the
 address pattern written as a character scanner, the parser that normalises a
 redundant name away, and the serializer that always writes a name back.
 */
module Addresses {
  import opened Text

  datatype Option<T> = None | Some(value: T)

  /** A target's coordinate. An empty `name` stands for the last path component. */
  datatype Address = Address(path: string, name: string, subtarget: string)

  datatype ParseResult = Parsed(address: Address) | ParseError(input: string)

  /** `r` is the longest suffix of `s` without a `/`. */
  predicate IsLastPart(s: string, r: string)
  {
    && '/' !in r
    && |r| <= |s| && s[|s| - |r|..] == r
    && (|r| < |s| ==> s[|s| - |r| - 1] == '/')
  }

  /** `last_path_part(s)`, i.e. `s.rsplit("/", 1)[-1]`. */
  function LastPathPart(s: string): (r: string)
    ensures IsLastPart(s, r)
  {
    if |s| == 0 || s[|s| - 1] == '/' then ""
    else
      var init := s[..|s| - 1];
      var r := LastPathPart(init) + [s[|s| - 1]];
      assert s[|s| - |r|..] == init[|init| - |r| + 1..] + [s[|s| - 1]];
      r
  }

  /** There is only one longest `/`-free suffix. */
  lemma LastPartUnique(s: string, r1: string, r2: string)
    requires IsLastPart(s, r1) && IsLastPart(s, r2)
    ensures r1 == r2
  {
    assert |r1| == |r2| by {
      assert forall k :: |s| - |r1| <= k < |s| ==> s[k] == r1[k - (|s| - |r1|)];
      assert forall k :: |s| - |r2| <= k < |s| ==> s[k] == r2[k - (|s| - |r2|)];
    }
  }

  /** `last_path_part` agrees with the last piece of `s.split("/")`. */
  lemma LastPathPartIsLastSplit(s: string)
    ensures var parts := Split(s, '/');
      LastPathPart(s) == parts[|parts| - 1]
  {
    var parts := Split(s, '/');
    SplitParts(s, '/');
    if |parts| > 1 {
      JoinLast(parts, '/');
    }
    LastPartUnique(s, LastPathPart(s), parts[|parts| - 1]);
  }

  /** The last of several joined parts follows the last separator. */
  lemma {:induction false} JoinLast(parts: seq<string>, sep: char)
    requires |parts| > 1
    ensures var s := Join(parts, sep);
      var last := parts[|parts| - 1];
      && |last| < |s|
      && s[|s| - |last|..] == last
      && s[|s| - |last| - 1] == sep
  {
    if |parts| > 2 {
      JoinLast(parts[1..], sep);
    }
  }

  predicate IsDelimiter(c: char)
  {
    c == ':' || c == '#'
  }

  predicate NoDelimiter(s: string)
  {
    forall i :: 0 <= i < |s| ==> !IsDelimiter(s[i])
  }

  /** The optional `//` root marker, which the pattern skips before the path. */
  predicate StartsWithRoot(s: string)
  {
    |s| >= 2 && s[0] == '/' && s[1] == '/'
  }

  /** Greedy `[^:#]*` from `i`: where the run of non-delimiters starting at `i` stops. */
  function RunEnd(s: string, i: nat): (j: nat)
    requires i <= |s|
    ensures i <= j <= |s|
    ensures NoDelimiter(s[i..j])
    ensures j == |s| || IsDelimiter(s[j])
    decreases |s| - i
  {
    if i == |s| || IsDelimiter(s[i]) then i
    else
      var j := RunEnd(s, i + 1);
      assert s[i..j] == [s[i]] + s[i + 1..j];
      j
  }

  /** What an optional group `(?:<marker>([^:#]+))?` consumed. */
  function GroupText(marker: char, g: Option<string>): string
  {
    match g
    case None => ""
    case Some(t) => [marker] + t
  }

  /** A captured group is non-empty and free of delimiters. */
  predicate ValidGroup(g: Option<string>)
  {
    g.Some? ==> g.value != "" && NoDelimiter(g.value)
  }

  /**
   The optional group `(?:<marker>(?P<g>[^:#]+))?` at position `i`: taken when
   `marker` is followed by at least one non-delimiter, skipped otherwise.
   Returns the capture and the position after the group.
   */
  function MatchGroup(s: string, i: nat, marker: char): (res: (Option<string>, nat))
    requires i <= |s|
    ensures i <= res.1 <= |s|
    ensures res.0.None? <==> res.1 == i
    ensures res.0.Some? <==> i + 1 < |s| && s[i] == marker && !IsDelimiter(s[i + 1])
    ensures res.0.Some? ==> res.1 == |s| || IsDelimiter(s[res.1])
    ensures ValidGroup(res.0)
  {
    if i + 1 < |s| && s[i] == marker && !IsDelimiter(s[i + 1]) then
      var j := RunEnd(s, i + 1);
      (Some(s[i + 1..j]), j)
    else
      (None, i)
  }

  /** The text a group consumed is its marker followed by its capture. */
  lemma MatchGroupText(s: string, i: nat, marker: char)
    requires i <= |s|
    ensures var res := MatchGroup(s, i, marker);
      s[i..res.1] == GroupText(marker, res.0)
  {
    var res := MatchGroup(s, i, marker);
    if res.0.Some? {
      assert s[i..res.1] == [marker] + s[i + 1..res.1];
    }
  }

  /** The groups of a successful match and where it started and stopped. */
  datatype Match = Match(start: nat, path: string, name: Option<string>, subtarget: Option<string>, end: nat)

  /**
   `capture_pattern.match(s)` for the pattern `(?://)?(?P<path>[^:#]+)(?::(?P<name>[^:#]+))?(?:\#(?P<subtarget>[^:#]+))?`,
   anchored at the start, trailing text ignored. The leading `//` is skipped
   only when a path character follows it; otherwise the path itself begins
   with `//`.
   */
  function MatchAddress(s: string): (r: Option<Match>)
    ensures r.None? <==> |s| == 0 || IsDelimiter(s[0])
    ensures r.Some? ==>
      var m := r.value;
      && (m.start == 0 || (m.start == 2 && StartsWithRoot(s)))
      && (m.start == 2 <==> |s| > 2 && StartsWithRoot(s) && !IsDelimiter(s[2]))
      && m.start + |m.path| <= m.end <= |s|
      && m.path != "" && NoDelimiter(m.path)
      && ValidGroup(m.name) && ValidGroup(m.subtarget)
  {
    var start := if |s| > 2 && StartsWithRoot(s) && !IsDelimiter(s[2]) then 2 else 0;
    if start == |s| || IsDelimiter(s[start]) then None
    else
      var pathEnd := RunEnd(s, start);
      var name := MatchGroup(s, pathEnd, ':');
      var subtarget := MatchGroup(s, name.1, '#');
      Some(Match(start, s[start..pathEnd], name.0, subtarget.0, subtarget.1))
  }

  /**
   A match covers the text it consumed: the skipped root marker, then the
   path, which runs up to a delimiter or the end, then the two groups.
   */
  lemma MatchAddressSpans(s: string)
    requires MatchAddress(s).Some?
    ensures var m := MatchAddress(s).value;
      && s[..m.end] == s[..m.start] + m.path + GroupText(':', m.name) + GroupText('#', m.subtarget)
      && (m.start + |m.path| == |s| || IsDelimiter(s[m.start + |m.path|]))
  {
    var m := MatchAddress(s).value;
    var p, j := MatchPositions(s);
    MatchGroupText(s, p, ':');
    MatchGroupText(s, j, '#');
    PrefixPieces(s, m.start, p, j, m.end);
  }

  /** Where the path stops and where the name group stops, in a successful match. */
  lemma MatchPositions(s: string) returns (p: nat, j: nat)
    requires MatchAddress(s).Some?
    ensures var m := MatchAddress(s).value;
      && m.start <= p <= j <= m.end <= |s|
      && p == m.start + |m.path| == RunEnd(s, m.start) && m.path == s[m.start..p]
      && MatchGroup(s, p, ':') == (m.name, j)
      && MatchGroup(s, j, '#') == (m.subtarget, m.end)
  {
    var m := MatchAddress(s).value;
    p := RunEnd(s, m.start);
    j := MatchGroup(s, p, ':').1;
  }

  /** `s[..d]` cut at `a`, `b` and `c`. */
  lemma PrefixPieces(s: string, a: nat, b: nat, c: nat, d: nat)
    requires a <= b <= c <= d <= |s|
    ensures s[..d] == s[..a] + s[a..b] + s[b..c] + s[c..d]
  {
    assert s[..c] == s[..a] + s[a..b] + s[b..c] by {
      assert s[..b] == s[..a] + s[a..b];
      assert s[..c] == s[..b] + s[b..c];
    }
    assert s[..d] == s[..c] + s[c..d];
  }

  /** The stored name: dropped when absent or when it repeats the last path component. */
  function NormalizedName(path: string, name: Option<string>): string
  {
    if name.None? || name.value == LastPathPart(path) then "" else name.value
  }

  /** What the parser can produce. */
  predicate Normalized(a: Address)
  {
    && a.path != "" && NoDelimiter(a.path)
    && NoDelimiter(a.name) && (a.name == "" || a.name != LastPathPart(a.path))
    && NoDelimiter(a.subtarget)
  }

  /**
   `Address.from_str(s)`: fails exactly when the pattern does not match, that
   is when `s` is empty or starts with `:` or `#`.
   */
  function FromStr(s: string): (r: ParseResult)
    ensures r.ParseError? <==> |s| == 0 || IsDelimiter(s[0])
    ensures r.Parsed? ==> Normalized(r.address)
  {
    match MatchAddress(s)
    case None => ParseError(s)
    case Some(m) =>
      var subtarget := match m.subtarget case None => "" case Some(t) => t;
      Parsed(Address(m.path, NormalizedName(m.path, m.name), subtarget))
  }

  /** `str(address)`: `path:name[#subtarget]`, with `//` for an empty path and the last path component for an empty name. */
  function ToStr(a: Address): string
  {
    var path := if a.path == "" then "//" else a.path;
    var name := if a.name == "" then LastPathPart(a.path) else a.name;
    var subtarget := if a.subtarget == "" then "" else "#" + a.subtarget;
    path + ":" + name + subtarget
  }

  // ---------------------------------------------------------------------------
  // The parser inverts the grammar

  /** The root marker, when present. */
  function Root(rooted: bool): string
  {
    if rooted then "//" else ""
  }

  /** What follows the path: `[:name][#subtarget]`. */
  function Tail(name: Option<string>, subtarget: Option<string>): string
  {
    GroupText(':', name) + GroupText('#', subtarget)
  }

  /** The string `[//]path[:name][#subtarget]` with the given groups. */
  function Compose(rooted: bool, path: string, name: Option<string>, subtarget: Option<string>): string
  {
    Root(rooted) + (path + Tail(name, subtarget))
  }

  /** The tail is empty or starts at a delimiter. */
  lemma TailStartsAtDelimiter(name: Option<string>, subtarget: Option<string>)
    ensures var tail := Tail(name, subtarget);
      tail == "" || IsDelimiter(tail[0])
  {
  }

  /** A delimiter-free block followed by a delimiter or the end is one whole run. */
  lemma {:induction false} RunEndOfBlock(s: string, i: nat, block: string, rest: string)
    requires i <= |s| && s[i..] == block + rest
    requires NoDelimiter(block)
    requires rest == "" || IsDelimiter(rest[0])
    ensures RunEnd(s, i) == i + |block|
    decreases |block|
  {
    if block != "" {
      assert s[i] == block[0];
      assert s[i + 1..] == block[1..] + rest;
      RunEndOfBlock(s, i + 1, block[1..], rest);
    }
  }

  /** An optional group written out in full is matched as exactly that group. */
  lemma MatchGroupOf(s: string, i: nat, marker: char, g: Option<string>, rest: string)
    requires IsDelimiter(marker)
    requires i <= |s| && s[i..] == GroupText(marker, g) + rest
    requires ValidGroup(g)
    requires rest == "" || (IsDelimiter(rest[0]) && rest[0] != marker)
    ensures MatchGroup(s, i, marker) == (g, i + |GroupText(marker, g)|)
  {
    match g
    case None =>
      assert GroupText(marker, g) + rest == rest;
      GroupSkipped(s, i, marker, rest);
    case Some(t) =>
      GroupTaken(s, i, marker, t, rest);
  }

  /** A marker followed by a run of non-delimiters is taken as a group. */
  lemma GroupTaken(s: string, i: nat, marker: char, t: string, rest: string)
    requires t != "" && NoDelimiter(t)
    requires rest == "" || IsDelimiter(rest[0])
    requires i <= |s| && s[i..] == ([marker] + t) + rest
    ensures MatchGroup(s, i, marker) == (Some(t), i + 1 + |t|)
  {
    assert ([marker] + t) + rest == [marker] + (t + rest);
    DropPrefix(s, i, [marker], t + rest);
    DropPrefix(s, i + 1, t, rest);
    RunEndOfBlock(s, i + 1, t, rest);
  }

  /** Without its marker in front, the group is skipped and nothing is consumed. */
  lemma GroupSkipped(s: string, i: nat, marker: char, rest: string)
    requires i <= |s| && s[i..] == rest
    requires rest == "" || rest[0] != marker
    ensures MatchGroup(s, i, marker) == (None, i)
  {
    if rest != "" {
      assert s[i] == s[i..][0];
    }
  }

  lemma RootCondition(s: string, rooted: bool, path: string, tail: string)
    requires path != "" && NoDelimiter(path)
    requires !rooted ==> !(StartsWithRoot(path) && |path| > 2)
    requires tail == "" || IsDelimiter(tail[0])
    requires s == Root(rooted) + (path + tail)
    ensures |s| > 2 && StartsWithRoot(s) && !IsDelimiter(s[2]) <==> rooted
  {
    if rooted {
      assert s[2] == path[0];
    } else {
      assert |path| >= 2 ==> s[0] == path[0] && s[1] == path[1];
      assert |path| == 1 && |s| > 1 ==> s[1] == tail[0];
      assert |path| == 2 && |s| > 2 ==> s[2] == tail[0];
    }
  }

  /** The scanner matches `[//]path[:name][#subtarget]` as exactly those groups, up to the end. */
  lemma MatchComposed(rooted: bool, path: string, name: Option<string>, subtarget: Option<string>)
    requires path != "" && NoDelimiter(path)
    requires !rooted ==> !(StartsWithRoot(path) && |path| > 2)
    requires ValidGroup(name) && ValidGroup(subtarget)
    ensures var s := Compose(rooted, path, name, subtarget);
      MatchAddress(s) == Some(Match(|Root(rooted)|, path, name, subtarget, |s|))
  {
    var s := Compose(rooted, path, name, subtarget);
    var tail := Tail(name, subtarget);
    TailStartsAtDelimiter(name, subtarget);
    RootCondition(s, rooted, path, tail);
    DropPrefix(s, 0, Root(rooted), path + tail);
    MatchOfParts(s, |Root(rooted)|, path, name, subtarget);
  }

  /** The scanner on a string whose text from `o` on is `path[:name][#subtarget]`. */
  lemma MatchOfParts(s: string, o: nat, path: string, name: Option<string>, subtarget: Option<string>)
    requires o == 0 || o == 2
    requires (|s| > 2 && StartsWithRoot(s) && !IsDelimiter(s[2])) <==> o == 2
    requires path != "" && NoDelimiter(path)
    requires ValidGroup(name) && ValidGroup(subtarget)
    requires o <= |s| && s[o..] == path + Tail(name, subtarget)
    ensures MatchAddress(s) == Some(Match(o, path, name, subtarget, |s|))
  {
    TailStartsAtDelimiter(name, subtarget);
    PathOfBlock(s, o, path, Tail(name, subtarget));
    MatchAfterPath(s, o, path, name, subtarget);
  }

  /** Once the path run is known, the groups after it are the tail's groups. */
  lemma MatchAfterPath(s: string, o: nat, path: string, name: Option<string>, subtarget: Option<string>)
    requires o == 0 || o == 2
    requires (|s| > 2 && StartsWithRoot(s) && !IsDelimiter(s[2])) <==> o == 2
    requires path != "" && o + |path| <= |s|
    requires !IsDelimiter(s[o]) && RunEnd(s, o) == o + |path| && s[o..o + |path|] == path
    requires ValidGroup(name) && ValidGroup(subtarget)
    requires s[o + |path|..] == Tail(name, subtarget)
    ensures MatchAddress(s) == Some(Match(o, path, name, subtarget, |s|))
  {
    var j := MatchTail(s, o + |path|, name, subtarget);
    MatchAt(s, o, o + |path|, j, path, name, subtarget);
  }

  /** The two optional groups are matched as exactly the groups of the tail. */
  lemma MatchTail(s: string, i: nat, name: Option<string>, subtarget: Option<string>) returns (j: nat)
    requires ValidGroup(name) && ValidGroup(subtarget)
    requires i <= |s| && s[i..] == Tail(name, subtarget)
    ensures j == i + |GroupText(':', name)| <= |s|
    ensures MatchGroup(s, i, ':') == (name, j)
    ensures MatchGroup(s, j, '#') == (subtarget, |s|)
  {
    var g1, g2 := GroupText(':', name), GroupText('#', subtarget);
    j := i + |g1|;
    DropPrefix(s, i, g1, g2);
    assert g2 == "" || (IsDelimiter(g2[0]) && g2[0] != ':');
    MatchFinalGroup(s, j, '#', subtarget);
    MatchGroupOf(s, i, ':', name, g2);
  }

  /** A group that runs to the end of the text is matched up to the end. */
  lemma MatchFinalGroup(s: string, i: nat, marker: char, g: Option<string>)
    requires ValidGroup(g)
    requires i <= |s| && s[i..] == GroupText(marker, g)
    ensures MatchGroup(s, i, marker) == (g, |s|)
  {
    match g
    case None =>
      GroupSkipped(s, i, marker, "");
    case Some(t) =>
      assert GroupText(marker, g) == ([marker] + t) + "";
      GroupTaken(s, i, marker, t, "");
  }

  /** Text that continues as `a + b` from `i` holds `a` there and `b` after it. */
  lemma DropPrefix(s: string, i: nat, a: string, b: string)
    requires i <= |s| && s[i..] == a + b
    ensures i + |a| <= |s| && s[i..i + |a|] == a && s[i + |a|..] == b
    ensures a != [] ==> s[i] == a[0]
  {
    assert s[i..i + |a|] == (a + b)[..|a|];
    assert s[i + |a|..] == (a + b)[|a|..];
    if a != [] {
      assert s[i] == s[i..][0];
    }
  }

  /** The path run of a composed address. */
  lemma PathOfBlock(s: string, o: nat, path: string, tail: string)
    requires o <= |s| && s[o..] == path + tail
    requires path != "" && NoDelimiter(path)
    requires tail == "" || IsDelimiter(tail[0])
    ensures RunEnd(s, o) == o + |path|
    ensures s[o..o + |path|] == path && !IsDelimiter(s[o])
    ensures s[o + |path|..] == tail
  {
    RunEndOfBlock(s, o, path, tail);
    assert s[o] == path[0];
  }

  /** Unfolding the scanner once the position of every group is known. */
  lemma MatchAt(s: string, o: nat, p: nat, j: nat, path: string, name: Option<string>, subtarget: Option<string>)
    requires o == 0 || o == 2
    requires (|s| > 2 && StartsWithRoot(s) && !IsDelimiter(s[2])) <==> o == 2
    requires path != "" && p == o + |path| <= j <= |s|
    requires !IsDelimiter(s[o]) && RunEnd(s, o) == p && s[o..p] == path
    requires MatchGroup(s, p, ':') == (name, j)
    requires MatchGroup(s, j, '#') == (subtarget, |s|)
    ensures MatchAddress(s) == Some(Match(o, path, name, subtarget, |s|))
  {
  }

  /**
   Parsing `[//]path[:name][#subtarget]` recovers the groups: the path, the
   name unless it repeats the last path component, and the subtarget. Without
   a root marker the path must not itself begin with `//` followed by more
   text, which the pattern would skip; the bare path `//` is kept.
   */
  lemma ParseComposed(rooted: bool, path: string, name: Option<string>, subtarget: Option<string>)
    requires path != "" && NoDelimiter(path)
    requires !rooted ==> !(StartsWithRoot(path) && |path| > 2)
    requires ValidGroup(name) && ValidGroup(subtarget)
    ensures FromStr(Compose(rooted, path, name, subtarget))
         == Parsed(Address(path, NormalizedName(path, name), match subtarget case None => "" case Some(t) => t))
  {
    MatchComposed(rooted, path, name, subtarget);
  }

  // ---------------------------------------------------------------------------
  // Properties of from_str and __str__

  /** The subtarget suffix `#t`, or nothing for an empty `t`. */
  function SubtargetSuffix(t: string): string
  {
    if t == "" then "" else "#" + t
  }

  function OptionalText(t: string): Option<string>
  {
    if t == "" then None else Some(t)
  }

  /** `[//]path:name[#subtarget]` written out. */
  lemma ComposeNamed(rooted: bool, path: string, n: string, t: string)
    ensures Compose(rooted, path, Some(n), OptionalText(t)) == Root(rooted) + path + ":" + n + SubtargetSuffix(t)
  {
    var r, a, b := Root(rooted), GroupText(':', Some(n)), GroupText('#', OptionalText(t));
    assert a == ":" + n && b == SubtargetSuffix(t);
    assert r + (path + (a + b)) == r + path + a + b;
  }

  /** `[//]path[#subtarget]` written out. */
  lemma ComposeUnnamed(rooted: bool, path: string, t: string)
    ensures Compose(rooted, path, None, OptionalText(t)) == Root(rooted) + path + SubtargetSuffix(t)
  {
    var r, b := Root(rooted), GroupText('#', OptionalText(t));
    assert b == SubtargetSuffix(t);
    assert r + (path + ("" + b)) == r + path + b;
  }

  /**
   A path, seen as the pattern sees it: the root marker it skips, if any, and
   the path group after it, which has the same last component.
   */
  lemma SplitRoot(p: string) returns (rooted: bool, q: string)
    requires p != "" && NoDelimiter(p) && LastPathPart(p) != ""
    ensures p == Root(rooted) + q
    ensures q != "" && NoDelimiter(q)
    ensures !rooted ==> !(StartsWithRoot(q) && |q| > 2)
    ensures LastPathPart(q) == LastPathPart(p)
  {
    rooted := StartsWithRoot(p) && |p| > 2;
    if rooted {
      q := p[2..];
      assert p == "//" + q;
      LastPathPartAfterRoot(q);
    } else {
      q := p;
    }
  }

  /** The last path component is delimiter-free when the path is. */
  lemma LastPathPartNoDelimiter(p: string)
    requires NoDelimiter(p)
    ensures NoDelimiter(LastPathPart(p))
  {
    var n := LastPathPart(p);
    assert forall k :: 0 <= k < |n| ==> n[k] == p[|p| - |n| + k];
  }

  /**
   A name equal to the last path component is redundant: `from_str("a/b:b")`
   is `from_str("a/b")`, with or without a subtarget, with or without the
   root marker.
   */
  lemma RedundantNameDropped(p: string, t: string)
    requires p != "" && NoDelimiter(p) && NoDelimiter(t)
    requires LastPathPart(p) != ""
    ensures FromStr(p + ":" + LastPathPart(p) + SubtargetSuffix(t)) == FromStr(p + SubtargetSuffix(t))
  {
    var n := LastPathPart(p);
    var sub := OptionalText(t);
    var rooted, q := SplitRoot(p);
    LastPathPartNoDelimiter(p);
    var expected := Parsed(Address(q, "", t));
    var withName := p + ":" + n + SubtargetSuffix(t);
    var without := p + SubtargetSuffix(t);
    ComposeNamed(rooted, q, n, t);
    ComposeUnnamed(rooted, q, t);
    ParseComposed(rooted, q, Some(n), sub);
    ParseComposed(rooted, q, None, sub);
    assert FromStr(withName) == expected;
    assert FromStr(without) == expected;
  }

  /** The root marker never holds the last path component. */
  lemma LastPathPartAfterRoot(q: string)
    ensures LastPathPart("//" + q) == LastPathPart(q)
  {
    var r := LastPathPart(q);
    var s := "//" + q;
    assert s[|s| - |r|..] == q[|q| - |r|..];
    assert |r| < |s| ==> s[|s| - |r| - 1] == '/' by {
      if |r| < |q| {
        assert s[|s| - |r| - 1] == q[|q| - |r| - 1];
      }
    }
    LastPartUnique(s, LastPathPart(s), r);
  }

  /**
   `str(from_str(s)) == s` for `s` of the form `p:n` or `p:n#t` whose pieces
   are non-empty and delimiter-free, `p` not starting with `//` followed by
   more text.
   */
  lemma ParseThenShow(p: string, n: string, t: string)
    requires p != "" && NoDelimiter(p) && !(StartsWithRoot(p) && |p| > 2)
    requires n != "" && NoDelimiter(n) && NoDelimiter(t)
    ensures var r := FromStr(p + ":" + n + SubtargetSuffix(t));
      r.Parsed? && ToStr(r.address) == p + ":" + n + SubtargetSuffix(t)
  {
    assert p + ":" + n + SubtargetSuffix(t) == Compose(false, p, Some(n), OptionalText(t));
    ParseComposed(false, p, Some(n), OptionalText(t));
  }

  /**
   The addresses that survive a trip through their string form: a non-empty
   path that is not `//` followed by more text, a name that is not the
   redundant last component, and, when the path ends in `/` and the name is
   empty, no subtarget.
   */
  predicate WellFormed(a: Address)
  {
    && a.path != "" && NoDelimiter(a.path) && !(StartsWithRoot(a.path) && |a.path| > 2)
    && NoDelimiter(a.name) && (a.name == "" || a.name != LastPathPart(a.path))
    && NoDelimiter(a.subtarget)
    && (LastPathPart(a.path) != "" || a.name != "" || a.subtarget == "")
  }

  /** `from_str(str(a)) == a` for a well-formed address. */
  lemma ShowThenParse(a: Address)
    requires WellFormed(a)
    ensures FromStr(ToStr(a)) == Parsed(a)
  {
    var n := ShowIsCompose(a);
    if n == "" {
      assert ToStr(a) == a.path + ":";
      ParseBareColon(a.path);
    } else {
      LastPathPartNoDelimiter(a.path);
      ParseComposed(false, a.path, Some(n), OptionalText(a.subtarget));
    }
  }

  /**
   `path:` with nothing after the colon: the name group needs a character
   after its `:`, so neither group is taken and the address has no name.
   */
  lemma ParseBareColon(path: string)
    requires path != "" && NoDelimiter(path) && !(StartsWithRoot(path) && |path| > 2)
    ensures FromStr(path + ":") == Parsed(Address(path, "", ""))
  {
    var s := path + ":";
    RootCondition(s, false, path, ":");
    assert s[0..] == path + ":";
    PathOfBlock(s, 0, path, ":");
    var p := |path|;
    assert s[p] == ':' && p + 1 == |s|;
    assert MatchGroup(s, p, ':') == (None, p);
    assert MatchGroup(s, p, '#') == (None, p);
    assert MatchAddress(s) == Some(Match(0, path, None, None, p));
  }

  /** The string form of an address is `path:name[#subtarget]` with the name spelled out. */
  lemma ShowIsCompose(a: Address) returns (n: string)
    requires a.path != ""
    ensures n == if a.name == "" then LastPathPart(a.path) else a.name
    ensures ToStr(a) == Compose(false, a.path, Some(n), OptionalText(a.subtarget))
  {
    n := if a.name == "" then LastPathPart(a.path) else a.name;
    ShowSpelledOut(a, n);
    ComposeUnrooted(a.path, n, a.subtarget);
  }

  lemma ShowSpelledOut(a: Address, n: string)
    requires a.path != ""
    requires n == if a.name == "" then LastPathPart(a.path) else a.name
    ensures ToStr(a) == a.path + ":" + n + SubtargetSuffix(a.subtarget)
  {
  }

  lemma ComposeUnrooted(path: string, n: string, t: string)
    ensures Compose(false, path, Some(n), OptionalText(t)) == path + ":" + n + SubtargetSuffix(t)
  {
    ComposeNamed(false, path, n, t);
    assert Root(false) + path == path;
  }

  /**
   An address with an empty path is written with the path `//`, which the
   pattern reads back as the path `//` itself: the name and subtarget survive,
   the path does not.
   */
  lemma EmptyPathReparsed(n: string, t: string)
    requires n != "" && NoDelimiter(n) && NoDelimiter(t)
    ensures ToStr(Address("", n, t)) == Compose(false, "//", Some(n), OptionalText(t))
    ensures FromStr(ToStr(Address("", n, t))) == Parsed(Address("//", n, t))
  {
    ComposeUnrooted("//", n, t);
    assert LastPathPart("//") == "";
    ParseComposed(false, "//", Some(n), OptionalText(t));
  }

  /**
   Text after the last group is ignored, and a second `:` ends the name:
   `from_str("a:b:c")` has the name `b`.
   */
  lemma TrailingTextIgnored()
    ensures FromStr("a:b:c") == Parsed(Address("a", "b", ""))
  {
    var s := "a:b:c";
    assert s[0..] == "a" + ":b:c";
    RunEndOfBlock(s, 0, "a", ":b:c");
    assert s[1..] == ([':'] + "b") + ":c";
    GroupTaken(s, 1, ':', "b", ":c");
    GroupSkipped(s, 3, '#', ":c");
    assert s[0..1] == "a";
  }

  /**
   Why `WellFormed` excludes a path ending in `/` that has a subtarget but no
   name: the name written for such a path is empty, and the pattern then skips both the name and the subtarget, so
   `a/#t` does not survive a parse, show and parse again. Each step is its
   own lemma below, so that each proof stays small.
   */
  lemma TrailingSlashLosesSubtarget()
    ensures FromStr("a/#t") == Parsed(Address("a/", "", "t"))
    ensures ToStr(Address("a/", "", "t")) == "a/:#t"
    ensures FromStr("a/:#t") == Parsed(Address("a/", "", ""))
  {
    TrailingSlashParsed();
    TrailingSlashShown();
    TrailingSlashReparsed();
  }

  lemma TrailingSlashParsed()
    ensures FromStr("a/#t") == Parsed(Address("a/", "", "t"))
  {
    TrailingSlashComposed();
    ParseComposed(false, "a/", None, Some("t"));
  }

  lemma TrailingSlashComposed()
    ensures Compose(false, "a/", None, Some("t")) == "a/#t"
  {
    assert Tail(None, Some("t")) == "#t";
  }

  lemma TrailingSlashShown()
    ensures ToStr(Address("a/", "", "t")) == "a/:#t"
  {
    assert LastPathPart("a/") == "";
  }

  lemma TrailingSlashReparsed()
    ensures FromStr("a/:#t") == Parsed(Address("a/", "", ""))
  {
    var s := "a/:#t";
    assert s[0..] == "a/" + ":#t";
    RunEndOfBlock(s, 0, "a/", ":#t");
    assert MatchGroup(s, 2, ':') == (None, 2);
    assert MatchGroup(s, 2, '#') == (None, 2);
    assert s[0..2] == "a/";
  }
}
