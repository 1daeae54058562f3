/** Symbol lookup through re-exported libraries of a shared cache. */
module Reexports {
  import opened Wrappers

  const FRAMEWORK_VERSION := ".framework/Versions/A/"
  const FRAMEWORK := ".framework/"

  datatype Library = Library(exports: set<string>, reexports: seq<string>)

  /** What is known of a cache: its images by normalised install name, the text stubs by file name, and the
      symbol tables read from the images themselves. */
  datatype Cache = Cache(images: map<string, string>, stubs: map<string, Library>, tables: map<string, Library>)

  // -------------------------------------------------------------- names

  /** `normalized_install_name`: every occurrence, left to right, of the versioned directory is shortened. */
  function Normalized(path: string): string
  {
    if |path| < |FRAMEWORK_VERSION| then path
    else if path[..|FRAMEWORK_VERSION|] == FRAMEWORK_VERSION then FRAMEWORK + Normalized(path[|FRAMEWORK_VERSION|..])
    else [path[0]] + Normalized(path[1..])
  }

  /** The part behind the last slash. */
  function Basename(path: string): string
  {
    if '/' in path then Basename(path[1..]) else path
  }

  lemma {:induction false} BasenameBehindSlash(dir: string, rest: string)
    requires dir != "" && dir[|dir| - 1] == '/'
    ensures Basename(dir + rest) == Basename(rest)
  {
    assert (dir + rest)[|dir| - 1] == '/';
    assert (dir + rest)[1..] == dir[1..] + rest;
    if |dir| > 1 { BasenameBehindSlash(dir[1..], rest); }
  }

  lemma {:induction false} NormalizedKeepsSlashes(path: string)
    ensures '/' in Normalized(path) <==> '/' in path
    ensures '/' !in path ==> Normalized(path) == path
  {
    if |path| >= |FRAMEWORK_VERSION| {
      if path[..|FRAMEWORK_VERSION|] == FRAMEWORK_VERSION {
        assert FRAMEWORK[10] == '/' && path[10] == '/' by { assert path[..|FRAMEWORK_VERSION|][10] == '/'; }
        assert (FRAMEWORK + Normalized(path[|FRAMEWORK_VERSION|..]))[10] == '/';
      } else {
        NormalizedKeepsSlashes(path[1..]);
        assert path == [path[0]] + path[1..];
      }
    }
  }

  /** Normalising an install name does not change its file name. */
  lemma {:induction false} BasenameSurvives(path: string)
    ensures Basename(Normalized(path)) == Basename(path)
  {
    if |path| >= |FRAMEWORK_VERSION| {
      if path[..|FRAMEWORK_VERSION|] == FRAMEWORK_VERSION {
        var rest := path[|FRAMEWORK_VERSION|..];
        assert path == FRAMEWORK_VERSION + rest;
        BasenameSurvives(rest);
        BasenameBehindSlash(FRAMEWORK_VERSION, rest);
        BasenameBehindSlash(FRAMEWORK, Normalized(rest));
      } else {
        BasenameSurvives(path[1..]);
        NormalizedKeepsSlashes(path[1..]);
        assert path == [path[0]] + path[1..];
        assert ([path[0]] + Normalized(path[1..]))[1..] == Normalized(path[1..]);
      }
    }
  }

  /** `ensure_tbd`, `parse_tbd` and the symbol-table fallback: what the cache says about an install name. */
  function Content(c: Cache, name: string): Option<Library>
  {
    var known := Normalized(name) in c.images;
    var actual := if known then c.images[Normalized(name)] else name;
    if Basename(actual) in c.stubs then Some(c.stubs[Basename(actual)])
    else if known && actual in c.tables then Some(c.tables[actual])
    else None
  }

  /** The same by normalised name. */
  function ByKey(c: Cache, key: string): Option<Library>
  {
    var known := key in c.images;
    var file := Basename(if known then c.images[key] else key);
    if file in c.stubs then Some(c.stubs[file])
    else if known && c.images[key] in c.tables then Some(c.tables[c.images[key]])
    else None
  }

  /** What is said about a name depends on its normalised form only, which is what the search remembers. */
  lemma ContentIsByKey(c: Cache, name: string)
    ensures Content(c, name) == ByKey(c, Normalized(name))
  {
    BasenameSurvives(name);
  }

  /** No versioned directory begins in the first `n` characters. */
  predicate Plain(path: string, n: nat)
  {
    forall i :: 0 <= i < n && i <= |path| ==> !(".framework/Versions/A/" <= path[i..])
  }

  lemma PlainTail(path: string, n: nat)
    requires path != "" && n > 0 && Plain(path, n)
    ensures Plain(path[1..], n - 1) && !(".framework/Versions/A/" <= path)
  {
    assert path[0..] == path;
    forall i | 0 <= i < n - 1 && i <= |path[1..]| ensures !(".framework/Versions/A/" <= path[1..][i..]) {
      assert path[1..][i..] == path[i + 1..];
    }
  }

  /** The versioned spelling of a framework directory becomes the short one, the first and every later one. */
  lemma {:induction false} NormalizedShortens(dir: string, rest: string)
    requires Plain(dir + ".framework/Versions/A/" + rest, |dir|)
    ensures Normalized(dir + ".framework/Versions/A/" + rest) == dir + ".framework/" + Normalized(rest)
  {
    var path := dir + ".framework/Versions/A/" + rest;
    if dir == [] {
      assert path == FRAMEWORK_VERSION + rest;
      assert [] + ".framework/" + Normalized(rest) == FRAMEWORK + Normalized(rest);
    } else {
      assert path[1..] == dir[1..] + ".framework/Versions/A/" + rest;
      PlainTail(path, |dir|);
      NormalizedShortens(dir[1..], rest);
      assert [dir[0]] + (dir[1..] + ".framework/" + Normalized(rest)) == dir + ".framework/" + Normalized(rest);
    }
  }

  /** A name without one stays as it is. */
  lemma {:induction false} NormalizedLeaves(path: string)
    requires Plain(path, |path| + 1)
    ensures Normalized(path) == path
  {
    if |path| >= |FRAMEWORK_VERSION| {
      PlainTail(path, |path| + 1);
      NormalizedLeaves(path[1..]);
    }
  }

  /** The file name is what follows the last slash. */
  lemma BasenameIs(dir: string, file: string)
    requires '/' !in file
    ensures Basename(dir + "/" + file) == file && Basename(file) == file
  {
    BasenameBehindSlash(dir + "/", file);
  }

  /** Both spellings of a framework library say the same, and a text stub comes before the symbol table of the
      image. */
  lemma SpellingsAgree(c: Cache, dir: string, rest: string)
    requires Plain(dir + ".framework/Versions/A/" + rest, |dir|) && Plain(dir + ".framework/" + rest, |dir| + 11)
    ensures Content(c, dir + ".framework/Versions/A/" + rest) == Content(c, dir + ".framework/" + rest)
  {
    NormalizedShortens(dir, rest);
    ShortIsNormal(dir + ".framework/", rest);
    ContentIsByKey(c, dir + ".framework/Versions/A/" + rest);
    ContentIsByKey(c, dir + ".framework/" + rest);
  }

  lemma {:induction false} ShortIsNormal(dir: string, rest: string)
    requires Plain(dir + rest, |dir|)
    ensures Normalized(dir + rest) == dir + Normalized(rest)
  {
    if dir == [] {
      assert dir + rest == rest && dir + Normalized(rest) == Normalized(rest);
    } else {
      hide *;
      var path, tail := dir + rest, dir[1..];
      assert path[1..] == tail + rest;
      PlainTail(path, |dir|);
      ShortIsNormal(tail, rest);
      NormalizedStep(path);
      assert [dir[0]] + (tail + Normalized(rest)) == ([dir[0]] + tail) + Normalized(rest);
      assert [dir[0]] + tail == dir;
    }
  }

  lemma NormalizedStep(path: string)
    requires path != "" && !(FRAMEWORK_VERSION <= path)
    ensures Normalized(path) == [path[0]] + Normalized(path[1..])
  {
    if |path| < |FRAMEWORK_VERSION| { assert [path[0]] + path[1..] == path; }
  }

  /** A text stub comes before the symbol table of the image. */
  lemma StubComesFirst(c: Cache, name: string)
    requires Normalized(name) in c.images
    ensures var file := Basename(c.images[Normalized(name)]);
      file in c.stubs ==> forall tables :: Content(c.(tables := tables), name) == Some(c.stubs[file])
  {
  }

  // -------------------------------------------------------------- the graph

  predicate Exports(c: Cache, key: string, symbol: string)
  {
    ByKey(c, key).Some? && symbol in ByKey(c, key).value.exports
  }

  predicate Edge(c: Cache, key: string, next: string)
  {
    ByKey(c, key).Some? && exists r <- ByKey(c, key).value.reexports :: Normalized(r) == next
  }

  ghost predicate Path(c: Cache, p: seq<string>)
  {
    p != [] && forall i :: 0 <= i < |p| - 1 ==> Edge(c, p[i], p[i + 1])
  }

  /** Some library reachable from `key` through re-exports exports the symbol. */
  ghost predicate Reachable(c: Cache, key: string, symbol: string)
  {
    exists p :: Path(c, p) && p[0] == key && Exports(c, p[|p| - 1], symbol)
  }

  /** Every name a search from `key` can meet. */
  function Universe(c: Cache, key: string): set<string>
  {
    {key} + (set l, r | l in c.stubs.Values + c.tables.Values && r in l.reexports :: Normalized(r))
  }

  ghost predicate Closed(c: Cache, names: set<string>)
  {
    forall k, n :: k in names && Edge(c, k, n) ==> n in names
  }

  lemma UniverseIsClosed(c: Cache, key: string)
    ensures Closed(c, Universe(c, key))
  {
    forall k, n | k in Universe(c, key) && Edge(c, k, n) ensures n in Universe(c, key) {
      var l := ByKey(c, k).value;
      assert l in c.stubs.Values + c.tables.Values;
    }
  }

  // -------------------------------------------------------------- the search

  /** The visited set that all calls of one search share and change. */
  class Visited {
    var names: set<string>

    constructor ()
      ensures names == {}
    {
      names := {};
    }
  }

  /** What a search that found nothing has visited beyond `before` exports nothing and leads nowhere else. */
  ghost predicate Exhausted(c: Cache, symbol: string, before: set<string>, after: set<string>)
  {
    && before <= after
    && (forall k <- after :: k !in before ==> !Exports(c, k, symbol))
    && (forall k, n :: k in after && k !in before && Edge(c, k, n) ==> n in after)
  }

  /** `exports_symbol` with a visited set. */
  method Search(c: Cache, name: string, symbol: string, visited: Visited, ghost universe: set<string>)
      returns (found: bool)
    requires Closed(c, universe) && Normalized(name) in universe && visited.names <= universe
    modifies visited
    ensures old(visited.names) <= visited.names <= universe
    ensures found ==> Reachable(c, Normalized(name), symbol)
    ensures !found ==> Normalized(name) in visited.names && Exhausted(c, symbol, old(visited.names), visited.names)
    decreases |universe - visited.names|, 0
  {
    hide Content, ByKey, Normalized;
    var key := Normalized(name);
    if key in visited.names { return false; }
    assert universe - (visited.names + {key}) == (universe - visited.names) - {key};
    visited.names := visited.names + {key};
    ContentIsByKey(c, name);
    match Content(c, name)
    case None => return false;
    case Some(library) =>
      if symbol in library.exports {
        assert Path(c, [key]) && [key][0] == key;
        return true;
      }
      found := SearchAny(c, key, library.reexports, symbol, visited, universe, old(visited.names));
  }

  /** The re-exports of a library in order, until one of them leads to the symbol. */
  method SearchAny(c: Cache, key: string, items: seq<string>, symbol: string, visited: Visited,
                   ghost universe: set<string>, ghost before: set<string>)
    returns (found: bool)
    requires Closed(c, universe) && visited.names <= universe && key in universe && key !in before
    requires visited.names == before + {key}
    requires ByKey(c, key).Some? && ByKey(c, key).value.reexports == items && !Exports(c, key, symbol)
    modifies visited
    ensures before + {key} <= visited.names <= universe
    ensures found ==> Reachable(c, key, symbol)
    ensures !found ==> Exhausted(c, symbol, before, visited.names)
    decreases |universe - visited.names|, 1
  {
    hide ByKey, Normalized, Exports, Edge, Exhausted;
    ExhaustedNothing(c, symbol, visited.names);
    for i := 0 to |items|
      invariant before + {key} <= visited.names <= universe
      invariant Exhausted(c, symbol, before + {key}, visited.names)
      invariant forall q :: 0 <= q < i ==> Normalized(items[q]) in visited.names
    {
      EdgeTo(c, key, items[i]);
      ghost var seen := visited.names;
      Shrinks(universe, before + {key}, seen);
      found := Search(c, items[i], symbol, visited, universe);
      if found {
        ReachableThrough(c, key, Normalized(items[i]), symbol);
        return;
      }
      ExhaustedOn(c, symbol, before + {key}, seen, visited.names);
    }
    found := false;
    ExhaustedKey(c, symbol, before, key, visited.names);
  }

  lemma Shrinks(universe: set<string>, a: set<string>, b: set<string>)
    requires a <= b
    ensures |universe - b| <= |universe - a|
  {
    Smaller(universe - b, universe - a);
  }

  lemma {:induction false} Smaller(a: set<string>, b: set<string>)
    requires a <= b
    ensures |a| <= |b|
  {
    assert b == a + (b - a);
  }

  lemma EdgeTo(c: Cache, key: string, item: string)
    requires ByKey(c, key).Some? && item in ByKey(c, key).value.reexports
    ensures Edge(c, key, Normalized(item))
  {
  }

  lemma ReachableThrough(c: Cache, key: string, next: string, symbol: string)
    requires Edge(c, key, next) && Reachable(c, next, symbol)
    ensures Reachable(c, key, symbol)
  {
    hide Edge, Exports;
    var p :| Path(c, p) && p[0] == next && Exports(c, p[|p| - 1], symbol);
    var q := [key] + p;
    assert Path(c, q) && q[0] == key && q[|q| - 1] == p[|p| - 1];
  }

  lemma ExhaustedNothing(c: Cache, symbol: string, names: set<string>)
    ensures Exhausted(c, symbol, names, names)
  {
  }

  lemma ExhaustedOn(c: Cache, symbol: string, s: set<string>, t: set<string>, u: set<string>)
    requires Exhausted(c, symbol, s, t) && Exhausted(c, symbol, t, u)
    ensures Exhausted(c, symbol, s, u)
  {
  }

  lemma ExhaustedKey(c: Cache, symbol: string, before: set<string>, key: string, after: set<string>)
    requires Exhausted(c, symbol, before + {key}, after) && !Exports(c, key, symbol)
    requires ByKey(c, key).Some? && forall r <- ByKey(c, key).value.reexports :: Normalized(r) in after
    ensures Exhausted(c, symbol, before, after)
  {
  }

  /** Nothing reachable from an exhausted set exports the symbol. */
  lemma {:induction false} ExhaustedMeansUnreachable(c: Cache, symbol: string, names: set<string>, p: seq<string>)
    requires Exhausted(c, symbol, {}, names) && Path(c, p) && p[0] in names
    ensures !Exports(c, p[|p| - 1], symbol)
    decreases |p|
  {
    hide Edge, Exports;
    if |p| > 1 { ExhaustedMeansUnreachable(c, symbol, names, p[1..]); }
  }

  /** `exports_symbol` as it is called from outside.  It terminates on every cache, cyclic re-exports included, and
      finds the symbol if and only if some reachable library exports it. */
  method ExportsSymbol(c: Cache, name: string, symbol: string) returns (found: bool)
    ensures found <==> Reachable(c, Normalized(name), symbol)
  {
    hide Edge, Exports;
    UniverseIsClosed(c, Normalized(name));
    var visited := new Visited();
    found := Search(c, name, symbol, visited, Universe(c, Normalized(name)));
    if !found {
      forall p | Path(c, p) && p[0] == Normalized(name) ensures !Exports(c, p[|p| - 1], symbol) {
        ExhaustedMeansUnreachable(c, symbol, visited.names, p);
      }
    }
  }
}
