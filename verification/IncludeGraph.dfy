/** The pre-commit hook's include graph: which translation unit to check for a changed header. */
module IncludeGraph {
  import opened Wrappers

  type Path = string
  type Name = string

  /** What the hook reads from disk: the files that exist, the names each one includes in order,
      and the file a name denotes under each include root. */
  datatype Repo = Repo(
    files: set<Path>,
    includes: Path -> seq<Name>,
    roots: nat,
    candidate: (nat, Name) -> Path)

  // ---- Graphs as sets of (includer, included) pairs ----

  ghost predicate Chain(edges: set<(Path, Path)>, p: seq<Path>) {
    && |p| >= 1
    && forall i | 0 <= i < |p| - 1 :: (p[i], p[i + 1]) in edges
  }

  /** a includes b, directly or through other files. */
  ghost predicate Includes(edges: set<(Path, Path)>, a: Path, b: Path) {
    exists p :: Chain(edges, p) && |p| >= 2 && p[0] == a && p[|p| - 1] == b
  }

  ghost predicate Reaches(edges: set<(Path, Path)>, from: set<Path>, f: Path) {
    exists p :: Chain(edges, p) && p[0] in from && p[|p| - 1] == f
  }

  /** The part of the relation whose includers are reachable. */
  ghost predicate ReachablePart(edges: set<(Path, Path)>, part: set<(Path, Path)>, from: set<Path>) {
    forall f, h :: (f, h) in part <==> (f, h) in edges && Reaches(edges, from, f)
  }

  lemma ReachesStart(edges: set<(Path, Path)>, from: set<Path>, f: Path)
    requires f in from
    ensures Reaches(edges, from, f)
  {
    assert Chain(edges, [f]);
  }

  lemma ReachesStep(edges: set<(Path, Path)>, from: set<Path>, f: Path, g: Path)
    requires Reaches(edges, from, f) && (f, g) in edges
    ensures Reaches(edges, from, g)
  {
    var p :| Chain(edges, p) && p[0] in from && p[|p| - 1] == f;
    assert Chain(edges, p + [g]);
  }

  lemma IncludesStep(edges: set<(Path, Path)>, a: Path, b: Path, c: Path)
    requires (a, b) in edges && (b == c || Includes(edges, b, c))
    ensures Includes(edges, a, c)
  {
    if b == c {
      assert Chain(edges, [a, b]);
    } else {
      var p :| Chain(edges, p) && |p| >= 2 && p[0] == b && p[|p| - 1] == c;
      assert Chain(edges, [a] + p);
    }
  }

  /** A set closed under a step holds everything the chain visits. */
  lemma {:induction false} ClosedForward(edges: set<(Path, Path)>, closed: set<Path>, p: seq<Path>)
    requires Chain(edges, p) && p[0] in closed
    requires forall a, b | (a, b) in edges && a in closed :: b in closed
    ensures p[|p| - 1] in closed
    decreases |p|
  {
    if |p| > 1 {
      assert (p[0], p[1]) in edges;
      assert Chain(edges, p[1..]);
      ClosedForward(edges, closed, p[1..]);
    }
  }

  lemma {:induction false} ClosedBackward(edges: set<(Path, Path)>, closed: set<Path>, p: seq<Path>)
    requires Chain(edges, p) && p[|p| - 1] in closed
    requires forall a, b | (a, b) in edges && b in closed :: a in closed
    ensures p[0] in closed
    decreases |p|
  {
    if |p| > 1 {
      assert Chain(edges, p[1..]);
      ClosedBackward(edges, closed, p[1..]);
      assert (p[0], p[1]) in edges;
    }
  }

  // ---- Building the inverted graph ----

  /** A name denotes the first candidate that exists. */
  ghost predicate Denotes(repo: Repo, name: Name, f: Path) {
    exists r | 0 <= r < repo.roots ::
      && repo.candidate(r, name) == f
      && f in repo.files
      && forall q | 0 <= q < r :: repo.candidate(q, name) !in repo.files
  }

  ghost predicate Direct(repo: Repo, f: Path, h: Path) {
    exists i | 0 <= i < |repo.includes(f)| :: Denotes(repo, repo.includes(f)[i], h)
  }

  /** The include relation between existing files. */
  ghost function Edges(repo: Repo): set<(Path, Path)> {
    set f, h | f in repo.files && h in repo.files && Direct(repo, f, h) :: (f, h)
  }

  type Inverted = map<Path, set<Path>>

  ghost function InvertedEdges(inv: Inverted): set<(Path, Path)> {
    set h, f | h in inv && f in inv[h] :: (f, h)
  }

  function Put(inv: Inverted, h: Path, f: Path): (r: Inverted)
    ensures InvertedEdges(r) == InvertedEdges(inv) + {(f, h)}
  {
    var r := inv[h := if h in inv then inv[h] + {f} else {f}];
    assert forall a, b :: (a, b) in InvertedEdges(r) <==> (a, b) in InvertedEdges(inv) || (a, b) == (f, h);
    r
  }

  method Resolve(repo: Repo, name: Name) returns (f: Option<Path>)
    ensures forall h :: Denotes(repo, name, h) <==> f == Some(h)
  {
    for r := 0 to repo.roots
      invariant forall q | 0 <= q < r :: repo.candidate(q, name) !in repo.files
    {
      var c := repo.candidate(r, name);
      if c in repo.files {
        return Some(c);
      }
    }
    return None;
  }

  method ScanFile(repo: Repo, f: Path, inverted: Inverted, scanned: set<Path>, toScan: set<Path>)
    returns (inv: Inverted, todo: set<Path>)
    requires f in repo.files && f in scanned
    ensures InvertedEdges(inv) == InvertedEdges(inverted) + (set h | h in repo.files && Direct(repo, f, h) :: (f, h))
    ensures todo == toScan + (set h | h in repo.files && Direct(repo, f, h) && h !in scanned)
  {
    inv, todo := inverted, toScan;
    var lines := repo.includes(f);
    ghost var seen: set<Path> := {};
    for i := 0 to |lines|
      invariant seen == set h | h in repo.files && exists j | 0 <= j < i :: Denotes(repo, lines[j], h)
      invariant InvertedEdges(inv) == InvertedEdges(inverted) + (set h | h in seen :: (f, h))
      invariant todo == toScan + (seen - scanned)
    {
      var target := Resolve(repo, lines[i]);
      if target.Some? {
        inv := Put(inv, target.value, f);
        if target.value !in scanned {
          todo := todo + {target.value};
        }
        seen := seen + {target.value};
      }
    }
  }

  /** The state of the worklist between two pops. */
  ghost predicate Worklist(repo: Repo, sources: set<Path>, inverted: Inverted, toScan: set<Path>, scanned: set<Path>) {
    && scanned <= repo.files
    && (forall f | f in scanned || f in toScan :: Reaches(Edges(repo), sources, f))
    && (forall f | f in sources && f in repo.files :: f in scanned || f in toScan)
    && (forall f, h | (f, h) in Edges(repo) && f in scanned :: h in scanned || h in toScan)
    && (forall f, h :: (f, h) in InvertedEdges(inverted) <==> (f, h) in Edges(repo) && f in scanned)
  }

  lemma WorklistScan(repo: Repo, sources: set<Path>, inverted: Inverted, toScan: set<Path>, scanned: set<Path>,
                     f: Path, inv: Inverted, todo: set<Path>)
    requires Worklist(repo, sources, inverted, toScan, scanned)
    requires f in toScan && f in repo.files && f !in scanned
    requires InvertedEdges(inv) == InvertedEdges(inverted) + (set h | h in repo.files && Direct(repo, f, h) :: (f, h))
    requires todo == (toScan - {f}) + (set h | h in repo.files && Direct(repo, f, h) && h !in scanned + {f})
    ensures Worklist(repo, sources, inv, todo, scanned + {f})
  {
    hide Direct, Reaches, InvertedEdges;
    forall h | h in todo && h !in toScan ensures Reaches(Edges(repo), sources, h) {
      assert (f, h) in Edges(repo);
      ReachesStep(Edges(repo), sources, f, h);
    }
  }

  lemma WorklistDone(repo: Repo, sources: set<Path>, inverted: Inverted, scanned: set<Path>)
    requires Worklist(repo, sources, inverted, {}, scanned)
    ensures ReachablePart(Edges(repo), InvertedEdges(inverted), sources)
  {
    forall f, h | (f, h) in Edges(repo) && Reaches(Edges(repo), sources, f) ensures f in scanned {
      var p :| Chain(Edges(repo), p) && p[0] in sources && p[|p| - 1] == f;
      assert p[0] in repo.files by {
        if |p| > 1 { assert (p[0], p[1]) in Edges(repo); }
      }
      ClosedForward(Edges(repo), scanned, p);
    }
  }

  /** The inverted graph is the include relation reversed, over exactly the files reachable from the units. */
  method BuildIncludeGraph(repo: Repo, sources: set<Path>) returns (inverted: Inverted)
    ensures ReachablePart(Edges(repo), InvertedEdges(inverted), sources)
  {
    inverted := map[];
    var toScan, scanned: set<Path> := sources, {};
    forall f | f in sources ensures Reaches(Edges(repo), sources, f) {
      ReachesStart(Edges(repo), sources, f);
    }
    while toScan != {}
      invariant Worklist(repo, sources, inverted, toScan, scanned)
      decreases repo.files - scanned, |toScan|
    {
      var f :| f in toScan;
      ghost var before, wasToScan := inverted, toScan;
      toScan := toScan - {f};
      if f in scanned || f !in repo.files {
        continue;
      }
      inverted, toScan := ScanFile(repo, f, inverted, scanned + {f}, toScan);
      WorklistScan(repo, sources, before, wasToScan, scanned, f, inverted, toScan);
      scanned := scanned + {f};
    }
    WorklistDone(repo, sources, inverted, scanned);
  }

  // ---- Searching for a unit ----

  /** t is the unit to check for a header: it includes the header, and its stem is the header's
      stem whenever some such unit has that stem. */
  ghost predicate Chosen(edges: set<(Path, Path)>, sources: set<Path>, stem: Path -> string,
                         header: Path, t: Option<Path>)
  {
    match t
    case None =>
      forall u | u in sources :: !Includes(edges, u, header)
    case Some(u) =>
      && u in sources
      && Includes(edges, u, header)
      && (stem(u) == stem(header) || forall w | w in sources && Includes(edges, w, header) :: stem(w) != stem(header))
  }

  /** If f is a unit it has been weighed: some unit is preferred, and f does not have the header's stem. */
  ghost predicate Weighed(sources: set<Path>, stem: Path -> string, header: Path, preferred: Option<Path>, f: Path) {
    f in sources ==> preferred.Some? && stem(f) != stem(header)
  }

  /** The state of the search between two pops while no unit with the header's stem is found. */
  ghost predicate Search(edges: set<(Path, Path)>, sources: set<Path>, stem: Path -> string, header: Path,
                         preferred: Option<Path>, visited: set<Path>, stack: seq<Path>)
  {
    && header in visited
    && (forall v | v in stack :: v in visited)
    && (forall v | v in visited :: v == header || Includes(edges, v, header))
    && (forall u, v | (u, v) in edges && v in visited && v !in stack ::
          u in visited && Weighed(sources, stem, header, preferred, u))
    && (preferred.Some? ==>
          && preferred.value in sources
          && Includes(edges, preferred.value, header)
          && stem(preferred.value) != stem(header))
  }

  lemma SearchDone(edges: set<(Path, Path)>, sources: set<Path>, stem: Path -> string, header: Path,
                   preferred: Option<Path>, visited: set<Path>)
    requires Search(edges, sources, stem, header, preferred, visited, [])
    ensures Chosen(edges, sources, stem, header, preferred)
  {
    forall u | u in sources && Includes(edges, u, header) ensures Weighed(sources, stem, header, preferred, u) {
      var p :| Chain(edges, p) && |p| >= 2 && p[0] == u && p[|p| - 1] == header;
      assert Chain(edges, p[1..]);
      ClosedBackward(edges, visited, p[1..]);
      assert (p[0], p[1]) in edges;
    }
  }

  /** The state of the search while the files that include h are looked at; todo are those still to come. */
  ghost predicate Expanding(edges: set<(Path, Path)>, sources: set<Path>, stem: Path -> string, header: Path,
                            preferred: Option<Path>, visited: set<Path>, stack: seq<Path>, h: Path, todo: set<Path>)
  {
    && Search(edges, sources, stem, header, preferred, visited, stack + [h])
    && (forall u | (u, h) in edges && u !in todo :: u in visited && Weighed(sources, stem, header, preferred, u))
  }

  lemma ExpandStep(edges: set<(Path, Path)>, sources: set<Path>, stem: Path -> string, header: Path,
                   preferred: Option<Path>, visited: set<Path>, stack: seq<Path>, h: Path, todo: set<Path>,
                   u: Path, found: Option<Path>, pending: seq<Path>)
    requires Expanding(edges, sources, stem, header, preferred, visited, stack, h, todo)
    requires u in todo && (u, h) in edges && Weighed(sources, stem, header, found, u)
    requires found == if u in sources && preferred.None? then Some(u) else preferred
    requires pending == if u in visited then stack else stack + [u]
    ensures Includes(edges, u, header)
    ensures Expanding(edges, sources, stem, header, found, visited + {u}, pending, h, todo - {u})
  {
    IncludesStep(edges, u, h, header);
    hide Includes;
    assert forall v | v in pending + [h] :: v in stack + [h] || v == u;
    assert forall v | v in stack + [h] :: v in pending + [h];
  }

  /** Look at every file that includes h, until one is a unit with the header's stem. */
  method Expand(inverted: Inverted, sources: set<Path>, stem: Path -> string, header: Path, h: Path,
                preferred: Option<Path>, visited: set<Path>, stack: seq<Path>)
    returns (found: Option<Path>, seen: set<Path>, pending: seq<Path>)
    requires Search(InvertedEdges(inverted), sources, stem, header, preferred, visited, stack + [h])
    ensures found.Some? && stem(found.value) == stem(header) ==>
      found.value in sources && Includes(InvertedEdges(inverted), found.value, header)
    ensures (found.Some? && stem(found.value) == stem(header)) ||
      Search(InvertedEdges(inverted), sources, stem, header, found, seen, pending)
    ensures visited <= seen <= visited + (if h in inverted then inverted[h] else {})
    ensures visited == seen ==> pending == stack
  {
    found, seen, pending := preferred, visited, stack;
    ghost var edges := InvertedEdges(inverted);
    var todo := if h in inverted then inverted[h] else {};
    while todo != {}
      invariant todo <= if h in inverted then inverted[h] else {}
      invariant Expanding(edges, sources, stem, header, found, seen, pending, h, todo)
      invariant visited <= seen <= visited + (if h in inverted then inverted[h] else {})
      invariant visited == seen ==> pending == stack
    {
      var u :| u in todo;
      assert (u, h) in edges;
      if u in sources && stem(u) == stem(header) {
        IncludesStep(edges, u, h, header);
        found := Some(u);
        return;
      }
      ghost var was, wasSeen, wasPending := found, seen, pending;
      if u in sources && found.None? {
        found := Some(u);
      }
      if u !in seen {
        seen, pending := seen + {u}, pending + [u];
      }
      ExpandStep(edges, sources, stem, header, was, wasSeen, wasPending, h, todo, u, found, pending);
      assert seen == wasSeen + {u};
      todo := todo - {u};
    }
  }

  /** Everything the search can visit. */
  ghost function Universe(inverted: Inverted, header: Path): set<Path> {
    {header} + set h, f | h in inverted && f in inverted[h] :: f
  }

  method FindTu(header: Path, inverted: Inverted, sources: set<Path>, stem: Path -> string)
    returns (preferred: Option<Path>)
    ensures Chosen(InvertedEdges(inverted), sources, stem, header, preferred)
  {
    preferred := None;
    var visited, stack := {header}, [header];
    while stack != []
      invariant Search(InvertedEdges(inverted), sources, stem, header, preferred, visited, stack)
      invariant visited <= Universe(inverted, header)
      decreases Universe(inverted, header) - visited, |stack|
    {
      var h := stack[|stack| - 1];
      assert stack == stack[..|stack| - 1] + [h];
      preferred, visited, stack := Expand(inverted, sources, stem, header, h, preferred, visited, stack[..|stack| - 1]);
      if preferred.Some? && stem(preferred.value) == stem(header) {
        return;
      }
    }
    SearchDone(InvertedEdges(inverted), sources, stem, header, preferred, visited);
  }

  /** One choice for each header, and the result holds the units chosen and no other. */
  ghost predicate ChosenFor(edges: set<(Path, Path)>, sources: set<Path>, stem: Path -> string, headers: seq<Path>,
                            choices: seq<Option<Path>>, result: set<Path>)
  {
    && |choices| == |headers| && (forall i | 0 <= i < |headers| :: Chosen(edges, sources, stem, headers[i], choices[i]))
    && forall t :: t in result <==> Some(t) in choices
  }

  method FindTusForHeaders(headers: seq<Path>, inverted: Inverted, sources: set<Path>, stem: Path -> string)
    returns (result: set<Path>)
    ensures exists choices :: ChosenFor(InvertedEdges(inverted), sources, stem, headers, choices, result)
  {
    result := {};
    ghost var choices: seq<Option<Path>> := [];
    hide Chosen;
    for i := 0 to |headers|
      invariant ChosenFor(InvertedEdges(inverted), sources, stem, headers[..i], choices, result)
    {
      var preferred := FindTu(headers[i], inverted, sources, stem);
      if preferred.Some? {
        result := result + {preferred.value};
      }
      choices := choices + [preferred];
    }
    assert headers[..|headers|] == headers;
  }

  // ---- The two together ----

  /** From a unit, the inverted graph shows exactly what the files on disk show. */
  lemma SameIncludes(edges: set<(Path, Path)>, inverted: set<(Path, Path)>, sources: set<Path>, u: Path, h: Path)
    requires ReachablePart(edges, inverted, sources)
    requires u in sources
    ensures Includes(inverted, u, h) <==> Includes(edges, u, h)
  {
    if Includes(inverted, u, h) {
      var p :| Chain(inverted, p) && |p| >= 2 && p[0] == u && p[|p| - 1] == h;
      assert Chain(edges, p);
    }
    if Includes(edges, u, h) {
      var p :| Chain(edges, p) && |p| >= 2 && p[0] == u && p[|p| - 1] == h;
      forall i | 0 <= i < |p| - 1 ensures (p[i], p[i + 1]) in inverted {
        assert Chain(edges, p[..i + 1]) && p[..i + 1][0] in sources;
        assert Reaches(edges, sources, p[i]);
      }
      assert Chain(inverted, p);
    }
  }

  lemma SameChoice(edges: set<(Path, Path)>, inverted: set<(Path, Path)>, sources: set<Path>,
                   stem: Path -> string, header: Path, t: Option<Path>)
    requires ReachablePart(edges, inverted, sources)
    ensures Chosen(inverted, sources, stem, header, t) <==> Chosen(edges, sources, stem, header, t)
  {
    forall u | u in sources ensures Includes(inverted, u, header) <==> Includes(edges, u, header) {
      SameIncludes(edges, inverted, sources, u, header);
    }
    hide Includes, Reaches;
  }

  /** The units for a list of changed headers, in terms of the files on disk alone. */
  method UnitsForHeaders(repo: Repo, sources: set<Path>, headers: seq<Path>, stem: Path -> string)
    returns (result: set<Path>)
    ensures exists choices :: ChosenFor(Edges(repo), sources, stem, headers, choices, result)
  {
    var inverted := BuildIncludeGraph(repo, sources);
    result := FindTusForHeaders(headers, inverted, sources, stem);
    ghost var choices :| ChosenFor(InvertedEdges(inverted), sources, stem, headers, choices, result);
    forall i | 0 <= i < |headers| ensures Chosen(Edges(repo), sources, stem, headers[i], choices[i]) {
      SameChoice(Edges(repo), InvertedEdges(inverted), sources, stem, headers[i], choices[i]);
    }
    hide Chosen;
    assert ChosenFor(Edges(repo), sources, stem, headers, choices, result);
  }
}
