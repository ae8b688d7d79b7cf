/**
 Which headers of an import group a request's include roots reach: the include graph the
 preprocessor callbacks record, and the reachability answers kept per root list and graph version.
 */
module IncludeReach {
  import opened Wrappers
  import opened Reachability

  datatype FileEntry = FileEntry(id: nat)

  /** Who named whom in an #include, the files named, and the first file each `<name>` found. */
  datatype IncludeGraph = IncludeGraph(
    edges: map<FileEntry, seq<FileEntry>>,
    targets: set<FileEntry>,
    angled: map<string, FileEntry>,
    version: nat)
  {
    ghost function Includes(): Graph<FileEntry> {
      map f | f in edges :: set c | c in edges[f]
    }

    /** Every recorded edge ends at a recorded target. */
    ghost predicate Valid() {
      forall f | f in edges :: forall c | c in edges[f] :: c in targets
    }
  }

  const EMPTY_GRAPH := IncludeGraph(map[], {}, map[], 0)

  /** One #include the preprocessor reports; file is None when the header was not found. */
  datatype Inclusion = Inclusion(spelled: string, angled: bool, includer: Option<FileEntry>, file: Option<FileEntry>)

  function Record(g: IncludeGraph, inc: Inclusion): IncludeGraph {
    if inc.file.None? then g
    else
      var target := inc.file.value;
      var name := "<" + inc.spelled + ">";
      IncludeGraph(
        if inc.includer.None? then g.edges
        else g.edges[inc.includer.value := OrEmpty(g.edges, inc.includer.value) + [target]],
        g.targets + {target},
        if inc.angled && name !in g.angled then g.angled[name := target] else g.angled,
        g.version + 1)
  }

  function OrEmpty(edges: map<FileEntry, seq<FileEntry>>, f: FileEntry): seq<FileEntry> {
    if f in edges then edges[f] else []
  }

  predicate Angled(root: string) {
    root != "" && root[0] == '<'
  }

  type FileManager = map<string, FileEntry>

  /** The header a root names: `<name>` through the angled includes, any other through the file manager. */
  function ResolveRoot(g: IncludeGraph, fm: FileManager, root: string): Option<FileEntry> {
    var entry :=
      if Angled(root) then (if root in g.angled then Some(g.angled[root]) else None)
      else if root in fm then Some(fm[root]) else None;
    if entry.Some? && entry.value in g.targets then entry else None
  }

  datatype Seeds = Seeds(ok: bool, entries: set<FileEntry>)

  /** The headers of the roots, up to the first root that is not a header of the group. */
  function SeedsOf(g: IncludeGraph, fm: FileManager, roots: seq<string>): Seeds {
    if roots == [] then Seeds(true, {})
    else
      var entry := ResolveRoot(g, fm, roots[0]);
      if entry.None? then Seeds(false, {})
      else
        var rest := SeedsOf(g, fm, roots[1..]);
        Seeds(rest.ok, {entry.value} + rest.entries)
  }

  /** The transitive include closure of a set of files, among the recorded targets. */
  ghost function Closure(g: IncludeGraph, from: set<FileEntry>): set<FileEntry> {
    set f | f in g.targets && exists r :: r in from && Reaches(g.Includes(), r, f)
  }

  /**
   What the group should answer: the files that some #include named and no root reaches, and
   nothing when a root is not a header of the group.
   */
  ghost function Unreached(g: IncludeGraph, fm: FileManager, roots: seq<string>, files: set<string>): set<string> {
    var seeds := SeedsOf(g, fm, roots);
    if !seeds.ok then {}
    else set f | f in files && f in fm && fm[f] in g.targets && fm[f] !in Closure(g, seeds.entries)
  }

  // ---------------------------------------------------------------------------------------------
  // The memo
  // ---------------------------------------------------------------------------------------------

  datatype Reach = Reach(version: nat, ok: bool, reached: set<FileEntry>)

  const NO_REACH := Reach(0, false, {})

  function RootsKey(roots: seq<string>): string {
    if roots == [] then "" else roots[0] + "\n" + RootsKey(roots[1..])
  }

  function MemoAt(memo: map<string, Reach>, key: string): Reach {
    if key in memo then memo[key] else NO_REACH
  }

  ghost function Recompute(g: IncludeGraph, fm: FileManager, roots: seq<string>): Reach {
    var seeds := SeedsOf(g, fm, roots);
    Reach(g.version, seeds.ok, if seeds.ok then Closure(g, seeds.entries) else seeds.entries)
  }

  /** The memo entry a query reads: kept while its version is the graph's (and not zero), else recomputed. */
  ghost function Refreshed(g: IncludeGraph, fm: FileManager, memo: map<string, Reach>, roots: seq<string>): Reach {
    var entry := MemoAt(memo, RootsKey(roots));
    if entry.version != g.version || g.version == 0 then Recompute(g, fm, roots) else entry
  }

  ghost function AnswerFrom(g: IncludeGraph, fm: FileManager, entry: Reach, files: set<string>): set<string> {
    if !entry.ok then {}
    else set f | f in files && f in fm && fm[f] in g.targets && fm[f] !in entry.reached
  }

  datatype State = State(graph: IncludeGraph, memo: map<string, Reach>)

  datatype Op = Include(inc: Inclusion) | Query(roots: seq<string>, files: set<string>)

  ghost function Step(fm: FileManager, s: State, op: Op): State {
    match op
    case Include(inc) => s.(graph := Record(s.graph, inc))
    case Query(roots, _) => s.(memo := s.memo[RootsKey(roots) := Refreshed(s.graph, fm, s.memo, roots)])
  }

  ghost function Run(fm: FileManager, s: State, ops: seq<Op>): State
    decreases |ops|
  {
    if ops == [] then s else Run(fm, Step(fm, s, ops[0]), ops[1..])
  }

  ghost predicate NewlineFree(roots: seq<string>) {
    forall r | r in roots :: '\n' !in r
  }

  lemma FirstLine(a: string, s: string, b: string, t: string)
    requires '\n' !in a && '\n' !in b && a + "\n" + s == b + "\n" + t
    ensures a == b && s == t
  {
    var u := a + "\n" + s;
    assert u[|a|] == '\n' && u[|b|] == '\n';
    assert forall i | 0 <= i < |a| :: u[i] == a[i] && a[i] in a;
    assert forall i | 0 <= i < |b| :: u[i] == b[i] && b[i] in b;
    assert u[..|a|] == a && u[..|b|] == b && u[|a| + 1..] == s && u[|b| + 1..] == t;
  }

  /** Newline-free root lists have different memo keys. */
  lemma {:induction false} KeyDeterminesRoots(a: seq<string>, b: seq<string>)
    requires NewlineFree(a) && NewlineFree(b) && RootsKey(a) == RootsKey(b)
    ensures a == b
  {
    if a != [] && b != [] {
      FirstLine(a[0], RootsKey(a[1..]), b[0], RootsKey(b[1..]));
      KeyDeterminesRoots(a[1..], b[1..]);
      assert a == [a[0]] + a[1..] && b == [b[0]] + b[1..];
    }
  }

  /** The newline-separated pieces of a root list, which is what its key really records. */
  function Pieces(roots: seq<string>): seq<string> {
    if roots == [] then [] else Lines(roots[0]) + Pieces(roots[1..])
  }

  function Lines(s: string): (lines: seq<string>)
    ensures lines != []
  {
    if s == "" then [""]
    else
      var rest := Lines(s[1..]);
      if s[0] == '\n' then [""] + rest else [[s[0]] + rest[0]] + rest[1..]
  }

  /** The first character of a text joins its first line, or is a line of its own. */
  lemma FirstCharacter(c: char, tail: seq<string>, lines: seq<string>, rest: seq<string>)
    requires tail != [] && lines == if c == '\n' then [""] + tail else [[c] + tail[0]] + tail[1..]
    ensures (lines + rest)[0] == (if c == '\n' then "" else [c] + (tail + rest)[0])
    ensures (lines + rest)[1..] == (if c == '\n' then tail + rest else (tail + rest)[1..])
  {}

  lemma {:induction false} KeyOfLines(s: string, rest: seq<string>)
    ensures RootsKey(Lines(s) + rest) == s + "\n" + RootsKey(rest)
  {
    hide RootsKey;
    if s == "" {
      KeyOfEmptyLine(rest);
    } else {
      FirstCharacter(s[0], Lines(s[1..]), Lines(s), rest);
      KeyOfLines(s[1..], rest);
      KeyOfGlued(s[0], Lines(s) + rest, Lines(s[1..]) + rest);
      GlueLine(s[0], s[1..], s, RootsKey(rest));
    }
  }

  lemma KeyOfEmptyLine(rest: seq<string>)
    ensures RootsKey([""] + rest) == "" + "\n" + RootsKey(rest)
  {
    assert ([""] + rest)[1..] == rest;
  }

  lemma GlueLine(c: char, t: string, s: string, key: string)
    requires s == [c] + t
    ensures s + "\n" + key == [c] + (t + "\n" + key)
  {}

  /** Putting a character before a list of lines: a newline starts a new line. */
  lemma KeyOfGlued(c: char, whole: seq<string>, t: seq<string>)
    requires whole != [] && t != []
    requires whole[0] == if c == '\n' then "" else [c] + t[0]
    requires whole[1..] == if c == '\n' then t else t[1..]
    ensures RootsKey(whole) == [c] + RootsKey(t)
  {
    if c == '\n' {
      assert "" + "\n" == "\n";
    } else {
      assert ([c] + t[0]) + "\n" + RootsKey(t[1..]) == [c] + (t[0] + "\n" + RootsKey(t[1..]));
    }
  }

  lemma {:induction false} LinesAreNewlineFree(s: string)
    ensures NewlineFree(Lines(s))
  {
    if s != "" {
      LinesAreNewlineFree(s[1..]);
      var tail := Lines(s[1..]);
      assert tail[0] in tail;
      assert forall r | r in Lines(s) :: r == Lines(s)[0] || r in tail;
    }
  }

  lemma {:induction false} KeyOfPieces(roots: seq<string>)
    ensures NewlineFree(Pieces(roots)) && RootsKey(Pieces(roots)) == RootsKey(roots)
  {
    if roots != [] {
      KeyOfPieces(roots[1..]);
      LinesAreNewlineFree(roots[0]);
      KeyOfLines(roots[0], Pieces(roots[1..]));
    }
  }

  /** Two root lists share a memo entry exactly when they have the same newline-separated pieces. */
  lemma KeysCollideIff(a: seq<string>, b: seq<string>)
    ensures RootsKey(a) == RootsKey(b) <==> Pieces(a) == Pieces(b)
  {
    KeyOfPieces(a);
    KeyOfPieces(b);
    if RootsKey(a) == RootsKey(b) {
      KeyDeterminesRoots(Pieces(a), Pieces(b));
    }
  }

  // ---------------------------------------------------------------------------------------------
  // Root lists that may share an entry
  // ---------------------------------------------------------------------------------------------

  /** The names angled includes are recorded under. */
  predicate Bracketed(name: string) {
    |name| > 1 && name[0] == '<' && name[|name| - 1] == '>'
  }

  /** A root that no include can ever make known: it opens a bracket and does not close it. */
  predicate Hopeless(roots: seq<string>) {
    exists r :: r in roots && Angled(r) && !Bracketed(r)
  }

  ghost predicate SameRoots(a: seq<string>, b: seq<string>) {
    forall r :: r in a <==> r in b
  }

  /** Of these lists, those that share a memo entry name the same roots, or roots no include makes known. */
  ghost predicate Separate(lists: iset<seq<string>>) {
    forall a, b | a in lists && b in lists && Pieces(a) == Pieces(b) :: SameRoots(a, b) || (Hopeless(a) && Hopeless(b))
  }

  ghost predicate Over(lists: iset<seq<string>>, op: Op) {
    op.Query? ==> op.roots in lists
  }

  /** Entries that answer alike: what a failed one reached does not matter. */
  predicate SameAnswer(r: Reach, q: Reach) {
    r.ok == q.ok && (r.ok ==> r.reached == q.reached)
  }

  /** A current entry of this version answers as recomputation over any of these lists under its key. */
  ghost predicate EntryAgrees(lists: iset<seq<string>>, fm: FileManager, g: IncludeGraph, key: string, entry: Reach) {
    entry.version == g.version > 0 ==>
      forall roots | roots in lists && RootsKey(roots) == key :: SameAnswer(entry, Recompute(g, fm, roots))
  }

  /** No entry is newer than the graph, and those of the graph's own version agree with recomputation. */
  ghost predicate MemoAgrees(lists: iset<seq<string>>, fm: FileManager, s: State) {
    && (forall name | name in s.graph.angled :: Bracketed(name))
    && forall key | key in s.memo ::
         s.memo[key].version <= s.graph.version && EntryAgrees(lists, fm, s.graph, key, s.memo[key])
  }

  /** The seeds are the roots' headers; one unknown root leaves no answer. */
  lemma {:induction false} SeedsAre(g: IncludeGraph, fm: FileManager, roots: seq<string>)
    ensures var seeds := SeedsOf(g, fm, roots);
      && (seeds.ok <==> forall r | r in roots :: ResolveRoot(g, fm, r).Some?)
      && (seeds.ok ==> forall f :: f in seeds.entries <==> exists r :: r in roots && ResolveRoot(g, fm, r) == Some(f))
  {
    if roots != [] {
      SeedsAre(g, fm, roots[1..]);
      assert forall r :: r in roots <==> r == roots[0] || r in roots[1..];
    }
  }

  lemma SameRootsSameAnswer(g: IncludeGraph, fm: FileManager, a: seq<string>, b: seq<string>)
    requires SameRoots(a, b)
    ensures SameAnswer(Recompute(g, fm, a), Recompute(g, fm, b))
  {
    SeedsAre(g, fm, a);
    SeedsAre(g, fm, b);
    if SeedsOf(g, fm, a).ok {
      assert SeedsOf(g, fm, a).entries == SeedsOf(g, fm, b).entries;
    }
  }

  lemma HopelessHasNoSeeds(g: IncludeGraph, fm: FileManager, roots: seq<string>)
    requires Hopeless(roots) && forall name | name in g.angled :: Bracketed(name)
    ensures !SeedsOf(g, fm, roots).ok
  {
    SeedsAre(g, fm, roots);
    var r :| r in roots && Angled(r) && !Bracketed(r);
    assert ResolveRoot(g, fm, r).None?;
  }

  lemma SeparateAnswersAlike(lists: iset<seq<string>>, g: IncludeGraph, fm: FileManager, a: seq<string>, b: seq<string>)
    requires Separate(lists) && a in lists && b in lists && RootsKey(a) == RootsKey(b)
    requires forall name | name in g.angled :: Bracketed(name)
    ensures SameAnswer(Recompute(g, fm, a), Recompute(g, fm, b))
  {
    KeysCollideIff(a, b);
    if SameRoots(a, b) {
      SameRootsSameAnswer(g, fm, a, b);
    } else {
      HopelessHasNoSeeds(g, fm, a);
      HopelessHasNoSeeds(g, fm, b);
    }
  }

  lemma StepKeepsMemo(lists: iset<seq<string>>, fm: FileManager, s: State, op: Op)
    requires Separate(lists) && MemoAgrees(lists, fm, s) && Over(lists, op)
    ensures MemoAgrees(lists, fm, Step(fm, s, op))
  {
    hide Separate, Recompute, RootsKey;
    if op.Query? {
      var key, entry := RootsKey(op.roots), Refreshed(s.graph, fm, s.memo, op.roots);
      forall roots | roots in lists && RootsKey(roots) == key
        ensures SameAnswer(entry, Recompute(s.graph, fm, roots))
      {
        SeparateAnswersAlike(lists, s.graph, fm, op.roots, roots);
        RecomputeIsCurrent(s.graph, fm, op.roots);
      }
      RecomputeIsCurrent(s.graph, fm, op.roots);
    }
  }

  lemma RecomputeIsCurrent(g: IncludeGraph, fm: FileManager, roots: seq<string>)
    ensures Recompute(g, fm, roots).version == g.version
  {}

  /** The next query answers what recomputing from the current graph would. */
  ghost predicate IsCurrent(fm: FileManager, t: State, roots: seq<string>, files: set<string>) {
    AnswerFrom(t.graph, fm, Refreshed(t.graph, fm, t.memo, roots), files) == Unreached(t.graph, fm, roots, files)
  }

  /** After any interleaving of recorded includes and queries over such root lists, so is the next query. */
  lemma {:induction false} EveryQueryIsCurrent(lists: iset<seq<string>>, fm: FileManager, s: State, ops: seq<Op>,
                                               roots: seq<string>, files: set<string>)
    requires Separate(lists) && MemoAgrees(lists, fm, s) && roots in lists && forall op | op in ops :: Over(lists, op)
    ensures IsCurrent(fm, Run(fm, s, ops), roots, files)
    decreases |ops|
  {
    if ops == [] {
      assert SameAnswer(Refreshed(s.graph, fm, s.memo, roots), Recompute(s.graph, fm, roots));
    } else {
      assert ops[0] in ops;
      StepKeepsMemo(lists, fm, s, ops[0]);
      EveryQueryIsCurrent(lists, fm, Step(fm, s, ops[0]), ops[1..], roots, files);
    }
  }

  /** Root lists without newlines are such lists. */
  lemma NewlineFreeIsSeparate()
    ensures Separate(iset roots | NewlineFree(roots))
  {
    forall a, b | NewlineFree(a) && NewlineFree(b) && Pieces(a) == Pieces(b)
      ensures a == b
    {
      KeysCollideIff(a, b);
      KeyDeterminesRoots(a, b);
    }
  }

  // ---------------------------------------------------------------------------------------------
  // What a query answers about the includes of a run
  // ---------------------------------------------------------------------------------------------

  /** Some #include found this file. */
  ghost predicate Found(ops: seq<Op>, c: FileEntry) {
    exists i :: 0 <= i < |ops| && ops[i].Include? && ops[i].inc.file == Some(c)
  }

  /** Some #include in file f found file c. */
  ghost predicate Includes(ops: seq<Op>, f: FileEntry, c: FileEntry) {
    exists i :: 0 <= i < |ops| && ops[i].Include? && ops[i].inc.includer == Some(f) && ops[i].inc.file == Some(c)
  }

  /** An angled #include that was found, under this bracketed name. */
  predicate AngledAs(op: Op, name: string) {
    op.Include? && op.inc.angled && op.inc.file.Some? && "<" + op.inc.spelled + ">" == name
  }

  /** The first such #include found file c. */
  ghost predicate FirstAngled(ops: seq<Op>, name: string, c: FileEntry) {
    exists i :: 0 <= i < |ops| && AngledAs(ops[i], name) && ops[i].inc.file == Some(c) &&
      forall j | 0 <= j < i :: !AngledAs(ops[j], name)
  }

  /** The graph holds exactly the includes of the run. */
  ghost predicate Holds(ops: seq<Op>, g: IncludeGraph) {
    && (forall c :: c in g.targets <==> Found(ops, c))
    && (forall f, c :: (f in g.edges && c in g.edges[f]) <==> Includes(ops, f, c))
    && (forall name, c :: (name in g.angled && g.angled[name] == c) <==> FirstAngled(ops, name, c))
  }

  lemma OneMoreFound(ops: seq<Op>, op: Op, f: FileEntry, c: FileEntry)
    ensures Found(ops + [op], c) <==> Found(ops, c) || (op.Include? && op.inc.file == Some(c))
    ensures Includes(ops + [op], f, c) <==>
            Includes(ops, f, c) || (op.Include? && op.inc.includer == Some(f) && op.inc.file == Some(c))
  {
    var more := ops + [op];
    assert more[|ops|] == op && forall i | 0 <= i < |ops| :: more[i] == ops[i];
    if i :| 0 <= i < |ops| && ops[i].Include? && ops[i].inc.file == Some(c) { assert more[i].inc.file == Some(c); }
    if i :| 0 <= i < |ops| && ops[i].Include? && ops[i].inc.includer == Some(f) && ops[i].inc.file == Some(c) {
      assert more[i].inc.includer == Some(f) && more[i].inc.file == Some(c);
    }
  }

  lemma OneMoreAngled(ops: seq<Op>, op: Op, name: string, c: FileEntry)
    ensures FirstAngled(ops + [op], name, c) <==>
            FirstAngled(ops, name, c) ||
            (AngledAs(op, name) && op.inc.file == Some(c) && forall j | 0 <= j < |ops| :: !AngledAs(ops[j], name))
  {
    var more := ops + [op];
    assert more[|ops|] == op && forall i | 0 <= i < |ops| :: more[i] == ops[i];
    if FirstAngled(ops, name, c) {
      var i :| 0 <= i < |ops| && AngledAs(ops[i], name) && ops[i].inc.file == Some(c) &&
               forall j | 0 <= j < i :: !AngledAs(ops[j], name);
      assert AngledAs(more[i], name);
    }
    if FirstAngled(more, name, c) {
      var i :| 0 <= i < |more| && AngledAs(more[i], name) && more[i].inc.file == Some(c) &&
               forall j | 0 <= j < i :: !AngledAs(more[j], name);
      if i < |ops| {
        assert AngledAs(ops[i], name);
      } else {
        forall j | 0 <= j < |ops|
          ensures !AngledAs(ops[j], name)
        {
          assert !AngledAs(more[j], name);
        }
      }
    }
    if AngledAs(op, name) && op.inc.file == Some(c) && forall j | 0 <= j < |ops| :: !AngledAs(ops[j], name) {
      assert AngledAs(more[|ops|], name);
    }
  }

  /** A name without a first angled #include has none. */
  lemma {:induction false} SomeIsFirst(ops: seq<Op>, name: string, i: nat) returns (c: FileEntry)
    requires i < |ops| && AngledAs(ops[i], name)
    ensures FirstAngled(ops, name, c)
  {
    if j :| 0 <= j < i && AngledAs(ops[j], name) {
      c := SomeIsFirst(ops, name, j);
    } else {
      c := ops[i].inc.file.value;
    }
  }

  lemma StepHolds(fm: FileManager, ops: seq<Op>, s: State, op: Op)
    requires Holds(ops, s.graph)
    ensures Holds(ops + [op], Step(fm, s, op).graph)
  {
    hide Found, Includes, FirstAngled, AngledAs;
    var g, h := s.graph, Step(fm, s, op).graph;
    forall c
      ensures c in h.targets <==> Found(ops + [op], c)
    {
      OneMoreFound(ops, op, c, c);
    }
    forall f, c
      ensures (f in h.edges && c in h.edges[f]) <==> Includes(ops + [op], f, c)
    {
      OneMoreFound(ops, op, f, c);
    }
    forall name, c
      ensures (name in h.angled && h.angled[name] == c) <==> FirstAngled(ops + [op], name, c)
    {
      OneMoreAngled(ops, op, name, c);
      AngledStep(ops, s.graph, op, name, c);
    }
  }

  lemma AngledStep(ops: seq<Op>, g: IncludeGraph, op: Op, name: string, c: FileEntry)
    requires Holds(ops, g)
    ensures var h := if op.Include? then Record(g, op.inc) else g;
      (name in h.angled && h.angled[name] == c) <==>
        FirstAngled(ops, name, c) ||
        (AngledAs(op, name) && op.inc.file == Some(c) && forall j | 0 <= j < |ops| :: !AngledAs(ops[j], name))
  {
    if j: nat :| j < |ops| && AngledAs(ops[j], name) {
      var d := SomeIsFirst(ops, name, j);
      assert name in g.angled && g.angled[name] == d;
    }
    if name in g.angled {
      assert FirstAngled(ops, name, g.angled[name]);
    }
  }

  lemma {:induction false} RunHolds(fm: FileManager, done: seq<Op>, s: State, ops: seq<Op>)
    requires Holds(done, s.graph)
    ensures Holds(done + ops, Run(fm, s, ops).graph)
    decreases |ops|
  {
    hide Holds, Step;
    if ops == [] {
      assert done + ops == done;
    } else {
      StepHolds(fm, done, s, ops[0]);
      RunHolds(fm, done + [ops[0]], Step(fm, s, ops[0]), ops[1..]);
      assert done + [ops[0]] + ops[1..] == done + ops;
    }
  }

  /** After any run from an empty group the graph holds exactly its includes. */
  lemma RunRecords(fm: FileManager, ops: seq<Op>)
    ensures Holds(ops, Run(fm, State(EMPTY_GRAPH, map[]), ops).graph)
  {
    RunHolds(fm, [], State(EMPTY_GRAPH, map[]), ops);
    assert [] + ops == ops;
  }

  /** The header a root names, of those some #include found. */
  ghost predicate Resolves(ops: seq<Op>, fm: FileManager, root: string, c: FileEntry) {
    && Found(ops, c)
    && if root != "" && root[0] == '<' then FirstAngled(ops, root, c) else root in fm && fm[root] == c
  }

  /** A chain of includes from one file to another. */
  ghost predicate IncludeChain(ops: seq<Op>, w: seq<FileEntry>) {
    w != [] && forall i | 0 < i < |w| :: Includes(ops, w[i - 1], w[i])
  }

  ghost predicate LeadsTo(ops: seq<Op>, a: FileEntry, b: FileEntry) {
    exists w :: IncludeChain(ops, w) && w[0] == a && w[|w| - 1] == b
  }

  lemma LeadsToIsReach(ops: seq<Op>, g: IncludeGraph, a: FileEntry, b: FileEntry)
    requires Holds(ops, g)
    ensures LeadsTo(ops, a, b) <==> Reaches(g.Includes(), a, b)
  {
    forall f, c
      ensures c in Successors(g.Includes(), f) <==> Includes(ops, f, c)
    {}
    if w :| IncludeChain(ops, w) && w[0] == a && w[|w| - 1] == b {
      forall i | 0 <= i < |w| - 1
        ensures w[i + 1] in Successors(g.Includes(), w[i])
      {
        var j := i + 1;
        assert Includes(ops, w[j - 1], w[j]);
      }
      assert WalkBetween(g.Includes(), a, b, w);
    }
    if w :| WalkBetween(g.Includes(), a, b, w) {
      forall i | 0 < i < |w|
        ensures Includes(ops, w[i - 1], w[i])
      {
        assert w[i - 1 + 1] in Successors(g.Includes(), w[i - 1]);
      }
      assert IncludeChain(ops, w);
    }
  }

  lemma ResolvesIs(ops: seq<Op>, g: IncludeGraph, fm: FileManager, root: string, c: FileEntry)
    requires Holds(ops, g)
    ensures Resolves(ops, fm, root, c) <==> ResolveRoot(g, fm, root) == Some(c)
  {
    assert (root in g.angled && g.angled[root] == c) <==> FirstAngled(ops, root, c);
  }

  /** What a query should answer of a file, by the includes of the run alone. */
  ghost predicate Unreachable(ops: seq<Op>, fm: FileManager, roots: seq<string>, f: string) {
    && (forall r | r in roots :: exists c :: Resolves(ops, fm, r, c))
    && f in fm && Found(ops, fm[f])
    && forall r, c | r in roots && Resolves(ops, fm, r, c) :: !LeadsTo(ops, c, fm[f])
  }

  lemma UnreachedIs(ops: seq<Op>, g: IncludeGraph, fm: FileManager, roots: seq<string>, files: set<string>, f: string)
    requires Holds(ops, g)
    ensures f in Unreached(g, fm, roots, files) <==> f in files && Unreachable(ops, fm, roots, f)
  {
    hide Holds, Found, FirstAngled, LeadsTo, Resolves, ResolveRoot;
    SeedsAre(g, fm, roots);
    var seeds := SeedsOf(g, fm, roots);
    forall r, c
      ensures Resolves(ops, fm, r, c) <==> ResolveRoot(g, fm, r) == Some(c)
    {
      ResolvesIs(ops, g, fm, r, c);
    }
    forall a, b
      ensures LeadsTo(ops, a, b) <==> Reaches(g.Includes(), a, b)
    {
      LeadsToIsReach(ops, g, a, b);
    }
    TargetsAreFound(ops, g);
    forall r | r in roots
      ensures ResolveRoot(g, fm, r).Some? <==> exists c :: Resolves(ops, fm, r, c)
    {
      if ResolveRoot(g, fm, r).Some? { assert Resolves(ops, fm, r, ResolveRoot(g, fm, r).value); }
    }
  }

  lemma TargetsAreFound(ops: seq<Op>, g: IncludeGraph)
    requires Holds(ops, g)
    ensures forall c :: c in g.targets <==> Found(ops, c)
  {}

  /**
   After any run over separate root lists a query names exactly those of the files that some #include of
   the run found and that no chain of its includes leads to from a root, and none when a root is unknown.
   */
  lemma QueryAnswersRun(lists: iset<seq<string>>, fm: FileManager, ops: seq<Op>, roots: seq<string>, files: set<string>,
                        f: string)
    requires Separate(lists) && roots in lists && forall op | op in ops :: Over(lists, op)
    ensures var t := Run(fm, State(EMPTY_GRAPH, map[]), ops);
      f in AnswerFrom(t.graph, fm, Refreshed(t.graph, fm, t.memo, roots), files) <==>
      f in files && Unreachable(ops, fm, roots, f)
  {
    hide Separate, AnswerFrom, Refreshed, Unreached, Unreachable;
    EveryQueryIsCurrent(lists, fm, State(EMPTY_GRAPH, map[]), ops, roots, files);
    RunRecords(fm, ops);
    UnreachedIs(ops, Run(fm, State(EMPTY_GRAPH, map[]), ops).graph, fm, roots, files, f);
  }

  // ---------------------------------------------------------------------------------------------
  // Lists that share an entry and should not
  // ---------------------------------------------------------------------------------------------

  const HEADER := FileEntry(0)
  const OTHER := FileEntry(1)

  /** Includes that make every one of these roots known, as one header. */
  function Naming(roots: seq<string>): seq<Op> {
    if roots == [] then []
    else [Include(NameRoot(roots[0]))] + Naming(roots[1..])
  }

  function NameRoot(root: string): Inclusion {
    if Bracketed(root) then Inclusion(root[1..|root| - 1], true, None, Some(HEADER))
    else Inclusion(root, false, None, Some(HEADER))
  }

  /** A graph without edges that knows some of these roots, as HEADER. */
  ghost predicate Knows(g: IncludeGraph, roots: seq<string>, known: seq<string>) {
    && g.edges == map[] && g.targets <= {HEADER}
    && (forall name | name in g.angled :: name in roots && g.angled[name] == HEADER)
    && (forall r | r in known :: HEADER in g.targets && (Angled(r) ==> r in g.angled))
  }

  lemma {:induction false} NamingNames(fm: FileManager, s: State, all: seq<string>, known: seq<string>,
                                       roots: seq<string>)
    requires Knows(s.graph, all, known) && !Hopeless(roots) && forall r | r in roots :: r in all
    ensures var t := Run(fm, s, Naming(roots));
      Knows(t.graph, all, known + roots) && t.memo == s.memo && s.graph.version <= t.graph.version
    decreases |roots|
  {
    if roots == [] {
      assert known + roots == known;
    } else {
      var root, inc := roots[0], NameRoot(roots[0]);
      var t := Step(fm, s, Include(inc));
      assert root in roots;
      assert Bracketed(root) ==> "<" + inc.spelled + ">" == root;
      assert Naming(roots)[0] == Include(inc) && Naming(roots)[1..] == Naming(roots[1..]);
      assert forall r | r in known + [root] :: r in known || r == root;
      assert Knows(t.graph, all, known + [root]) && !Hopeless(roots[1..]);
      hide Knows, Hopeless, NameRoot, Record;
      NamingNames(fm, t, all, known + [root], roots[1..]);
      assert known + [root] + roots[1..] == known + roots;
    }
  }

  lemma {:induction false} RunAppends(fm: FileManager, s: State, ops: seq<Op>, more: seq<Op>)
    ensures Run(fm, s, ops + more) == Run(fm, Run(fm, s, ops), more)
    decreases |ops|
  {
    if ops == [] {
      assert ops + more == more;
    } else {
      RunAppends(fm, Step(fm, s, ops[0]), ops[1..], more);
      assert (ops + more)[1..] == ops[1..] + more;
    }
  }

  lemma {:induction false} NamingIncludes(roots: seq<string>, op: Op)
    requires op in Naming(roots)
    ensures op.Include?
  {
    if op != Include(NameRoot(roots[0])) {
      NamingIncludes(roots[1..], op);
    }
  }

  /** A name longer than all of these. */
  lemma {:induction false} FreshName(names: seq<string>) returns (name: string)
    ensures !Angled(name) && name !in names && forall n | n in names :: |n| < |name|
    ensures name != "" && '<' !in name
  {
    if names == [] {
      name := "x";
    } else {
      var shorter := FreshName(names[1..]);
      name := seq(|shorter| + |names[0]|, i => 'x');
      assert forall n | n in names :: n == names[0] || n in names[1..];
    }
  }

  /** b's roots can all be known while a's are not; asking for a first then answers b wrongly. */
  lemma CollisionMisleads(a: seq<string>, b: seq<string>) returns (fm: FileManager, ops: seq<Op>, files: set<string>)
    requires RootsKey(a) == RootsKey(b) && !Hopeless(b) && exists r :: r in a && r !in b
    ensures forall op | op in ops :: op.Query? ==> op.roots == a
    ensures !IsCurrent(fm, Run(fm, State(EMPTY_GRAPH, map[]), ops), b, files)
  {
    var name := FreshName(a + b);
    fm := (map r | r in b :: HEADER)[name := OTHER];
    files := {name};
    var s0 := State(EMPTY_GRAPH, map[]);
    var inc, ask := Include(Inclusion(name, false, None, Some(OTHER))), Query(a, {});
    ops := Naming(b) + [inc, ask];
    forall op | op in Naming(b)
      ensures op.Include?
    {
      NamingIncludes(b, op);
    }
    NamingNames(fm, s0, b, [], b);
    assert [] + b == b;
    var s := Run(fm, s0, Naming(b));
    RunAppends(fm, s0, Naming(b), [inc, ask]);
    var t, u := Step(fm, s, inc), Step(fm, Step(fm, s, inc), ask);
    assert [inc, ask][1..] == [ask] && [ask][1..] == [];
    assert Run(fm, s, [inc, ask]) == Run(fm, t, [ask]) == Run(fm, u, []) == u;
    FirstUnknown(fm, t, a, b, name);
    OtherIsUnreached(fm, t.graph, b, name);
  }

  lemma FirstUnknown(fm: FileManager, t: State, a: seq<string>, b: seq<string>, name: string)
    requires exists r :: r in a && r !in b
    requires name !in a && t.memo == map[] && forall n | n in t.graph.angled :: n in b
    requires fm == (map r | r in b :: HEADER)[name := OTHER]
    ensures !Recompute(t.graph, fm, a).ok && Refreshed(t.graph, fm, t.memo, a) == Recompute(t.graph, fm, a)
  {
    var r :| r in a && r !in b;
    SeedsAre(t.graph, fm, a);
    assert ResolveRoot(t.graph, fm, r).None?;
  }

  lemma OtherIsUnreached(fm: FileManager, g: IncludeGraph, b: seq<string>, name: string)
    requires g.edges == map[] && g.targets == {HEADER, OTHER} && b != []
    requires forall r | r in b && Angled(r) :: r in g.angled && g.angled[r] == HEADER
    requires name !in b && fm == (map r | r in b :: HEADER)[name := OTHER]
    ensures name in Unreached(g, fm, b, {name})
  {
    SeedsAre(g, fm, b);
    assert forall r | r in b :: ResolveRoot(g, fm, r) == Some(HEADER);
    var seeds := SeedsOf(g, fm, b);
    if OTHER in Closure(g, seeds.entries) {
      var r :| r in seeds.entries && Reaches(g.Includes(), r, OTHER);
      ClosedKeepsWalks(g.Includes(), {HEADER}, r, OTHER);
    }
  }

  /** Every query over these lists is current, after any run over them from an empty group. */
  ghost predicate AlwaysCurrent(lists: iset<seq<string>>) {
    forall fm, ops, roots, files | roots in lists && (forall op | op in ops :: Over(lists, op)) ::
      IsCurrent(fm, Run(fm, State(EMPTY_GRAPH, map[]), ops), roots, files)
  }

  /** The memo never misleads over these root lists iff those that share an entry name the same roots. */
  lemma AlwaysCurrentIff(lists: iset<seq<string>>)
    ensures AlwaysCurrent(lists) <==> Separate(lists)
  {
    hide IsCurrent, Pieces, RootsKey, SameRoots, Hopeless;
    if Separate(lists) {
      forall fm, ops, roots, files | roots in lists && (forall op | op in ops :: Over(lists, op))
        ensures IsCurrent(fm, Run(fm, State(EMPTY_GRAPH, map[]), ops), roots, files)
      {
        EveryQueryIsCurrent(lists, fm, State(EMPTY_GRAPH, map[]), ops, roots, files);
      }
    } else {
      var a, b :| a in lists && b in lists && Pieces(a) == Pieces(b) && !SameRoots(a, b) &&
        !(Hopeless(a) && Hopeless(b));
      KeysCollideIff(a, b);
      if LeavesOut(a, b) {
        CollisionBreaks(lists, a, b);
      } else {
        OneLeavesOut(a, b);
        CollisionBreaks(lists, b, a);
      }
    }
  }

  /** b's roots can be known together, and a has another. */
  predicate LeavesOut(a: seq<string>, b: seq<string>) {
    !Hopeless(b) && exists r :: r in a && r !in b
  }

  lemma OneLeavesOut(a: seq<string>, b: seq<string>)
    requires !SameRoots(a, b) && !(Hopeless(a) && Hopeless(b))
    ensures LeavesOut(a, b) || LeavesOut(b, a)
  {}

  lemma CollisionBreaks(lists: iset<seq<string>>, a: seq<string>, b: seq<string>)
    requires a in lists && b in lists && RootsKey(a) == RootsKey(b) && LeavesOut(a, b)
    ensures !AlwaysCurrent(lists)
  {
    hide IsCurrent, RootsKey;
    var fm, ops, files := CollisionMisleads(a, b);
    assert forall op | op in ops :: Over(lists, op);
  }

  /**
   A root name holding a newline shares the entry of the two names it spells: after a query for
   an unknown "a\nb", the known roots "a" and "b" are answered as unknown.
   */
  lemma NewlineRootMisleads()
    ensures var a, b, c := FileEntry(0), FileEntry(1), FileEntry(2);
      var fm := map["a" := a, "b" := b, "c" := c];
      var ops := [Include(Inclusion("a", false, None, Some(a))), Include(Inclusion("b", false, None, Some(b))),
                  Include(Inclusion("c", false, None, Some(c))), Query(["a\nb"], {})];
      var t := Run(fm, State(EMPTY_GRAPH, map[]), ops);
      "c" in Unreached(t.graph, fm, ["a", "b"], {"c"}) &&
      AnswerFrom(t.graph, fm, Refreshed(t.graph, fm, t.memo, ["a", "b"]), {"c"}) == {}
  {
    var a, b, c := FileEntry(0), FileEntry(1), FileEntry(2);
    var fm := map["a" := a, "b" := b, "c" := c];
    var i0 := Include(Inclusion("a", false, None, Some(a)));
    var i1 := Include(Inclusion("b", false, None, Some(b)));
    var i2 := Include(Inclusion("c", false, None, Some(c)));
    var q := Query(["a\nb"], {});
    var g := IncludeGraph(map[], {a, b, c}, map[], 3);
    var s0 := State(EMPTY_GRAPH, map[]);
    var s3 := State(g, map[]);
    assert Step(fm, Step(fm, Step(fm, s0, i0), i1), i2) == s3;
    assert [i0, i1, i2, q][1..] == [i1, i2, q] && [i1, i2, q][1..] == [i2, q] && [i2, q][1..] == [q] && [q][1..] == [];
    assert RootsKey(["a\nb"]) == "a\nb\n" by { assert ["a\nb"][1..] == []; }
    assert RootsKey(["a", "b"]) == "a\nb\n" by { assert ["a", "b"][1..] == ["b"]; assert ["b"][1..] == []; }
    assert !SeedsOf(g, fm, ["a\nb"]).ok;
    assert ["a", "b"][1..] == ["b"] && ["b"][1..] == [];
    assert SeedsOf(g, fm, ["b"]) == Seeds(true, {b} + SeedsOf(g, fm, []).entries);
    assert SeedsOf(g, fm, ["a", "b"]) == Seeds(true, {a} + SeedsOf(g, fm, ["b"]).entries);
    assert Run(fm, s3, [q]) == Run(fm, Step(fm, s3, q), []);
    var s1, s2 := Step(fm, s0, i0), Step(fm, Step(fm, s0, i0), i1);
    assert Run(fm, s0, [i0, i1, i2, q]) == Run(fm, s1, [i1, i2, q]) == Run(fm, s2, [i2, q]) == Run(fm, s3, [q]);
    var t := Step(fm, s3, q);
    forall r | r in {a, b}
      ensures !Reaches(g.Includes(), r, c)
    {
      if Reaches(g.Includes(), r, c) {
        ClosedKeepsWalks(g.Includes(), {a, b}, r, c);
      }
    }
  }

  // ---------------------------------------------------------------------------------------------
  // The group
  // ---------------------------------------------------------------------------------------------

  /** Files of a closed set of targets that contains the seeds and only reachable files are the closure. */
  lemma SaturatedIsClosure(g: IncludeGraph, seeds: set<FileEntry>, reached: set<FileEntry>)
    requires seeds <= reached <= Closure(g, seeds) && Closed(g.Includes(), reached)
    ensures reached == Closure(g, seeds)
  {
    forall f | f in Closure(g, seeds)
      ensures f in reached
    {
      var r :| r in seeds && Reaches(g.Includes(), r, f);
      ClosedKeepsWalks(g.Includes(), reached, r, f);
    }
  }

  ghost function Files(work: seq<FileEntry>): set<FileEntry> {
    set f | f in work
  }

  /** Only reachable files were reached, and only those in pending may still have successors outside. */
  ghost predicate Exploring(g: IncludeGraph, seeds: set<FileEntry>, reached: set<FileEntry>, pending: set<FileEntry>) {
    seeds <= reached <= Closure(g, seeds) && pending <= reached &&
    forall f | f in reached - pending :: Successors(g.Includes(), f) <= reached
  }

  /** The same while the successors of current are being added, done being those already seen. */
  ghost predicate Expanding(g: IncludeGraph, seeds: set<FileEntry>, reached: set<FileEntry>, pending: set<FileEntry>,
                            current: FileEntry, done: seq<FileEntry>) {
    Exploring(g, seeds, reached, pending + {current}) && forall c | c in done :: c in reached
  }

  lemma SeedsAreReached(g: IncludeGraph, seeds: set<FileEntry>)
    requires seeds <= g.targets
    ensures Exploring(g, seeds, seeds, seeds)
  {
    forall s | s in seeds
      ensures s in Closure(g, seeds)
    {
      ReachesSelf(g.Includes(), s);
    }
  }

  lemma FilesOfLast(work: seq<FileEntry>)
    requires work != []
    ensures Files(work) == Files(work[..|work| - 1]) + {work[|work| - 1]}
  {
    assert work == work[..|work| - 1] + [work[|work| - 1]];
  }

  lemma FinishNode(g: IncludeGraph, seeds: set<FileEntry>, reached: set<FileEntry>, pending: set<FileEntry>,
                   current: FileEntry, children: seq<FileEntry>)
    requires current in g.edges && g.edges[current] == children
    requires Expanding(g, seeds, reached, pending, current, children[..|children|])
    requires pending <= reached
    ensures Exploring(g, seeds, reached, pending)
  {
    assert children[..|children|] == children;
  }

  lemma ExpandChild(g: IncludeGraph, seeds: set<FileEntry>, reached: set<FileEntry>, pending: set<FileEntry>,
                    current: FileEntry, done: seq<FileEntry>, child: FileEntry)
    requires g.Valid() && Expanding(g, seeds, reached, pending, current, done)
    requires current in g.edges && child in g.edges[current]
    ensures Expanding(g, seeds, reached + {child}, pending + {child}, current, done)
  {
    var r :| r in seeds && Reaches(g.Includes(), r, current);
    ReachesStep(g.Includes(), r, current, child);
  }

  class CxxIncrementalGroup {
    const fm: FileManager
    var edges: map<FileEntry, seq<FileEntry>>
    var targets: set<FileEntry>
    var angled: map<string, FileEntry>
    var version: nat
    var reachMemo: map<string, Reach>

    ghost function Graph(): IncludeGraph
      reads this
    {
      IncludeGraph(edges, targets, angled, version)
    }

    ghost function Contents(): State
      reads this
    {
      State(Graph(), reachMemo)
    }

    ghost predicate Valid()
      reads this
    {
      Graph().Valid()
    }

    constructor (fm: FileManager)
      ensures Valid() && forall lists :: MemoAgrees(lists, fm, Contents())
      ensures this.fm == fm && Contents() == State(EMPTY_GRAPH, map[])
    {
      this.fm := fm;
      edges, targets, angled, version, reachMemo := map[], {}, map[], 0, map[];
    }

    method InclusionDirective(inc: Inclusion)
      requires Valid()
      modifies this
      ensures Valid() && Contents() == Step(fm, old(Contents()), Include(inc))
    {
      ghost var before := Contents();
      if inc.file.None? { return; }
      var target := inc.file.value;
      version := version + 1;
      targets := targets + {target};
      if inc.includer.Some? {
        edges := edges[inc.includer.value := OrEmpty(edges, inc.includer.value) + [target]];
      }
      var name := "<" + inc.spelled + ">";
      if inc.angled && name !in angled {
        angled := angled[name := target];
      }
      assert Contents() == Step(fm, before, Include(inc));
    }

    /** Every file the roots reach; false when a root is not a header of the group. */
    method ReachFromRoots(roots: seq<string>) returns (ok: bool, reached: set<FileEntry>)
      requires Valid()
      ensures Reach(version, ok, reached) == Recompute(Graph(), fm, roots)
    {
      ghost var g := Graph();
      var work: seq<FileEntry> := [];
      reached := {};
      for i := 0 to |roots|
        invariant reached <= targets && forall f :: f in work <==> f in reached
        invariant SeedsOf(g, fm, roots) ==
                  Seeds(SeedsOf(g, fm, roots[i..]).ok, reached + SeedsOf(g, fm, roots[i..]).entries)
      {
        var entry := ResolveRoot(IncludeGraph(edges, targets, angled, version), fm, roots[i]);
        if entry.None? { return false, reached; }
        if entry.value !in reached {
          reached := reached + {entry.value};
          work := work + [entry.value];
        }
      }
      assert roots[|roots|..] == [];
      reached := Drain(reached, work);
      return true, reached;
    }

    /** The worklist loop: adds everything the seeds include, directly or not. */
    method Drain(seeds: set<FileEntry>, seedWork: seq<FileEntry>) returns (reached: set<FileEntry>)
      requires Valid() && seeds <= targets && Files(seedWork) == seeds
      ensures reached == Closure(Graph(), seeds)
    {
      ghost var g := Graph();
      var work := seedWork;
      reached := seeds;
      SeedsAreReached(g, seeds);
      while work != []
        invariant Exploring(g, seeds, reached, Files(work))
        decreases targets - reached, |work|
      {
        var current := work[|work| - 1];
        FilesOfLast(work);
        work := work[..|work| - 1];
        if current in edges {
          reached, work := PushChildren(seeds, reached, work, current);
        } else {
          assert Successors(g.Includes(), current) == {};
        }
      }
      SaturatedIsClosure(g, seeds, reached);
    }

    /** The inner loop: pushes the files current includes that were not reached yet. */
    method PushChildren(ghost seeds: set<FileEntry>, reached0: set<FileEntry>, work0: seq<FileEntry>,
                        current: FileEntry)
      returns (reached: set<FileEntry>, work: seq<FileEntry>)
      requires Graph().Valid() && current in edges
      requires Exploring(Graph(), seeds, reached0, Files(work0) + {current})
      ensures Exploring(Graph(), seeds, reached, Files(work))
      ensures reached0 <= reached && (reached0 == reached ==> work == work0)
    {
      hide Closure;
      ghost var g := Graph();
      reached, work := reached0, work0;
      var children := edges[current];
      for j := 0 to |children|
        invariant Expanding(g, seeds, reached, Files(work), current, children[..j])
        invariant reached0 <= reached && (reached0 == reached ==> work == work0)
        invariant Files(work) <= reached
      {
        if children[j] !in reached {
          ExpandChild(g, seeds, reached, Files(work), current, children[..j], children[j]);
          reached := reached + {children[j]};
          work := work + [children[j]];
          FilesOfLast(work);
        }
        assert children[..j + 1] == children[..j] + [children[j]];
      }
      FinishNode(g, seeds, reached, Files(work), current, children);
    }

    method UnreachableFiles(roots: seq<string>, files: seq<string>) returns (result: set<string>)
      requires Valid()
      modifies this`reachMemo
      ensures Valid() && Contents() == Step(fm, old(Contents()), Query(roots, set f | f in files))
      ensures result == AnswerFrom(Graph(), fm, Refreshed(Graph(), fm, old(reachMemo), roots), set f | f in files)
    {
      ghost var before := Contents();
      ghost var fileSet := set f | f in files;
      result := {};
      var key := "";
      for i := 0 to |roots|
        invariant RootsKey(roots) == key + RootsKey(roots[i..])
      {
        key := key + (roots[i] + "\n");
      }
      assert key == RootsKey(roots);
      var memo := MemoAt(reachMemo, key);
      if memo.version != version || version == 0 {
        var ok, reached := ReachFromRoots(roots);
        memo := Reach(version, ok, reached);
      }
      reachMemo := reachMemo[key := memo];
      assert Contents() == Step(fm, before, Query(roots, fileSet));
      if !memo.ok { return; }
      for i := 0 to |files|
        invariant result == set f | f in files[..i] && f in fm && fm[f] in targets && fm[f] !in memo.reached
      {
        if files[i] in fm && fm[files[i]] in targets && fm[files[i]] !in memo.reached {
          result := result + {files[i]};
        }
      }
      assert files[..|files|] == files;
    }
  }
}
