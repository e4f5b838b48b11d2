/** The fragment files, the query index and the `.loaded` marker, as a state machine (main.rs, graph.rs,
    store.rs): fragments are written once, the index is loaded in whole or in part, or rebuilt.

    A fragment file is the set of its quads, addressed by its path inside the store; loading is set union. */
module Index {
  import opened Texts
  import opened Sorting

  type Quads = set<Text>

  datatype State = State(files: map<Text, Quads>, index: Quads, marker: Option<Text>)

  const EMPTY := State(map[], {}, None)

  datatype Op =
    | Write(path: Text, quads: Quads)
    | LoadAll
    | LoadNew
    | LoadPaths(paths: seq<Text>)
    | Rebuild

  /** Fragment paths end in `.nq.zst` and contain no newline. */
  predicate FragmentPath(p: Text) {
    '\n' !in p && |p| >= 7 && p[|p| - 7..] == ".nq.zst"
  }

  /** The paths the marker lists; none if there is no marker. */
  function Listed(marker: Option<Text>): set<Text> {
    if marker.None? then {} else Elements(Lines(marker.value))
  }

  ghost function Union(files: map<Text, Quads>, paths: set<Text>): iset<Text> {
    iset p, q | p in paths && p in files && q in files[p] :: q
  }

  ghost function Quadset(s: Quads): iset<Text> {
    iset q | q in s
  }

  // ----- the specification of each operation ------------------------------------------------

  /** What one operation does to the files, the index and the listed paths. */
  ghost predicate Stepped(s: State, op: Op, t: State) {
    match op
    case Write(path, quads) =>
      t == if path in s.files then s else s.(files := s.files[path := quads])
    case LoadAll => Loaded(s, s.files.Keys, t)
    case LoadNew => Loaded(s, s.files.Keys - Listed(s.marker), t)
    case LoadPaths(paths) => if Elements(paths) <= s.files.Keys then Loaded(s, Elements(paths), t) else t == s
    case Rebuild =>
      && t.files == s.files
      && Quadset(t.index) == Union(s.files, s.files.Keys)
      && Listed(t.marker) == if s.files == map[] then {[]} else s.files.Keys
  }

  ghost predicate Loaded(s: State, todo: set<Text>, t: State) {
    && t.files == s.files
    && Quadset(t.index) == Quadset(s.index) + Union(s.files, todo)
    && Listed(t.marker) == Listed(s.marker) + todo
  }

  // ----- the invariant ------------------------------------------------------------------------

  /** The index is the union of the listed files; besides files, only the empty name may be listed. */
  ghost predicate Inv(s: State) {
    && (forall p :: p in s.files ==> FragmentPath(p))
    && Listed(s.marker) <= s.files.Keys + {[]}
    && Quadset(s.index) == Union(s.files, Listed(s.marker))
  }

  // ----- the marker file ------------------------------------------------------------------------

  predicate Listable(paths: set<Text>) {
    forall p :: p in paths ==> FragmentPath(p) || p == []
  }

  lemma MarkerLists(paths: set<Text>)
    requires Listable(paths)
    ensures Listed(Some(Unlines(InOrder(paths)))) == paths && |Listed(None)| == 0
  {
    var ps := InOrder(paths);
    forall i | 0 <= i < |ps|
      ensures PlainLine(ps[i])
    {
      assert ps[i] in Elements(ps);
      assert ps[i] != [] ==> ps[i][|ps[i]| - 7..][6] == 't';
    }
    LinesUnlines(ps);
  }

  /** `join("\n") + "\n"` */
  function JoinLines(ps: seq<Text>): Text {
    Join(ps) + ['\n']
  }

  function Join(ps: seq<Text>): Text {
    if ps == [] then [] else if |ps| == 1 then ps[0] else ps[0] + (['\n'] + Join(ps[1..]))
  }

  lemma {:induction false} JoinUnlines(ps: seq<Text>)
    requires ps != []
    ensures JoinLines(ps) == Unlines(ps)
  {
    if |ps| == 1 {
      assert ps[1..] == [];
    } else {
      JoinUnlines(ps[1..]);
      assert ps[0] + (['\n'] + Join(ps[1..])) + ['\n'] == ps[0] + ['\n'] + JoinLines(ps[1..]);
    }
  }

  /** A rebuild lists exactly the files, except that an empty store leaves one empty line. */
  lemma RebuildLists(paths: set<Text>)
    requires forall p :: p in paths ==> FragmentPath(p)
    ensures Listed(Some(JoinLines(InOrder(paths)))) == if paths == {} then {[]} else paths
  {
    if paths == {} {
      assert JoinLines(InOrder(paths)) == "\n";
      assert Lines("\n") == [[]] by {
        assert "\n"[..0] == [] && "\n"[1..] == [];
      }
    } else {
      assert InOrder(paths) != [] by { assert |InOrder(paths)| == |paths|; }
      JoinUnlines(InOrder(paths));
      MarkerLists(paths);
    }
  }

  method Unlisted(candidates: seq<Text>, already: set<Text>) returns (todo: seq<Text>)
    requires Distinct(candidates)
    ensures Elements(todo) == Elements(candidates) - already && Distinct(todo)
  {
    todo := [];
    for i := 0 to |candidates|
      invariant forall p :: p in todo <==> p in candidates[..i] && p !in already
      invariant Distinct(todo)
    {
      var p := candidates[i];
      assert candidates[..i + 1] == candidates[..i] + [p];
      assert p !in candidates[..i];
      if p !in already {
        todo := todo + [p];
      }
    }
    assert candidates[..|candidates|] == candidates;
  }

  // ----- the operations ---------------------------------------------------------------------------

  class Store {
    var files: map<Text, Quads>
    var index: Quads
    var marker: Option<Text>

    constructor ()
      ensures Contents() == EMPTY && Inv(Contents())
    {
      files, index, marker := map[], {}, None;
      new;
      assert Union(map[], {}) == iset{};
    }

    ghost function Contents(): State
      reads this
    {
      State(files, index, marker)
    }

    /** `all_fragment_paths` */
    method AllFragmentPaths() returns (paths: seq<Text>)
      ensures Elements(paths) == files.Keys && Sorted(LessEq, paths) && Distinct(paths)
    {
      InOrderSorted(files.Keys);
      paths := InOrder(files.Keys);
    }

    /** `Store::write`: skipped when a file of that identity exists. */
    method WriteFragment(path: Text, quads: Quads) returns (written: bool)
      requires Inv(Contents()) && FragmentPath(path)
      modifies this`files
      ensures Stepped(old(Contents()), Write(path, quads), Contents()) && Inv(Contents())
      ensures written <==> path !in old(files)
    {
      if path in files {
        return false;
      }
      WriteKeepsInv(Contents(), path, quads);
      files := files[path := quads];
      written := true;
    }

    /** `Graph::load_paths`: a missing file fails the whole load before the commit. */
    method BulkLoad(paths: seq<Text>) returns (ok: bool)
      modifies this`index
      ensures ok <==> Elements(paths) <= files.Keys
      ensures ok ==> Quadset(index) == Quadset(old(index)) + Union(files, Elements(paths))
      ensures !ok ==> index == old(index)
    {
      var loader := index;
      for i := 0 to |paths|
        invariant index == old(index)
        invariant Elements(paths[..i]) <= files.Keys
        invariant Quadset(loader) == Quadset(index) + Union(files, Elements(paths[..i]))
      {
        assert paths[..i + 1] == paths[..i] + [paths[i]];
        assert Elements(paths[..i + 1]) == Elements(paths[..i]) + {paths[i]};
        if paths[i] !in files {
          assert paths[i] in Elements(paths);
          return false;
        }
        LoadOne(files, Elements(paths[..i]), paths[i], index, loader);
        loader := loader + files[paths[i]];
      }
      assert paths[..|paths|] == paths;
      index := loader;
      ok := true;
    }

    /** The common end of `load`: bulk-load, then rewrite the marker. */
    method LoadAndMark(todo: seq<Text>) returns (ok: bool)
      requires Inv(Contents())
      modifies this`index, this`marker
      ensures ok <==> Elements(todo) <= files.Keys
      ensures ok ==> Loaded(old(Contents()), Elements(todo), Contents())
      ensures ok ==> marker == Some(Unlines(InOrder(Listed(old(marker)) + Elements(todo))))
      ensures !ok ==> Contents() == old(Contents())
      ensures Inv(Contents())
    {
      var already := Listed(marker);
      ok := BulkLoad(todo);
      if ok {
        for i := 0 to |todo|
          invariant already == Listed(old(marker)) + Elements(todo[..i])
        {
          assert todo[..i + 1] == todo[..i] + [todo[i]];
          already := already + {todo[i]};
        }
        assert todo[..|todo|] == todo;
        MarkerLists(already);
        marker := Some(Unlines(InOrder(already)));
        LoadKeepsInv(old(Contents()), Elements(todo), Contents());
      }
    }

    /** `load --all` */
    method LoadEverything() returns (loaded: nat)
      requires Inv(Contents())
      modifies this`index, this`marker
      ensures Stepped(old(Contents()), Op.LoadAll, Contents()) && Inv(Contents())
      ensures loaded == |files.Keys|
    {
      var todo := AllFragmentPaths();
      SortedPaths(todo, files.Keys);
      var ok := LoadAndMark(todo);
      loaded := |todo|;
    }

    /** `load --new`: only what the marker does not list. */
    method LoadMissing() returns (loaded: nat)
      requires Inv(Contents())
      modifies this`index, this`marker
      ensures Stepped(old(Contents()), Op.LoadNew, Contents()) && Inv(Contents())
      ensures loaded == |files.Keys - Listed(old(marker))|
    {
      var candidates := AllFragmentPaths();
      var todo := Unlisted(candidates, Listed(marker));
      DistinctSize(todo);
      var ok := LoadAndMark(todo);
      loaded := |todo|;
    }

    /** `load <paths>`, for paths inside the store. */
    method LoadGiven(paths: seq<Text>) returns (ok: bool)
      requires Inv(Contents())
      modifies this`index, this`marker
      ensures Stepped(old(Contents()), Op.LoadPaths(paths), Contents()) && Inv(Contents())
      ensures ok <==> Elements(paths) <= files.Keys
    {
      ok := LoadAndMark(paths);
    }

    /** `rebuild`: delete the index with its marker, load every file, list every file. */
    method RebuildIndex()
      requires Inv(Contents())
      modifies this`index, this`marker
      ensures Stepped(old(Contents()), Op.Rebuild, Contents()) && Inv(Contents())
      ensures marker == Some(JoinLines(InOrder(files.Keys)))
    {
      ghost var before := Contents();
      index, marker := {}, None;
      var paths := AllFragmentPaths();
      var ok := BulkLoad(paths);
      marker := Some(JoinLines(paths));
      RebuildDone(before, paths, Contents());
    }
  }

  /** There is one sorted list of a set of paths. */
  lemma SortedPaths(paths: seq<Text>, s: set<Text>)
    requires Elements(paths) == s && Sorted(LessEq, paths) && Distinct(paths)
    ensures paths == InOrder(s)
  {
    TextOrder();
    InOrderSorted(s);
    SortedSetUnique(LessEq, paths, InOrder(s));
  }

  lemma RebuildDone(s: State, paths: seq<Text>, t: State)
    requires Inv(s) && Elements(paths) == s.files.Keys && Sorted(LessEq, paths) && Distinct(paths)
    requires t.files == s.files && Quadset(t.index) == Quadset({}) + Union(s.files, Elements(paths))
    requires t.marker == Some(JoinLines(paths))
    ensures Stepped(s, Op.Rebuild, t) && Inv(t) && paths == InOrder(s.files.Keys)
  {
    SortedPaths(paths, s.files.Keys);
    RebuildLists(s.files.Keys);
    assert Quadset({}) == iset{};
    assert s.files == map[] <==> s.files.Keys == {};
    RebuildKeepsInv(s, t);
  }

  lemma {:induction false} DistinctSize<T>(s: seq<T>)
    requires Distinct(s)
    ensures |Elements(s)| == |s|
  {
    if s != [] {
      var rest := s[..|s| - 1];
      assert s == rest + [s[|s| - 1]];
      assert Elements(s) == Elements(rest) + {s[|s| - 1]};
      DistinctSize(rest);
    }
  }

  lemma LoadOne(files: map<Text, Quads>, done: set<Text>, p: Text, index: Quads, loader: Quads)
    requires p in files && Quadset(loader) == Quadset(index) + Union(files, done)
    ensures Quadset(loader + files[p]) == Quadset(index) + Union(files, done + {p})
  {
    UnionOne(files, done, p);
    assert Quadset(loader + files[p]) == Quadset(loader) + Quadset(files[p]);
  }

  lemma UnionOne(files: map<Text, Quads>, done: set<Text>, p: Text)
    requires p in files
    ensures Union(files, done + {p}) == Union(files, done) + Quadset(files[p])
  {
  }

  lemma UnionSplit(files: map<Text, Quads>, a: set<Text>, b: set<Text>)
    ensures Union(files, a + b) == Union(files, a) + Union(files, b)
  {
  }

  // ----- what every step keeps ----------------------------------------------------------------------

  lemma WriteKeepsInv(s: State, path: Text, quads: Quads)
    requires Inv(s) && FragmentPath(path) && path !in s.files
    ensures Inv(s.(files := s.files[path := quads]))
  {
    assert path != [] && path !in Listed(s.marker);
    UnionUnlisted(s.files, Listed(s.marker), path, quads);
    assert Union(s.files[path := quads], Listed(s.marker)) == Union(s.files, Listed(s.marker));
  }

  lemma UnionUnlisted(files: map<Text, Quads>, paths: set<Text>, path: Text, quads: Quads)
    requires path !in paths
    ensures Union(files[path := quads], paths) == Union(files, paths)
  {
    var larger := files[path := quads];
    forall p | p in paths
      ensures p in larger <==> p in files
      ensures p in files ==> larger[p] == files[p]
    {
    }
  }

  lemma LoadKeepsInv(s: State, todo: set<Text>, t: State)
    requires Inv(s) && todo <= s.files.Keys && Loaded(s, todo, t)
    ensures Inv(t)
  {
    UnionSplit(s.files, Listed(s.marker), todo);
  }

  lemma RebuildKeepsInv(s: State, t: State)
    requires Inv(s) && Stepped(s, Op.Rebuild, t)
    ensures Inv(t)
  {
    assert [] !in s.files;
    assert Union(s.files, Listed(t.marker)) == Union(s.files, s.files.Keys);
  }

  predicate ProperOp(op: Op) {
    op.Write? ==> FragmentPath(op.path)
  }

  lemma StepKeepsInv(s: State, op: Op, t: State)
    requires Inv(s) && ProperOp(op) && Stepped(s, op, t)
    ensures Inv(t)
  {
    match op
    case Write(path, quads) => if path !in s.files { WriteKeepsInv(s, path, quads); }
    case LoadAll => LoadKeepsInv(s, s.files.Keys, t);
    case LoadNew => LoadKeepsInv(s, s.files.Keys - Listed(s.marker), t);
    case LoadPaths(paths) => if Elements(paths) <= s.files.Keys { LoadKeepsInv(s, Elements(paths), t); }
    case Rebuild => RebuildKeepsInv(s, t);
  }

  // ----- whole runs -------------------------------------------------------------------------------------

  /** `trace` is a run of `ops`, starting in `trace[0]`. */
  ghost predicate IsRun(trace: seq<State>, ops: seq<Op>) {
    && |trace| == |ops| + 1
    && forall i :: 0 <= i < |ops| ==> ProperOp(ops[i]) && Stepped(trace[i], ops[i], trace[i + 1])
  }

  function Last(trace: seq<State>): State
    requires trace != []
  {
    trace[|trace| - 1]
  }

  lemma {:induction false} RunKeepsInv(trace: seq<State>, ops: seq<Op>)
    requires IsRun(trace, ops) && Inv(trace[0])
    ensures Inv(Last(trace))
  {
    if ops != [] {
      StepKeepsInv(trace[0], ops[0], trace[1]);
      RunKeepsInv(trace[1..], ops[1..]);
    }
  }

  /** Files are never changed or removed. */
  lemma {:induction false} FilesAppendOnly(trace: seq<State>, ops: seq<Op>, p: Text)
    requires IsRun(trace, ops) && p in trace[0].files
    ensures p in Last(trace).files && Last(trace).files[p] == trace[0].files[p]
  {
    if ops != [] {
      assert Stepped(trace[0], ops[0], trace[1]);
      FilesAppendOnly(trace[1..], ops[1..], p);
    }
  }

  /** Loading what is missing, loading everything and rebuilding all leave the same index: the union of
      all files, whatever happened before. */
  lemma LoadNewEqualsRebuild(trace: seq<State>, ops: seq<Op>, n: State, a: State, r: State)
    requires IsRun(trace, ops) && trace[0] == EMPTY
    requires Stepped(Last(trace), Op.LoadNew, n) && Stepped(Last(trace), Op.LoadAll, a)
    requires Stepped(Last(trace), Op.Rebuild, r)
    ensures n.index == a.index == r.index && n.files == a.files == r.files
    ensures Listed(n.marker) - {[]} == Listed(a.marker) - {[]} == Listed(r.marker) - {[]} == r.files.Keys
  {
    var s := Last(trace);
    assert Inv(EMPTY) by { assert Union(map[], {}) == iset{}; }
    RunKeepsInv(trace, ops);
    var todo := s.files.Keys - Listed(s.marker);
    UnionSplit(s.files, Listed(s.marker), todo);
    UnionSplit(s.files, Listed(s.marker), s.files.Keys);
    WholeUnion(s.files, Listed(s.marker) + todo);
    WholeUnion(s.files, Listed(s.marker) + s.files.Keys);
    SameQuads(n.index, r.index);
    SameQuads(a.index, r.index);
    assert [] !in s.files.Keys;
  }

  lemma WholeUnion(files: map<Text, Quads>, paths: set<Text>)
    requires files.Keys <= paths
    ensures Union(files, paths) == Union(files, files.Keys)
  {
  }

  lemma SameQuads(a: Quads, b: Quads)
    requires Quadset(a) == Quadset(b)
    ensures a == b
  {
    forall q
      ensures q in a <==> q in b
    {
      assert q in Quadset(a) <==> q in Quadset(b);
    }
  }

  /** A second `load --new` has nothing to do. */
  lemma LoadNewTwice(s: State, t: State, u: State)
    requires Inv(s) && Stepped(s, Op.LoadNew, t) && Stepped(t, Op.LoadNew, u)
    ensures t.files.Keys <= Listed(t.marker) && u.index == t.index && Listed(u.marker) == Listed(t.marker)
  {
    var none := t.files.Keys - Listed(t.marker);
    assert none == {};
    assert Union(t.files, none) == iset{};
    SameQuads(u.index, t.index);
  }

  /** The files a run leaves behind: of each path, the first fragment written. */
  function FirstWritten(files: map<Text, Quads>, ops: seq<Op>): map<Text, Quads>
    decreases ops
  {
    if ops == [] then files
    else
      var op := ops[0];
      FirstWritten(if op.Write? && op.path !in files then files[op.path := op.quads] else files, ops[1..])
  }

  lemma {:induction false} RunFiles(trace: seq<State>, ops: seq<Op>)
    requires IsRun(trace, ops)
    ensures Last(trace).files == FirstWritten(trace[0].files, ops)
  {
    if ops != [] {
      assert Stepped(trace[0], ops[0], trace[1]);
      RunFiles(trace[1..], ops[1..]);
    }
  }

  /** Two runs that leave the same files answer queries alike after `load --new`, however their loads
      and rebuilds were interleaved with the writes. */
  lemma IndexDependsOnFilesOnly(trace: seq<State>, ops: seq<Op>, trace': seq<State>, ops': seq<Op>, n: State, n': State)
    requires IsRun(trace, ops) && trace[0] == EMPTY && IsRun(trace', ops') && trace'[0] == EMPTY
    requires FirstWritten(map[], ops) == FirstWritten(map[], ops')
    requires Stepped(Last(trace), Op.LoadNew, n) && Stepped(Last(trace'), Op.LoadNew, n')
    ensures n.index == n'.index
  {
    RunFiles(trace, ops);
    RunFiles(trace', ops');
    NewIndexIsUnion(trace, ops, n);
    NewIndexIsUnion(trace', ops', n');
    SameQuads(n.index, n'.index);
  }

  lemma NewIndexIsUnion(trace: seq<State>, ops: seq<Op>, n: State)
    requires IsRun(trace, ops) && trace[0] == EMPTY && Stepped(Last(trace), Op.LoadNew, n)
    ensures Quadset(n.index) == Union(Last(trace).files, Last(trace).files.Keys)
  {
    var s := Last(trace);
    assert Inv(EMPTY) by { assert Union(map[], {}) == iset{}; }
    RunKeepsInv(trace, ops);
    var todo := s.files.Keys - Listed(s.marker);
    UnionSplit(s.files, Listed(s.marker), todo);
    WholeUnion(s.files, Listed(s.marker) + todo);
  }
}
