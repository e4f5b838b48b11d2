/** Walking closures of store paths: the batched runtime closure over path-info references
    (`extract_runtime_closure` in extract/drv.rs) and the stack over input derivations
    (`read_closure` in nix/drv_file.rs). */
module RuntimeClosure {
  import opened Texts
  import opened Sorting
  import opened Reachability
  import DrvFile

  datatype PathInfo = PathInfo(references: seq<Text>, deriver: Option<Text>)

  /** The store paths that are present, as `nix path-info` reports them. */
  type PathDb = map<Text, PathInfo>

  /** One `path_info` call: an answer for each path asked, `None` where it is missing. */
  function AskPathInfo(db: PathDb, asked: seq<Text>): map<Text, Option<PathInfo>> {
    map p | p in asked :: if p in db then Some(db[p]) else None
  }

  ghost function References(db: PathDb): Edges<Text> {
    iset p, r | p in db && r in db[p].references && r in db :: (p, r)
  }

  ghost predicate IsReached(db: PathDb, roots: seq<Text>, p: Text) {
    exists s :: s in roots && s in db && Reach(References(db), s, p)
  }

  /** The present paths reachable from present roots through present paths. */
  ghost function Reached(db: PathDb, roots: seq<Text>): iset<Text> {
    iset p | IsReached(db, roots, p)
  }

  /** `retain(|p| !seen.contains_key(p))` */
  function Unseen(s: seq<Text>, seen: PathDb): (r: seq<Text>)
    ensures forall p :: p in r <==> p in s && p !in seen
  {
    if s == [] then [] else (if s[0] in seen then [] else [s[0]]) + Unseen(s[1..], seen)
  }

  ghost predicate ClosedUnder(db: PathDb, reached: iset<Text>) {
    forall p, r :: p in reached && p in db && r in db[p].references && r in db ==> r in reached
  }

  /** Everything recorded is a reached path with its own data; everything in the frontier is worth
      asking for; and what a recorded path references is recorded or in the frontier. */
  ghost predicate Progress(db: PathDb, reached: iset<Text>, roots: seq<Text>, frontier: seq<Text>, seen: PathDb) {
    && (forall p :: p in seen ==> p in db && seen[p] == db[p] && p in reached)
    && (forall p :: p in frontier && p in db ==> p in reached)
    && (forall p :: p in roots && p in db ==> p in seen || p in frontier)
    && (forall p, r :: p in seen && r in seen[p].references && r in db ==> r in seen || r in frontier)
  }

  lemma ReachedClosed(db: PathDb, roots: seq<Text>)
    ensures ClosedUnder(db, Reached(db, roots))
    ensures forall p :: p in roots && p in db ==> p in Reached(db, roots)
  {
    forall p, r | p in Reached(db, roots) && p in db && r in db[p].references && r in db
      ensures r in Reached(db, roots)
    {
      var s :| s in roots && s in db && Reach(References(db), s, p);
      ReachStep(References(db), s, p, r);
    }
    forall p | p in roots && p in db
      ensures p in Reached(db, roots)
    {
      ReachRefl(References(db), p);
    }
  }

  /** The reached paths are the least set of present paths holding the present roots and closed
      under references. */
  lemma ReachedLeast(db: PathDb, roots: seq<Text>, done: set<Text>)
    requires forall p :: p in roots && p in db ==> p in done
    requires forall p, r :: p in done && p in db && r in db[p].references && r in db ==> r in done
    ensures forall p :: p in Reached(db, roots) ==> p in done
  {
    forall p | p in Reached(db, roots)
      ensures p in done
    {
      var s :| s in roots && s in db && Reach(References(db), s, p);
      ReachInduct(References(db), (iset x | x in done), s, p);
    }
  }

  /** With nothing left to ask, what is recorded holds the roots and is closed. */
  lemma AllRecorded(db: PathDb, reached: iset<Text>, roots: seq<Text>, seen: PathDb)
    requires Progress(db, reached, roots, [], seen)
    ensures forall p :: p in roots && p in db ==> p in seen.Keys
    ensures forall p, r :: p in seen.Keys && p in db && r in db[p].references && r in db ==> r in seen.Keys
  {
  }

  /** The references of one present path that are new and not the path itself. */
  method PushReferences(references: seq<Text>, p: Text, seen: PathDb, frontier: seq<Text>)
    returns (frontier': seq<Text>)
    ensures forall r :: r in frontier' <==> (r in frontier || (r in references && r !in seen && r != p))
  {
    frontier' := frontier;
    for i := 0 to |references|
      invariant forall r :: r in frontier' <==> (r in frontier || (r in references[..i] && r !in seen && r != p))
    {
      assert references[..i + 1] == references[..i] + [references[i]];
      if references[i] !in seen && references[i] != p {
        frontier' := frontier' + [references[i]];
      }
    }
    assert references[..|references|] == references;
  }

  /** What is recorded and pushed once the answers for `done` have been read. */
  ghost predicate ReadSoFar(infos: map<Text, Option<PathInfo>>, seen: PathDb, done: seq<Text>,
                            frontier: seq<Text>, seen': PathDb)
    requires forall p :: p in done ==> p in infos
  {
    && (forall p :: p in seen' <==> (p in seen || (p in done && infos[p].Some?)))
    && (forall p :: p in seen' ==> p in seen || p in infos)
    && (forall p :: p in seen' ==> seen'[p] == if p in seen then seen[p] else infos[p].value)
    && (forall r :: r in frontier ==> exists p :: p in done && infos[p].Some? && r in infos[p].value.references)
    && (forall p, r :: p in done && infos[p].Some? && r in infos[p].value.references ==> r in seen' || r in frontier)
  }

  lemma ReadOne(infos: map<Text, Option<PathInfo>>, seen: PathDb, done: seq<Text>, frontier: seq<Text>, seen1: PathDb,
                p: Text, frontier': seq<Text>)
    requires (forall q :: q in done ==> q in infos) && ReadSoFar(infos, seen, done, frontier, seen1)
    requires p in infos && infos[p].Some? && (p in seen ==> seen[p] == infos[p].value)
    requires forall r :: r in frontier' <==>
             (r in frontier || (r in infos[p].value.references && r !in seen1 && r != p))
    ensures ReadSoFar(infos, seen, done + [p], frontier', seen1[p := infos[p].value])
  {
    assert forall q :: q in done + [p] <==> q in done || q == p;
    forall r | r in frontier'
      ensures exists q :: q in done + [p] && infos[q].Some? && r in infos[q].value.references
    {
      if r in frontier {
        var q :| q in done && infos[q].Some? && r in infos[q].value.references;
        assert q in done + [p];
      } else {
        assert p in done + [p];
      }
    }
  }

  lemma SkipOne(infos: map<Text, Option<PathInfo>>, seen: PathDb, done: seq<Text>, frontier: seq<Text>,
                seen1: PathDb, p: Text)
    requires (forall q :: q in done ==> q in infos) && ReadSoFar(infos, seen, done, frontier, seen1)
    requires p in infos && infos[p].None?
    ensures ReadSoFar(infos, seen, done + [p], frontier, seen1)
  {
    assert forall q :: q in done + [p] <==> q in done || q == p;
    forall r | r in frontier
      ensures exists q :: q in done + [p] && infos[q].Some? && r in infos[q].value.references
    {
      var q :| q in done && infos[q].Some? && r in infos[q].value.references;
      assert q in done + [p];
    }
  }

  method ReadAnswers(infos: map<Text, Option<PathInfo>>, keys: seq<Text>, seen: PathDb)
    returns (frontier: seq<Text>, seen': PathDb)
    requires forall p :: p in keys ==> p in infos
    requires forall p :: p in infos && infos[p].Some? && p in seen ==> seen[p] == infos[p].value
    ensures ReadSoFar(infos, seen, keys, frontier, seen')
  {
    frontier, seen' := [], seen;
    for i := 0 to |keys|
      invariant ReadSoFar(infos, seen, keys[..i], frontier, seen')
    {
      var p := keys[i];
      assert keys[..i + 1] == keys[..i] + [p];
      if infos[p].Some? {
        var more := PushReferences(infos[p].value.references, p, seen', frontier);
        ReadOne(infos, seen, keys[..i], frontier, seen', p, more);
        frontier, seen' := more, seen'[p := infos[p].value];
      } else {
        SkipOne(infos, seen, keys[..i], frontier, seen', p);
      }
    }
    assert keys[..|keys|] == keys;
  }

  method Round(infos: map<Text, Option<PathInfo>>, seen: PathDb) returns (frontier: seq<Text>, seen': PathDb)
    requires forall p :: p in infos && infos[p].Some? && p in seen ==> seen[p] == infos[p].value
    ensures forall p :: p in seen' <==> (p in seen || (p in infos && infos[p].Some?))
    ensures forall p :: p in seen' ==> seen'[p] == if p in seen then seen[p] else infos[p].value
    ensures forall r :: r in frontier ==> exists p :: p in infos && infos[p].Some? && r in infos[p].value.references
    ensures forall p, r :: p in infos && infos[p].Some? && r in infos[p].value.references ==>
            r in seen' || r in frontier
  {
    var keys := InOrder(infos.Keys);
    assert forall k :: k in keys <==> k in Elements(keys);
    frontier, seen' := ReadAnswers(infos, keys, seen);
  }

  lemma RoundProgress(db: PathDb, reached: iset<Text>, roots: seq<Text>, asked: seq<Text>, seen: PathDb,
                      pushed: seq<Text>, seen': PathDb, frontier: seq<Text>)
    requires Progress(db, reached, roots, asked, seen) && ClosedUnder(db, reached)
    requires forall p :: p in seen' <==> (p in seen || (p in asked && p in db))
    requires forall p :: p in seen' ==> p in db && seen'[p] == db[p]
    requires forall r :: r in pushed ==> exists p :: p in asked && p in db && r in db[p].references
    requires forall p, r :: p in asked && p in db && r in db[p].references ==> r in seen' || r in pushed
    requires forall p :: p in frontier <==> p in pushed && p !in seen'
    ensures Progress(db, reached, roots, frontier, seen')
  {
    forall r | r in frontier && r in db
      ensures r in reached
    {
      var p :| p in asked && p in db && r in db[p].references;
    }
  }

  /** Sort, deduplicate and drop what has been recorded. */
  method Normalise(pushed: seq<Text>, seen: PathDb) returns (next: seq<Text>)
    ensures forall p :: p in next <==> p in pushed && p !in seen
  {
    var sorted := Sort(LessEq, pushed);
    SortElements(LessEq, pushed);
    DedupElements(sorted);
    var deduped := Dedup(sorted);
    assert forall p :: p in deduped <==> p in Elements(deduped);
    assert forall p :: p in pushed <==> p in Elements(pushed);
    next := Unseen(deduped, seen);
  }

  method AskAndRecord(db: PathDb, asked: seq<Text>, seen: PathDb) returns (pushed: seq<Text>, seen': PathDb)
    requires forall p :: p in seen ==> p in db && seen[p] == db[p]
    ensures forall p :: p in seen' <==> (p in seen || (p in asked && p in db))
    ensures forall p :: p in seen' ==> p in db && seen'[p] == db[p]
    ensures forall r :: r in pushed ==> exists p :: p in asked && p in db && r in db[p].references
    ensures forall p, r :: p in asked && p in db && r in db[p].references ==> r in seen' || r in pushed
  {
    var infos := AskPathInfo(db, asked);
    pushed, seen' := Round(infos, seen);
    forall r | r in pushed
      ensures exists p :: p in asked && p in db && r in db[p].references
    {
      var p :| p in infos && infos[p].Some? && r in infos[p].value.references;
    }
    forall p, r | p in asked && p in db && r in db[p].references
      ensures r in seen' || r in pushed
    {
      assert p in infos && infos[p] == Some(db[p]);
    }
  }

  /** One turn of the loop. */
  method Advance(db: PathDb, ghost reached: iset<Text>, ghost roots: seq<Text>, frontier: seq<Text>, seen: PathDb)
    returns (next: seq<Text>, seen': PathDb)
    requires Progress(db, reached, roots, frontier, seen) && ClosedUnder(db, reached)
    requires frontier != [] && forall p :: p in frontier ==> p !in seen
    ensures Progress(db, reached, roots, next, seen') && forall p :: p in next ==> p !in seen'
    ensures db.Keys - seen'.Keys < db.Keys - seen.Keys || (db.Keys - seen'.Keys == db.Keys - seen.Keys && next == [])
  {
    var pushed;
    pushed, seen' := AskAndRecord(db, frontier, seen);
    next := Normalise(pushed, seen');
    RoundProgress(db, reached, roots, frontier, seen, pushed, seen', next);
    RoundShrinks(db, frontier, seen, pushed, seen', next);
  }

  /** The closure terminates although missing paths are never recorded and may be asked for again:
      a round either records a new path or leaves nothing to ask. */
  method ExtractRuntimeClosure(db: PathDb, roots: seq<Text>) returns (seen: PathDb)
    ensures forall p :: p in seen <==> p in Reached(db, roots)
    ensures forall p :: p in seen ==> p in db && seen[p] == db[p]
  {
    ghost var reached := Reached(db, roots);
    seen := map[];
    var frontier := roots;
    ReachedClosed(db, roots);
    while frontier != []
      invariant Progress(db, reached, roots, frontier, seen)
      invariant forall p :: p in frontier ==> p !in seen
      decreases db.Keys - seen.Keys, |frontier|
    {
      frontier, seen := Advance(db, reached, roots, frontier, seen);
    }
    AllRecorded(db, reached, roots, seen);
    ReachedLeast(db, roots, seen.Keys);
  }

  lemma RoundShrinks(db: PathDb, asked: seq<Text>, seen: PathDb, pushed: seq<Text>, seen': PathDb, next: seq<Text>)
    requires forall p :: p in asked ==> p !in seen
    requires forall p :: p in seen' <==> (p in seen || (p in asked && p in db))
    requires forall r :: r in pushed ==> exists p :: p in asked && p in db && r in db[p].references
    requires forall p :: p in next <==> p in pushed && p !in seen'
    ensures db.Keys - seen'.Keys < db.Keys - seen.Keys || (db.Keys - seen'.Keys == db.Keys - seen.Keys && next == [])
  {
    assert next != [] ==> next[0] in next;
    if p :| p in asked && p in db {
      assert p in db.Keys - seen.Keys && p !in db.Keys - seen'.Keys;
    } else {
      assert seen'.Keys == seen.Keys;
    }
  }

  // ----- read_closure -----------------------------------------------------------------------

  /** The `.drv` files that can be read and parsed. */
  type DrvDb = map<Text, DrvFile.DrvInfo>

  ghost function Readable(files: map<Text, Text>): DrvDb {
    map p | p in files && DrvFile.ParseDrvText(p, files[p]).Ok? :: DrvFile.ParseDrvText(p, files[p]).value
  }

  ghost function Inputs(drvs: DrvDb): Edges<Text> {
    iset p, q | p in drvs && q in drvs[p].inputDrvs :: (p, q)
  }

  ghost predicate InClosure(drvs: DrvDb, roots: seq<Text>, p: Text) {
    exists s :: s in roots && Reach(Inputs(drvs), s, p)
  }

  ghost function Closure(drvs: DrvDb, roots: seq<Text>): iset<Text> {
    iset p | InClosure(drvs, roots, p)
  }

  ghost predicate Closed(drvs: DrvDb, closure: iset<Text>) {
    forall p, q :: p in closure && p in drvs && q in drvs[p].inputDrvs ==> q in closure
  }

  ghost predicate Walking(drvs: DrvDb, closure: iset<Text>, roots: seq<Text>, stack: seq<Text>, out: DrvDb) {
    && (forall p :: p in out ==> p in drvs && out[p] == drvs[p] && p in closure)
    && (forall p :: p in stack ==> p in closure)
    && (forall p :: p in roots ==> p in out || p in stack)
    && (forall p, q :: p in out && q in drvs[p].inputDrvs ==> q in out || q in stack)
  }

  lemma ClosureClosed(drvs: DrvDb, roots: seq<Text>)
    ensures Closed(drvs, Closure(drvs, roots))
    ensures forall p :: p in roots ==> p in Closure(drvs, roots)
  {
    forall p, q | p in Closure(drvs, roots) && p in drvs && q in drvs[p].inputDrvs
      ensures q in Closure(drvs, roots)
    {
      var s :| s in roots && Reach(Inputs(drvs), s, p);
      ReachStep(Inputs(drvs), s, p, q);
    }
    forall p | p in roots
      ensures p in Closure(drvs, roots)
    {
      ReachRefl(Inputs(drvs), p);
    }
  }

  lemma WalkStep(drvs: DrvDb, closure: iset<Text>, roots: seq<Text>, stack: seq<Text>, out: DrvDb, p: Text,
                 stack': seq<Text>)
    requires Walking(drvs, closure, roots, stack + [p], out) && Closed(drvs, closure) && p in drvs
    requires forall q :: q in stack' <==> (q in stack || (q in drvs[p].inputDrvs && q !in out))
    ensures Walking(drvs, closure, roots, stack', out[p := drvs[p]])
  {
    assert p in stack + [p] && forall q :: q in stack + [p] <==> q in stack || q == p;
  }

  lemma WalkSkip(drvs: DrvDb, closure: iset<Text>, roots: seq<Text>, stack: seq<Text>, out: DrvDb, p: Text)
    requires Walking(drvs, closure, roots, stack + [p], out) && p in out
    ensures Walking(drvs, closure, roots, stack, out)
  {
    assert forall q :: q in stack + [p] <==> q in stack || q == p;
  }

  /** The closure is the least set holding the roots and closed under inputs. */
  lemma ClosureLeast(drvs: DrvDb, roots: seq<Text>, done: set<Text>)
    requires forall p :: p in roots ==> p in done
    requires forall p, q :: p in done && p in drvs && q in drvs[p].inputDrvs ==> q in done
    ensures forall p :: p in Closure(drvs, roots) ==> p in done
  {
    forall p | p in Closure(drvs, roots)
      ensures p in done
    {
      var s :| s in roots && Reach(Inputs(drvs), s, p);
      ReachInduct(Inputs(drvs), (iset x | x in done), s, p);
    }
  }

  lemma WalkDone(drvs: DrvDb, closure: iset<Text>, roots: seq<Text>, out: DrvDb)
    requires Walking(drvs, closure, roots, [], out)
    ensures forall p :: p in roots ==> p in out.Keys
    ensures forall p, q :: p in out.Keys && p in drvs && q in drvs[p].inputDrvs ==> q in out.Keys
  {
  }

  method PushInputs(deps: seq<Text>, out: DrvDb, stack: seq<Text>) returns (stack': seq<Text>)
    ensures forall q :: q in stack' <==> (q in stack || (q in deps && q !in out))
  {
    stack' := stack;
    for i := 0 to |deps|
      invariant forall q :: q in stack' <==> (q in stack || (q in deps[..i] && q !in out))
    {
      assert deps[..i + 1] == deps[..i] + [deps[i]];
      if deps[i] !in out {
        stack' := stack' + [deps[i]];
      }
    }
    assert deps[..|deps|] == deps;
  }

  type Reader = Text -> Option<DrvFile.DrvInfo>

  /** `read_drv_file`: what the parser makes of a file, if it is there. */
  function ReadDrvFile(files: map<Text, Text>): Reader {
    (p: Text) =>
      if p !in files then None
      else
        match DrvFile.ParseDrvText(p, files[p])
        case Ok(d) => Some(d)
        case Err(_) => None
  }

  ghost predicate Reads(read: Reader, drvs: DrvDb) {
    forall p {:trigger read(p)} {:trigger p in drvs} ::
      (p in drvs <==> read(p).Some?) && (p in drvs ==> drvs[p] == read(p).value)
  }

  lemma ReadsReadable(files: map<Text, Text>)
    ensures Reads(ReadDrvFile(files), Readable(files))
  {
  }

  /** Push the inputs of a derivation that has just been read. */
  method PushDrvInputs(d: DrvFile.DrvInfo, out: DrvDb, stack: seq<Text>) returns (stack': seq<Text>)
    ensures forall q :: q in stack' <==> (q in stack || (q in d.inputDrvs && q !in out))
  {
    var deps := InOrder(d.inputDrvs.Keys);
    assert forall q :: q in deps <==> q in Elements(deps);
    stack' := PushInputs(deps, out, stack);
  }

  /** One turn of the loop. */
  method TakeInput(read: Reader, ghost drvs: DrvDb, ghost closure: iset<Text>, ghost roots: seq<Text>, p: Text,
                   stack: seq<Text>, out: DrvDb)
    returns (r: Result<(seq<Text>, DrvDb), Text>)
    requires Reads(read, drvs) && Closed(drvs, closure) && Walking(drvs, closure, roots, stack + [p], out)
    ensures r.Ok? ==> Walking(drvs, closure, roots, r.value.0, r.value.1)
    ensures r.Ok? ==> p in drvs && r.value.1.Keys == out.Keys + {p} && (p in out ==> r.value == (stack, out))
    ensures r.Err? ==> r.error in closure && r.error !in drvs
  {
    assert p in stack + [p];
    if p in out {
      WalkSkip(drvs, closure, roots, stack, out, p);
      return Ok((stack, out));
    }
    var d := read(p);
    if d.None? {
      return Err(p);
    }
    var stack' := PushDrvInputs(d.value, out, stack);
    WalkStep(drvs, closure, roots, stack, out, p, stack');
    r := Ok((stack', out[p := d.value]));
  }

  lemma Taken<K>(drvs: set<K>, out: set<K>, p: K)
    requires p in drvs && p !in out
    ensures drvs - (out + {p}) < drvs - out
  {
    assert p in drvs - out && p !in drvs - (out + {p});
  }

  method WalkInputs(read: Reader, ghost drvs: DrvDb, ghost closure: iset<Text>, roots: seq<Text>)
    returns (r: Result<DrvDb, Text>)
    requires Reads(read, drvs) && Closed(drvs, closure) && forall p :: p in roots ==> p in closure
    ensures r.Ok? ==> Walking(drvs, closure, roots, [], r.value)
    ensures r.Err? ==> r.error in closure && r.error !in drvs
  {
    var out: DrvDb := map[];
    var stack := roots;
    while stack != []
      invariant Walking(drvs, closure, roots, stack, out)
      decreases drvs.Keys - out.Keys, |stack|
    {
      var p := stack[|stack| - 1];
      var rest := stack[..|stack| - 1];
      assert stack == rest + [p];
      var step := TakeInput(read, drvs, closure, roots, p, rest, out);
      if step.Err? {
        return Err(step.error);
      }
      if p !in out { Taken(drvs.Keys, out.Keys, p); }
      stack, out := step.value.0, step.value.1;
    }
    r := Ok(out);
  }

  /** The closure of `.drv` files under their inputs: exactly the reachable files, or an error naming
      a reachable file that is missing or malformed. */
  method ReadClosure(files: map<Text, Text>, roots: seq<Text>) returns (r: Result<DrvDb, Text>)
    ensures r.Ok? ==> forall p :: p in r.value <==> p in Closure(Readable(files), roots)
    ensures r.Ok? ==> forall p :: p in r.value ==> p in Readable(files) && r.value[p] == Readable(files)[p]
    ensures r.Err? ==> r.error in Closure(Readable(files), roots) && r.error !in Readable(files)
  {
    ghost var closure := Closure(Readable(files), roots);
    ClosureClosed(Readable(files), roots);
    ReadsReadable(files);
    r := WalkInputs(ReadDrvFile(files), Readable(files), closure, roots);
    if r.Ok? {
      WalkDone(Readable(files), closure, roots, r.value);
      ClosureLeast(Readable(files), roots, r.value.Keys);
    }
  }
}
