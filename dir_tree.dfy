/**
  The best-directory search `_find_best_path` (tagtool/filename.py, core.py)
  and `find_best_path` (utils.py). The directory listing `dirs_at` becomes a
  finite tree whose children are given in listing order; a path below the root
  is the sequence of its segment names, and `os.path.relpath` of it is
  RelPath. tagtool/filename.py calls `dirs_at` without defining or importing
  it; the search here is the one core.py runs with its own `dirs_at`.
*/
module DirTree {
  import opened Wrappers
  import opened TagConfig
  import opened TagCodec
  import opened TagEdit

  datatype Entry = Entry(name: string, sub: Tree)

  /** A directory: its subdirectories in the order `dirs_at` lists them. */
  datatype Tree = Dir(entries: seq<Entry>)

  /** The search result: the chosen path and the tags it leaves unplaced. */
  type Found = (seq<string>, set<string>)

  /** Child i may hold the file: all the tags of its name are wanted. */
  predicate Eligible(node: Tree, tags: set<string>, cfg: Config, i: int)
    requires 0 <= i < |node.entries|
  {
    RawGetTags(node.entries[i].name, cfg) <= tags
  }

  /** The recursive call the search makes for child i. */
  function ChildResult(node: Tree, path: seq<string>, tags: set<string>, cfg: Config, i: int): Found
    requires 0 <= i < |node.entries|
    decreases node, 0
  {
    var e := node.entries[i];
    BestPath(e.sub, path + [e.name], tags - RawGetTags(e.name, cfg), cfg)
  }

  /** The loop of the search after the first k children: the best result so
      far, replaced only by a strictly smaller leftover. */
  function Scan(node: Tree, path: seq<string>, tags: set<string>, cfg: Config, k: nat): Found
    requires k <= |node.entries|
    decreases node, 1, k
  {
    if k == 0 then (path, tags)
    else
      var best := Scan(node, path, tags, cfg, k - 1);
      if Eligible(node, tags, cfg, k - 1) then
        var r := ChildResult(node, path, tags, cfg, k - 1);
        if |r.1| < |best.1| then r else best
      else best
  }

  /** `_find_best_path(path, tags)` on the directory `node` at `path`. */
  function BestPath(node: Tree, path: seq<string>, tags: set<string>, cfg: Config): Found
    decreases node, 2
  {
    Scan(node, path, tags, cfg, |node.entries|)
  }

  /** `_find_best_path`, with its loop over the listing and its recursion. */
  method FindBestPath(node: Tree, path: seq<string>, tags: set<string>, cfg: Config)
    returns (bestPath: seq<string>, bestLeft: set<string>)
    ensures (bestPath, bestLeft) == BestPath(node, path, tags, cfg)
    decreases node
  {
    bestPath, bestLeft := path, tags;
    var i := 0;
    while i < |node.entries|
      invariant 0 <= i <= |node.entries|
      invariant (bestPath, bestLeft) == Scan(node, path, tags, cfg, i)
    {
      var d := node.entries[i];
      var dTags := RawGetTags(d.name, cfg);
      if dTags <= tags {
        var nextTags := tags - dTags;
        var rPath, rLeft := FindBestPath(d.sub, path + [d.name], nextTags, cfg);
        if |rLeft| < |bestLeft| {
          bestPath, bestLeft := rPath, rLeft;
        }
      }
      i := i + 1;
    }
  }

  // ---------------------------------------------------------------------
  // Descents and what they leave over.

  /** Following the child indices `idx` down from `node`: the segments
      visited and the tags left, or None when a step is not allowed. */
  function Follow(node: Tree, idx: seq<nat>, tags: set<string>, cfg: Config): Option<Found>
    decreases idx
  {
    if idx == [] then Some(([], tags))
    else if idx[0] >= |node.entries| || !Eligible(node, tags, cfg, idx[0]) then None
    else
      var e := node.entries[idx[0]];
      match Follow(e.sub, idx[1..], tags - RawGetTags(e.name, cfg), cfg)
      case None => None
      case Some(r) => Some(([e.name] + r.0, r.1))
  }

  /** The tags of a sequence of path segments. */
  function UnionTags(segs: seq<string>, cfg: Config): set<string>
    decreases |segs|
  {
    if segs == [] then {} else RawGetTags(segs[0], cfg) + UnionTags(segs[1..], cfg)
  }

  /** Every step of an allowed descent spends only wanted tags, and what is
      left is the wanted set minus the tags of the segments. */
  lemma {:induction false} FollowLeftover(node: Tree, idx: seq<nat>, tags: set<string>, cfg: Config)
    requires Follow(node, idx, tags, cfg).Some?
    ensures UnionTags(Follow(node, idx, tags, cfg).value.0, cfg) <= tags
    ensures Follow(node, idx, tags, cfg).value.1 == tags - UnionTags(Follow(node, idx, tags, cfg).value.0, cfg)
    decreases idx
  {
    if idx != [] {
      var e := node.entries[idx[0]];
      var next := tags - RawGetTags(e.name, cfg);
      FollowLeftover(e.sub, idx[1..], next, cfg);
      var r := Follow(e.sub, idx[1..], next, cfg).value;
      assert ([e.name] + r.0)[1..] == r.0;
    }
  }

  /** Scan's result is the stop-here result or an allowed descent. */
  lemma {:induction false} ScanIsDescent(node: Tree, path: seq<string>, tags: set<string>, cfg: Config, k: nat)
    returns (idx: seq<nat>)
    requires k <= |node.entries|
    ensures Follow(node, idx, tags, cfg).Some?
    ensures Scan(node, path, tags, cfg, k)
         == (path + Follow(node, idx, tags, cfg).value.0, Follow(node, idx, tags, cfg).value.1)
    decreases node, 1, k
  {
    if k == 0 {
      idx := [];
      assert path + [] == path;
    } else {
      var best := Scan(node, path, tags, cfg, k - 1);
      idx := ScanIsDescent(node, path, tags, cfg, k - 1);
      if Eligible(node, tags, cfg, k - 1) {
        var r := ChildResult(node, path, tags, cfg, k - 1);
        if |r.1| < |best.1| {
          var e := node.entries[k - 1];
          var sub := BestPathIsDescentWitness(e.sub, path + [e.name], tags - RawGetTags(e.name, cfg), cfg);
          idx := [k - 1] + sub;
          assert idx[1..] == sub;
          var f := Follow(e.sub, sub, tags - RawGetTags(e.name, cfg), cfg).value;
          assert Follow(node, idx, tags, cfg) == Some(([e.name] + f.0, f.1));
          assert path + [e.name] + f.0 == path + ([e.name] + f.0);
        }
      }
    }
  }

  lemma {:induction false} BestPathIsDescentWitness(node: Tree, path: seq<string>, tags: set<string>, cfg: Config)
    returns (idx: seq<nat>)
    ensures Follow(node, idx, tags, cfg).Some?
    ensures BestPath(node, path, tags, cfg)
         == (path + Follow(node, idx, tags, cfg).value.0, Follow(node, idx, tags, cfg).value.1)
    decreases node, 2
  {
    idx := ScanIsDescent(node, path, tags, cfg, |node.entries|);
  }

  /** `_find_best_path(p, T)` returns p extended by an allowed descent whose
      directories carry only wanted tags, and leaves T minus their tags. */
  lemma BestPathShape(node: Tree, path: seq<string>, tags: set<string>, cfg: Config)
    ensures exists segs: seq<string> ::
      && BestPath(node, path, tags, cfg).0 == path + segs
      && UnionTags(segs, cfg) <= tags
      && BestPath(node, path, tags, cfg).1 == tags - UnionTags(segs, cfg)
  {
    var idx := BestPathIsDescentWitness(node, path, tags, cfg);
    FollowLeftover(node, idx, tags, cfg);
    var segs := Follow(node, idx, tags, cfg).value.0;
    assert BestPath(node, path, tags, cfg).0 == path + segs;
  }

  // ---------------------------------------------------------------------
  // Optimality and the tie-break.

  /** The running best never exceeds the wanted set nor any earlier
      eligible child's result. */
  lemma {:induction false} ScanBound(node: Tree, path: seq<string>, tags: set<string>, cfg: Config, k: nat)
    requires k <= |node.entries|
    ensures |Scan(node, path, tags, cfg, k).1| <= |tags|
    ensures forall i :: 0 <= i < k && Eligible(node, tags, cfg, i) ==>
      |Scan(node, path, tags, cfg, k).1| <= |ChildResult(node, path, tags, cfg, i).1|
    decreases k
  {
    if k > 0 {
      ScanBound(node, path, tags, cfg, k - 1);
    }
  }

  /** No allowed descent leaves fewer tags than `_find_best_path`. */
  lemma {:induction false} BestPathOptimal(node: Tree, path: seq<string>, tags: set<string>, cfg: Config, idx: seq<nat>)
    requires Follow(node, idx, tags, cfg).Some?
    ensures |BestPath(node, path, tags, cfg).1| <= |Follow(node, idx, tags, cfg).value.1|
    decreases idx
  {
    ScanBound(node, path, tags, cfg, |node.entries|);
    if idx != [] {
      var e := node.entries[idx[0]];
      BestPathOptimal(e.sub, path + [e.name], tags - RawGetTags(e.name, cfg), cfg, idx[1..]);
    }
  }

  /** The search keeps the stop-here result unless a child strictly improves
      on it, and otherwise returns the first child in listing order that
      reaches the smallest leftover. */
  lemma {:induction false} ScanFirstMinimum(node: Tree, path: seq<string>, tags: set<string>, cfg: Config, k: nat)
    requires k <= |node.entries|
    ensures (forall i :: 0 <= i < k && Eligible(node, tags, cfg, i) ==>
               |ChildResult(node, path, tags, cfg, i).1| >= |tags|)
            ==> Scan(node, path, tags, cfg, k) == (path, tags)
    ensures Scan(node, path, tags, cfg, k) == (path, tags) ||
      exists j :: 0 <= j < k && Eligible(node, tags, cfg, j)
        && Scan(node, path, tags, cfg, k) == ChildResult(node, path, tags, cfg, j)
        && |ChildResult(node, path, tags, cfg, j).1| < |tags|
        && forall i :: 0 <= i < j && Eligible(node, tags, cfg, i) ==>
             |ChildResult(node, path, tags, cfg, i).1| > |ChildResult(node, path, tags, cfg, j).1|
    decreases k
  {
    if k > 0 {
      ScanFirstMinimum(node, path, tags, cfg, k - 1);
      ScanBound(node, path, tags, cfg, k - 1);
      var best := Scan(node, path, tags, cfg, k - 1);
      if Eligible(node, tags, cfg, k - 1) {
        var r := ChildResult(node, path, tags, cfg, k - 1);
        if |r.1| < |best.1| {
          var j := k - 1;
          assert forall i :: 0 <= i < j && Eligible(node, tags, cfg, i) ==>
             |ChildResult(node, path, tags, cfg, i).1| > |ChildResult(node, path, tags, cfg, j).1|;
        }
      }
    }
  }

  /** BestPath in the terms of the source: `(path, tags)` when no child
      improves, else the earliest child with the smallest leftover. */
  lemma BestPathFirstMinimum(node: Tree, path: seq<string>, tags: set<string>, cfg: Config)
    ensures (forall i :: 0 <= i < |node.entries| && Eligible(node, tags, cfg, i) ==>
               |ChildResult(node, path, tags, cfg, i).1| >= |tags|)
            ==> BestPath(node, path, tags, cfg) == (path, tags)
    ensures BestPath(node, path, tags, cfg) == (path, tags) ||
      exists j :: 0 <= j < |node.entries| && Eligible(node, tags, cfg, j)
        && BestPath(node, path, tags, cfg) == ChildResult(node, path, tags, cfg, j)
        && (forall i :: 0 <= i < j && Eligible(node, tags, cfg, i) ==>
             |ChildResult(node, path, tags, cfg, i).1| > |ChildResult(node, path, tags, cfg, j).1|)
        && (forall i :: j < i < |node.entries| && Eligible(node, tags, cfg, i) ==>
             |ChildResult(node, path, tags, cfg, i).1| >= |ChildResult(node, path, tags, cfg, j).1|)
  {
    ScanFirstMinimum(node, path, tags, cfg, |node.entries|);
    ScanBound(node, path, tags, cfg, |node.entries|);
  }

  // ---------------------------------------------------------------------
  // The path relative to the root.

  /** `"/".join(segs)`. */
  function JoinPath(segs: seq<string>): string
    decreases |segs|
  {
    if segs == [] then ""
    else if |segs| == 1 then segs[0]
    else segs[0] + "/" + JoinPath(segs[1..])
  }

  /** `os.path.relpath(root/segs, root)`: "." for the root itself. */
  function RelPath(segs: seq<string>): string
  {
    if segs == [] then "." else JoinPath(segs)
  }

  lemma {:induction false} JoinPathTags(segs: seq<string>, cfg: Config)
    requires segs != [] && '/' in cfg.delims
    ensures RawGetTags(JoinPath(segs), cfg) == UnionTags(segs, cfg)
    decreases |segs|
  {
    if |segs| == 1 {
      assert segs[1..] == [];
    } else {
      JoinPathTags(segs[1..], cfg);
      GetTagsJoin(segs[0], '/', JoinPath(segs[1..]), cfg);
      assert segs[0] + "/" + JoinPath(segs[1..]) == segs[0] + ['/'] + JoinPath(segs[1..]);
    }
  }

  /** With '/' and '.' among the delimiters (as in the default set) the
      relative path carries exactly the tags of its segments; the root "."
      carries none. */
  lemma RelPathTags(segs: seq<string>, cfg: Config)
    requires '/' in cfg.delims && '.' in cfg.delims
    ensures RawGetTags(RelPath(segs), cfg) == UnionTags(segs, cfg)
  {
    if segs == [] {
      var p := Pieces(".", cfg.delims);
      assert "."[1..] == "";
      assert p == ["", ""];
      assert forall x :: x in p ==> x == "";
    } else {
      JoinPathTags(segs, cfg);
    }
  }

  /** The path `_resolve_dirs` stores carries exactly the tags the chosen
      directories consumed. */
  lemma BestPathDirTags(node: Tree, tags: set<string>, cfg: Config)
    requires '/' in cfg.delims && '.' in cfg.delims
    ensures RawGetTags(RelPath(BestPath(node, [], tags, cfg).0), cfg)
         == tags - BestPath(node, [], tags, cfg).1
  {
    BestPathShape(node, [], tags, cfg);
    var segs: seq<string> :| && BestPath(node, [], tags, cfg).0 == [] + segs
      && UnionTags(segs, cfg) <= tags
      && BestPath(node, [], tags, cfg).1 == tags - UnionTags(segs, cfg);
    assert [] + segs == segs;
    RelPathTags(segs, cfg);
  }

  /** The tags a search leaves over are among the tags it was given. */
  lemma BestPathLeftoverSubset(root: Tree, tags: set<string>, cfg: Config)
    ensures BestPath(root, [], tags, cfg).1 <= tags
  {
    BestPathShape(root, [], tags, cfg);
  }

  /** The directory tree of the test suite: a/{b, c}, d/{a} and f_g. */
  const TestTree: Tree :=
    Dir([Entry("a", Dir([Entry("b", Dir([])), Entry("c", Dir([]))])),
         Entry("d", Dir([Entry("a", Dir([]))])),
         Entry("f_g", Dir([]))])

  /** A one-letter name is a single tag. */
  lemma LetterTag(t: string)
    requires |t| == 1 && 'a' <= t[0] <= 'z'
    ensures RawGetTags(t, DefaultConfig) == {t}
  {
    assert t[0] !in DefaultDelims;
    GetTagsOfPlain(t, DefaultConfig);
  }

  /** The directory "f_g" of the test tree carries the two tags f and g. */
  lemma JoinedTagsExample(cfg: Config)
    requires cfg == DefaultConfig
    ensures RawGetTags("f_g", cfg) == {"f", "g"}
  {
    LetterTag("f");
    LetterTag("g");
    GetTagsJoin("f", '_', "g", cfg);
    assert "f" + ['_'] + "g" == "f_g";
  }

  /** Under "a" with {"d"} wanted, neither "b" nor "c" may hold the file. */
  lemma ExampleUnderA(cfg: Config)
    requires cfg == DefaultConfig
    ensures BestPath(TestTree.entries[0].sub, ["a"], {"d"}, cfg) == (["a"], {"d"})
  {
    var a := TestTree.entries[0].sub;
    LetterTag("b");
    LetterTag("c");
    assert !({"b"} <= {"d"}) && !({"c"} <= {"d"});
    assert !Eligible(a, {"d"}, cfg, 0) && !Eligible(a, {"d"}, cfg, 1);
    assert Scan(a, ["a"], {"d"}, cfg, 1) == (["a"], {"d"});
  }

  /** Under "d" with {"a"} wanted, its child "a" takes the last tag. */
  lemma ExampleUnderD(cfg: Config)
    requires cfg == DefaultConfig
    ensures BestPath(TestTree.entries[1].sub, ["d"], {"a"}, cfg) == (["d", "a"], {})
  {
    var d := TestTree.entries[1].sub;
    LetterTag("a");
    assert {"a"} - {"a"} == {};
    assert Eligible(d, {"a"}, cfg, 0);
    assert ["d"] + ["a"] == ["d", "a"];
    assert ChildResult(d, ["d"], {"a"}, cfg, 0) == (["d", "a"], {});
    assert |{"a"}| == 1;
  }

  /** The loop over the root after "a": the path a, with d left. */
  lemma ExampleFirstChild(cfg: Config)
    requires cfg == DefaultConfig
    ensures Scan(TestTree, [], {"a", "d"}, cfg, 1) == (["a"], {"d"})
  {
    var want: set<string> := {"a", "d"};
    LetterTag("a");
    assert want - {"a"} == {"d"};
    assert [] + ["a"] == ["a"];
    ExampleUnderA(cfg);
    assert ChildResult(TestTree, [], want, cfg, 0) == (["a"], {"d"});
    assert |want| == 2 && |{"d"}| == 1;
  }

  /** The loop over the root after "d": the strictly better path d/a. */
  lemma ExampleSecondChild(cfg: Config)
    requires cfg == DefaultConfig
    ensures Scan(TestTree, [], {"a", "d"}, cfg, 2) == (["d", "a"], {})
  {
    var want: set<string> := {"a", "d"};
    ExampleFirstChild(cfg);
    LetterTag("d");
    assert want - {"d"} == {"a"};
    assert [] + ["d"] == ["d"];
    ExampleUnderD(cfg);
    assert ChildResult(TestTree, [], want, cfg, 1) == (["d", "a"], {});
  }

  /** Tags {a, d} on the test tree: descending into `a` leaves `d` over,
      descending into `d` and then `a` leaves nothing, and the later, strictly
      better result wins: "tree/d/a". */
  lemma BestPathTestExample()
    ensures BestPath(TestTree, [], {"a", "d"}, DefaultConfig) == (["d", "a"], {})
  {
    var cfg := DefaultConfig;
    var want: set<string> := {"a", "d"};
    ExampleSecondChild(cfg);
    assert !Eligible(TestTree, want, cfg, 2) by {
      JoinedTagsExample(cfg);
      assert "g" !in want;
    }
  }
}
