/**
  Tag selection, tagtool/select.py: `match`, the per-file selection fold over
  a list of operations, and `build_command`, the argument vector of the
  `find` command that pre-selects candidate files. Running `find` is not
  part of this model.
*/
module Select {
  import opened Wrappers
  import opened TagConfig
  import opened TagCodec
  import opened TagEdit
  import Filename
  import opened Sequences

  /** INTERSECTION (0), INCLUSION (1) and EXCLUSION (2). */
  datatype OpType = Intersection | Inclusion | Exclusion

  /** The `TagOp` named tuple. */
  datatype Operation = Operation(tag: string, kind: OpType)

  /** What one operation does to `matched`, given whether the file carries
      its tag: `None` when it leaves `matched` alone. */
  function Effect(op: Operation, present: bool): Option<bool>
  {
    match op.kind
    case Intersection => if present then None else Some(false)
    case Inclusion => if present then Some(true) else None
    case Exclusion => if present then Some(false) else None
  }

  function Step(matched: bool, op: Operation, present: bool): bool
  {
    match Effect(op, present)
    case None => matched
    case Some(b) => b
  }

  /** The value of `matched` after the loop over `ops`, where `has` is the
      file's `has_tag`: true to start with, then one step per operation. */
  function Selects(ops: seq<Operation>, has: string -> bool): bool
    decreases |ops|
  {
    if ops == [] then true
    else
      var last := ops[|ops| - 1];
      Step(Selects(ops[..|ops| - 1], has), last, has(last.tag))
  }

  predicate Fires(op: Operation, has: string -> bool)
  {
    Effect(op, has(op.tag)).Some?
  }

  /** `has_tag` of a file with these components, as a query on tags. */
  function FileQuery(dirs: string, name: string, cfg: Config): string -> bool
  {
    t => HasTagIn(dirs, name, t, cfg, true)
  }

  /** `match`: the loop over the operations, which never stops early. */
  method Match(f: Filename.Filename, ops: seq<Operation>) returns (matched: bool)
    ensures matched == Selects(ops, FileQuery(f.dirs, f.name, f.cfg))
  {
    ghost var has := FileQuery(f.dirs, f.name, f.cfg);
    matched := true;
    var i := 0;
    while i < |ops|
      invariant 0 <= i <= |ops|
      invariant matched == Selects(ops[..i], has)
    {
      var op := ops[i];
      if op.kind == Intersection {
        if !f.HasTag(op.tag) {
          matched := false;
        }
      } else {
        if f.HasTag(op.tag) {
          if op.kind == Inclusion {
            matched := true;
          } else if op.kind == Exclusion {
            matched := false;
          }
        }
      }
      assert ops[..i + 1][..i] == ops[..i];
      i := i + 1;
    }
    assert ops[..i] == ops;
  }

  /** When no operation fires, the file is selected; with no operations in
      particular. */
  lemma {:induction false} SelectsWithoutFiring(ops: seq<Operation>, has: string -> bool)
    requires forall k :: 0 <= k < |ops| ==> !Fires(ops[k], has)
    ensures Selects(ops, has)
    decreases |ops|
  {
    if ops != [] {
      var init := ops[..|ops| - 1];
      assert forall k :: 0 <= k < |init| ==> init[k] == ops[k];
      SelectsWithoutFiring(init, has);
    }
  }

  /** The result is the value set by the last operation that fires. */
  lemma {:induction false} SelectsIsLastFiring(ops: seq<Operation>, has: string -> bool, k: int)
    requires 0 <= k < |ops| && Fires(ops[k], has)
    requires forall j :: k < j < |ops| ==> !Fires(ops[j], has)
    ensures Selects(ops, has) == Effect(ops[k], has(ops[k].tag)).value
    decreases |ops|
  {
    var init := ops[..|ops| - 1];
    if k < |ops| - 1 {
      assert forall j :: k < j < |init| ==> init[j] == ops[j];
      SelectsIsLastFiring(init, has, k);
    }
  }

  /** Without inclusions, a missing intersection tag rejects the file:
      nothing later can set `matched` back to true. */
  lemma {:induction false} MissingIntersectionRejects(ops: seq<Operation>, has: string -> bool, k: int)
    requires forall j :: 0 <= j < |ops| ==> ops[j].kind != Inclusion
    requires 0 <= k < |ops| && ops[k].kind == Intersection && !has(ops[k].tag)
    ensures !Selects(ops, has)
    decreases |ops|
  {
    var init := ops[..|ops| - 1];
    if k < |ops| - 1 {
      assert forall j :: 0 <= j < |init| ==> init[j] == ops[j];
      MissingIntersectionRejects(init, has, k);
    }
  }

  /** With intersections only, a file is selected exactly when it carries
      every tag. */
  lemma {:induction false} IntersectionsSelectAll(ops: seq<Operation>, has: string -> bool)
    requires forall j :: 0 <= j < |ops| ==> ops[j].kind == Intersection
    ensures Selects(ops, has) <==> forall j :: 0 <= j < |ops| ==> has(ops[j].tag)
    decreases |ops|
  {
    if ops != [] {
      var init := ops[..|ops| - 1];
      assert forall j :: 0 <= j < |init| ==> init[j] == ops[j];
      IntersectionsSelectAll(init, has);
    }
  }

  // ---- build_command ----

  /** The characters `str.split()` without arguments splits on (the ASCII
      ones). */
  const Whitespace: set<char> :=
    {' ', '\t', '\n', '\r', '\U{0B}', '\U{0C}', '\U{1C}', '\U{1D}', '\U{1E}', '\U{1F}'}

  /** The selection flag: `-name`, `-iname`, `-path` or `-ipath`, an `i`
      for a case-insensitive configuration and `path` when directories are in
      use. */
  function FlagWord(cfg: Config): (w: string)
    ensures cfg.caseSensitive && !cfg.useDirs ==> w == "-name"
    ensures !cfg.caseSensitive && !cfg.useDirs ==> w == "-iname"
    ensures cfg.caseSensitive && cfg.useDirs ==> w == "-path"
    ensures !cfg.caseSensitive && cfg.useDirs ==> w == "-ipath"
  {
    "-" + (if cfg.caseSensitive then "" else "i") + (if cfg.useDirs then "path" else "name")
  }

  /** The glob a tag is looked up with. */
  function Pattern(tag: string): string
  {
    "*" + tag + "*"
  }

  /** `" %s *%s*" % (flag, tag)`, where `flag` is the flag word after a
      space. */
  function Selector(cfg: Config, tag: string): string
  {
    " " + (" " + FlagWord(cfg)) + " " + Pattern(tag)
  }

  /** One iteration of the loop accumulating `find_flags`. */
  function AddOp(flags: string, op: Operation, cfg: Config): string
  {
    match op.kind
    case Inclusion =>
      if flags == "" then flags + Selector(cfg, op.tag)
      else "( " + flags + " ) -o" + Selector(cfg, op.tag)
    case Exclusion => flags + " !" + Selector(cfg, op.tag)
    case Intersection => flags + Selector(cfg, op.tag)
  }

  /** `find_flags` after the loop over `ops`. */
  function FindFlags(ops: seq<Operation>, cfg: Config): string
    decreases |ops|
  {
    if ops == [] then ""
    else AddOp(FindFlags(ops[..|ops| - 1], cfg), ops[|ops| - 1], cfg)
  }

  /** The trailing arguments that drop hidden and executable files. */
  const HiddenOrExecutable: seq<string> := ["!", "(", "-path", "*/.*", "-perm", "-o=x", ")"]

  /** `build_command`. */
  method BuildCommand(ops: seq<Operation>, cfg: Config) returns (cmd: seq<string>)
    ensures cmd == ["find", cfg.rootDir, "-type", "f"] + Split(FindFlags(ops, cfg), Whitespace) + HiddenOrExecutable
    ensures cmd[..4] == ["find", cfg.rootDir, "-type", "f"]
    ensures |cmd| >= 11 && cmd[|cmd| - 7..] == HiddenOrExecutable
  {
    var flags := "";
    var i := 0;
    while i < |ops|
      invariant 0 <= i <= |ops|
      invariant flags == FindFlags(ops[..i], cfg)
    {
      var op := ops[i];
      var sel := Selector(cfg, op.tag);
      if op.kind == Inclusion {
        if flags == "" {
          flags := flags + sel;
        } else {
          flags := "( " + flags + " ) -o" + sel;
        }
      } else if op.kind == Exclusion {
        flags := flags + " !" + sel;
      } else if op.kind == Intersection {
        flags := flags + sel;
      }
      assert ops[..i + 1][..i] == ops[..i];
      i := i + 1;
    }
    assert ops[..i] == ops;
    cmd := ["find"];
    cmd := cmd + [cfg.rootDir];
    cmd := cmd + ["-type", "f"];
    cmd := cmd + Split(flags, Whitespace);
    cmd := cmd + HiddenOrExecutable;
  }

  /** The arguments one operation adds to those before it, as `find`
      receives them: an inclusion after earlier arguments brackets them and
      adds an alternative. */
  function OpWords(words: seq<string>, op: Operation, cfg: Config): seq<string>
  {
    var sel := [FlagWord(cfg), Pattern(op.tag)];
    match op.kind
    case Inclusion =>
      if words == [] then sel else ["("] + words + [")", "-o"] + sel
    case Exclusion => words + ["!"] + sel
    case Intersection => words + sel
  }

  /** The selection arguments of `ops`, built a word at a time. */
  function FlagWords(ops: seq<Operation>, cfg: Config): seq<string>
    decreases |ops|
  {
    if ops == [] then []
    else OpWords(FlagWords(ops[..|ops| - 1], cfg), ops[|ops| - 1], cfg)
  }

  predicate NoWhitespace(s: string)
  {
    forall k :: 0 <= k < |s| ==> s[k] !in Whitespace
  }

  /** A single argument: non-empty and without whitespace. */
  predicate Word(s: string)
  {
    s != [] && NoWhitespace(s)
  }

  lemma FlagWordPlain(cfg: Config)
    ensures Word(FlagWord(cfg))
  {
    var w := FlagWord(cfg);
    assert w[0] == '-';
    assert forall k :: 1 <= k < |w| ==> 'a' <= w[k] <= 'z';
  }

  lemma PatternPlain(tag: string)
    requires NoWhitespace(tag)
    ensures Word(Pattern(tag))
  {
    var p := Pattern(tag);
    assert forall k :: 1 <= k < |p| - 1 ==> p[k] == tag[k - 1];
  }

  /** No character of `s` is in `D`. */
  predicate Plain(s: string, D: set<char>)
  {
    forall k :: 0 <= k < |s| ==> s[k] !in D
  }

  /** Text, a space and more text split into the words of both sides. */
  lemma SpaceJoin(a: string, b: string, D: set<char>)
    requires ' ' in D
    ensures Split(a + " " + b, D) == Split(a, D) + Split(b, D)
  {
    SplitJoin(a, ' ', b, D);
  }

  /** Text followed by two spaces, a word, a space and a word. */
  lemma TwoWords(x: string, w: string, p: string, D: set<char>)
    requires ' ' in D
    requires w != [] && Plain(w, D) && p != [] && Plain(p, D)
    ensures Split(x + (" " + (" " + w) + " " + p), D) == Split(x, D) + [w, p]
  {
    var t := w + " " + p;
    var u := "" + " " + t;
    assert Split(u, D) == [w, p] by {
      SpaceJoin(w, p, D);
      SplitOfPlain(w, D);
      SplitOfPlain(p, D);
      SpaceJoin("", t, D);
    }
    assert " " + (" " + w) + " " + p == " " + u;
    assert Split(x + (" " + u), D) == Split(x, D) + Split(u, D) by {
      SpaceJoin(x, u, D);
      AppendAssoc(x, " ", u);
    }
  }

  /** Splitting text followed by a selector yields the flag and the glob. */
  lemma SelectorWords(x: string, cfg: Config, tag: string)
    requires NoWhitespace(tag)
    ensures Split(x + Selector(cfg, tag), Whitespace) == Split(x, Whitespace) + [FlagWord(cfg), Pattern(tag)]
  {
    FlagWordPlain(cfg);
    PatternPlain(tag);
    TwoWords(x, FlagWord(cfg), Pattern(tag), Whitespace);
  }

  /** Earlier flags in brackets, followed by the alternative operator. */
  lemma BracketWords(f: string, D: set<char>)
    requires ' ' in D && '(' !in D && ')' !in D && '-' !in D && 'o' !in D
    ensures Split("( " + f + " ) -o", D) == ["("] + Split(f, D) + [")", "-o"]
  {
    var y := ")" + " " + "-o";
    var z := f + " " + y;
    assert Split(y, D) == [")", "-o"] by {
      SpaceJoin(")", "-o", D);
      SplitOfPlain(")", D);
      SplitOfPlain("-o", D);
    }
    assert Split(z, D) == Split(f, D) + [")", "-o"] by {
      SpaceJoin(f, y, D);
    }
    assert Split("(" + " " + z, D) == ["("] + Split(z, D) by {
      SpaceJoin("(", z, D);
      SplitOfPlain("(", D);
    }
    assert "( " + f + " ) -o" == "(" + " " + z by {
      BracketShape(f);
    }
    AppendAssoc(["("], Split(f, D), [")", "-o"]);
  }

  lemma BracketShape(f: string)
    ensures "( " + f + " ) -o" == "(" + " " + (f + " " + (")" + " " + "-o"))
  {
    var lhs := "( " + f + " ) -o";
    var rhs := "(" + " " + (f + " " + (")" + " " + "-o"));
    assert |lhs| == |rhs|;
    forall k | 0 <= k < |lhs| ensures lhs[k] == rhs[k] {
      if k < 2 + |f| {
      } else {
      }
    }
  }

  /** The words of an inclusion that follows earlier flags `f`. */
  lemma InclusionWords(f: string, cfg: Config, tag: string)
    requires NoWhitespace(tag)
    ensures Split("( " + f + " ) -o" + Selector(cfg, tag), Whitespace)
      == ["("] + Split(f, Whitespace) + [")", "-o", FlagWord(cfg), Pattern(tag)]
  {
    BracketWords(f, Whitespace);
    SelectorWords("( " + f + " ) -o", cfg, tag);
  }

  /** The words of an exclusion that follows flags `f`. */
  lemma ExclusionWords(f: string, cfg: Config, tag: string)
    requires NoWhitespace(tag)
    ensures Split(f + " !" + Selector(cfg, tag), Whitespace)
      == Split(f, Whitespace) + ["!", FlagWord(cfg), Pattern(tag)]
  {
    assert Split(f + " !", Whitespace) == Split(f, Whitespace) + ["!"] by {
      BangWord(f, Whitespace);
    }
    SelectorWords(f + " !", cfg, tag);
  }

  /** Text followed by a space and `!`. */
  lemma BangWord(f: string, D: set<char>)
    requires ' ' in D && '!' !in D
    ensures Split(f + " !", D) == Split(f, D) + ["!"]
  {
    SpaceJoin(f, "!", D);
    SplitOfPlain("!", D);
    AppendAssoc(f, " ", "!");
    assert " " + "!" == " !";
  }

  /** One iteration of the loop: the words of the new flag string are those
      OpWords adds to the words of the old one. */
  lemma AddOpWords(f: string, op: Operation, cfg: Config)
    requires NoWhitespace(op.tag)
    requires f == "" <==> Split(f, Whitespace) == []
    ensures Split(AddOp(f, op, cfg), Whitespace) == OpWords(Split(f, Whitespace), op, cfg)
    ensures AddOp(f, op, cfg) != "" && Split(AddOp(f, op, cfg), Whitespace) != []
  {
    var words := Split(f, Whitespace);
    match op.kind
    case Inclusion =>
      if f == "" {
        SelectorWords(f, cfg, op.tag);
      } else {
        InclusionWords(f, cfg, op.tag);
      }
    case Exclusion =>
      ExclusionWords(f, cfg, op.tag);
    case Intersection =>
      SelectorWords(f, cfg, op.tag);
  }

  /** The flags `find` receives are those of FlagWords, provided no tag holds
      whitespace; the flag string is empty only without operations. */
  lemma {:induction false} FindFlagsWords(ops: seq<Operation>, cfg: Config)
    requires forall k :: 0 <= k < |ops| ==> NoWhitespace(ops[k].tag)
    ensures Split(FindFlags(ops, cfg), Whitespace) == FlagWords(ops, cfg)
    ensures FindFlags(ops, cfg) == "" <==> ops == []
    ensures Split(FindFlags(ops, cfg), Whitespace) == [] <==> ops == []
    decreases |ops|
  {
    if ops != [] {
      var init := ops[..|ops| - 1];
      assert forall k :: 0 <= k < |init| ==> init[k] == ops[k];
      FindFlagsWords(init, cfg);
      AddOpWords(FindFlags(init, cfg), ops[|ops| - 1], cfg);
    }
  }
}
