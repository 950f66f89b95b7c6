/**
  The older API of utils.py: module functions over the global `settings`
  (here the configuration record, whose `useName` field is `use_name`) and a
  `File` class built on them. Unlike the later copies, `has_tag`, `get_tags`
  and `__remove` consult the name only when `use_name` is set, `__remove` is
  case-sensitive, and `__resolve_dirs` does not put leftover tags back into
  the name.
*/
module Utils {
  import opened TagConfig
  import opened TagCodec
  import opened TagRemoval
  import opened TagEdit
  import opened DirTree
  import opened Sequences

  /** `valid_tag` as written: no character of the tag is a delimiter
      (`re.search` of the class, without flags, finds nothing). */
  predicate ValidTagAsWritten(tag: string, cfg: Config)
  {
    forall k :: 0 <= k < |tag| ==> tag[k] !in cfg.delims
  }

  /** `valid_tag` as the test suite and the commented-out versions in
      core.py and tagtool/filename.py mean it: also non-empty. */
  predicate ValidTag(tag: string, cfg: Config)
  {
    tag != "" && ValidTagAsWritten(tag, cfg)
  }

  /** As written, the empty string is accepted as a tag. */
  lemma ValidTagAcceptsEmpty(cfg: Config)
    ensures ValidTagAsWritten("", cfg)
    ensures !ValidTag("", cfg)
  {
  }

  /** A valid tag is exactly a tag the search pattern can stand for, and its
      own set of tags is itself. */
  lemma ValidTagIsPlainTag(tag: string, cfg: Config)
    requires IgnoreCase(cfg) ==> NoLetters(cfg.delims)
    ensures ValidTag(tag, cfg) <==> PlainTag(tag, cfg.delims, IgnoreCase(cfg))
    ensures ValidTag(tag, cfg) ==> RawGetTags(tag, cfg) == {CaseMap(cfg, tag)}
  {
    forall k | 0 <= k < |tag| {
      IsDelimExact(tag[k], cfg.delims, IgnoreCase(cfg));
    }
    if ValidTag(tag, cfg) {
      GetTagsOfPlain(tag, cfg);
    }
  }

  /** The expectations of the test suite with the default settings. */
  lemma ValidTagExamples()
    ensures ValidTag("a", DefaultSettings) && ValidTag("abcdefg", DefaultSettings)
    ensures !ValidTag("", DefaultSettings) && !ValidTag("_a", DefaultSettings)
    ensures !ValidTag("a_", DefaultSettings) && !ValidTag("a_b", DefaultSettings)
  {
    assert "_a"[0] == '_';
    assert "a_"[1] == '_';
    assert "a_b"[1] == '_';
  }

  class File {
    var dirs: string
    var name: string
    const ext: string
    const cfg: Config

    constructor (dirs0: string, name0: string, ext0: string, cfg0: Config)
      ensures dirs == dirs0 && name == name0 && ext == ext0 && cfg == cfg0
    {
      dirs, name, ext, cfg := dirs0, name0, ext0, cfg0;
    }

    /** `get_tags`: the name is read only with `use_name`. */
    function GetTags(): set<string>
      reads this
    {
      FileTags(dirs, name, cfg, cfg.useName)
    }

    /** `has_tag`: the name is read only with `use_name`. */
    predicate HasTag(tag: string)
      reads this
    {
      HasTagIn(dirs, name, tag, cfg, cfg.useName)
    }

    /** `__add`: skipped when `has_tag` holds, otherwise the tag is prepended
        to the name, even when `use_name` is off. */
    method Add(tag: string)
      modifies this
      ensures dirs == old(dirs)
      ensures name == AddName(old(dirs), old(name), tag, cfg, cfg.useName)
    {
      if HasTag(tag) {
        return;
      }
      var t := tag;
      if name != "" {
        t := t + [cfg.defaultDelim];
      }
      name := t + name;
    }

    /** `__remove`: case-sensitive substitutions, on the name only with
        `use_name` and on the directory part only with `use_dirs`. */
    method Remove(tag: string)
      requires |tag| > 0
      modifies this
      ensures name == if cfg.useName then RemoveWith(old(name), tag, cfg, false) else old(name)
      ensures dirs == if cfg.useDirs then RemoveWith(old(dirs), tag, cfg, false) else old(dirs)
    {
      if cfg.useName {
        name := MidFrom(name, tag, 0, cfg.delims, false);
        name := EdgeFrom(name, tag, 0, cfg.delims, false);
      }
      if cfg.useDirs {
        dirs := MidFrom(dirs, tag, 0, cfg.delims, false);
        dirs := EdgeFrom(dirs, tag, 0, cfg.delims, false);
      }
    }

    /** The loop `for tag in tags: self.__remove(tag)` over a set, in the
        iteration order `order`. */
    method RemoveEach(tags: set<string>) returns (ghost order: seq<string>)
      requires forall x :: x in tags ==> |x| > 0
      modifies this
      ensures forall x :: x in order <==> x in tags
      ensures forall k :: 0 <= k < |order| ==> |order[k]| > 0
      ensures name == if cfg.useName then RemoveAll(old(name), order, cfg, false) else old(name)
      ensures dirs == if cfg.useDirs then RemoveAll(old(dirs), order, cfg, false) else old(dirs)
    {
      ghost var name0, dirs0 := name, dirs;
      var todo := tags;
      order := [];
      while todo != {}
        invariant todo <= tags
        invariant forall x :: x in order <==> x in tags - todo
        invariant forall k :: 0 <= k < |order| ==> |order[k]| > 0
        invariant name == if cfg.useName then RemoveAll(name0, order, cfg, false) else name0
        invariant dirs == if cfg.useDirs then RemoveAll(dirs0, order, cfg, false) else dirs0
        decreases |todo|
      {
        var t :| t in todo;
        Remove(t);
        RemoveAllSnoc(name0, order, t, cfg, false);
        RemoveAllSnoc(dirs0, order, t, cfg, false);
        order := order + [t];
        todo := todo - {t};
      }
    }

    /** `__resolve_dirs`: find the best directory, remove the tags it encodes
        (in the order `removed`) and move into it. Leftover tags are not put
        back into the name. */
    method ResolveDirs(root: Tree)
      returns (ghost segs: seq<string>, ghost left: set<string>, ghost removed: seq<string>)
      modifies this
      ensures (segs, left) == BestPath(root, [], old(GetTags()), cfg)
      ensures forall x :: x in removed <==> x in old(GetTags()) - left
      ensures forall k :: 0 <= k < |removed| ==> |removed[k]| > 0
      ensures dirs == if cfg.useDirs then RelPath(segs) else old(dirs)
      ensures name == if cfg.useName then RemoveAll(old(name), removed, cfg, false) else old(name)
    {
      var tags := GetTags();
      FileTagsNonEmpty(dirs, name, cfg, cfg.useName);
      var path, remaining := FindBestPath(root, [], tags, cfg);
      segs, left := path, remaining;
      BestPathLeftoverSubset(root, tags, cfg);
      removed := RemoveEach(tags - remaining);
      if cfg.useDirs {
        dirs := RelPath(path);
      }
    }

    /** Removing each tag of `removes` in turn. */
    method RemoveSeq(removes: seq<string>)
      requires forall k :: 0 <= k < |removes| ==> |removes[k]| > 0
      modifies this
      ensures name == if cfg.useName then RemoveAll(old(name), removes, cfg, false) else old(name)
      ensures dirs == if cfg.useDirs then RemoveAll(old(dirs), removes, cfg, false) else old(dirs)
    {
      ghost var name0, dirs0 := name, dirs;
      var i := 0;
      while i < |removes|
        invariant 0 <= i <= |removes|
        invariant name == if cfg.useName then RemoveAll(name0, removes[..i], cfg, false) else name0
        invariant dirs == if cfg.useDirs then RemoveAll(dirs0, removes[..i], cfg, false) else dirs0
      {
        Remove(removes[i]);
        RemoveAllSnoc(name0, removes[..i], removes[i], cfg, false);
        RemoveAllSnoc(dirs0, removes[..i], removes[i], cfg, false);
        TakeSnoc(removes, i);
        i := i + 1;
      }
      assert removes[..i] == removes;
    }

    /** Adding each tag of `adds` in turn. */
    method AddSeq(adds: seq<string>)
      modifies this
      ensures dirs == old(dirs)
      ensures name == AddAll(dirs, old(name), adds, cfg, cfg.useName)
    {
      ghost var name0 := name;
      var j := 0;
      while j < |adds|
        invariant 0 <= j <= |adds|
        invariant dirs == old(dirs)
        invariant name == AddAll(dirs, name0, adds[..j], cfg, cfg.useName)
      {
        Add(adds[j]);
        AddAllSnoc(dirs, name0, adds[..j], adds[j], cfg, cfg.useName);
        TakeSnoc(adds, j);
        j := j + 1;
      }
      assert adds[..j] == adds;
    }

    /** `add_remove_tags`: removals, additions, the move (with directories in
        use), then the placeholder. */
    method AddRemoveTags(adds: seq<string>, removes: seq<string>, root: Tree)
      returns (ghost segs: seq<string>, ghost left: set<string>, ghost removed: seq<string>)
      requires forall k :: 0 <= k < |removes| ==> |removes[k]| > 0
      modifies this
      ensures forall k :: 0 <= k < |removed| ==> |removed[k]| > 0
      ensures var d1 := if cfg.useDirs then RemoveAll(old(dirs), removes, cfg, false) else old(dirs);
              var n0 := if cfg.useName then RemoveAll(old(name), removes, cfg, false) else old(name);
              var n1 := AddAll(d1, n0, adds, cfg, cfg.useName);
              var n2 := if cfg.useName then RemoveAll(n1, removed, cfg, false) else n1;
              && (!cfg.useDirs ==> dirs == old(dirs) && name == Placeholder(n1, cfg))
              && (cfg.useDirs ==>
                    && (segs, left) == BestPath(root, [], FileTags(d1, n1, cfg, cfg.useName), cfg)
                    && (forall x :: x in removed <==> x in FileTags(d1, n1, cfg, cfg.useName) - left)
                    && dirs == RelPath(segs)
                    && name == Placeholder(n2, cfg))
      ensures name != "" || cfg.noTagsFilename == ""
    {
      RemoveSeq(removes);
      AddSeq(adds);
      segs, left, removed := [], {}, [];
      if cfg.useDirs {
        segs, left, removed := ResolveDirs(root);
      }
      if name == "" {
        name := cfg.noTagsFilename;
      }
    }
  }
}
