/**
  The `File` class of core.py, and the same class of file.py written over the
  module functions of utils.py. It differs from tagtool/filename.py only in
  `_remove`, whose substitutions carry no flags and so are case-sensitive
  whatever the configuration says, and which does not lower-case the tag.
  The path handling of the constructor is replaced by taking the directory
  part, name and extension directly.
*/
module Core {
  import opened TagConfig
  import opened TagCodec
  import opened TagRemoval
  import opened TagEdit
  import opened DirTree
  import opened Sequences

  class File {
    var dirs: string
    var name: string
    const ext: string
    const cfg: Config

    constructor (dirs0: string, name0: string, ext0: string, cfg0: Config)
      ensures dirs == dirs0 && name == name0 && ext == ext0 && cfg == cfg0
    {
      dirs, name, ext, cfg := dirs0, name0, ext0, cfg0;
    }

    /** `get_tags`. */
    function GetTags(): set<string>
      reads this
    {
      FileTags(dirs, name, cfg, true)
    }

    /** `has_tag`. */
    predicate HasTag(tag: string)
      reads this
    {
      HasTagIn(dirs, name, tag, cfg, true)
    }

    /** `_add`: nothing happens when the file already carries the tag;
        otherwise the tag is prepended to the name. */
    method Add(tag: string)
      modifies this
      ensures dirs == old(dirs)
      ensures name == AddName(old(dirs), old(name), tag, cfg, true)
    {
      if HasTag(tag) {
        return;
      }
      var t := tag;
      if name != "" {
        t := t + [cfg.defaultDelim];
      }
      name := t + name;
    }

    /** `_remove`: both substitutions, case-sensitive, on the name and, with
        directories in use, on the directory part. */
    method Remove(tag: string)
      requires |tag| > 0
      modifies this
      ensures name == RemoveWith(old(name), tag, cfg, false)
      ensures dirs == if cfg.useDirs then RemoveWith(old(dirs), tag, cfg, false) else old(dirs)
    {
      name := MidFrom(name, tag, 0, cfg.delims, false);
      name := EdgeFrom(name, tag, 0, cfg.delims, false);
      if cfg.useDirs {
        dirs := MidFrom(dirs, tag, 0, cfg.delims, false);
        dirs := EdgeFrom(dirs, tag, 0, cfg.delims, false);
      }
    }

    /** The loop `for tag in tags: self._remove(tag)` over a set, in the
        iteration order `order`. */
    method RemoveEach(tags: set<string>) returns (ghost order: seq<string>)
      requires forall x :: x in tags ==> |x| > 0
      modifies this
      ensures forall x :: x in order <==> x in tags
      ensures forall k :: 0 <= k < |order| ==> |order[k]| > 0
      ensures name == RemoveAll(old(name), order, cfg, false)
      ensures dirs == if cfg.useDirs then RemoveAll(old(dirs), order, cfg, false) else old(dirs)
    {
      ghost var name0, dirs0 := name, dirs;
      var todo := tags;
      order := [];
      while todo != {}
        invariant todo <= tags
        invariant forall x :: x in order <==> x in tags - todo
        invariant forall k :: 0 <= k < |order| ==> |order[k]| > 0
        invariant name == RemoveAll(name0, order, cfg, false)
        invariant dirs == if cfg.useDirs then RemoveAll(dirs0, order, cfg, false) else dirs0
        decreases |todo|
      {
        var t :| t in todo;
        Remove(t);
        RemoveAllSnoc(name0, order, t, cfg, false);
        RemoveAllSnoc(dirs0, order, t, cfg, false);
        order := order + [t];
        todo := todo - {t};
      }
    }

    /** The loop `for tag in tags: self._add(tag)` over a set, in the
        iteration order `order`; afterwards the file carries every tag. */
    method AddEach(tags: set<string>) returns (ghost order: seq<string>)
      requires forall x :: x in tags ==> |x| > 0
      modifies this
      ensures forall x :: x in order <==> x in tags
      ensures dirs == old(dirs)
      ensures name == AddAll(dirs, old(name), order, cfg, true)
      ensures cfg.defaultDelim in cfg.delims ==> forall x :: x in tags ==> HasTag(x)
    {
      ghost var name0 := name;
      var rest := tags;
      order := [];
      while rest != {}
        invariant rest <= tags
        invariant forall x :: x in order <==> x in tags - rest
        invariant dirs == old(dirs)
        invariant name == AddAll(dirs, name0, order, cfg, true)
        invariant cfg.defaultDelim in cfg.delims ==> forall x :: x in tags - rest ==> HasTag(x)
        decreases |rest|
      {
        var t :| t in rest;
        ghost var before := name;
        Add(t);
        AddAllSnoc(dirs, name0, order, t, cfg, true);
        if cfg.defaultDelim in cfg.delims {
          AddNameIdempotent(dirs, before, t, cfg, true);
          forall x | x in tags - rest ensures HasTagIn(dirs, name, x, cfg, true) {
            AddNameKeepsHasTag(dirs, before, t, x, cfg);
          }
        }
        order := order + [t];
        rest := rest - {t};
      }
    }

    /** `_resolve_dirs`: find the best directory for the file's tags, remove
        the tags it encodes from the name (in the order `removed`), move into
        it, then re-add each leftover tag (in the order `readded`). `segs` and
        `left` are the result of the search. */
    method ResolveDirs(root: Tree)
      returns (ghost segs: seq<string>, ghost left: set<string>,
               ghost removed: seq<string>, ghost readded: seq<string>)
      modifies this
      ensures (segs, left) == BestPath(root, [], old(GetTags()), cfg)
      ensures dirs == RelPath(segs)
      ensures forall x :: x in removed <==> x in old(GetTags()) - left
      ensures forall x :: x in readded <==> x in left
      ensures forall k :: 0 <= k < |removed| ==> |removed[k]| > 0
      ensures name == AddAll(RelPath(segs), RemoveAll(old(name), removed, cfg, false), readded, cfg, true)
      ensures cfg.defaultDelim in cfg.delims ==> forall x :: x in left ==> HasTag(x)
      ensures NameDelims(cfg) ==> forall x :: x in left ==> RawHasTag(name, x, cfg)
    {
      ghost var dirs0, name0 := dirs, name;
      var tags := GetTags();
      FileTagsNonEmpty(dirs, name, cfg, true);
      var path, remaining := FindBestPath(root, [], tags, cfg);
      segs, left := path, remaining;
      BestPathLeftoverSubset(root, tags, cfg);
      removed := RemoveEach(tags - remaining);
      dirs := RelPath(path);
      ghost var mid := name;
      readded := AddEach(remaining);
      if NameDelims(cfg) {
        BestPathDirTags(root, tags, cfg);
        forall x | x in left ensures RawHasTag(name, x, cfg) {
          FileTagsArePlain(dirs0, name0, x, cfg, true);
          HasTagIffInGetTags(dirs, x, cfg);
          AddAllPutsTagInName(dirs, mid, readded, x, cfg, true);
        }
      }
    }

    /** Removing each tag of `removes` in turn. */
    method RemoveSeq(removes: seq<string>)
      requires forall k :: 0 <= k < |removes| ==> |removes[k]| > 0
      modifies this
      ensures name == RemoveAll(old(name), removes, cfg, false)
      ensures dirs == if cfg.useDirs then RemoveAll(old(dirs), removes, cfg, false) else old(dirs)
    {
      ghost var name0, dirs0 := name, dirs;
      var i := 0;
      while i < |removes|
        invariant 0 <= i <= |removes|
        invariant name == RemoveAll(name0, removes[..i], cfg, false)
        invariant dirs == if cfg.useDirs then RemoveAll(dirs0, removes[..i], cfg, false) else dirs0
      {
        Remove(removes[i]);
        RemoveAllSnoc(name0, removes[..i], removes[i], cfg, false);
        RemoveAllSnoc(dirs0, removes[..i], removes[i], cfg, false);
        TakeSnoc(removes, i);
        i := i + 1;
      }
      assert removes[..i] == removes;
    }

    /** Adding each tag of `adds` in turn. */
    method AddSeq(adds: seq<string>)
      modifies this
      ensures dirs == old(dirs)
      ensures name == AddAll(dirs, old(name), adds, cfg, true)
    {
      ghost var name0 := name;
      var j := 0;
      while j < |adds|
        invariant 0 <= j <= |adds|
        invariant dirs == old(dirs)
        invariant name == AddAll(dirs, name0, adds[..j], cfg, true)
      {
        Add(adds[j]);
        AddAllSnoc(dirs, name0, adds[..j], adds[j], cfg, true);
        TakeSnoc(adds, j);
        j := j + 1;
      }
      assert adds[..j] == adds;
    }

    /** `add_remove_tags`: removals, then additions, then (with directories
        in use) the move into the best directory, then the placeholder. The
        ghost outputs are the search result of `_resolve_dirs` and the orders
        in which it removes and re-adds tags. */
    method AddRemoveTags(adds: seq<string>, removes: seq<string>, root: Tree)
      returns (ghost segs: seq<string>, ghost left: set<string>,
               ghost removed: seq<string>, ghost readded: seq<string>)
      requires forall k :: 0 <= k < |removes| ==> |removes[k]| > 0
      modifies this
      ensures var d1 := if cfg.useDirs then RemoveAll(old(dirs), removes, cfg, false) else old(dirs);
              var n1 := AddAll(d1, RemoveAll(old(name), removes, cfg, false), adds, cfg, true);
              && (!cfg.useDirs ==> dirs == old(dirs) && name == Placeholder(n1, cfg))
              && (cfg.useDirs ==> (segs, left) == BestPath(root, [], FileTags(d1, n1, cfg, true), cfg))
              && (cfg.useDirs ==> forall x :: x in removed <==> x in FileTags(d1, n1, cfg, true) - left)
              && (cfg.useDirs ==> forall k :: 0 <= k < |removed| ==> |removed[k]| > 0)
              && (cfg.useDirs ==> name == Placeholder(AddAll(RelPath(segs), RemoveAll(n1, removed, cfg, false), readded, cfg, true), cfg))
      ensures cfg.useDirs ==> dirs == RelPath(segs)
      ensures cfg.useDirs ==> forall x :: x in readded <==> x in left
      ensures cfg.useDirs && cfg.defaultDelim in cfg.delims ==>
                forall x :: x in left && x != "" ==> HasTag(x)
      ensures cfg.useDirs && NameDelims(cfg) ==> forall x :: x in left ==> RawHasTag(name, x, cfg)
      ensures name != "" || cfg.noTagsFilename == ""
    {
      RemoveSeq(removes);
      AddSeq(adds);
      ghost var d1, n1 := dirs, name;
      segs, left, removed, readded := [], {}, [], [];
      if cfg.useDirs {
        segs, left, removed, readded := ResolveDirs(root);
      }
      ghost var resolved := name;
      if name == "" {
        name := cfg.noTagsFilename;
        PlaceholderKeepsHasTag(dirs, left, cfg);
      }
      if cfg.useDirs && NameDelims(cfg) {
        BestPathLeftoverSubset(root, FileTags(d1, n1, cfg, true), cfg);
        FileTagsNonEmpty(d1, n1, cfg, true);
        forall x | x in left ensures RawHasTag(name, x, cfg) {
          TaggedNameNonEmpty(resolved, x, cfg);
        }
      }
    }
  }
}
