/**
  The editing steps shared by every Python copy of the file class: the
  prepend of `_add`, the `has_tag` test over the name and the directory part,
  the removal and addition folds of `add_remove_tags`, and the placeholder
  for an empty name. The classes in Filename, Core and Utils are specified
  against these functions.
*/
module TagEdit {
  import opened TagConfig
  import opened TagCodec
  import opened TagRemoval
  import opened Sequences

  /** `_add` once it has decided to add: `tag + default_delim + name`, or
      the bare tag when the name is empty. */
  function Prepend(name: string, tag: string, dd: char): string
  {
    if name == "" then tag else tag + [dd] + name
  }

  /** `has_tag` of the file: the name (when it is read at all) or, with
      directories in use, the directory part carries the tag. */
  predicate HasTagIn(dirs: string, name: string, t: string, cfg: Config, readName: bool)
  {
    (readName && RawHasTag(name, t, cfg)) || (cfg.useDirs && RawHasTag(dirs, t, cfg))
  }

  /** The new name after `_add(t)`. */
  function AddName(dirs: string, name: string, t: string, cfg: Config, readName: bool): string
  {
    if HasTagIn(dirs, name, t, cfg, readName) then name
    else Prepend(name, t, cfg.defaultDelim)
  }

  /** The name after `_add` of each tag of `ts` in turn (the directory part
      is not changed by `_add`). */
  function AddAll(dirs: string, name: string, ts: seq<string>, cfg: Config, readName: bool): string
    decreases |ts|
  {
    if ts == [] then name
    else AddAll(dirs, AddName(dirs, name, ts[0], cfg, readName), ts[1..], cfg, readName)
  }

  /** One string after `_remove(t)`: with the configured case handling
      (tagtool/filename.py) or always case-sensitive (core.py, utils.py). */
  function RemoveWith(s: string, t: string, cfg: Config, honourCase: bool): string
    requires |t| > 0
  {
    if honourCase then RemoveTag(s, t, cfg) else RemoveTagExact(s, t, cfg)
  }

  /** One string after `_remove` of each tag of `ts` in turn. */
  function RemoveAll(s: string, ts: seq<string>, cfg: Config, honourCase: bool): string
    requires forall k :: 0 <= k < |ts| ==> |ts[k]| > 0
    decreases |ts|
  {
    if ts == [] then s
    else RemoveAll(RemoveWith(s, ts[0], cfg, honourCase), ts[1..], cfg, honourCase)
  }

  /** The final step of `add_remove_tags`: an empty name becomes
      `no_tags_filename`. */
  function Placeholder(name: string, cfg: Config): (r: string)
    ensures r != "" || cfg.noTagsFilename == ""
    ensures name != "" ==> r == name
    ensures name == "" ==> r == cfg.noTagsFilename
  {
    if name == "" then cfg.noTagsFilename else name
  }

  // ---------------------------------------------------------------------
  // What a prepend does to the tags of the name.

  /** The prepended tag is found by `_raw_has_tag` at the front. */
  lemma PrependCarriesTag(name: string, t: string, cfg: Config)
    requires cfg.defaultDelim in cfg.delims
    ensures RawHasTag(Prepend(name, t, cfg.defaultDelim), t, cfg)
  {
    var s := Prepend(name, t, cfg.defaultDelim);
    assert s[0..|t|] == t;
    assert MatchAt(s, t, 0, cfg.delims, IgnoreCase(cfg));
    RawHasTagSpec(s, t, cfg);
  }

  /** A tag found in the name is still found after a prepend. */
  lemma PrependKeepsTag(name: string, t: string, u: string, cfg: Config)
    requires cfg.defaultDelim in cfg.delims
    requires |u| > 0 && RawHasTag(name, u, cfg)
    ensures RawHasTag(Prepend(name, t, cfg.defaultDelim), u, cfg)
  {
    var D, ci := cfg.delims, IgnoreCase(cfg);
    RawHasTagSpec(name, u, cfg);
    var k :| MatchAt(name, u, k, D, ci);
    var s := Prepend(name, t, cfg.defaultDelim);
    assert name != "";
    assert s == (t + [cfg.defaultDelim]) + name;
    MatchShift(t + [cfg.defaultDelim], name, u, k, D, ci);
    RawHasTagSpec(s, u, cfg);
  }

  /** `re.split` over a delimiter joins the pieces of the two sides. */
  lemma {:induction false} PiecesJoin(a: string, d: char, b: string, D: set<char>)
    requires d in D
    ensures Pieces(a + [d] + b, D) == Pieces(a, D) + Pieces(b, D)
    decreases |a|
  {
    if a == [] {
      assert a + [d] + b == [d] + b;
      PiecesCons(d, b, D);
    } else {
      var c, x := a[0], a[1..];
      PiecesJoin(x, d, b, D);
      PiecesConsAppend(c, x + [d] + b, x, Pieces(b, D), D);
      assert a + [d] + b == [c] + (x + [d] + b);
      assert a == [c] + x;
    }
  }

  /** One step of `re.split`: a leading delimiter starts a new piece, any
      other character extends the first one. */
  lemma PiecesCons(c: char, x: string, D: set<char>)
    ensures Pieces([c] + x, D) ==
      if c in D then [""] + Pieces(x, D)
      else [[c] + Pieces(x, D)[0]] + Pieces(x, D)[1..]
  {
    assert ([c] + x)[0] == c && ([c] + x)[1..] == x;
  }

  /** A character put in front of two strings whose pieces differ by a
      suffix of pieces keeps them differing by that suffix. */
  lemma PiecesConsAppend(c: char, y: string, x: string, tail: seq<string>, D: set<char>)
    requires Pieces(y, D) == Pieces(x, D) + tail
    ensures Pieces([c] + y, D) == Pieces([c] + x, D) + tail
  {
    var px := Pieces(x, D);
    PiecesCons(c, y, D);
    PiecesCons(c, x, D);
    if c !in D {
      var h := [c] + px[0];
      HeadOfAppend(px, tail);
      AppendAssoc([h], px[1..], tail);
    } else {
      AppendAssoc([""], px, tail);
    }
  }

  /** A string without delimiters is a single piece. */
  lemma {:induction false} PiecesOfPlain(t: string, D: set<char>)
    requires forall k :: 0 <= k < |t| ==> t[k] !in D
    ensures Pieces(t, D) == [t]
    decreases |t|
  {
    if t != [] {
      PiecesOfPlain(t[1..], D);
      assert [t[0]] + t[1..] == t;
    }
  }

  lemma GetTagsJoin(a: string, d: char, b: string, cfg: Config)
    requires d in cfg.delims
    ensures RawGetTags(a + [d] + b, cfg) == RawGetTags(a, cfg) + RawGetTags(b, cfg)
  {
    PiecesJoin(a, d, b, cfg.delims);
  }

  /** The tags of a valid tag are the tag itself (case-mapped). */
  lemma GetTagsOfPlain(t: string, cfg: Config)
    requires t != "" && forall k :: 0 <= k < |t| ==> t[k] !in cfg.delims
    ensures RawGetTags(t, cfg) == {CaseMap(cfg, t)}
  {
    PiecesOfPlain(t, cfg.delims);
  }

  /** A prepend adds exactly the tag to the tags of the name. */
  lemma PrependTags(name: string, t: string, cfg: Config)
    requires cfg.defaultDelim in cfg.delims
    requires t != "" && forall k :: 0 <= k < |t| ==> t[k] !in cfg.delims
    ensures RawGetTags(Prepend(name, t, cfg.defaultDelim), cfg) == RawGetTags(name, cfg) + {CaseMap(cfg, t)}
  {
    GetTagsOfPlain(t, cfg);
    if name != "" {
      GetTagsJoin(t, cfg.defaultDelim, name, cfg);
    } else {
      assert Pieces("", cfg.delims) == [""];
    }
  }

  /** `_add` of a tag the file already carries changes nothing, and after
      `_add` the file carries the tag: a second `_add` is a no-op. */
  lemma AddNameIdempotent(dirs: string, name: string, t: string, cfg: Config, readName: bool)
    requires cfg.defaultDelim in cfg.delims && readName
    ensures HasTagIn(dirs, AddName(dirs, name, t, cfg, readName), t, cfg, readName)
    ensures AddName(dirs, AddName(dirs, name, t, cfg, readName), t, cfg, readName)
         == AddName(dirs, name, t, cfg, readName)
  {
    if !HasTagIn(dirs, name, t, cfg, readName) {
      PrependCarriesTag(name, t, cfg);
    }
  }

  /** `_add` never loses a tag the name already carries. */
  lemma AddNameKeepsTag(dirs: string, name: string, t: string, u: string, cfg: Config, readName: bool)
    requires cfg.defaultDelim in cfg.delims
    requires |u| > 0 && RawHasTag(name, u, cfg)
    ensures RawHasTag(AddName(dirs, name, t, cfg, readName), u, cfg)
  {
    if !HasTagIn(dirs, name, t, cfg, readName) {
      PrependKeepsTag(name, t, u, cfg);
    }
  }

  /** After adding every tag of `ts`, the file carries each of them. */
  lemma {:induction false} AddAllCarriesTags(dirs: string, name: string, ts: seq<string>, cfg: Config)
    requires cfg.defaultDelim in cfg.delims
    requires forall k :: 0 <= k < |ts| ==> |ts[k]| > 0
    ensures forall k :: 0 <= k < |ts| ==> HasTagIn(dirs, AddAll(dirs, name, ts, cfg, true), ts[k], cfg, true)
    decreases |ts|
  {
    if ts != [] {
      var n1 := AddName(dirs, name, ts[0], cfg, true);
      AddNameIdempotent(dirs, name, ts[0], cfg, true);
      AddAllCarriesTags(dirs, n1, ts[1..], cfg);
      AddAllKeepsTag(dirs, n1, ts[1..], ts[0], cfg);
      forall k | 0 <= k < |ts| ensures HasTagIn(dirs, AddAll(dirs, name, ts, cfg, true), ts[k], cfg, true) {
        if k > 0 { assert ts[k] == ts[1..][k-1]; }
      }
    }
  }

  /** Adding never loses a tag the file carries. */
  lemma {:induction false} AddAllKeepsTag(dirs: string, name: string, ts: seq<string>, u: string, cfg: Config)
    requires cfg.defaultDelim in cfg.delims
    requires |u| > 0 && HasTagIn(dirs, name, u, cfg, true)
    ensures HasTagIn(dirs, AddAll(dirs, name, ts, cfg, true), u, cfg, true)
    decreases |ts|
  {
    if ts != [] {
      AddNameKeepsHasTag(dirs, name, ts[0], u, cfg);
      AddAllKeepsTag(dirs, AddName(dirs, name, ts[0], cfg, true), ts[1..], u, cfg);
    }
  }

  /** Tags that are all new are prepended in reverse order (the behaviour
      the tests expect of `add_remove_tags("a_b_c", ["x", "y", "z"], [])`). */
  lemma AddAllReverses(dirs: string, name: string, x: string, y: string, cfg: Config)
    requires name != "" && |x| > 0
    requires !HasTagIn(dirs, name, x, cfg, true)
    requires !HasTagIn(dirs, x + [cfg.defaultDelim] + name, y, cfg, true)
    ensures AddAll(dirs, name, [x, y], cfg, true) == y + [cfg.defaultDelim] + x + [cfg.defaultDelim] + name
  {
    var dd := cfg.defaultDelim;
    var n1 := x + [dd] + name;
    assert [x, y][1..] == [y];
    assert [y][1..] == [];
    assert AddName(dirs, name, x, cfg, true) == n1;
    assert AddName(dirs, n1, y, cfg, true) == y + [dd] + n1;
    assert AddAll(dirs, n1, [y], cfg, true) == AddAll(dirs, y + [dd] + n1, [], cfg, true);
  }

  // ---------------------------------------------------------------------
  // The file's tags, and the folds one step at a time.

  /** `get_tags` of the file: the tags of the name (when it is read) and,
      with directories in use, those of the directory part. */
  function FileTags(dirs: string, name: string, cfg: Config, readName: bool): set<string>
  {
    (if readName then RawGetTags(name, cfg) else {}) + (if cfg.useDirs then RawGetTags(dirs, cfg) else {})
  }

  /** The file's `has_tag` and `get_tags` agree on plain tags. */
  lemma HasTagInIffFileTags(dirs: string, name: string, t: string, cfg: Config, readName: bool)
    requires PlainTag(t, cfg.delims, IgnoreCase(cfg))
    requires IgnoreCase(cfg) ==> NoLetters(cfg.delims)
    ensures HasTagIn(dirs, name, t, cfg, readName) <==> CaseMap(cfg, t) in FileTags(dirs, name, cfg, readName)
  {
    HasTagIffInGetTags(name, t, cfg);
    HasTagIffInGetTags(dirs, t, cfg);
  }

  /** `_add` never makes the file lose a tag it carries. */
  lemma AddNameKeepsHasTag(dirs: string, name: string, t: string, u: string, cfg: Config)
    requires cfg.defaultDelim in cfg.delims
    requires |u| > 0 && HasTagIn(dirs, name, u, cfg, true)
    ensures HasTagIn(dirs, AddName(dirs, name, t, cfg, true), u, cfg, true)
  {
    if RawHasTag(name, u, cfg) {
      AddNameKeepsTag(dirs, name, t, u, cfg, true);
    }
  }

  lemma {:induction false} AddAllSnoc(dirs: string, name: string, ts: seq<string>, t: string, cfg: Config, readName: bool)
    ensures AddAll(dirs, name, ts + [t], cfg, readName) == AddName(dirs, AddAll(dirs, name, ts, cfg, readName), t, cfg, readName)
    decreases |ts|
  {
    if ts == [] {
      assert ts + [t] == [t];
      assert [t][1..] == [];
    } else {
      assert (ts + [t])[1..] == ts[1..] + [t];
      AddAllSnoc(dirs, AddName(dirs, name, ts[0], cfg, readName), ts[1..], t, cfg, readName);
    }
  }

  lemma {:induction false} RemoveAllSnoc(s: string, ts: seq<string>, t: string, cfg: Config, honourCase: bool)
    requires forall k :: 0 <= k < |ts| ==> |ts[k]| > 0
    requires |t| > 0
    ensures forall k :: 0 <= k < |ts + [t]| ==> |(ts + [t])[k]| > 0
    ensures RemoveAll(s, ts + [t], cfg, honourCase) == RemoveWith(RemoveAll(s, ts, cfg, honourCase), t, cfg, honourCase)
    decreases |ts|
  {
    if ts == [] {
      assert ts + [t] == [t];
      assert [t][1..] == [];
    } else {
      assert (ts + [t])[1..] == ts[1..] + [t];
      RemoveAllSnoc(RemoveWith(s, ts[0], cfg, honourCase), ts[1..], t, cfg, honourCase);
    }
  }

  /** Every tag of the file is non-empty. */
  lemma FileTagsNonEmpty(dirs: string, name: string, cfg: Config, readName: bool)
    ensures forall x :: x in FileTags(dirs, name, cfg, readName) ==> |x| > 0
  {
    forall x | x in FileTags(dirs, name, cfg, readName) ensures |x| > 0 {
      if readName && x in RawGetTags(name, cfg) { TagsAreNonEmpty(name, cfg, x); }
      else { TagsAreNonEmpty(dirs, cfg, x); }
    }
  }

  /** A non-empty tag is never found in an empty name, so a tag the file
      carries with an empty name is carried by the directory part. */
  lemma PlaceholderKeepsHasTag(dirs: string, tags: set<string>, cfg: Config)
    ensures forall x :: x in tags && x != "" && HasTagIn(dirs, "", x, cfg, true) ==>
      forall n :: HasTagIn(dirs, n, x, cfg, true)
  {
    forall x | x in tags && x != "" && HasTagIn(dirs, "", x, cfg, true)
      ensures forall n :: HasTagIn(dirs, n, x, cfg, true)
    {
      RawHasTagSpec("", x, cfg);
    }
  }

  /** A tag `get_tags` reports is one the pattern can stand for, already in
      the configured case. */
  lemma GetTagsArePlain(s: string, x: string, cfg: Config)
    requires IgnoreCase(cfg) ==> NoLetters(cfg.delims)
    requires x in RawGetTags(s, cfg)
    ensures PlainTag(x, cfg.delims, IgnoreCase(cfg))
    ensures CaseMap(cfg, x) == x
  {
    GetTagsAreTokens(s, cfg, x);
    var i, j :| TokenAt(s, cfg.delims, i, j) && CaseMap(cfg, s[i..j]) == x;
    forall k | 0 <= k < |x| ensures !IsDelim(x[k], cfg.delims, IgnoreCase(cfg)) {
      IsDelimExact(x[k], cfg.delims, IgnoreCase(cfg));
      assert s[i..j][k] == s[i + k];
    }
    if !cfg.caseSensitive {
      assert LowerStr(x) == x;
    }
  }

  /** The same for every tag of the file. */
  lemma FileTagsArePlain(dirs: string, name: string, x: string, cfg: Config, readName: bool)
    requires IgnoreCase(cfg) ==> NoLetters(cfg.delims)
    requires x in FileTags(dirs, name, cfg, readName)
    ensures PlainTag(x, cfg.delims, IgnoreCase(cfg))
    ensures CaseMap(cfg, x) == x
  {
    if readName && x in RawGetTags(name, cfg) {
      GetTagsArePlain(name, x, cfg);
    } else {
      GetTagsArePlain(dirs, x, cfg);
    }
  }

  /** Adding never removes a tag from the name. */
  lemma {:induction false} AddAllKeepsNameTag(dirs: string, name: string, ts: seq<string>, u: string, cfg: Config, readName: bool)
    requires cfg.defaultDelim in cfg.delims
    requires |u| > 0 && RawHasTag(name, u, cfg)
    ensures RawHasTag(AddAll(dirs, name, ts, cfg, readName), u, cfg)
    decreases |ts|
  {
    if ts != [] {
      AddNameKeepsTag(dirs, name, ts[0], u, cfg, readName);
      AddAllKeepsNameTag(dirs, AddName(dirs, name, ts[0], cfg, readName), ts[1..], u, cfg, readName);
    }
  }

  /** A tag of `ts` the directory part does not carry ends up in the name. */
  lemma {:induction false} AddAllPutsTagInName(dirs: string, name: string, ts: seq<string>, x: string, cfg: Config, readName: bool)
    requires cfg.defaultDelim in cfg.delims
    requires x in ts && |x| > 0
    requires !(cfg.useDirs && RawHasTag(dirs, x, cfg))
    ensures RawHasTag(AddAll(dirs, name, ts, cfg, readName), x, cfg)
    decreases |ts|
  {
    var n1 := AddName(dirs, name, ts[0], cfg, readName);
    if ts[0] == x {
      if !HasTagIn(dirs, name, x, cfg, readName) {
        PrependCarriesTag(name, x, cfg);
      }
      AddAllKeepsNameTag(dirs, n1, ts[1..], x, cfg, readName);
    } else {
      assert x in ts[1..];
      AddAllPutsTagInName(dirs, n1, ts[1..], x, cfg, readName);
    }
  }

  /** A name carrying a non-empty tag is not empty. */
  lemma TaggedNameNonEmpty(name: string, x: string, cfg: Config)
    requires |x| > 0 && RawHasTag(name, x, cfg)
    ensures name != ""
  {
    RawHasTagSpec(name, x, cfg);
  }
}
