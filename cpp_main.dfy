/**
  The tag logic of the C++ prototype, main.cpp: the tag set of a file name,
  prepending a tag, the substring-erasing `remove_tag`, and the per-file edit
  of `run`. `std::unordered_set` iteration is an arbitrary order, recorded in
  ghost sequences. A run that would raise `std::out_of_range` or call
  `back()` on an empty string yields `None`.
*/
module CppMain {
  import opened Wrappers
  import opened TagConfig
  import opened TagCodec
  import opened CppUtils

  /** TAG_DELIMS, `" ._-+&%%()[]{}"`: the doubled `%` is the same character
      twice. */
  const TagDelims: set<char> := {' ', '.', '_', '-', '+', '&', '%', '(', ')', '[', ']', '{', '}'}

  const DefaultTagDelim: char := '_'

  // ---- get_tags ----

  /** The tags of a file name: the distinct parts of `split`. */
  function TagsOf(f: string): set<string>
  {
    set p | p in Split(f, TagDelims)
  }

  /** `get_tags`: the parts of `split`, inserted one by one into a set. */
  method GetTags(f: string) returns (tags: set<string>)
    ensures tags == TagsOf(f)
  {
    var tagList := SplitScan(f, TagDelims);
    tags := {};
    var i := 0;
    while i < |tagList|
      invariant 0 <= i <= |tagList|
      invariant tags == set k | 0 <= k < i :: tagList[k]
    {
      tags := tags + {tagList[i]};
      i := i + 1;
    }
  }

  /** Every tag is non-empty and free of delimiters. */
  lemma TagsArePlain(f: string, t: string)
    requires t in TagsOf(f)
    ensures t != "" && forall k :: 0 <= k < |t| ==> t[k] !in TagDelims
  {
    SplitPartsArePlain(f, TagDelims, t);
  }

  /** The C++ tags are those `_raw_get_tags` finds with the same delimiters
      in a case-sensitive configuration. */
  lemma TagsAgreeWithRawGetTags(f: string, cfg: Config)
    requires cfg.delims == TagDelims && cfg.caseSensitive
    ensures TagsOf(f) == RawGetTags(f, cfg)
  {
    forall p ensures p in TagsOf(f) <==> p in RawGetTags(f, cfg) {
      NonEmptyPiecesAreSplit(f, TagDelims, p);
    }
  }

  // ---- add_tag ----

  /** `add_tag`: the tag, the default delimiter, then the old string, even
      when that is empty. */
  function AddTag(str: string, tag: string): string
  {
    tag + [DefaultTagDelim] + str
  }

  /** A prepended tag becomes the first part and the string's own parts
      follow. */
  lemma AddTagParts(str: string, tag: string)
    requires tag != "" && forall k :: 0 <= k < |tag| ==> tag[k] !in TagDelims
    ensures Split(AddTag(str, tag), TagDelims) == [tag] + Split(str, TagDelims)
    ensures TagsOf(AddTag(str, tag)) == TagsOf(str) + {tag}
  {
    SplitJoin(tag, DefaultTagDelim, str, TagDelims);
    SplitOfPlain(tag, TagDelims);
  }

  // ---- remove_tag ----

  /** `t` occurs in `s` at index `k`. */
  predicate OccursAt(s: string, t: string, k: int)
  {
    0 <= k && k + |t| <= |s| && s[k..k + |t|] == t
  }

  /** `std::string::find` from index `i`: the first position at or after `i`
      where `t` occurs, -1 for `npos`. */
  function FindFrom(s: string, t: string, i: nat): (r: int)
    ensures r == -1 || (i <= r && OccursAt(s, t, r))
    ensures r == -1 ==> forall k :: i <= k ==> !OccursAt(s, t, k)
    ensures r >= 0 ==> forall k :: i <= k < r ==> !OccursAt(s, t, k)
    decreases |s| - i
  {
    if i + |t| > |s| then -1
    else if s[i..i + |t|] == t then i
    else FindFrom(s, t, i + 1)
  }

  /** One iteration of the loop of `remove_tag` at the occurrence `pos`:
      erase the tag, then the delimiter after it, or before it when the tag
      ended the string. At the front of a string that is exactly the tag,
      `pos - 1` wraps around and `erase` throws: `None`. */
  function EraseAt(s: string, t: string, pos: nat): (r: Option<string>)
    requires pos + |t| <= |s|
    ensures r.None? <==> |s| == |t| && pos == 0
    ensures r.Some? ==> |r.value| == |s| - |t| - 1
  {
    var s1 := s[..pos] + s[pos + |t|..];
    if pos >= |s1| then
      if pos == 0 then None else Some(s1[..pos - 1] + s1[pos..])
    else Some(s1[..pos] + s1[pos + 1..])
  }

  /** What `remove_tag` returns: erase occurrences of the tag, leftmost
      first, until none is left. */
  function RemoveTagSpec(s: string, t: string): Option<string>
    decreases |s|
  {
    var pos := FindFrom(s, t, 0);
    if pos == -1 then Some(s)
    else
      match EraseAt(s, t, pos)
      case None => None
      case Some(s2) => RemoveTagSpec(s2, t)
  }

  /** `remove_tag`, erasing in place in a loop. */
  method RemoveTag(str: string, tag: string) returns (r: Option<string>)
    ensures r == RemoveTagSpec(str, tag)
  {
    var s := str;
    var pos := FindFrom(s, tag, 0);
    while pos != -1
      invariant pos == FindFrom(s, tag, 0)
      invariant RemoveTagSpec(s, tag) == RemoveTagSpec(str, tag)
      decreases |s|
    {
      ghost var before := s;
      s := s[..pos] + s[pos + |tag|..];
      if pos >= |s| {
        if pos == 0 {
          r := None;
          return;
        }
        s := s[..pos - 1] + s[pos..];
      } else {
        s := s[..pos] + s[pos + 1..];
      }
      assert EraseAt(before, tag, pos) == Some(s);
      pos := FindFrom(s, tag, 0);
    }
    r := Some(s);
  }

  /** When `remove_tag` returns, the tag is no longer a substring. */
  lemma {:induction false} RemoveTagLeavesNoOccurrence(s: string, t: string, r: string)
    requires RemoveTagSpec(s, t) == Some(r)
    ensures forall k :: !OccursAt(r, t, k)
    decreases |s|
  {
    var pos := FindFrom(s, t, 0);
    if pos != -1 {
      var s2 := EraseAt(s, t, pos).value;
      RemoveTagLeavesNoOccurrence(s2, t, r);
    } else {
      assert r == s;
    }
  }

  /** Every round shortens the string by the tag and one delimiter: `n`
      rounds ran. */
  lemma {:induction false} RemoveTagLength(s: string, t: string, r: string) returns (n: nat)
    requires RemoveTagSpec(s, t) == Some(r)
    ensures |s| == |r| + n * (|t| + 1)
    decreases |s|
  {
    var pos := FindFrom(s, t, 0);
    if pos == -1 {
      assert r == s;
      n := 0;
    } else {
      var s2 := EraseAt(s, t, pos).value;
      var m := RemoveTagLength(s2, t, r);
      n := m + 1;
      assert n * (|t| + 1) == m * (|t| + 1) + (|t| + 1);
    }
  }

  /** A string that is exactly the tag makes `remove_tag` throw. */
  lemma RemoveWholeStringFails(t: string)
    ensures RemoveTagSpec(t, t) == None
  {
    assert FindFrom(t, t, 0) == 0 by {
      assert t[0..|t|] == t;
      assert OccursAt(t, t, 0);
    }
  }

  /** Matching is on substrings, not whole tags: removing `a` from `cat_a`
      also erases the `a` of `cat` and the character after it. */
  lemma RemoveInsideWord()
    ensures RemoveTagSpec("cat_a", "a") == Some("c")
  {
    assert FindFrom("cat_a", "a", 0) == 1 by {
      assert "cat_a"[0..1] == "c";
      assert "cat_a"[1..2] == "a";
    }
    assert "cat_a"[..1] + "cat_a"[2..] == "ct_a";
    assert "ct_a"[..1] + "ct_a"[2..] == "c_a";
    assert EraseAt("cat_a", "a", 1) == Some("c_a");
    assert FindFrom("c_a", "a", 0) == 2 by {
      assert "c_a"[0..1] == "c";
      assert "c_a"[1..2] == "_";
      assert "c_a"[2..3] == "a";
    }
    assert "c_a"[..2] + "c_a"[3..] == "c_";
    assert "c_"[..1] + "c_"[2..] == "c";
    assert EraseAt("c_a", "a", 2) == Some("c");
    assert FindFrom("c", "a", 0) == -1 by {
      assert "c"[0..1] == "c";
    }
  }

  // ---- run ----

  /** The additions of `run` in the order `adds`: a tag is prepended only
      when it is not in `tags`, the tag set computed before any edit. */
  function AddMissing(name: string, adds: seq<string>, tags: set<string>): string
    decreases |adds|
  {
    if adds == [] then name
    else
      var n := AddMissing(name, adds[..|adds| - 1], tags);
      var t := adds[|adds| - 1];
      if t !in tags then AddTag(n, t) else n
  }

  /** The removals of `run` in the order `removes`: a tag is removed only
      when it is in `tags`, the tag set computed before any edit. */
  function RemovePresent(name: string, removes: seq<string>, tags: set<string>): Option<string>
    decreases |removes|
  {
    if removes == [] then Some(name)
    else
      match RemovePresent(name, removes[..|removes| - 1], tags)
      case None => None
      case Some(n) =>
        var t := removes[|removes| - 1];
        if t in tags then RemoveTagSpec(n, t) else Some(n)
  }

  /** The new name `run` computes for the name of a file: additions first,
      then removals, both checked against the original tags. */
  function EditName(name: string, adds: seq<string>, removes: seq<string>): Option<string>
  {
    var tags := TagsOf(name);
    RemovePresent(AddMissing(name, adds, tags), removes, tags)
  }

  /** The additions leave the file with its old tags and every added one. */
  lemma {:induction false} AddMissingTags(name: string, adds: seq<string>)
    requires forall k :: 0 <= k < |adds| ==> adds[k] != "" && forall j :: 0 <= j < |adds[k]| ==> adds[k][j] !in TagDelims
    ensures TagsOf(AddMissing(name, adds, TagsOf(name))) == TagsOf(name) + set k | 0 <= k < |adds| :: adds[k]
    decreases |adds|
  {
    if adds != [] {
      var init := adds[..|adds| - 1];
      var t := adds[|adds| - 1];
      assert forall k :: 0 <= k < |init| ==> init[k] == adds[k];
      AddMissingTags(name, init);
      var n := AddMissing(name, init, TagsOf(name));
      if t !in TagsOf(name) {
        AddTagParts(n, t);
      }
      assert (set k | 0 <= k < |adds| :: adds[k]) == (set k | 0 <= k < |init| :: init[k]) + {t};
    }
  }

  /** Removals of tags the file did not have change nothing. */
  lemma {:induction false} RemoveAbsentTags(name: string, removes: seq<string>, tags: set<string>)
    requires forall k :: 0 <= k < |removes| ==> removes[k] !in tags
    ensures RemovePresent(name, removes, tags) == Some(name)
    decreases |removes|
  {
    if removes != [] {
      var init := removes[..|removes| - 1];
      assert forall k :: 0 <= k < |init| ==> init[k] == removes[k];
      RemoveAbsentTags(name, init, tags);
    }
  }

  /** Once a removal throws, the later ones do not happen. */
  lemma {:induction false} RemovePresentFails(name: string, removes: seq<string>, more: seq<string>, tags: set<string>)
    requires RemovePresent(name, removes, tags) == None
    ensures RemovePresent(name, removes + more, tags) == None
    decreases |more|
  {
    if more != [] {
      var init := more[..|more| - 1];
      RemovePresentFails(name, removes, init, tags);
      var all := removes + more;
      assert all != [];
      assert all[..|all| - 1] == removes + init;
      assert RemovePresent(name, all[..|all| - 1], tags) == None;
    } else {
      assert removes + more == removes;
    }
  }

  /** Some enumeration of a finite set. */
  ghost function Enumerate(s: set<string>): (r: seq<string>)
    ensures forall x :: x in r <==> x in s
    decreases |s|
  {
    if s == {} then []
    else
      var x :| x in s;
      [x] + Enumerate(s - {x})
  }

  /** The loop over `add_tags`, in the set's iteration order `order`. */
  method AddEach(name: string, addTags: set<string>, tags: set<string>)
    returns (n: string, ghost order: seq<string>)
    ensures forall x :: x in order <==> x in addTags
    ensures n == AddMissing(name, order, tags)
  {
    n := name;
    var todo := addTags;
    order := [];
    while todo != {}
      invariant todo <= addTags
      invariant forall x :: x in order <==> x in addTags - todo
      invariant n == AddMissing(name, order, tags)
      decreases |todo|
    {
      var t :| t in todo;
      if t !in tags {
        n := AddTag(n, t);
      }
      assert (order + [t])[..|order|] == order;
      order := order + [t];
      todo := todo - {t};
    }
  }

  /** The loop over `remove_tags`, in the set's iteration order `order`; a
      removal that throws ends the run. */
  method RemoveEach(name: string, removeTags: set<string>, tags: set<string>)
    returns (r: Option<string>, ghost order: seq<string>)
    ensures forall x :: x in order <==> x in removeTags
    ensures r == RemovePresent(name, order, tags)
  {
    var n := name;
    var todo := removeTags;
    order := [];
    while todo != {}
      invariant todo <= removeTags
      invariant forall x :: x in order <==> x in removeTags - todo
      invariant RemovePresent(name, order, tags) == Some(n)
      decreases |todo|
    {
      var t :| t in todo;
      assert (order + [t])[..|order|] == order;
      if t in tags {
        var res := RemoveTag(n, t);
        if res.None? {
          ghost var rest := Enumerate(todo - {t});
          RemovePresentFails(name, order + [t], rest, tags);
          order := order + [t] + rest;
          r := None;
          return;
        }
        n := res.value;
      }
      order := order + [t];
      todo := todo - {t};
    }
    r := Some(n);
  }

  /** The per-file body of `run`: split the path, read the tags of the name,
      add the missing tags, remove the present ones, and join the parts. */
  method RunFile(f: string, addTags: set<string>, removeTags: set<string>)
    returns (newF: Option<string>, ghost addOrder: seq<string>, ghost removeOrder: seq<string>)
    ensures forall x :: x in addOrder <==> x in addTags
    ensures forall x :: x in removeOrder <==> x in removeTags
    ensures var p := PartsOf(f);
      newF == match EditName(p.name, addOrder, removeOrder)
              case None => None
              case Some(n) => JoinPathParts(p.(name := n))
  {
    var p := GetPathParts(f);
    var tags := GetTags(p.name);
    var added;
    added, addOrder := AddEach(p.name, addTags, tags);
    var removed;
    removed, removeOrder := RemoveEach(added, removeTags, tags);
    if removed.None? {
      return None, addOrder, removeOrder;
    }
    p := p.(name := removed.value);
    newF := JoinPathParts(p);
  }
}
