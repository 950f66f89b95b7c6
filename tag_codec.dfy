/**
  The tag codec: turning a path segment into its set of tag tokens, and the
  whole-token presence test `(^|D)tag($|D)` run as `re.search`.
  Shared by tagtool/filename.py, core.py, utils.py and file.py, whose copies of
  `_raw_get_tags`/`get_tags` and `_raw_has_tag`/`has_tag` are identical; the
  filtered split is also what `split` in utils.cpp computes.
*/
module TagCodec {
  import opened TagConfig

  /** Index of the first delimiter at or after `from`, |s| when there is none
      (std::string::find_first_of, with npos written as |s|). */
  function FindFirstOf(s: string, D: set<char>, from: nat): (pos: nat)
    requires from <= |s|
    ensures from <= pos <= |s|
    ensures forall k :: from <= k < pos ==> s[k] !in D
    ensures pos < |s| ==> s[pos] in D
    decreases |s| - from
  {
    if from == |s| || s[from] in D then from else FindFirstOf(s, D, from + 1)
  }

  /** `re.split(D, s)`: the pieces between delimiters, empty ones included. */
  function Pieces(s: string, D: set<char>): (r: seq<string>)
    ensures |r| >= 1
    decreases |s|
  {
    if s == [] then [""]
    else
      var rest := Pieces(s[1..], D);
      if s[0] in D then [""] + rest else [[s[0]] + rest[0]] + rest[1..]
  }

  /** The non-empty maximal delimiter-free runs of `s`, in order. */
  function Split(s: string, D: set<char>): seq<string>
    decreases |s|
  {
    if s == [] then []
    else if s[0] in D then Split(s[1..], D)
    else
      var n := FindFirstOf(s, D, 0);
      [s[..n]] + Split(s[n..], D)
  }

  predicate NoDelimIn(s: string, D: set<char>, i: int, j: int)
    requires 0 <= i <= j <= |s|
  {
    forall k :: i <= k < j ==> s[k] !in D
  }

  /** s[i..j] is a whole token: non-empty, delimiter-free, bounded on both
      sides by a delimiter or an end of the string. */
  predicate TokenAt(s: string, D: set<char>, i: int, j: int)
  {
    && 0 <= i < j <= |s|
    && (i == 0 || s[i-1] in D)
    && (j == |s| || s[j] in D)
    && NoDelimIn(s, D, i, j)
  }

  /** `_raw_get_tags`: the set of the non-empty pieces, lower-cased when the
      configuration is case-insensitive. */
  function RawGetTags(s: string, cfg: Config): set<string>
  {
    set p | p in Pieces(s, cfg.delims) && p != "" :: CaseMap(cfg, p)
  }

  /** re.split keeps the first piece up to the first delimiter, and the
      remaining pieces are those after it. */
  lemma {:induction false} PiecesHead(s: string, D: set<char>)
    ensures var n := FindFirstOf(s, D, 0);
      Pieces(s, D)[0] == s[..n] && Pieces(s, D)[1..] == Pieces(s[n..], D)[1..]
    decreases |s|
  {
    if s != [] && s[0] !in D {
      PiecesHead(s[1..], D);
      var n := FindFirstOf(s, D, 0);
      assert FindFirstOf(s[1..], D, 0) == n - 1 by {
        FindFirstOfShift(s, D, 0);
      }
      assert s[1..][n-1..] == s[n..];
      assert [s[0]] + s[1..][..n-1] == s[..n];
    }
  }

  /** Searching s[1..] from `from` finds the same delimiter one place earlier. */
  lemma {:induction false} FindFirstOfShift(s: string, D: set<char>, from: nat)
    requires from < |s| && forall k :: 0 <= k <= from ==> s[k] !in D
    ensures FindFirstOf(s[1..], D, from) == FindFirstOf(s, D, from + 1) - 1
    ensures FindFirstOf(s, D, from) == FindFirstOf(s, D, from + 1)
    decreases |s| - from
  {
    if from + 1 < |s| && s[from + 1] !in D {
      FindFirstOfShift(s, D, from + 1);
    }
  }

  /** Filtering the empty pieces out of re.split leaves exactly the runs. */
  lemma {:induction false} NonEmptyPiecesAreSplit(s: string, D: set<char>, p: string)
    ensures (p in Pieces(s, D) && p != "") <==> p in Split(s, D)
    decreases |s|
  {
    if s == [] {
    } else if s[0] in D {
      NonEmptyPiecesAreSplit(s[1..], D, p);
    } else {
      var n := FindFirstOf(s, D, 0);
      PiecesHead(s, D);
      PiecesHead(s[n..], D);
      NonEmptyPiecesAreSplit(s[n..], D, p);
      var ps := Pieces(s, D);
      var qs := Pieces(s[n..], D);
      assert ps == [ps[0]] + ps[1..];
      assert qs == [qs[0]] + qs[1..];
      assert qs[0] == "";
    }
  }

  /** Every element of Split is a whole token of `s`, found at (i, j). */
  lemma {:induction false} SplitSound(s: string, D: set<char>, p: string) returns (i: int, j: int)
    requires p in Split(s, D)
    ensures TokenAt(s, D, i, j) && s[i..j] == p
    decreases |s|
  {
    if s[0] in D {
      var i0, j0 := SplitSound(s[1..], D, p);
      TokenUnshift(s, D, 1, i0, j0);
      i, j := i0 + 1, j0 + 1;
    } else {
      var n := FindFirstOf(s, D, 0);
      if p == s[..n] {
        i, j := 0, n;
      } else {
        assert p in Split(s[n..], D);
        var i0, j0 := SplitSound(s[n..], D, p);
        TokenUnshift(s, D, n, i0, j0);
        i, j := i0 + n, j0 + n;
      }
    }
  }

  /** A token of s[n..] is a token of s, provided it is bounded on the left
      in s as well. */
  lemma TokenUnshift(s: string, D: set<char>, n: int, i: int, j: int)
    requires 0 <= n <= |s| && TokenAt(s[n..], D, i, j)
    requires i == 0 ==> n == 0 || s[n-1] in D
    ensures TokenAt(s, D, i + n, j + n) && s[i+n..j+n] == s[n..][i..j]
  {
    var rest := s[n..];
    assert i > 0 ==> s[i+n-1] == rest[i-1];
    assert j + n < |s| ==> s[j+n] == rest[j];
    assert forall k :: i + n <= k < j + n ==> s[k] == rest[k-n];
  }

  /** A token that does not start at 0 starts after the first run ends. */
  lemma TokenAfterRun(s: string, D: set<char>, i: int, j: int)
    requires TokenAt(s, D, i, j) && 0 < i
    ensures i > FindFirstOf(s, D, 0)
  {
    assert s[i] !in D && s[i-1] in D;
  }

  /** A token of s that starts at or after n is a token of s[n..]. */
  lemma TokenShift(s: string, D: set<char>, n: int, i: int, j: int)
    requires 0 <= n <= i && TokenAt(s, D, i, j)
    ensures TokenAt(s[n..], D, i - n, j - n) && s[n..][i-n..j-n] == s[i..j]
  {
    var rest := s[n..];
    assert i - n > 0 ==> rest[i-n-1] == s[i-1];
    assert j - n < |rest| ==> rest[j-n] == s[j];
  }

  /** Every whole token of `s` is an element of Split. */
  lemma {:induction false} SplitComplete(s: string, D: set<char>, i: int, j: int)
    requires TokenAt(s, D, i, j)
    ensures s[i..j] in Split(s, D)
    decreases |s|
  {
    if s[0] in D {
      TokenShift(s, D, 1, i, j);
      SplitComplete(s[1..], D, i - 1, j - 1);
    } else {
      var n := FindFirstOf(s, D, 0);
      if i == 0 {
        assert j == n;
      } else {
        TokenAfterRun(s, D, i, j);
        TokenShift(s, D, n, i, j);
        SplitComplete(s[n..], D, i - n, j - n);
      }
    }
  }

  /** Before a delimiter at |a|, the first delimiter of a + [d] + b is the
      first delimiter of a (or the one at |a|). */
  lemma {:induction false} FindFirstOfJoin(a: string, d: char, b: string, D: set<char>, from: nat)
    requires d in D && from <= |a|
    ensures FindFirstOf(a + [d] + b, D, from) == FindFirstOf(a, D, from)
    decreases |a| - from
  {
    var s := a + [d] + b;
    if from < |a| {
      assert s[from] == a[from];
      if a[from] !in D {
        FindFirstOfJoin(a, d, b, D, from + 1);
      }
    } else {
      assert s[from] == d;
    }
  }

  /** Splitting at a delimiter splits the two sides independently. */
  lemma {:induction false} SplitJoin(a: string, d: char, b: string, D: set<char>)
    requires d in D
    ensures Split(a + [d] + b, D) == Split(a, D) + Split(b, D)
    decreases |a|
  {
    var s := a + [d] + b;
    if a == [] {
      assert s[1..] == b;
    } else if a[0] in D {
      assert s[1..] == a[1..] + [d] + b;
      SplitJoin(a[1..], d, b, D);
    } else {
      var n := FindFirstOf(a, D, 0);
      FindFirstOfJoin(a, d, b, D, 0);
      assert s[..n] == a[..n];
      assert s[n..] == a[n..] + [d] + b;
      SplitJoin(a[n..], d, b, D);
    }
  }

  /** A non-empty string without delimiters splits into itself. */
  lemma SplitOfPlain(w: string, D: set<char>)
    requires w != [] && forall k :: 0 <= k < |w| ==> w[k] !in D
    ensures Split(w, D) == [w]
  {
    var n := FindFirstOf(w, D, 0);
    assert n == |w|;
    assert w[0] !in D;
    assert w[..n] == w && w[n..] == [];
    assert Split(w, D) == [w[..n]] + Split(w[n..], D);
  }

  /** The tags of a segment are the case-mapped whole tokens of it. */
  lemma GetTagsAreTokens(s: string, cfg: Config, x: string)
    ensures x in RawGetTags(s, cfg) <==>
      exists i, j :: TokenAt(s, cfg.delims, i, j) && CaseMap(cfg, s[i..j]) == x
  {
    var D := cfg.delims;
    if x in RawGetTags(s, cfg) {
      var p :| p in Pieces(s, D) && p != "" && CaseMap(cfg, p) == x;
      NonEmptyPiecesAreSplit(s, D, p);
      var i, j := SplitSound(s, D, p);
    }
    if exists i, j :: TokenAt(s, D, i, j) && CaseMap(cfg, s[i..j]) == x {
      var i, j :| TokenAt(s, D, i, j) && CaseMap(cfg, s[i..j]) == x;
      var p := s[i..j];
      SplitComplete(s, D, i, j);
      NonEmptyPiecesAreSplit(s, D, p);
    }
  }

  /** Every tag is non-empty, and free of delimiters in the case-sensitive
      configuration. */
  lemma TagsAreNonEmpty(s: string, cfg: Config, x: string)
    requires x in RawGetTags(s, cfg)
    ensures x != ""
    ensures cfg.caseSensitive ==> forall k :: 0 <= k < |x| ==> x[k] !in cfg.delims
  {
    GetTagsAreTokens(s, cfg, x);
    var i, j :| TokenAt(s, cfg.delims, i, j) && CaseMap(cfg, s[i..j]) == x;
  }

  /** The pattern literal `t` occurs at s[i..] (up to case when `ci`). */
  predicate TextAt(s: string, i: int, t: string, ci: bool)
    requires 0 <= i && i + |t| <= |s|
  {
    if ci then LowerStr(s[i..i+|t|]) == LowerStr(t) else s[i..i+|t|] == t
  }

  /** `(^|D)t($|D)` matches with `t` starting at index i. */
  predicate MatchAt(s: string, t: string, i: int, D: set<char>, ci: bool)
  {
    && 0 <= i && i + |t| <= |s|
    && (i == 0 || IsDelim(s[i-1], D, ci))
    && TextAt(s, i, t, ci)
    && (i + |t| == |s| || IsDelim(s[i+|t|], D, ci))
  }

  /** `re.search` for the pattern, scanning start positions from i. */
  predicate HasTagFrom(s: string, t: string, i: nat, D: set<char>, ci: bool)
    requires i <= |s|
    decreases |s| - i
  {
    if i + |t| > |s| then false
    else MatchAt(s, t, i, D, ci) || (i < |s| && HasTagFrom(s, t, i + 1, D, ci))
  }

  /** `_raw_has_tag(s, tag)`. */
  predicate RawHasTag(s: string, t: string, cfg: Config)
  {
    HasTagFrom(s, t, 0, cfg.delims, IgnoreCase(cfg))
  }

  lemma {:induction false} HasTagFromSpec(s: string, t: string, i: nat, D: set<char>, ci: bool)
    requires i <= |s|
    ensures HasTagFrom(s, t, i, D, ci) <==> exists j :: i <= j && MatchAt(s, t, j, D, ci)
    decreases |s| - i
  {
    if i + |t| <= |s| && i < |s| {
      HasTagFromSpec(s, t, i + 1, D, ci);
      if exists j :: i <= j && MatchAt(s, t, j, D, ci) {
        var j :| i <= j && MatchAt(s, t, j, D, ci);
        if j != i { assert i + 1 <= j; }
      }
    }
  }

  /** The scanner finds a match exactly when there is one. */
  lemma RawHasTagSpec(s: string, t: string, cfg: Config)
    ensures RawHasTag(s, t, cfg) <==> exists j :: MatchAt(s, t, j, cfg.delims, IgnoreCase(cfg))
  {
    HasTagFromSpec(s, t, 0, cfg.delims, IgnoreCase(cfg));
  }

  /** A tag the pattern can stand for: non-empty, and no character of it is
      matched by the delimiter class. */
  predicate PlainTag(t: string, D: set<char>, ci: bool)
  {
    |t| > 0 && forall k :: 0 <= k < |t| ==> !IsDelim(t[k], D, ci)
  }

  /** A match survives putting a prefix that ends with a delimiter in
      front of the string. */
  lemma MatchShift(pre: string, s: string, u: string, k: int, D: set<char>, ci: bool)
    requires MatchAt(s, u, k, D, ci)
    requires pre != [] && IsDelim(pre[|pre| - 1], D, ci)
    ensures MatchAt(pre + s, u, k + |pre|, D, ci)
  {
    var c, k2 := pre + s, k + |pre|;
    assert c[k2..k2+|u|] == s[k..k+|u|];
    assert c[k2-1] == (if k == 0 then pre[|pre| - 1] else s[k-1]);
    assert k + |u| < |s| ==> c[k2+|u|] == s[k+|u|];
  }

  /** No character a plain tag matches is a delimiter. */
  lemma MatchAvoidsDelims(s: string, t: string, i: int, D: set<char>, ci: bool)
    requires PlainTag(t, D, ci) && MatchAt(s, t, i, D, ci)
    ensures forall k :: i <= k < i + |t| ==> !IsDelim(s[k], D, ci)
  {
    forall k | i <= k < i + |t| ensures !IsDelim(s[k], D, ci) {
      assert CharEq(s[k], t[k-i], ci) by {
        if ci {
          assert LowerStr(s[i..i+|t|])[k-i] == LowerStr(t)[k-i];
        } else {
          assert s[i..i+|t|][k-i] == t[k-i];
        }
      }
      DelimClosedUnderCharEq(s[k], t[k-i], D, ci);
    }
  }

  /** A match of a plain tag covers a whole token of the segment. */
  lemma MatchIsToken(s: string, t: string, i: int, D: set<char>, ci: bool)
    requires PlainTag(t, D, ci) && MatchAt(s, t, i, D, ci)
    requires !ci || NoLetters(D)
    ensures TokenAt(s, D, i, i + |t|)
  {
    forall k | i <= k < i + |t| ensures s[k] !in D {
      assert CharEq(s[k], t[k-i], ci) by {
        if ci {
          assert LowerStr(s[i..i+|t|])[k-i] == LowerStr(t)[k-i];
        } else {
          assert s[i..i+|t|][k-i] == t[k-i];
        }
      }
      DelimClosedUnderCharEq(s[k], t[k-i], D, ci);
    }
    if i > 0 { IsDelimExact(s[i-1], D, ci); }
    if i + |t| < |s| { IsDelimExact(s[i+|t|], D, ci); }
  }

  /** `_raw_has_tag(s, t)` holds exactly when `t` (case-mapped) is one of
      `_raw_get_tags(s)`: the two codec operations agree on plain tags. */
  lemma HasTagIffInGetTags(s: string, t: string, cfg: Config)
    requires PlainTag(t, cfg.delims, IgnoreCase(cfg))
    requires IgnoreCase(cfg) ==> NoLetters(cfg.delims)
    ensures RawHasTag(s, t, cfg) <==> CaseMap(cfg, t) in RawGetTags(s, cfg)
  {
    var D, ci := cfg.delims, IgnoreCase(cfg);
    RawHasTagSpec(s, t, cfg);
    GetTagsAreTokens(s, cfg, CaseMap(cfg, t));
    if RawHasTag(s, t, cfg) {
      var i :| MatchAt(s, t, i, D, ci);
      MatchIsToken(s, t, i, D, ci);
      assert CaseMap(cfg, s[i..i+|t|]) == CaseMap(cfg, t);
    }
    if CaseMap(cfg, t) in RawGetTags(s, cfg) {
      var i, j :| TokenAt(s, D, i, j) && CaseMap(cfg, s[i..j]) == CaseMap(cfg, t);
      assert j == i + |t|;
      if i > 0 { IsDelimExact(s[i-1], D, ci); }
      if j < |s| { IsDelimExact(s[j], D, ci); }
      assert MatchAt(s, t, i, D, ci);
    }
  }
}
