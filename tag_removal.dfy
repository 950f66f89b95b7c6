/**
  Tag removal as the source performs it: two regular-expression substitutions
  run one after the other,
    mid  pass  `(?<=D)tD` -> ""   (a tag with a delimiter before it, which is
                                   kept, and one after it, which is erased)
    edge pass  `(^|D)t($|D)` -> "" (a tag at either end with its delimiters)
  over the name (and the directory part). `re.sub` scans left to right, takes
  the leftmost match, resumes after it, and evaluates the look-behind on the
  original string; those scanners are written out below.
*/
module TagRemoval {
  import opened TagConfig
  import opened TagCodec
  import opened Sequences

  /** The mid pattern matches at i: look-behind delimiter, tag, delimiter. */
  predicate MidMatchAt(s: string, t: string, i: int, D: set<char>, ci: bool)
  {
    && 0 < i && i + |t| < |s|
    && IsDelim(s[i-1], D, ci)
    && TextAt(s, i, t, ci)
    && IsDelim(s[i+|t|], D, ci)
  }

  /** `re.sub(mid_pattern, "", s[i..])` with the look-behind seeing s[..i]. */
  function MidFrom(s: string, t: string, i: nat, D: set<char>, ci: bool): (r: string)
    requires i <= |s|
    ensures |r| <= |s| - i
    decreases |s| - i
  {
    if i == |s| then []
    else if MidMatchAt(s, t, i, D, ci) then MidFrom(s, t, i + |t| + 1, D, ci)
    else [s[i]] + MidFrom(s, t, i + 1, D, ci)
  }

  /** The `$|D` tail of the edge pattern matches at j. */
  predicate TailAt(s: string, j: int, D: set<char>, ci: bool)
    requires 0 <= j <= |s|
  {
    j == |s| || IsDelim(s[j], D, ci)
  }

  /** Characters the tail consumes at j: none for `$`, one for a delimiter. */
  function TailLen(s: string, j: int): nat
  {
    if j == |s| then 0 else 1
  }

  /** First alternative of the edge pattern at p: `^`, tag, tail. */
  predicate EdgeFirstAlt(s: string, t: string, p: int, D: set<char>, ci: bool)
  {
    && p == 0 && |t| <= |s|
    && TextAt(s, 0, t, ci)
    && TailAt(s, |t|, D, ci)
  }

  /** Second alternative of the edge pattern at p: delimiter, tag, tail. */
  predicate EdgeSecondAlt(s: string, t: string, p: int, D: set<char>, ci: bool)
  {
    && 0 <= p && p + 1 + |t| <= |s|
    && IsDelim(s[p], D, ci)
    && TextAt(s, p + 1, t, ci)
    && TailAt(s, p + 1 + |t|, D, ci)
  }

  /** `re.sub(edge_pattern, "", s[p..])`; the alternatives are tried in order. */
  function EdgeFrom(s: string, t: string, p: nat, D: set<char>, ci: bool): (r: string)
    requires p <= |s| && |t| > 0
    ensures |r| <= |s| - p
    decreases |s| - p
  {
    if p == |s| then []
    else if EdgeFirstAlt(s, t, p, D, ci) then
      EdgeFrom(s, t, p + |t| + TailLen(s, |t|), D, ci)
    else if EdgeSecondAlt(s, t, p, D, ci) then
      EdgeFrom(s, t, p + 1 + |t| + TailLen(s, p + 1 + |t|), D, ci)
    else [s[p]] + EdgeFrom(s, t, p + 1, D, ci)
  }

  /** The two substitutions of `_remove` applied to one string, with the
      pattern literal `t` and the given flags. */
  function RemovePattern(s: string, t: string, D: set<char>, ci: bool): (r: string)
    requires |t| > 0
    ensures |r| <= |s|
  {
    var m := MidFrom(s, t, 0, D, ci);
    EdgeFrom(m, t, 0, D, ci)
  }

  /** `_remove` of tagtool/filename.py: the tag is lower-cased and the
      patterns compiled with the configured flags. */
  function RemoveTag(s: string, t: string, cfg: Config): string
    requires |t| > 0
  {
    RemovePattern(s, CaseMap(cfg, t), cfg.delims, IgnoreCase(cfg))
  }

  /** `_remove` of core.py and `__remove` of file.py and utils.py:
      the tag is used as given and the substitutions are always
      case-sensitive. */
  function RemoveTagExact(s: string, t: string, cfg: Config): string
    requires |t| > 0
  {
    RemovePattern(s, t, cfg.delims, false)
  }

  // ---------------------------------------------------------------------
  // Each substitution match is a match of the search pattern.

  lemma MidMatchIsMatch(s: string, t: string, i: int, D: set<char>, ci: bool)
    requires MidMatchAt(s, t, i, D, ci)
    ensures MatchAt(s, t, i, D, ci)
  {
  }

  lemma EdgeMatchIsMatch(s: string, t: string, p: int, D: set<char>, ci: bool)
    ensures EdgeFirstAlt(s, t, p, D, ci) ==> MatchAt(s, t, p, D, ci)
    ensures EdgeSecondAlt(s, t, p, D, ci) ==> MatchAt(s, t, p + 1, D, ci)
  {
  }

  /** With no mid match in [i, j) the mid pass copies s[i..j]. */
  lemma {:induction false} MidCopies(s: string, t: string, i: nat, j: nat, D: set<char>, ci: bool)
    requires i <= j <= |s|
    requires forall k :: i <= k < j ==> !MidMatchAt(s, t, k, D, ci)
    ensures MidFrom(s, t, i, D, ci) == s[i..j] + MidFrom(s, t, j, D, ci)
    decreases j - i
  {
    if i < j {
      MidCopies(s, t, i + 1, j, D, ci);
      SliceCons(s, i, j);
      AppendAssoc([s[i]], s[i+1..j], MidFrom(s, t, j, D, ci));
    }
  }

  /** With no edge match in [p, j) the edge pass copies s[p..j]. */
  lemma {:induction false} EdgeCopies(s: string, t: string, p: nat, j: nat, D: set<char>, ci: bool)
    requires p <= j <= |s| && |t| > 0
    requires forall k :: p <= k < j ==> !EdgeFirstAlt(s, t, k, D, ci) && !EdgeSecondAlt(s, t, k, D, ci)
    ensures EdgeFrom(s, t, p, D, ci) == s[p..j] + EdgeFrom(s, t, j, D, ci)
    decreases j - p
  {
    if p < j {
      EdgeCopies(s, t, p + 1, j, D, ci);
      SliceCons(s, p, j);
      AppendAssoc([s[p]], s[p+1..j], EdgeFrom(s, t, j, D, ci));
    }
  }

  /** A string without the search pattern passes the mid pass unchanged. */
  lemma MidIdentity(s: string, t: string, D: set<char>, ci: bool)
    requires forall k :: !MatchAt(s, t, k, D, ci)
    ensures MidFrom(s, t, 0, D, ci) == s
  {
    forall k | 0 <= k < |s| ensures !MidMatchAt(s, t, k, D, ci) {
      if MidMatchAt(s, t, k, D, ci) { MidMatchIsMatch(s, t, k, D, ci); }
    }
    MidCopies(s, t, 0, |s|, D, ci);
    assert s[0..|s|] == s;
  }

  /** A string without the search pattern passes the edge pass unchanged. */
  lemma EdgeIdentity(s: string, t: string, D: set<char>, ci: bool)
    requires |t| > 0
    requires forall k :: !MatchAt(s, t, k, D, ci)
    ensures EdgeFrom(s, t, 0, D, ci) == s
  {
    forall k | 0 <= k < |s| ensures !EdgeFirstAlt(s, t, k, D, ci) && !EdgeSecondAlt(s, t, k, D, ci) {
      EdgeMatchIsMatch(s, t, k, D, ci);
    }
    EdgeCopies(s, t, 0, |s|, D, ci);
    assert s[0..|s|] == s;
  }

  /** Removing a tag the string does not carry changes nothing. */
  lemma RemoveAbsentIsIdentity(s: string, t: string, D: set<char>, ci: bool)
    requires |t| > 0
    requires forall k :: !MatchAt(s, t, k, D, ci)
    ensures RemovePattern(s, t, D, ci) == s
  {
    MidIdentity(s, t, D, ci);
    EdgeIdentity(s, t, D, ci);
  }

  /** `_remove` leaves a name that does not carry the tag as it is. */
  lemma RemoveTagWithoutTag(s: string, t: string, cfg: Config)
    requires |t| > 0 && !RawHasTag(s, CaseMap(cfg, t), cfg)
    ensures RemoveTag(s, t, cfg) == s
  {
    RawHasTagSpec(s, CaseMap(cfg, t), cfg);
    RemoveAbsentIsIdentity(s, CaseMap(cfg, t), cfg.delims, IgnoreCase(cfg));
  }

  // ---------------------------------------------------------------------
  // A tag that occurs once is cut out together with one delimiter.

  /** The only match of the search pattern in s is at m. */
  ghost predicate OnlyMatchAt(s: string, t: string, m: int, D: set<char>, ci: bool)
  {
    forall k :: MatchAt(s, t, k, D, ci) ==> k == m
  }

  /** A tag at the front, `t e q`, leaves `q`. */
  lemma RemoveFront(t: string, e: char, q: string, D: set<char>, ci: bool)
    requires |t| > 0 && IsDelim(e, D, ci)
    requires OnlyMatchAt(t + [e] + q, t, 0, D, ci)
    ensures RemovePattern(t + [e] + q, t, D, ci) == q
    ensures forall k :: !MatchAt(q, t, k, D, ci)
  {
    var s := t + [e] + q;
    assert s == (t + [e]) + q;
    forall k ensures !MatchAt(q, t, k, D, ci) {
      if MatchAt(q, t, k, D, ci) {
        MatchShift(t + [e], q, t, k, D, ci);
      }
    }
    assert s[0..|t|] == t;
    forall k | 0 <= k < |s| ensures !MidMatchAt(s, t, k, D, ci) {
      if MidMatchAt(s, t, k, D, ci) { MidMatchIsMatch(s, t, k, D, ci); }
    }
    MidCopies(s, t, 0, |s|, D, ci);
    assert s[0..|s|] == s;
    assert EdgeFirstAlt(s, t, 0, D, ci);
    var j := |t| + 1;
    forall k | j <= k < |s| ensures !EdgeFirstAlt(s, t, k, D, ci) && !EdgeSecondAlt(s, t, k, D, ci) {
      EdgeMatchIsMatch(s, t, k, D, ci);
    }
    EdgeCopies(s, t, j, |s|, D, ci);
    assert s[j..|s|] == q;
    assert EdgeFrom(s, t, 0, D, ci) == EdgeFrom(s, t, j, D, ci);
    assert MidFrom(s, t, 0, D, ci) == s;
  }

  /** A tag at the back, `p d t`, leaves `p`. */
  lemma RemoveBack(p: string, d: char, t: string, D: set<char>, ci: bool)
    requires |t| > 0 && IsDelim(d, D, ci)
    requires OnlyMatchAt(p + [d] + t, t, |p| + 1, D, ci)
    ensures RemovePattern(p + [d] + t, t, D, ci) == p
    ensures forall k :: !MatchAt(p, t, k, D, ci)
  {
    var s := p + [d] + t;
    SuffixSlices(p, d, t);
    BackCutClean(p, d, t, D, ci);
    MidKeepsBack(s, t, |p| + 1, D, ci);
    EdgeCutsBack(s, t, |p| + 1, D, ci);
  }

  /** Without its back copy, `p` no longer carries the tag. */
  lemma BackCutClean(p: string, d: char, t: string, D: set<char>, ci: bool)
    requires |t| > 0 && IsDelim(d, D, ci)
    requires OnlyMatchAt(p + [d] + t, t, |p| + 1, D, ci)
    ensures forall k :: !MatchAt(p, t, k, D, ci)
  {
    var s := p + [d] + t;
    forall k ensures !MatchAt(p, t, k, D, ci) {
      if MatchAt(p, t, k, D, ci) {
        assert p[k..k+|t|] == s[k..k+|t|];
        assert k > 0 ==> p[k-1] == s[k-1];
        assert s[k+|t|] == (if k + |t| == |p| then d else p[k+|t|]);
        assert MatchAt(s, t, k, D, ci);
      }
    }
  }

  /** The mid pass leaves a string whose only match ends it unchanged. */
  lemma MidKeepsBack(s: string, t: string, m: int, D: set<char>, ci: bool)
    requires OnlyMatchAt(s, t, m, D, ci) && m + |t| == |s|
    ensures MidFrom(s, t, 0, D, ci) == s
  {
    NoOtherMidMatch(s, t, m, D, ci);
    MidCopies(s, t, 0, |s|, D, ci);
    assert s[0..|s|] == s;
  }

  /** The edge pass cuts the only match, at the end, with the delimiter
      before it. */
  lemma EdgeCutsBack(s: string, t: string, m: int, D: set<char>, ci: bool)
    requires |t| > 0 && 1 <= m && m + |t| == |s|
    requires IsDelim(s[m-1], D, ci) && TextAt(s, m, t, ci)
    requires OnlyMatchAt(s, t, m, D, ci)
    ensures EdgeFrom(s, t, 0, D, ci) == s[..m-1]
  {
    forall k | 0 <= k < m - 1 ensures !EdgeFirstAlt(s, t, k, D, ci) && !EdgeSecondAlt(s, t, k, D, ci) {
      EdgeMatchIsMatch(s, t, k, D, ci);
    }
    EdgeCopies(s, t, 0, m - 1, D, ci);
    EdgeMatchIsMatch(s, t, m - 1, D, ci);
    assert EdgeSecondAlt(s, t, m - 1, D, ci);
    assert s[0..m-1] == s[..m-1];
  }

  /** Positions of p ++ [d] ++ q and of s = p ++ [d] ++ t ++ [e] ++ q agree
      outside the cut-out `t e`. */
  lemma MatchAfterCut(p: string, d: char, t: string, e: char, q: string, k: int, D: set<char>, ci: bool)
    requires |t| > 0 && IsDelim(d, D, ci) && IsDelim(e, D, ci)
    requires PlainTag(t, D, ci)
    requires MatchAt(p + [d] + q, t, k, D, ci)
    ensures k + |t| <= |p| ==> MatchAt(p + [d] + t + [e] + q, t, k, D, ci)
    ensures k > |p| ==> MatchAt(p + [d] + t + [e] + q, t, k + |t| + 1, D, ci)
    ensures k + |t| <= |p| || k > |p|
  {
    var c := p + [d] + q;
    var s := p + [d] + t + [e] + q;
    // the match cannot cover the delimiter d
    MatchAvoidsDelims(c, t, k, D, ci);
    assert c[|p|] == d;
    if k + |t| <= |p| {
      assert c[k..k+|t|] == s[k..k+|t|];
      assert k > 0 ==> c[k-1] == s[k-1];
      assert k + |t| < |c| ==> c[k+|t|] == s[k+|t|];
    } else {
      var k2 := k + |t| + 1;
      assert c[k..k+|t|] == s[k2..k2+|t|];
      assert s[k2-1] == (if k == |p| + 1 then e else c[k-1]);
      assert k + |t| < |c| ==> c[k+|t|] == s[k2+|t|];
    }
  }

  /** A tag between two delimiters, `p d t e q`, leaves `p d q`. */
  lemma RemoveInterior(p: string, d: char, t: string, e: char, q: string, D: set<char>, ci: bool)
    requires IsDelim(d, D, ci) && IsDelim(e, D, ci)
    requires PlainTag(t, D, ci)
    requires OnlyMatchAt(p + [d] + t + [e] + q, t, |p| + 1, D, ci)
    ensures RemovePattern(p + [d] + t + [e] + q, t, D, ci) == p + [d] + q
    ensures forall k :: !MatchAt(p + [d] + q, t, k, D, ci)
  {
    InteriorMidPass(p, d, t, e, q, D, ci);
    InteriorCutClean(p, d, t, e, q, D, ci);
    EdgeIdentity(p + [d] + q, t, D, ci);
  }

  /** The mid pass cuts the interior tag with the delimiter after it. */
  lemma InteriorMidPass(p: string, d: char, t: string, e: char, q: string, D: set<char>, ci: bool)
    requires IsDelim(d, D, ci) && IsDelim(e, D, ci)
    requires OnlyMatchAt(p + [d] + t + [e] + q, t, |p| + 1, D, ci)
    ensures MidFrom(p + [d] + t + [e] + q, t, 0, D, ci) == p + [d] + q
  {
    InfixMidMatch(p, d, t, e, q, D, ci);
    MidCutOnly(p + [d] + t + [e] + q, t, |p| + 1, D, ci);
    InfixSlices(p, d, t, e, q);
  }

  /** A tag between two delimiters is a mid match. */
  lemma InfixMidMatch(p: string, d: char, t: string, e: char, q: string, D: set<char>, ci: bool)
    requires IsDelim(d, D, ci) && IsDelim(e, D, ci)
    ensures MidMatchAt(p + [d] + t + [e] + q, t, |p| + 1, D, ci)
  {
    InfixSlices(p, d, t, e, q);
  }

  /** The only match, when it is a mid match at m, is cut by the mid pass
      together with the delimiter after it. */
  lemma MidCutOnly(s: string, t: string, m: nat, D: set<char>, ci: bool)
    requires MidMatchAt(s, t, m, D, ci)
    requires OnlyMatchAt(s, t, m, D, ci)
    ensures MidFrom(s, t, 0, D, ci) == s[..m] + s[m+|t|+1..]
  {
    NoOtherMidMatch(s, t, m, D, ci);
    MidCutOne(s, t, m, D, ci);
  }

  /** Besides the only match at m, no position is a mid match. */
  lemma NoOtherMidMatch(s: string, t: string, m: int, D: set<char>, ci: bool)
    requires OnlyMatchAt(s, t, m, D, ci)
    ensures forall k :: 0 <= k < |s| && k != m ==> !MidMatchAt(s, t, k, D, ci)
  {
    forall k | 0 <= k < |s| && k != m ensures !MidMatchAt(s, t, k, D, ci) {
      if MidMatchAt(s, t, k, D, ci) { MidMatchIsMatch(s, t, k, D, ci); }
    }
  }

  /** A single mid match at m cuts `t` and the delimiter after it. */
  lemma MidCutOne(s: string, t: string, m: nat, D: set<char>, ci: bool)
    requires MidMatchAt(s, t, m, D, ci)
    requires forall k :: 0 <= k < |s| && k != m ==> !MidMatchAt(s, t, k, D, ci)
    ensures MidFrom(s, t, 0, D, ci) == s[..m] + s[m+|t|+1..]
  {
    var n := m + |t| + 1;
    MidCopies(s, t, 0, m, D, ci);
    assert MidFrom(s, t, m, D, ci) == MidFrom(s, t, n, D, ci);
    MidCopies(s, t, n, |s|, D, ci);
    assert MidFrom(s, t, n, D, ci) == s[n..] by {
      assert s[n..|s|] + MidFrom(s, t, |s|, D, ci) == s[n..] + [];
    }
    assert s[0..m] == s[..m];
  }

  /** Once the only copy is cut out, `p d q` no longer carries the tag. */
  lemma InteriorCutClean(p: string, d: char, t: string, e: char, q: string, D: set<char>, ci: bool)
    requires IsDelim(d, D, ci) && IsDelim(e, D, ci)
    requires PlainTag(t, D, ci)
    requires OnlyMatchAt(p + [d] + t + [e] + q, t, |p| + 1, D, ci)
    ensures forall k :: !MatchAt(p + [d] + q, t, k, D, ci)
  {
    forall k ensures !MatchAt(p + [d] + q, t, k, D, ci) {
      if MatchAt(p + [d] + q, t, k, D, ci) {
        MatchAfterCut(p, d, t, e, q, k, D, ci);
      }
    }
  }

  // ---------------------------------------------------------------------
  // Worked cases with the default delimiters.

  /** Repeated tags: the mid pass takes the inner copy, the edge pass the
      front one. */
  lemma RemoveRepeatedExample()
    ensures RemovePattern("a_a_b", "a", DefaultDelims, false) == "b"
  {
    var s := "a_a_b";
    assert MidMatchAt(s, "a", 2, DefaultDelims, false);
    assert MidFrom(s, "a", 0, DefaultDelims, false) == "a_b";
  }

  /** A front tag of "a_b_c" goes with the delimiter after it. */
  lemma RemoveFrontExample()
    ensures RemovePattern("a_b_c", "a", DefaultDelims, false) == "b_c"
  {
    var s, t, D := "a_b_c", "a", DefaultDelims;
    assert MidFrom(s, t, 4, D, false) == "c";
    assert MidFrom(s, t, 3, D, false) == "_c";
    assert !MidMatchAt(s, t, 2, D, false);
    assert MidFrom(s, t, 2, D, false) == "b_c";
    assert MidFrom(s, t, 1, D, false) == "_b_c";
    assert MidFrom(s, t, 0, D, false) == s;
    assert EdgeFrom(s, t, 4, D, false) == "c";
    assert !EdgeSecondAlt(s, t, 3, D, false);
    assert EdgeFrom(s, t, 3, D, false) == "_c";
    assert EdgeFrom(s, t, 2, D, false) == "b_c";
    assert EdgeFirstAlt(s, t, 0, D, false);
  }

  /** An interior tag of "a_b_c" goes with the delimiter after it. */
  lemma RemoveMiddleExample()
    ensures RemovePattern("a_b_c", "b", DefaultDelims, false) == "a_c"
  {
    var s := "a_b_c";
    assert MidMatchAt(s, "b", 2, DefaultDelims, false);
    assert MidFrom(s, "b", 0, DefaultDelims, false) == "a_c";
    var m := "a_c";
    assert !EdgeFirstAlt(m, "b", 0, DefaultDelims, false);
    assert !EdgeSecondAlt(m, "b", 1, DefaultDelims, false);
  }

  /** A back tag of "a_b_c" goes with the delimiter before it. */
  lemma RemoveBackExample()
    ensures RemovePattern("a_b_c", "c", DefaultDelims, false) == "a_b"
  {
    var s, t, D := "a_b_c", "c", DefaultDelims;
    assert MidFrom(s, t, 4, D, false) == "c";
    assert MidFrom(s, t, 3, D, false) == "_c";
    assert !MidMatchAt(s, t, 2, D, false);
    assert MidFrom(s, t, 2, D, false) == "b_c";
    assert MidFrom(s, t, 1, D, false) == "_b_c";
    assert MidFrom(s, t, 0, D, false) == s;
    assert EdgeSecondAlt(s, t, 3, D, false);
    assert EdgeFrom(s, t, 3, D, false) == "";
    assert EdgeFrom(s, t, 2, D, false) == "b";
    assert !EdgeSecondAlt(s, t, 1, D, false);
    assert EdgeFrom(s, t, 1, D, false) == "_b";
    assert !EdgeFirstAlt(s, t, 0, D, false);
    assert EdgeFrom(s, t, 0, D, false) == "a_b";
  }

  /** Two adjacent copies: the edge match at the front consumes the delimiter
      the second copy would need, so one copy survives. */
  lemma RemoveAdjacentExample()
    ensures RemovePattern("a_a", "a", DefaultDelims, false) == "a"
  {
    var s := "a_a";
    assert MidFrom(s, "a", 0, DefaultDelims, false) == s by {
      assert !MidMatchAt(s, "a", 2, DefaultDelims, false);
    }
    assert EdgeFirstAlt(s, "a", 0, DefaultDelims, false);
  }
}
