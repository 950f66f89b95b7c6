# Filename tag engine

A file's tags are the tokens of its name and, in directory mode, of the directory path from the tag root. A token is a maximal run of characters that are not delimiters. The engine reads those tags, adds a tag by prepending it to the name, and removes a tag with two regular-expression substitutions. In directory mode it also moves the file to the directory path that encodes the most of its tags. There are several near-identical copies of this engine:

- `tagtool/filename.py`: the `Filename` class of the current package;
- `core.py`: a `File` class whose `_remove` is always case-sensitive;
- `utils.py` and `file.py`: an older API over a global `settings` record with a `use_name` switch;
- `main.cpp` and `utils.cpp`: a C++ prototype that works on substrings.

The model has one Dafny module per part.

- `TagConfig`: the configuration as an immutable record and the ASCII case folding used by case-insensitive matching.
- `TagCodec` (`_raw_get_tags`, `_raw_has_tag`): splitting on the delimiter class. The search pattern `(^|D)t($|D)` is written as a scanner, and the lemmas relate it to the split.
- `TagRemoval`: the substitutions of `_remove`.
  - The mid pass is `(?<=D)tD`. Its look-behind is evaluated on the original string.
  - The edge pass is `(^|D)t($|D)`, with `^` tried first.
  - Both are written as leftmost, non-overlapping scanners.
- `TagEdit`: `_add`, the sequence of adds and removes, and the placeholder name, as functions on the (dirs, name) pair.
- `DirTree`: `_find_best_path` over an abstract directory tree. The children of a directory are an ordered sequence, so the listing order is part of the input. The module also has the relative path the file moves to.
- `Filename`, `Core`, `Utils`: the three Python classes.
  - Each is a `class` with mutable `dirs` and `name`, a constant `ext` and a constant configuration.
  - Each method is proved against the functions above.
  - `Core` stands for both core.py and file.py: file.py's `File` has the same behaviour over the functions of utils.py.
- `Select`: `match` and `build_command` of `tagtool/select.py`.
- `CppUtils`, `CppMain`: `split`, `path_join`, `get_path_parts`, `join_path_parts`, and `get_tags`, `add_tag`, `remove_tag` and the per-file part of `run`.

A loop over a Python or C++ set visits the elements in an order the program does not fix. Each such loop returns that order as a ghost sequence, and its contract holds for whichever order it was. The C++ code fails in two places. `back()`/`front()` of an empty string is undefined behaviour. `erase(pos - 1, 1)` at position 0 wraps `pos - 1` to `npos`, so `erase` throws `std::out_of_range`. The model returns `None` for both, so that the result is an `Option`.

## Model

| member | source | states |
|---|---|---|
| TagConfig.LowerStr | tagtool/filename.py:109-110 | lower-casing keeps the length and lower-cases each character |
| TagConfig.CaseMap | tagtool/filename.py:109-110 | the case normalisation of tags keeps the length |
| TagConfig.DelimClosedUnderCharEq | tagtool/filename.py:96-102 | a character that matches a delimiter under the flags is itself a delimiter |
| TagConfig.IsDelimExact | core.py:59 | when the delimiter class contains no letters, matching a delimiter under IGNORECASE is plain membership |
| TagConfig.BuiltInDelimsHaveNoLetters | utils.py:22 | neither built-in delimiter class contains a letter, and both hold the default delimiter, the path separator and the dot |
| TagCodec.FindFirstOf | utils.cpp:13 | the first delimiter at or after `from` (or the end); nothing before it is a delimiter |
| TagCodec.Pieces | tagtool/filename.py:107 | `re.split` always yields at least one piece |
| TagCodec.PiecesHead | tagtool/filename.py:107 | the first piece runs up to the first delimiter and the remaining pieces come from what follows |
| TagCodec.FindFirstOfShift | utils.cpp:13 | dropping a leading non-delimiter shifts the first delimiter by one |
| TagCodec.NonEmptyPiecesAreSplit | tagtool/filename.py:107-112 | the non-empty pieces of `re.split` are exactly the parts of the C++ split |
| TagCodec.SplitSound | tagtool/filename.py:106-112 | every part is a maximal delimiter-free token of the string, returned with its position |
| TagCodec.TokenUnshift | tagtool/filename.py:106-112 | a token of a suffix is a token of the whole string when it is bounded on the left there too |
| TagCodec.TokenAfterRun | utils.cpp:13-19 | a token that does not start the string starts after the first delimiter |
| TagCodec.TokenShift | utils.cpp:13-19 | a token stays a token when a prefix of the string is dropped in front of it |
| TagCodec.SplitComplete | tagtool/filename.py:106-112 | every maximal delimiter-free token of the string is a part |
| TagCodec.FindFirstOfJoin | utils.cpp:13 | a delimiter after `a` stops the search within `a` |
| TagCodec.SplitJoin | tagtool/filename.py:107 | splitting `a + d + b` at a delimiter `d` gives the parts of `a` followed by those of `b` |
| TagCodec.SplitOfPlain | tagtool/filename.py:107 | a non-empty delimiter-free word splits to itself |
| TagCodec.GetTagsAreTokens | tagtool/filename.py:106-112 | `_raw_get_tags` is exactly the set of the case-normalised maximal delimiter-free tokens, so duplicates collapse and the empty string is never a tag |
| TagCodec.TagsAreNonEmpty | tagtool/filename.py:112 | every tag is non-empty, and with case sensitivity it contains no delimiter |
| TagCodec.HasTagFromSpec | tagtool/filename.py:102 | the left-to-right search succeeds iff the pattern matches at some position at or after the start |
| TagCodec.RawHasTagSpec | tagtool/filename.py:94-102 | `_raw_has_tag` holds iff its pattern matches somewhere: the tag text bounded by start or a delimiter and by end or a delimiter |
| TagCodec.MatchIsToken | tagtool/filename.py:94-102 | for a valid tag, a match is a whole maximal token |
| TagCodec.MatchAvoidsDelims | tagtool/filename.py:94-102 | no character covered by a match of a valid tag is a delimiter |
| TagCodec.MatchShift | tagtool/filename.py:94-102 | a match survives putting in front a prefix that ends with a delimiter |
| TagCodec.HasTagIffInGetTags | tagtool/filename.py:94-112 | for a valid tag, `_raw_has_tag(s, t)` holds iff the normalised t is in `_raw_get_tags(s)`, in both directions |
| TagRemoval.MidFrom | tagtool/filename.py:145-155 | the mid substitution never lengthens its input |
| TagRemoval.EdgeFrom | tagtool/filename.py:150-156 | the edge substitution never lengthens its input |
| TagRemoval.RemovePattern | tagtool/filename.py:155-156 | the two substitutions in order never lengthen the string |
| TagRemoval.MidMatchIsMatch | tagtool/filename.py:145-147 | every mid-pattern match is a whole-token match of the tag |
| TagRemoval.EdgeMatchIsMatch | tagtool/filename.py:150-152 | each edge-pattern alternative matches a whole-token occurrence of the tag |
| TagRemoval.MidCopies | tagtool/filename.py:155 | the mid substitution copies a stretch without matches unchanged |
| TagRemoval.EdgeCopies | tagtool/filename.py:156 | the edge substitution copies a stretch without matches unchanged |
| TagRemoval.MidIdentity | tagtool/filename.py:155 | without a whole-token occurrence the mid pass changes nothing |
| TagRemoval.EdgeIdentity | tagtool/filename.py:156 | without a whole-token occurrence the edge pass changes nothing |
| TagRemoval.RemoveAbsentIsIdentity | tagtool/filename.py:145-156 | removing a tag that does not occur as a token leaves the string unchanged |
| TagRemoval.RemoveTagWithoutTag | tagtool/filename.py:133-156 | `_remove` of a tag that `_raw_has_tag` does not find leaves the string unchanged |
| TagRemoval.RemoveFront | tagtool/filename.py:150-156 | a single front occurrence goes with its trailing delimiter, and no occurrence is left |
| TagRemoval.RemoveBack | tagtool/filename.py:150-156 | a single back occurrence goes with its leading delimiter, and no occurrence is left |
| TagRemoval.BackCutClean | tagtool/filename.py:150-156 | without its only, back occurrence the string carries the tag nowhere |
| TagRemoval.MidKeepsBack | tagtool/filename.py:145-155 | the mid pass leaves a string whose only occurrence ends it unchanged, since the look-ahead finds no delimiter |
| TagRemoval.EdgeCutsBack | tagtool/filename.py:150-156 | the edge pass cuts an only occurrence at the end together with the delimiter before it |
| TagRemoval.MatchAfterCut | tagtool/filename.py:145-156 | a match in the string with one interior occurrence cut out is a match of the original, shifted when it lies after the cut |
| TagRemoval.RemoveInterior | tagtool/filename.py:145-155 | a single interior occurrence goes with its trailing delimiter: the preceding delimiter is kept, and no occurrence is left |
| TagRemoval.InteriorMidPass | tagtool/filename.py:145-155 | the mid pass turns `p d t e q` into `p d q` when t occurs only there |
| TagRemoval.InfixMidMatch | tagtool/filename.py:145-147 | a tag between two delimiters is a match of the mid pattern |
| TagRemoval.MidCutOnly | tagtool/filename.py:145-155 | an only occurrence matched by the mid pattern is cut with the delimiter after it, all else copied |
| TagRemoval.NoOtherMidMatch | tagtool/filename.py:145-147 | no position other than the only occurrence matches the mid pattern |
| TagRemoval.MidCutOne | tagtool/filename.py:155 | a single mid match cuts the tag and the delimiter after it and copies the rest |
| TagRemoval.InteriorCutClean | tagtool/filename.py:145-156 | after the only interior occurrence is cut, no occurrence is left |
| TagRemoval.RemoveRepeatedExample | tagtool/filename.py:142-156 | "a_a_b" minus "a" is "b": the mid pass takes the inner copy and the edge pass the front one |
| TagRemoval.RemoveFrontExample | core.py:244-251 | "a_b_c" minus its front tag is "b_c" (test_core.py:119) |
| TagRemoval.RemoveMiddleExample | core.py:244-251 | "a_b_c" minus its middle tag is "a_c" (test_core.py:122) |
| TagRemoval.RemoveBackExample | core.py:244-251 | "a_b_c" minus its back tag is "a_b" (test_core.py:125) |
| TagRemoval.RemoveAdjacentExample | tagtool/filename.py:142-156 | "a_a" minus "a" is "a": the edge match at the front eats the delimiter the second copy needs, so a removal need not remove every occurrence |
| TagEdit.Placeholder | tagtool/filename.py:83-84 | an empty name becomes `no_tags_filename`, any other name is kept, and the result is non-empty unless the placeholder is |
| TagEdit.PrependCarriesTag | tagtool/filename.py:124-127 | after prepending the tag, the name has the tag |
| TagEdit.PrependKeepsTag | tagtool/filename.py:124-127 | prepending keeps every tag that was there |
| TagEdit.PiecesJoin | tagtool/filename.py:107 | `re.split` of `a + d + b` at a delimiter `d` is the pieces of `a` followed by those of `b` |
| TagEdit.PiecesCons | tagtool/filename.py:107 | one step of `re.split`: a delimiter starts a new piece, any other character extends the first |
| TagEdit.PiecesConsAppend | tagtool/filename.py:107 | a character put in front changes only the first piece, whatever follows |
| TagEdit.PiecesOfPlain | tagtool/filename.py:107 | a delimiter-free string is a single piece |
| TagEdit.GetTagsJoin | tagtool/filename.py:106-112 | the tags of `a + d + b` are the tags of `a` plus the tags of `b` |
| TagEdit.GetTagsOfPlain | tagtool/filename.py:106-112 | a valid tag's own tags are just itself, normalised |
| TagEdit.PrependTags | tagtool/filename.py:124-127 | prepending a valid tag adds exactly that tag to the name's tags |
| TagEdit.AddNameIdempotent | tagtool/filename.py:121-127 | after `_add` the file has the tag, and a second `_add` of it changes nothing |
| TagEdit.AddNameKeepsTag | tagtool/filename.py:115-127 | `_add` keeps every tag the name had |
| TagEdit.AddAllCarriesTags | tagtool/filename.py:75-76 | after adding the tags in turn, the file has every one of them |
| TagEdit.AddAllKeepsTag | tagtool/filename.py:75-76 | adding tags in turn keeps every tag the file had |
| TagEdit.AddAllReverses | tagtool/filename.py:124-127 | adding two new tags x then y gives `y_x_name`: repeated adds come out in reverse order (tests/test_filename.py:122) |
| TagEdit.HasTagInIffFileTags | tagtool/filename.py:45-66 | for a valid tag, `has_tag` holds iff the normalised tag is in `get_tags`, with the directory part read only in directory mode |
| TagEdit.AddNameKeepsHasTag | tagtool/filename.py:115-127 | `_add` keeps `has_tag` true for every tag it held for |
| TagEdit.AddAllSnoc | tagtool/filename.py:75-76 | adding a list and then one more tag is adding the longer list |
| TagEdit.RemoveAllSnoc | tagtool/filename.py:71-72 | removing a list and then one more tag is removing the longer list |
| TagEdit.FileTagsNonEmpty | tagtool/filename.py:45-55 | no tag of a file is empty |
| TagEdit.PlaceholderKeepsHasTag | tagtool/filename.py:83-84 | a tag found in the directory part of the file stays found whatever the name becomes |
| TagEdit.GetTagsArePlain | tagtool/filename.py:106-112 | every tag `_raw_get_tags` reports is non-empty, free of delimiters and already in the configured case |
| TagEdit.FileTagsArePlain | tagtool/filename.py:45-55 | the same holds for every tag of the file |
| TagEdit.AddAllKeepsNameTag | tagtool/filename.py:115-127 | adding tags in turn never removes a tag from the name |
| TagEdit.AddAllPutsTagInName | tagtool/filename.py:184-187 | a tag of the added list that the directory part does not carry is in the name afterwards |
| TagEdit.TaggedNameNonEmpty | tagtool/filename.py:83-84 | a name that carries a tag is not empty, so the placeholder does not replace it |
| DirTree.FindBestPath | tagtool/filename.py:192-219 | the loop over the children computes `BestPath`: among children whose tags are all wanted, the first recursion that leaves strictly fewer tags wins; the same search as core.py:287-314 |
| DirTree.FollowLeftover | tagtool/filename.py:200-210 | along an allowed descent, the tags of the segments are wanted, and the leftover is the wanted set minus them |
| DirTree.ScanIsDescent | tagtool/filename.py:198-215 | every intermediate best of the loop is reached by an allowed descent |
| DirTree.BestPathIsDescentWitness | tagtool/filename.py:192-219 | the result is reached by an allowed descent: every directory on the path has only wanted tags; the same search as core.py:287-314 |
| DirTree.BestPathShape | tagtool/filename.py:192-219 | the result path extends the start path, and the leftover is the wanted set minus the tags of the added segments, so it is a subset of it (tests/test_filename.py:63-72); the same search as core.py:287-314 |
| DirTree.ScanBound | tagtool/filename.py:212-215 | the best so far never leaves more than the wanted tags, and is at least as good as every eligible child seen |
| DirTree.BestPathOptimal | tagtool/filename.py:192-219 | no allowed descent through the tree leaves fewer tags than the result; the same search as core.py:287-314 |
| DirTree.ScanFirstMinimum | tagtool/filename.py:212-215 | the best so far is the start when no child improves, and otherwise it is the earliest eligible child with the fewest leftover tags |
| DirTree.BestPathFirstMinimum | tagtool/filename.py:194-219 | `(path, tags)` is returned when no child improves, and otherwise the earliest child in listing order with the smallest leftover wins ties (tests/test_filename.py:74-79); the same search as core.py:287-314 |
| DirTree.JoinPathTags | tagtool/filename.py:181 | the tags of the joined directory path are the union of the tags of its segments |
| DirTree.RelPathTags | tagtool/filename.py:181 | the relative path, "." at the root, carries exactly the union of the segment tags |
| DirTree.BestPathDirTags | tagtool/filename.py:173-181 | the new directory part carries exactly the tags the search consumed |
| DirTree.BestPathLeftoverSubset | tagtool/filename.py:173-177 | the leftover tags are a subset of the file's tags |
| DirTree.LetterTag | tagtool/filename.py:106-112 | a single lower-case letter has itself as its only tag |
| DirTree.JoinedTagsExample | tagtool/filename.py:106-112 | the directory name "f_g" of the test tree carries the tags {"f", "g"} |
| DirTree.BestPathTestExample | tagtool/filename.py:192-219 | on the test tree, wanting {"a", "d"} gives the path d/a with nothing left (tests/test_filename.py:65); the same search as core.py:287-314 |
| DirTree.ExampleUnderA | tagtool/filename.py:192-219 | under "a" with {"d"} wanted, neither child may hold the file, so the path stays a; the same search as core.py:287-314 |
| DirTree.ExampleUnderD | tagtool/filename.py:192-219 | under "d" with {"a"} wanted, the child a takes the last tag; the same search as core.py:287-314 |
| DirTree.ExampleFirstChild | tagtool/filename.py:200-217 | after the root's first entry the best path is a with d left over |
| DirTree.ExampleSecondChild | tagtool/filename.py:200-217 | after the second entry the strictly better path d/a replaces it |
| Filename.Filename.constructor | tagtool/filename.py:10-29 | the record is built from its dirs, name, extension and configuration |
| Filename.Filename.Add | tagtool/filename.py:115-127 | `_add` keeps dirs, leaves the name when `has_tag` holds, and otherwise prepends the tag with the default delimiter, or sets the bare tag when the name is empty |
| Filename.Filename.Remove | tagtool/filename.py:130-161 | `_remove` runs both substitutions, case-insensitively when so configured, on the name and in directory mode on dirs |
| Filename.Filename.RemoveEach | tagtool/filename.py:177-178 | removing every tag of a set, in the order the loop took |
| Filename.Filename.AddEach | tagtool/filename.py:186-187 | adding every tag of a set in the order taken, after which the file has each of them |
| Filename.Filename.ResolveDirs | tagtool/filename.py:169-187 | `_resolve_dirs`: the search result; the consumed tags removed from the name; dirs the relative path; the leftovers re-added, so each is found afterwards, and in the name itself since the new directory does not carry it |
| Filename.Filename.RemoveSeq | tagtool/filename.py:71-72 | the removal loop of `add_remove_tags` |
| Filename.Filename.AddSeq | tagtool/filename.py:75-76 | the addition loop of `add_remove_tags` |
| Filename.Filename.AddRemoveTags | tagtool/filename.py:69-84 | the whole edit: removals before additions; in directory mode the search over the edited file, the consumed tags removed, the leftovers re-added and found in the final name; the placeholder last, so the name is non-empty |
| Core.File.constructor | core.py:116-134 | the record is built from its dirs, name, extension and configuration |
| Core.File.Add | core.py:219-231 | `_add` as in the package: no-op when present, otherwise prepend |
| Core.File.Remove | core.py:234-256 | `_remove` runs both substitutions case-sensitively whatever `case_sensitive` says, and does not lower-case the tag |
| Core.File.RemoveEach | core.py:272-273 | removing every consumed tag, in the order taken, with the exact substitutions |
| Core.File.AddEach | core.py:281-282 | re-adding every leftover tag, after which each is found |
| Core.File.ResolveDirs | core.py:264-282 | `_resolve_dirs`: consumed tags removed before dirs is reassigned, then leftovers re-added, each of which is then in the name |
| Core.File.RemoveSeq | core.py:177-178 | the removal loop, with the exact substitutions |
| Core.File.AddSeq | core.py:181-182 | the addition loop |
| Core.File.AddRemoveTags | core.py:175-190 | removals, additions; in directory mode the search, the exact removal of the consumed tags and the re-adding of the leftovers, which are in the final name; then the placeholder (test_core.py:134) |
| Utils.ValidTagAcceptsEmpty | utils.py:240-241 | as written, `valid_tag("")` holds; the corrected predicate rejects it |
| Utils.ValidTagIsPlainTag | utils.py:240-241 | a valid tag is exactly a tag the search pattern stands for, and its own tag set is itself |
| Utils.ValidTagExamples | utils.py:240-241 | with the default settings "a" and "abcdefg" are valid, and "", "_a", "a_" and "a_b" are not (test_tag.py:46-52) |
| Utils.File.constructor | utils.py:53-61 | the record is built from its dirs, name, extension and settings |
| Utils.File.Add | utils.py:119-131 | `__add` prepends even when `use_name` is off, and skips only when `has_tag`, which reads the name only with `use_name`, holds |
| Utils.File.Remove | utils.py:134-157 | `__remove` is case-sensitive, changes the name only with `use_name` and dirs only with `use_dirs` |
| Utils.File.RemoveEach | utils.py:174-175 | removing every consumed tag, in the order taken |
| Utils.File.ResolveDirs | utils.py:165-178 | `__resolve_dirs`: consumed tags removed and dirs reassigned, and no leftover re-added |
| Utils.File.RemoveSeq | utils.py:103-104 | the removal loop |
| Utils.File.AddSeq | utils.py:107-108 | the addition loop |
| Utils.File.AddRemoveTags | utils.py:101-116 | removals, additions; with `use_dirs` the search over the edited file and the removal of exactly the consumed tags, with no leftover re-added; then the placeholder, so the name is non-empty |
| Select.Match | tagtool/select.py:75-94 | the loop computes `Selects`: starting at true, a missing INTERSECTION tag sets false, a present INCLUSION tag true, a present EXCLUSION tag false |
| Select.SelectsWithoutFiring | tagtool/select.py:77-94 | when no operation fires, in particular with none, the file is selected |
| Select.SelectsIsLastFiring | tagtool/select.py:81-92 | the result is the value of the last operation that fires |
| Select.MissingIntersectionRejects | tagtool/select.py:83-92 | with no INCLUSION, one missing INTERSECTION tag rejects the file |
| Select.IntersectionsSelectAll | tagtool/select.py:83-85 | with INTERSECTION operations only, the file is selected iff it has every tag |
| Select.FlagWord | tagtool/select.py:30-32 | `-name`, `-iname`, `-path` or `-ipath` from `case_sensitive` and `use_dirs` |
| Select.BuildCommand | tagtool/select.py:24-54 | the argument list is `find root -type f`, the whitespace-split flags, then `! ( -path */.* -perm -o=x )` |
| Select.FlagWordPlain | tagtool/select.py:30-32 | the flag word is one non-empty argument |
| Select.PatternPlain | tagtool/select.py:37 | `*tag*` is one non-empty argument for a tag without whitespace |
| Select.SelectorWords | tagtool/select.py:43-51 | a selector adds exactly the two arguments flag and `*tag*` |
| Select.SpaceJoin | tagtool/select.py:51 | splitting at whitespace distributes over a join with one space |
| Select.TwoWords | tagtool/select.py:37-51 | a space-separated pair of whitespace-free words adds exactly those two arguments |
| Select.BracketWords | tagtool/select.py:39-51 | the wrapping `( ... ) -o` splits into `(`, the wrapped arguments, `)` and `-o` |
| Select.BangWord | tagtool/select.py:41-51 | the ` !` of an EXCLUSION adds exactly the argument `!` |
| Select.AddOpWords | tagtool/select.py:35-51 | one operation's update of `find_flags` adds to its split arguments exactly what the operation contributes, and the result is never empty |
| Select.InclusionWords | tagtool/select.py:39-51 | an INCLUSION after existing flags wraps them: `(`, the old arguments, `)`, `-o`, flag and `*tag*` |
| Select.BracketShape | tagtool/select.py:39 | the wrapped string regrouped around its single spaces |
| Select.ExclusionWords | tagtool/select.py:41-51 | an EXCLUSION appends `!`, flag and `*tag*` |
| Select.FindFlagsWords | tagtool/select.py:34-51 | for tags without whitespace, the split flags string is exactly the per-operation argument list, and it is empty iff there are no operations |
| CppUtils.SplitScan | utils.cpp:5-26 | the `prev`/`pos` loop computes `Split`: the non-empty delimiter-free parts in order |
| CppUtils.SplitAtDelim | utils.cpp:13-18 | one step at a delimiter emits the part before it if non-empty, and continues after it |
| CppUtils.SplitAtEnd | utils.cpp:22-23 | with no delimiter left, the rest is the last part if non-empty |
| CppUtils.SplitPartsArePlain | utils.cpp:13-23 | no part is empty and no part contains a delimiter |
| CppUtils.StripAppend | utils.cpp:5-26 | deleting delimiters distributes over concatenation |
| CppUtils.StripPlain | utils.cpp:5-26 | deleting delimiters from a delimiter-free string changes nothing |
| CppUtils.ConcatSplit | utils.cpp:5-26 | the concatenated parts are the string with every delimiter deleted, in order |
| CppUtils.Junction | utils.cpp:28-39 | `path_join` is undefined for an empty side; otherwise one separator fewer at the junction when both sides have one, one inserted when neither has |
| CppUtils.PathJoin | utils.cpp:28-39 | the `pop_back`/`push_back` code computes `Junction` |
| CppUtils.RFind | utils.cpp:49-58 | `rfind` gives the last occurrence, or -1 (npos) when there is none |
| CppUtils.SplitDirs | utils.cpp:49-56 | the directory part plus the rest is the path, and a non-empty directory part ends with a separator |
| CppUtils.SplitDirsSep | utils.cpp:49-56 | the directory part is empty iff there is no separator, and the rest has none |
| CppUtils.SplitExt | utils.cpp:58-64 | name plus extension is the file name |
| CppUtils.SplitExtDot | utils.cpp:58-64 | the extension is empty iff there is no dot, and otherwise starts with the last dot |
| CppUtils.PartsOf | utils.cpp:41-67 | `dirs + name + ext == path` |
| CppUtils.PartsOfDirs | utils.cpp:49-56 | dirs is empty iff the path has no separator, dirs ends with one, and name and ext have none |
| CppUtils.PartsOfExt | utils.cpp:58-64 | ext is empty, or starts with `.` and holds no further `.`; name holds no `.` when ext is empty |
| CppUtils.GetPathParts | utils.cpp:41-67 | the field updates compute `PartsOf` |
| CppUtils.JoinSplitPath | utils.cpp:69-72 | `join_path_parts(get_path_parts(p)) == p` when p contains a separator and does not end with one |
| CppUtils.DirsEndWithSep | utils.cpp:49-56 | a path with a separator has a non-empty directory part ending with one |
| CppUtils.JoinParts | utils.cpp:69-72 | parts meeting at one separator join back into the path they came from |
| CppUtils.FileNameOfPath | utils.cpp:49-64 | a path not ending in a separator has a non-empty name-plus-extension that does not start with one |
| CppUtils.JoinAfterSep | utils.cpp:30-38 | joining after a trailing separator onto a part without a leading one is plain concatenation |
| CppUtils.JoinWithoutSeparator | utils.cpp:69-72 | a path without a separator has empty dirs, so `join_path_parts` hits the empty-string case |
| CppMain.GetTags | main.cpp:31-41 | the insertion loop yields the set of `split`'s parts |
| CppMain.TagsArePlain | main.cpp:31-41 | every tag is non-empty and free of `TAG_DELIMS` |
| CppMain.TagsAgreeWithRawGetTags | main.cpp:31-41 | with the same delimiters and case sensitivity, the C++ tags are the Python `_raw_get_tags` |
| CppMain.AddTagParts | main.cpp:44-47 | `add_tag` puts the tag in front of the parts of str, empty str included, and adds exactly that tag |
| CppMain.FindFrom | main.cpp:53 | `find` gives the first substring occurrence at or after the start, or -1 when there is none |
| CppMain.EraseAt | main.cpp:55-67 | erasing the tag and one neighbouring character shortens the string by the tag length plus one, and fails (`erase` throws `std::out_of_range`) exactly when the string is the tag |
| CppMain.RemoveTag | main.cpp:50-72 | the while loop computes `RemoveTagSpec` |
| CppMain.RemoveTagLeavesNoOccurrence | main.cpp:53 | after `remove_tag` the tag occurs nowhere as a substring |
| CppMain.RemoveTagLength | main.cpp:55-67 | each round shortens the string by exactly the tag length plus one |
| CppMain.RemoveWholeStringFails | main.cpp:58-61 | removing a tag from a string equal to it reaches `erase(pos - 1)` at position 0 |
| CppMain.RemoveInsideWord | main.cpp:53-67 | substring matching: "cat_a" minus "a" is "c", cutting into the word "cat" |
| CppMain.AddMissingTags | main.cpp:85-90 | the adds put exactly the requested tags into the tag set |
| CppMain.RemoveAbsentTags | main.cpp:93-98 | tags absent from the original set are never removed |
| CppMain.RemovePresentFails | main.cpp:93-98 | a removal that throws `std::out_of_range` makes the whole edit fail, whatever follows |
| CppMain.AddEach | main.cpp:85-90 | the add loop, in the order taken, checked against the tags from before any edit |
| CppMain.RemoveEach | main.cpp:93-98 | the remove loop, in the order taken, checked against the tags from before any edit |
| CppMain.RunFile | main.cpp:79-100 | per file: split the path, add then remove (the reverse of the Python order) against the original tags, and rejoin |

## Left out

- Regular-expression metacharacters in tags: a tag is spliced into the patterns as text. The model reads every tag literally, which is what a tag without `*?^$|().[]{}+\` means.
- `$` before a trailing newline: Python's `$` also matches there. The model's tail matches only at the end of the string.
- Unicode: case folding is ASCII only.
- Select.BuildCommand: `str.split()` also splits at Unicode whitespace. The model splits at ASCII whitespace and the four ASCII separators `\x1c`-`\x1f`.
- Configuration loading: `Config` in tagtool/config.py and core.py, `find_above` and `load_settings` read files. The configuration is an immutable parameter. The shared class-level `attrs` dictionary of tagtool/config.py is not modelled.
- Filesystem access:
  - `dirs_at` is replaced by an abstract tree, whose children are in listing order and which has no symlink cycles. tagtool/filename.py:198 calls `dirs_at`, but that module neither defines nor imports it. Only core.py:37, utils.py:217 and tagtool/utils.py:18 define it.
  - `os.path.abspath`, `relpath`, `normpath` and `splitext` in the constructors, and `__str__`, are replaced by the (dirs, name, ext) record.
  - The `relpath` of the chosen directory is modelled as its segments joined by `/`, or `.` at the root.
  - The rename is left out.
- `find_base_files` and `select` in tagtool/select.py: they run a subprocess.
- Command-line front ends are left out: `bin/tag.py`, `tag.py`, `tag-find.py`, `tag-list.py`, and `main`, `file_exists`, `realpath` and the output in main.cpp. CppMain.RunFile is the body of `run` for one file; the loop over files and the printing are left out.
- `tag-dialog.py` (a GTK interface), `setup.py` (packaging) and `test.py` (a stale script) are not part of this model.
- `dir_exists` and `parent_dir` of utils.h are declarations only. Only `PATH_SEP` of utils.h, the POSIX `/`, is modelled.
- Filename.Filename.Remove: requires a non-empty tag. With an empty tag the source's patterns match empty tokens; that case is not modelled.
- Core.File.Remove: requires a non-empty tag. With an empty tag the source's patterns match empty tokens; that case is not modelled.
- Utils.File.Remove: requires a non-empty tag. With an empty tag the source's patterns match empty tokens; that case is not modelled.
- Filename.Filename.RemoveSeq: requires every tag to remove to be non-empty, for the same reason; removing an empty tag is not modelled.
- Core.File.RemoveSeq: requires every tag to remove to be non-empty, for the same reason; removing an empty tag is not modelled.
- Utils.File.RemoveSeq: requires every tag to remove to be non-empty, for the same reason; removing an empty tag is not modelled.
- Filename.Filename.AddRemoveTags: requires every tag to remove to be non-empty, for the same reason; removing an empty tag is not modelled.
- Core.File.AddRemoveTags: requires every tag to remove to be non-empty, for the same reason; removing an empty tag is not modelled.
- Utils.File.AddRemoveTags: requires every tag to remove to be non-empty, for the same reason; removing an empty tag is not modelled.
- Filename.Filename.ResolveDirs: that every leftover tag ends up in the name is promised only under `NameDelims`: the default delimiter, `/` and `.` are delimiters, and a case-insensitive class holds no letter. Both built-in configurations meet it; for other classes the model promises only that the file carries the tag.
- Core.File.ResolveDirs: that every leftover tag ends up in the name is promised only under `NameDelims`: the default delimiter, `/` and `.` are delimiters, and a case-insensitive class holds no letter. Both built-in configurations meet it; for other classes the model promises only that the file carries the tag.
- Filename.Filename.AddRemoveTags: that every leftover tag ends up in the name is promised only under `NameDelims`: the default delimiter, `/` and `.` are delimiters, and a case-insensitive class holds no letter. Both built-in configurations meet it; for other classes the model promises only that the file carries the tag.
- Core.File.AddRemoveTags: that every leftover tag ends up in the name is promised only under `NameDelims`: the default delimiter, `/` and `.` are delimiters, and a case-insensitive class holds no letter. Both built-in configurations meet it; for other classes the model promises only that the file carries the tag.
- DirTree.FindBestPath: as written, `_find_best_path` of tagtool/filename.py raises `NameError` at line 198 on every call, because `dirs_at` is unbound there. The model is the search that core.py:287-314 performs, which is the one tests/test_filename.py:61-79 expects. The failing call is not modelled.
- Filename.Filename.ResolveDirs: as written, `_resolve_dirs` of tagtool/filename.py fails with the same `NameError` through `_find_best_path`. It is modelled as intended, over the core.py search.
- Filename.Filename.AddRemoveTags: as written, `add_remove_tags` of tagtool/filename.py fails with that `NameError` whenever `use_dirs` is on. Directory mode is modelled as intended; the failure is not modelled.
- TagConfig.Config: `default_delim` is a string in the source (tagtool/config.py:36, core.py:60, utils.py:23), the marker file can set it to any string (tagtool/config.py:77), and `_add` appends it as a string. The model restricts it to a single character, so a multi-character or empty default delimiter is not modelled.
- Set iteration order: the order of a loop over a set is a ghost result. The contracts hold for every order but do not pin down the one CPython or the C++ library uses.
- Integer widths: C++ `size_t` arithmetic is modelled on unbounded integers; the only wrap-around, `pos - 1` at 0, makes `erase` throw and is the `None` case.

## Findings

| source | as written | input that shows it | evidently intended | confidence | as-written member | corrected member |
|---|---|---|---|---|---|---|
| utils.py:240-241 | `valid_tag` only searches for a delimiter, so it accepts the empty string | `valid_tag("")` is true | the empty string is not a valid tag (test_tag.py:49, and the commented-out versions at tagtool/filename.py:87-90 and core.py:193-196) | not executed | Utils.ValidTagAcceptsEmpty | Utils.ValidTagIsPlainTag |
