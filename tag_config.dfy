/**
  The configuration every tag operation reads, and the character-level notions
  (ASCII case folding, what counts as a delimiter) that all variants share.
  The source keeps the configuration in a mutable dictionary or a global class;
  here it is an immutable record passed to every operation.
*/
module TagConfig {

  /** The settings the tag engine reads. `delims` is the character class the
      source turns into a regular expression; `useName` is only consulted by
      the older utils.py variant. */
  datatype Config = Config(
    delims: set<char>,
    defaultDelim: char,
    noTagsFilename: string,
    caseSensitive: bool,
    useDirs: bool,
    useName: bool,
    rootDir: string)

  /** Delimiters of tagtool/config.py and core.py: " ,_&=.-+()[]{}/\" */
  const DefaultDelims: set<char> :=
    {' ', ',', '_', '&', '=', '.', '-', '+', '(', ')', '[', ']', '{', '}', '/', '\\'}

  /** The regular-expression class of utils.py, which also holds '%'. */
  const SettingsDelims: set<char> := DefaultDelims + {'%'}

  /** Defaults used when no marker file is found (tagtool/config.py). */
  const DefaultConfig: Config :=
    Config(DefaultDelims, '_', "unknown", true, false, true, "")

  /** Defaults of the `settings` class of utils.py. */
  const DefaultSettings: Config :=
    Config(SettingsDelims, '_', "unknown", true, false, true, "")

  predicate IsUpperAscii(c: char) { 'A' <= c <= 'Z' }
  predicate IsLowerAscii(c: char) { 'a' <= c <= 'z' }

  /** ASCII lower-casing; the model knows no other case mapping. */
  function Lower(c: char): char
  {
    if IsUpperAscii(c) then (c as int + 32) as char else c
  }

  function Upper(c: char): char
  {
    if IsLowerAscii(c) then (c as int - 32) as char else c
  }

  function LowerStr(s: string): (r: string)
    ensures |r| == |s|
    ensures forall k :: 0 <= k < |s| ==> r[k] == Lower(s[k])
  {
    if s == [] then [] else [Lower(s[0])] + LowerStr(s[1..])
  }

  /** The pattern flags of the configuration: re.IGNORECASE when not case-sensitive. */
  predicate IgnoreCase(cfg: Config)
  {
    !cfg.caseSensitive
  }

  /** Python's `str.lower()` when the configuration is case-insensitive. */
  function CaseMap(cfg: Config, s: string): (r: string)
    ensures |r| == |s|
  {
    if cfg.caseSensitive then s else LowerStr(s)
  }

  /** Character comparison of a pattern literal, with re.IGNORECASE when `ci`. */
  predicate CharEq(a: char, b: char, ci: bool)
  {
    if ci then Lower(a) == Lower(b) else a == b
  }

  /** Whether the delimiter class matches `c`; under re.IGNORECASE a letter
      also matches when its other case is in the class. */
  predicate IsDelim(c: char, D: set<char>, ci: bool)
  {
    c in D || (ci && (Lower(c) in D || Upper(c) in D))
  }

  /** No delimiter is an ASCII letter (true of every built-in delimiter set). */
  predicate NoLetters(D: set<char>)
  {
    forall c :: c in D ==> !IsUpperAscii(c) && !IsLowerAscii(c)
  }

  /** A character equal to a delimiter (up to case when `ci`) is a delimiter. */
  lemma DelimClosedUnderCharEq(a: char, b: char, D: set<char>, ci: bool)
    ensures CharEq(a, b, ci) && IsDelim(a, D, ci) ==> IsDelim(b, D, ci)
  {
  }

  /** Without letters in the class, case-insensitive class matching is exact. */
  lemma IsDelimExact(c: char, D: set<char>, ci: bool)
    requires !ci || NoLetters(D)
    ensures IsDelim(c, D, ci) <==> c in D
  {
    if ci && Lower(c) in D {
      assert !IsUpperAscii(Lower(c)) && !IsLowerAscii(Lower(c));
    }
    if ci && Upper(c) in D {
      assert !IsUpperAscii(Upper(c)) && !IsLowerAscii(Upper(c));
    }
  }

  /** The delimiter conditions under which the directory search and the
      name agree on what a tag is: the default delimiter, the path separator
      and the dot are delimiters, and case-insensitive matching of the class
      is exact. */
  predicate NameDelims(cfg: Config)
  {
    && cfg.defaultDelim in cfg.delims && '/' in cfg.delims && '.' in cfg.delims
    && (IgnoreCase(cfg) ==> NoLetters(cfg.delims))
  }

  lemma BuiltInDelimsHaveNoLetters()
    ensures NoLetters(DefaultDelims) && NoLetters(SettingsDelims)
    ensures NameDelims(DefaultConfig) && NameDelims(DefaultSettings)
  {
  }
}
