/**
 * The part of Python's `re` that the email, website and social-media
 * extractors use: alternations of literal characters, `.` and greedy
 * character-class runs `[...]+`, scanned left to right as `re.findall` does.
 *
 * Runs are matched possessively (no backtracking into a run). For the
 * email, website and social-media patterns of extract.py this is the same
 * as Python's backtracking: every run is either the last atom of its
 * alternative or is followed by a character that the run's class excludes.
 * The address pattern backtracks into its run and is not expressed here.
 */
module Regex {
  import opened Seqs

  /** The characters Python's `\s` matches in a str pattern. */
  predicate IsSpace(c: char)
  {
    c == ' ' || '\t' <= c <= '\r' || '\U{1c}' <= c <= '\U{1f}' || c == '\U{85}' || c == '\U{a0}'
    || c == '\U{1680}' || '\U{2000}' <= c <= '\U{200a}' || c == '\U{2028}' || c == '\U{2029}'
    || c == '\U{202f}' || c == '\U{205f}' || c == '\U{3000}'
  }

  predicate IsAsciiLetter(c: char)
  {
    'a' <= c <= 'z' || 'A' <= c <= 'Z'
  }

  predicate IsDigit(c: char)
  {
    '0' <= c <= '9'
  }

  /** `\w`, restricted to ASCII. */
  predicate IsWordChar(c: char)
  {
    IsAsciiLetter(c) || IsDigit(c) || c == '_'
  }

  function LowerChar(c: char): char
  {
    if 'A' <= c <= 'Z' then (c as int - 'A' as int + 'a' as int) as char else c
  }

  /** `s.lower()`, restricted to ASCII letters. */
  function Lower(s: string): (r: string)
    ensures |r| == |s|
  {
    seq(|s|, k requires 0 <= k < |s| => LowerChar(s[k]))
  }

  /** Equality of two characters, folding case when `ignoreCase` is set (`re.IGNORECASE`). */
  predicate CharMatches(c: char, d: char, ignoreCase: bool)
  {
    c == d || (ignoreCase && LowerChar(c) == LowerChar(d))
  }

  /** A bracketed class: a list of inclusive ranges, or `[^\s]`. */
  datatype CharClass = Ranges(ranges: seq<(char, char)>) | NotSpace

  predicate InClass(cls: CharClass, c: char)
  {
    match cls
    case Ranges(rs) => exists k | 0 <= k < |rs| :: rs[k].0 <= c <= rs[k].1
    case NotSpace => !IsSpace(c)
  }

  /** One literal character, `.` (anything but a newline), or a class repeated one or more times. */
  datatype Atom = Char(c: char) | AnyButNewline | Run(cls: CharClass)

  /** An alternation of atom sequences, with the `re.IGNORECASE` flag. */
  datatype Pattern = Pattern(alts: seq<seq<Atom>>, ignoreCase: bool)

  /** A literal string as a sequence of atoms. */
  function Lit(s: string): (r: seq<Atom>)
    ensures |r| == |s|
  {
    seq(|s|, k requires 0 <= k < |s| => Char(s[k]))
  }

  /** No alternative can match the empty string, so every match makes progress. */
  predicate WellFormed(p: Pattern)
  {
    forall k | 0 <= k < |p.alts| :: p.alts[k] != []
  }

  /** The patterns `re.findall` is applied to here: none matches the empty string. */
  type FindPattern = p: Pattern | WellFormed(p) witness Pattern([], false)

  // ----- Matching at a position ---------------------------------------------

  /** The end of the longest run of `cls` characters starting at `i`. */
  function RunEnd(cls: CharClass, s: string, i: nat): (j: nat)
    requires i <= |s|
    ensures i <= j <= |s|
    ensures forall k | i <= k < j :: InClass(cls, s[k])
    ensures j == |s| || !InClass(cls, s[j])
    decreases |s| - i
  {
    if i < |s| && InClass(cls, s[i]) then RunEnd(cls, s, i + 1) else i
  }

  /** A run of `cls` from `i` that stops at a character outside `cls` (or the end) ends there. */
  lemma {:induction false} RunEndAt(cls: CharClass, s: string, i: nat, j: nat)
    requires i <= j <= |s|
    requires forall k | i <= k < j :: InClass(cls, s[k])
    requires j == |s| || !InClass(cls, s[j])
    ensures RunEnd(cls, s, i) == j
    decreases j - i
  {
    if i < j {
      RunEndAt(cls, s, i + 1, j);
    }
  }

  /** Where `atom` stops when matched at `i`, or None. */
  function StepEnd(atom: Atom, s: string, i: nat, ignoreCase: bool): (r: Option<nat>)
    requires i <= |s|
    ensures r.Some? ==> i < r.value <= |s|
  {
    match atom
    case Char(c) => if i < |s| && CharMatches(s[i], c, ignoreCase) then Some(i + 1) else None
    case AnyButNewline => if i < |s| && s[i] != '\n' then Some(i + 1) else None
    case Run(cls) => var j := RunEnd(cls, s, i); if j == i then None else Some(j)
  }

  /** Where the atom sequence `alt` stops when matched at `i`, or None. */
  function AltEnd(alt: seq<Atom>, s: string, i: nat, ignoreCase: bool): (r: Option<nat>)
    requires i <= |s|
    ensures r.Some? ==> i <= r.value <= |s|
    ensures r.Some? && alt != [] ==> i < r.value
    decreases |alt|
  {
    if alt == [] then Some(i)
    else
      match StepEnd(alt[0], s, i, ignoreCase)
      case None => None
      case Some(j) => AltEnd(alt[1..], s, j, ignoreCase)
  }

  /** The first alternative of `alts` that matches at `i` decides the match. */
  function AltsEnd(alts: seq<seq<Atom>>, s: string, i: nat, ignoreCase: bool): (r: Option<nat>)
    requires i <= |s|
    ensures r.Some? ==> exists k | 0 <= k < |alts| :: AltEnd(alts[k], s, i, ignoreCase) == r
    decreases |alts|
  {
    if alts == [] then None
    else
      match AltEnd(alts[0], s, i, ignoreCase)
      case Some(e) => Some(e)
      case None =>
        var r := AltsEnd(alts[1..], s, i, ignoreCase);
        assert r.Some? ==> exists k | 0 <= k < |alts[1..]| :: AltEnd(alts[1..][k], s, i, ignoreCase) == r;
        r
  }

  /** The end of the match of `p` that starts at `i`, if any. */
  function MatchEnd(p: Pattern, s: string, i: nat): (r: Option<nat>)
    requires i <= |s|
    ensures r.Some? ==> i <= r.value <= |s|
    ensures WellFormed(p) && r.Some? ==> i < r.value
  {
    AltsEnd(p.alts, s, i, p.ignoreCase)
  }

  /** `re.findall(p, s[i:])` for a pattern without groups other than the whole. */
  function FindAll(p: FindPattern, s: string, i: nat): seq<string>
    requires i <= |s|
    decreases |s| - i
  {
    if i == |s| then []
    else
      match MatchEnd(p, s, i)
      case Some(e) => [s[i..e]] + FindAll(p, s, e)
      case None => FindAll(p, s, i + 1)
  }

  // ----- The language of a pattern -----------------------------------------

  ghost predicate AtomAccepts(atom: Atom, w: string, ignoreCase: bool)
  {
    match atom
    case Char(c) => |w| == 1 && CharMatches(w[0], c, ignoreCase)
    case AnyButNewline => |w| == 1 && w[0] != '\n'
    case Run(cls) => |w| >= 1 && forall k | 0 <= k < |w| :: InClass(cls, w[k])
  }

  /** `w` splits into pieces that the atoms of `alt` accept one by one. */
  ghost predicate AltAccepts(alt: seq<Atom>, w: string, ignoreCase: bool)
    decreases |alt|
  {
    if alt == [] then w == []
    else exists k: nat | k <= |w| :: AtomAccepts(alt[0], w[..k], ignoreCase) && AltAccepts(alt[1..], w[k..], ignoreCase)
  }

  /** The split of `w` between the first atom of `alt` and the rest. */
  lemma SplitFirstAtom(alt: seq<Atom>, w: string, ignoreCase: bool) returns (k: nat)
    requires alt != [] && AltAccepts(alt, w, ignoreCase)
    ensures k <= |w| && AtomAccepts(alt[0], w[..k], ignoreCase) && AltAccepts(alt[1..], w[k..], ignoreCase)
  {
    k :| k <= |w| && AtomAccepts(alt[0], w[..k], ignoreCase) && AltAccepts(alt[1..], w[k..], ignoreCase);
  }

  /** The same split, for a suffix `w[lo..]` of a longer string, in the longer string's indices. */
  lemma SplitFirstAtomAt(alt: seq<Atom>, w: string, lo: nat, ignoreCase: bool) returns (hi: nat)
    requires alt != [] && lo <= |w| && AltAccepts(alt, w[lo..], ignoreCase)
    ensures lo <= hi <= |w| && AtomAccepts(alt[0], w[lo..hi], ignoreCase) && AltAccepts(alt[1..], w[hi..], ignoreCase)
  {
    var k := SplitFirstAtom(alt, w[lo..], ignoreCase);
    hi := lo + k;
    assert w[lo..][..k] == w[lo..hi];
    assert w[lo..][k..] == w[hi..];
  }

  /** A run accepted over `w[lo..hi]` puts every character there in its class. */
  lemma RunSpan(cls: CharClass, w: string, lo: nat, hi: nat, ignoreCase: bool)
    requires lo <= hi <= |w| && AtomAccepts(Run(cls), w[lo..hi], ignoreCase)
    ensures lo < hi && forall k | lo <= k < hi :: InClass(cls, w[k])
  {
    forall k | lo <= k < hi ensures InClass(cls, w[k]) {
      assert w[k] == w[lo..hi][k - lo];
    }
  }

  /** `w` is in the language of `p`. */
  ghost predicate Accepts(p: Pattern, w: string)
  {
    exists k | 0 <= k < |p.alts| :: AltAccepts(p.alts[k], w, p.ignoreCase)
  }

  /** What the matcher consumes is a word of the atom sequence's language. */
  lemma {:induction false} AltEndSound(alt: seq<Atom>, s: string, i: nat, ignoreCase: bool)
    requires i <= |s| && AltEnd(alt, s, i, ignoreCase).Some?
    ensures AltAccepts(alt, s[i..AltEnd(alt, s, i, ignoreCase).value], ignoreCase)
    decreases |alt|
  {
    var e := AltEnd(alt, s, i, ignoreCase).value;
    if alt != [] {
      var j := StepEnd(alt[0], s, i, ignoreCase).value;
      AltEndSound(alt[1..], s, j, ignoreCase);
      var w := s[i..e];
      assert w[..j - i] == s[i..j];
      assert w[j - i..] == s[j..e];
      match alt[0]
      case Char(c) =>
      case AnyButNewline =>
      case Run(cls) =>
        assert forall k | 0 <= k < j - i :: s[i..j][k] == s[i + k];
      assert AtomAccepts(alt[0], w[..j - i], ignoreCase);
    }
  }

  /** Every match of a pattern is a word of its language. */
  lemma MatchEndSound(p: Pattern, s: string, i: nat)
    requires i <= |s| && MatchEnd(p, s, i).Some?
    ensures Accepts(p, s[i..MatchEnd(p, s, i).value])
  {
    var e := MatchEnd(p, s, i).value;
    var k :| 0 <= k < |p.alts| && AltEnd(p.alts[k], s, i, p.ignoreCase) == Some(e);
    AltEndSound(p.alts[k], s, i, p.ignoreCase);
  }

  /** Every string `re.findall` returns is in the pattern's language and occurs in the text. */
  lemma {:induction false} FindAllSound(p: FindPattern, s: string, i: nat)
    requires i <= |s|
    ensures forall w | w in FindAll(p, s, i) :: Accepts(p, w) && IsSubstring(w, s)
    decreases |s| - i
  {
    if i < |s| {
      match MatchEnd(p, s, i)
      case Some(e) =>
        MatchEndSound(p, s, i);
        assert OccursAt(s[i..e], s, i);
        FindAllSound(p, s, e);
      case None =>
        FindAllSound(p, s, i + 1);
    }
  }

  // ----- Leftmost match: `re.findall(...)[0]` ------------------------------

  ghost predicate NoMatchBetween(p: Pattern, s: string, lo: nat, hi: nat)
    requires hi <= |s|
  {
    forall j | lo <= j < hi :: MatchEnd(p, s, j).None?
  }

  /** `w` is what the leftmost match of `p` in `s`, searched from `lo`, consumes. */
  ghost predicate IsLeftmostMatch(p: Pattern, s: string, lo: nat, w: string)
    requires lo <= |s|
  {
    exists i: nat | lo <= i < |s| ::
      MatchEnd(p, s, i).Some? && w == s[i..MatchEnd(p, s, i).value] && NoMatchBetween(p, s, lo, i)
  }

  /**
   * The first element of `re.findall` is the leftmost match, and there is
   * none exactly when the pattern matches nowhere.
   */
  lemma {:induction false} FirstOfFindAll(p: FindPattern, s: string, lo: nat)
    requires lo <= |s|
    ensures First(FindAll(p, s, lo)).None? <==> NoMatchBetween(p, s, lo, |s|)
    ensures First(FindAll(p, s, lo)).Some? ==> IsLeftmostMatch(p, s, lo, First(FindAll(p, s, lo)).value)
    decreases |s| - lo
  {
    if lo == |s| {
      assert FindAll(p, s, lo) == [];
    } else if MatchEnd(p, s, lo).Some? {
      var e := MatchEnd(p, s, lo).value;
      assert FindAll(p, s, lo) == [s[lo..e]] + FindAll(p, s, e);
      assert NoMatchBetween(p, s, lo, lo);
      assert !NoMatchBetween(p, s, lo, |s|);
    } else {
      assert FindAll(p, s, lo) == FindAll(p, s, lo + 1);
      FirstOfFindAll(p, s, lo + 1);
      var r := First(FindAll(p, s, lo + 1));
      if r.Some? {
        var i: nat :| lo + 1 <= i < |s| && MatchEnd(p, s, i).Some? && r.value == s[i..MatchEnd(p, s, i).value]
                      && NoMatchBetween(p, s, lo + 1, i);
        assert NoMatchBetween(p, s, lo, i);
      }
    }
  }

  /**
   * A match at `i` that no earlier match overlaps is among the results of
   * `re.findall` started at any `j <= i`.
   */
  lemma {:induction false} FindAllReaches(p: FindPattern, s: string, j: nat, i: nat)
    requires j <= i < |s|
    requires MatchEnd(p, s, i).Some?
    requires forall k | j <= k < i :: MatchEnd(p, s, k).Some? ==> MatchEnd(p, s, k).value <= i
    ensures s[i..MatchEnd(p, s, i).value] in FindAll(p, s, j)
    decreases i - j
  {
    if j < i {
      match MatchEnd(p, s, j)
      case Some(e) => FindAllReaches(p, s, e, i);
      case None => FindAllReaches(p, s, j + 1, i);
    }
  }
}
