/**
 * Identifier patterns. The fixed patterns of both tabs are implemented as
 * leftmost-match scans (Python's `re.search`); a pattern typed by the user is
 * an abstract compiled regex known only through its named groups and its
 * `search` function.
 */
module Patterns {
  import opened Wrappers
  import opened Strings

  /**
   * One successful search: the `season` and `episode` groups converted with
   * `int()`, and the raw `part` group, "" when the group is absent, did not
   * take part in the match, or matched nothing (every consumer treats these
   * three alike).
   */
  datatype Hit = Hit(season: int, episode: int, part: string)

  /** A compiled user regex: its named groups and its `search`. */
  datatype Regex = Regex(groups: set<string>, search: string -> Option<Hit>)

  datatype Pattern =
    /** `S(?P<season>\d{1,2})E(?P<episode>\d{2})(?P<part>[A-Z])?`, compiled with re.IGNORECASE (merge tab). */
    | MergeDefault
    /** `S(?P<season>\d{2})E(?P<episode>\d{2})(?P<part>[A-Za-z])?`, compiled case-sensitively (renamer tab). */
    | RenameDefault
    | Custom(regex: Regex)

  const RequiredGroups: set<string> := {"season", "episode"}

  function GroupNames(p: Pattern): set<string> {
    match p
    case Custom(r) => r.groups
    case _ => {"season", "episode", "part"}
  }

  /** The optional trailing `part` letter at position `k`, "" when there is none. */
  function OptionalLetter(s: string, k: nat): (r: string)
    ensures |r| <= 1
    ensures |r| == 1 ==> IsAsciiLetter(r[0])
  {
    if k < |s| && IsAsciiLetter(s[k]) then [s[k]] else ""
  }

  predicate IsSeasonMark(c: char) { c == 'S' || c == 's' }

  predicate IsEpisodeMark(c: char) { c == 'E' || c == 'e' }

  /**
   * The merge default pattern anchored at `i`. Greedy `\d{1,2}` tries a
   * two-digit season first and backtracks to one digit.
   */
  function MergeDefaultAt(s: string, i: nat): Option<Hit> {
    if i + 6 <= |s| && IsSeasonMark(s[i]) && IsDigit(s[i + 1]) && IsDigit(s[i + 2])
       && IsEpisodeMark(s[i + 3]) && IsDigit(s[i + 4]) && IsDigit(s[i + 5])
    then
      Some(Hit(DigitsValue(s[i + 1..i + 3]), DigitsValue(s[i + 4..i + 6]), OptionalLetter(s, i + 6)))
    else if i + 5 <= |s| && IsSeasonMark(s[i]) && IsDigit(s[i + 1])
       && IsEpisodeMark(s[i + 2]) && IsDigit(s[i + 3]) && IsDigit(s[i + 4])
    then
      Some(Hit(DigitsValue(s[i + 1..i + 2]), DigitsValue(s[i + 3..i + 5]), OptionalLetter(s, i + 5)))
    else None
  }

  /** The renamer default pattern anchored at `i`: upper-case marks, exactly two season digits. */
  function RenameDefaultAt(s: string, i: nat): Option<Hit> {
    if i + 6 <= |s| && s[i] == 'S' && IsDigit(s[i + 1]) && IsDigit(s[i + 2])
       && s[i + 3] == 'E' && IsDigit(s[i + 4]) && IsDigit(s[i + 5])
    then
      Some(Hit(DigitsValue(s[i + 1..i + 3]), DigitsValue(s[i + 4..i + 6]), OptionalLetter(s, i + 6)))
    else None
  }

  /**
   * The bare fallback `(?P<episode>\d{2})(?P<part>[A-Za-z])?` anchored at `i`
   * (the merge tab spells the letter class `(?i)[a-z]`, the same set). It has
   * no season group: both callers fix the season to 1, which the hit records.
   */
  function BareEpisodeAt(s: string, i: nat): Option<Hit> {
    if i + 2 <= |s| && IsDigit(s[i]) && IsDigit(s[i + 1]) then
      Some(Hit(1, DigitsValue(s[i..i + 2]), OptionalLetter(s, i + 2)))
    else None
  }

  /** `re.search`: the match at the leftmost position from `i` on where the pattern matches. */
  function SearchFrom(s: string, i: nat, at: (string, nat) -> Option<Hit>): (r: Option<Hit>)
    ensures r.Some? ==> exists j :: i <= j <= |s| && at(s, j) == r && forall k :: i <= k < j ==> at(s, k).None?
    ensures r.None? ==> forall k :: i <= k <= |s| ==> at(s, k).None?
    decreases |s| + 1 - i
  {
    if i > |s| then None
    else if at(s, i).Some? then at(s, i)
    else SearchFrom(s, i + 1, at)
  }

  function Search(p: Pattern, s: string): Option<Hit> {
    match p
    case MergeDefault => SearchFrom(s, 0, MergeDefaultAt)
    case RenameDefault => SearchFrom(s, 0, RenameDefaultAt)
    case Custom(r) => r.search(s)
  }

  /** The fallback search both tabs run when the primary pattern finds nothing. */
  function SearchBareEpisode(s: string): Option<Hit> {
    SearchFrom(s, 0, BareEpisodeAt)
  }

  /** `(season, episode, part)`, with "" for a missing part. */
  datatype Ident = Ident(season: int, episode: int, part: string)

  /** A hit as both tabs report it: the part upper-cased. */
  function IdentOf(h: Hit): Ident {
    Ident(h.season, h.episode, Upper(h.part))
  }

  /**
   * `parse_identifier` (merge tab), which reads the identifier field: only
   * the primary pattern is searched.
   */
  function MatchIdentifier(text: string, patt: Pattern): (r: Option<Ident>)
    ensures r.None? <==> Search(patt, text).None?
  {
    match Search(patt, text)
    case None => None
    case Some(h) => Some(IdentOf(h))
  }

  /**
   * `parse_identifier` (renamer tab), and the inline reading of a file name
   * in both merge scans: the primary pattern, and only when it finds nothing
   * the bare two-digit fallback with season 1.
   */
  function ParseIdentifier(name: string, patt: Pattern): (r: Option<Ident>)
    ensures r.None? <==> Search(patt, name).None? && SearchBareEpisode(name).None?
    ensures Search(patt, name).Some? ==> r == MatchIdentifier(name, patt)
    ensures Search(patt, name).None? && r.Some? ==>
      var f := SearchBareEpisode(name).value;
      r == Some(Ident(1, f.episode, Upper(f.part)))
  {
    match Search(patt, name)
    case Some(h) => Some(IdentOf(h))
    case None =>
      match SearchBareEpisode(name)
      case Some(f) => Some(IdentOf(f))
      case None => None
  }

  /** A search returns the hit at the first position where the pattern matches. */
  lemma LeftmostHit(s: string, j: nat, at: (string, nat) -> Option<Hit>)
    requires j <= |s| && at(s, j).Some?
    requires forall k :: 0 <= k < j ==> at(s, k).None?
    ensures SearchFrom(s, 0, at) == at(s, j)
  {
    var r := SearchFrom(s, 0, at);
    assert r.Some?;
    var j' :| 0 <= j' <= |s| && at(s, j') == r && forall k :: 0 <= k < j' ==> at(s, k).None?;
    assert !(j' < j) && !(j < j');
  }

  /**
   * The merge default reads `<pre>S<d1>E<d2><rest>` (either case of the
   * marks, one or two season digits) when no match starts inside `pre`: the
   * season and episode are the digit runs and the part is the letter
   * directly after them, if any, upper-cased.
   */
  lemma MergeDefaultReads(name: string, pre: string, m1: char, d1: string, m2: char, d2: string, rest: string)
    requires name == pre + [m1] + d1 + [m2] + d2 + rest
    requires IsSeasonMark(m1) && IsEpisodeMark(m2)
    requires 1 <= |d1| <= 2 && AllDigits(d1) && |d2| == 2 && AllDigits(d2)
    requires forall k :: 0 <= k < |pre| ==> MergeDefaultAt(name, k).None?
    ensures MatchIdentifier(name, MergeDefault) == Some(Ident(DigitsValue(d1), DigitsValue(d2), Upper(OptionalLetter(rest, 0))))
    ensures ParseIdentifier(name, MergeDefault) == MatchIdentifier(name, MergeDefault)
  {
    var i := |pre|;
    var e := i + 2 + |d1|;
    assert name[i] == m1 && name[i + 1..i + 1 + |d1|] == d1;
    assert name[i + 1 + |d1|] == m2 && name[e..e + 2] == d2;
    assert name[e + 2..] == rest;
    MergeDefaultAtMarks(name, i, d1, d2);
    assert OptionalLetter(name, e + 2) == OptionalLetter(rest, 0);
    LeftmostHit(name, i, MergeDefaultAt);
  }

  /** The merge default anchored at a season mark followed by one or two digits, an episode mark and two digits. */
  lemma MergeDefaultAtMarks(name: string, i: nat, d1: string, d2: string)
    requires 1 <= |d1| <= 2 && AllDigits(d1) && |d2| == 2 && AllDigits(d2)
    requires i + 4 + |d1| <= |name| && IsSeasonMark(name[i]) && IsEpisodeMark(name[i + 1 + |d1|])
    requires name[i + 1..i + 1 + |d1|] == d1 && name[i + 2 + |d1|..i + 4 + |d1|] == d2
    ensures MergeDefaultAt(name, i) == Some(Hit(DigitsValue(d1), DigitsValue(d2), OptionalLetter(name, i + 4 + |d1|)))
  {
    if |d1| == 1 {
      OneSeasonDigit(name, i, d1, d2);
    } else {
      TwoSeasonDigits(name, i, d1, d2);
    }
  }

  /** `MergeDefaultAtMarks` with one season digit: the two-digit reading fails at the episode mark. */
  lemma OneSeasonDigit(name: string, i: nat, d1: string, d2: string)
    requires |d1| == 1 && AllDigits(d1) && |d2| == 2 && AllDigits(d2)
    requires i + 5 <= |name| && IsSeasonMark(name[i]) && IsEpisodeMark(name[i + 2])
    requires name[i + 1..i + 2] == d1 && name[i + 3..i + 5] == d2
    ensures MergeDefaultAt(name, i) == Some(Hit(DigitsValue(d1), DigitsValue(d2), OptionalLetter(name, i + 5)))
  {
    assert name[i + 1] == d1[0];
    assert name[i + 3] == d2[0] && name[i + 4] == d2[1];
  }

  /** `MergeDefaultAtMarks` with two season digits. */
  lemma TwoSeasonDigits(name: string, i: nat, d1: string, d2: string)
    requires |d1| == 2 && AllDigits(d1) && |d2| == 2 && AllDigits(d2)
    requires i + 6 <= |name| && IsSeasonMark(name[i]) && IsEpisodeMark(name[i + 3])
    requires name[i + 1..i + 3] == d1 && name[i + 4..i + 6] == d2
    ensures MergeDefaultAt(name, i) == Some(Hit(DigitsValue(d1), DigitsValue(d2), OptionalLetter(name, i + 6)))
  {
    assert name[i + 1] == d1[0] && name[i + 2] == d1[1];
    assert name[i + 4] == d2[0] && name[i + 5] == d2[1];
  }

  /**
   * The renamer default reads `<pre>S<d1>E<d2><rest>` (upper-case marks,
   * exactly two season digits) when no match starts inside `pre`.
   */
  lemma RenameDefaultReads(name: string, pre: string, d1: string, d2: string, rest: string)
    requires name == pre + "S" + d1 + "E" + d2 + rest
    requires |d1| == 2 && AllDigits(d1) && |d2| == 2 && AllDigits(d2)
    requires forall k :: 0 <= k < |pre| ==> RenameDefaultAt(name, k).None?
    ensures MatchIdentifier(name, RenameDefault) == Some(Ident(DigitsValue(d1), DigitsValue(d2), Upper(OptionalLetter(rest, 0))))
    ensures ParseIdentifier(name, RenameDefault) == MatchIdentifier(name, RenameDefault)
  {
    var i := |pre|;
    assert name[i] == 'S' && name[i + 1..i + 3] == d1;
    assert name[i + 3] == 'E' && name[i + 4..i + 6] == d2;
    assert name[i + 6..] == rest;
    RenameDefaultAtMarks(name, i, d1, d2);
    assert OptionalLetter(name, i + 6) == OptionalLetter(rest, 0);
    LeftmostHit(name, i, RenameDefaultAt);
  }

  /** The renamer default anchored at `S`, two digits, `E` and two digits. */
  lemma RenameDefaultAtMarks(name: string, i: nat, d1: string, d2: string)
    requires |d1| == 2 && AllDigits(d1) && |d2| == 2 && AllDigits(d2)
    requires i + 6 <= |name| && name[i] == 'S' && name[i + 3] == 'E'
    requires name[i + 1..i + 3] == d1 && name[i + 4..i + 6] == d2
    ensures RenameDefaultAt(name, i) == Some(Hit(DigitsValue(d1), DigitsValue(d2), OptionalLetter(name, i + 6)))
  {
    assert name[i + 1] == d1[0] && name[i + 2] == d1[1];
    assert name[i + 4] == d2[0] && name[i + 5] == d2[1];
  }

  /** Without a match anywhere, either default pattern reads nothing. */
  lemma DefaultMisses(name: string, patt: Pattern)
    requires patt.MergeDefault? || patt.RenameDefault?
    ensures MatchIdentifier(name, patt).None? <==>
      forall k :: 0 <= k <= |name| ==> (if patt.MergeDefault? then MergeDefaultAt(name, k) else RenameDefaultAt(name, k)).None?
  {
    var at := if patt.MergeDefault? then MergeDefaultAt else RenameDefaultAt;
    assert Search(patt, name) == SearchFrom(name, 0, at);
    forall k | 0 <= k <= |name|
      ensures at(name, k) == (if patt.MergeDefault? then MergeDefaultAt(name, k) else RenameDefaultAt(name, k))
    {
    }
  }

  /**
   * When the primary pattern finds nothing, a name is read from its first
   * pair of adjacent digits: season 1, that pair as the episode, and the
   * letter right after it, if any, as the part.
   */
  lemma FallbackReads(name: string, patt: Pattern, j: nat)
    requires Search(patt, name).None?
    requires j + 2 <= |name| && IsDigit(name[j]) && IsDigit(name[j + 1])
    requires forall k :: 0 <= k < j ==> !(IsDigit(name[k]) && IsDigit(name[k + 1]))
    ensures ParseIdentifier(name, patt) == Some(Ident(1, DigitsValue(name[j..j + 2]), Upper(OptionalLetter(name, j + 2))))
  {
    forall k | 0 <= k < j
      ensures BareEpisodeAt(name, k).None?
    {
      assert !(IsDigit(name[k]) && IsDigit(name[k + 1]));
    }
    LeftmostHit(name, j, BareEpisodeAt);
  }

  /** A name is unreadable exactly when the primary pattern misses and no two digits are adjacent. */
  lemma ParseIdentifierNone(name: string, patt: Pattern)
    ensures ParseIdentifier(name, patt).None? <==>
      Search(patt, name).None? && forall k :: 0 <= k < |name| - 1 ==> !(IsDigit(name[k]) && IsDigit(name[k + 1]))
  {
    if Search(patt, name).None? {
      if ParseIdentifier(name, patt).None? {
        forall k | 0 <= k < |name| - 1
          ensures !(IsDigit(name[k]) && IsDigit(name[k + 1]))
        {
          assert BareEpisodeAt(name, k).None?;
        }
      } else {
        var j :| 0 <= j <= |name| && BareEpisodeAt(name, j).Some?;
        assert IsDigit(name[j]) && IsDigit(name[j + 1]);
      }
    }
  }

  /** `DEFAULT_ID_REGEX_TEXT`: the merge tab's identifier regex as the user sees it. */
  const MergeDefaultText: string := @"S(?P<season>\d{1,2})E(?P<episode>\d{2})(?P<part>[A-Z])?"

  /** `DEFAULT_REGEX`: the renamer tab's identifier regex as the user sees it. */
  const RenameDefaultText: string := "S" + @"(?P<season>\d{2})E(?P<episode>\d{2})(?P<part>[A-Za-z])?"

  /** The renamer default text has no surrounding white space. */
  lemma DefaultTextStripped()
    ensures Strip(RenameDefaultText) == RenameDefaultText
  {
    StripKeeps(RenameDefaultText);
  }

  /** The merge tab's regex text: the stripped field, or the default text when that is empty. */
  function MergeRegexText(field: string): (t: string)
    ensures Strip(field) == "" ==> t == MergeDefaultText
    ensures Strip(field) != "" ==> t == Strip(field)
  {
    var typed := Strip(field);
    if typed == "" then MergeDefaultText else typed
  }

  /**
   * The renamer tab's regex text: the default text when the field is empty,
   * otherwise the field, stripped afterwards (so a field of only blanks gives
   * the empty regex, unlike the merge tab).
   */
  function RenameRegexText(field: string): (t: string)
    ensures field == "" ==> t == RenameDefaultText
    ensures field != "" ==> t == Strip(field)
  {
    DefaultTextStripped();
    Strip(if field == "" then RenameDefaultText else field)
  }

  /**
   * `compile_id_regex` (merge tab): compile the text case-insensitively; on a
   * compile error, or when the `season` or `episode` group is missing, use the
   * default pattern. The default text itself compiles to the fixed pattern
   * `MergeDefault`; for any other text `compile` stands for
   * `re.compile(text, re.IGNORECASE)`, None meaning `re.error`.
   */
  function CompileIdRegex(text: string, compile: string -> Option<Regex>): (p: Pattern)
    ensures RequiredGroups <= GroupNames(p)
    ensures p.MergeDefault? || p.Custom?
    ensures text == MergeDefaultText ==> p == MergeDefault
    ensures p.Custom? <==> text != MergeDefaultText && compile(text).Some? && RequiredGroups <= compile(text).value.groups
    ensures p.Custom? ==> p.regex == compile(text).value
  {
    if text == MergeDefaultText then MergeDefault
    else
      match compile(text)
      case Some(r) => if RequiredGroups <= r.groups then Custom(r) else MergeDefault
      case None => MergeDefault
  }

  datatype PatternError = InvalidRegex

  /**
   * The renamer's pattern choice before previewing or renaming: a regex that
   * does not compile aborts the action; one without the required groups is
   * replaced by the renamer default. The default text itself compiles to the
   * fixed pattern `RenameDefault`; for any other text `compile` stands for the
   * case-sensitive `re.compile(text)`.
   */
  function ResolveRenamePattern(text: string, compile: string -> Option<Regex>): (r: Result<Pattern, PatternError>)
    ensures text == RenameDefaultText ==> r == Success(RenameDefault)
    ensures r.Failure? <==> text != RenameDefaultText && compile(text).None?
    ensures r.Success? ==> RequiredGroups <= GroupNames(r.value)
    ensures r.Success? ==> r.value.RenameDefault? || r.value.Custom?
    ensures r.Success? && r.value.Custom? ==> text != RenameDefaultText && r.value.regex == compile(text).value
    ensures r.Success? && r.value.RenameDefault? && text != RenameDefaultText ==> !(RequiredGroups <= compile(text).value.groups)
  {
    if text == RenameDefaultText then Success(RenameDefault)
    else
      match compile(text)
      case None => Failure(InvalidRegex)
      case Some(rx) => if RequiredGroups <= rx.groups then Success(Custom(rx)) else Success(RenameDefault)
  }

  /** An empty or blank merge field selects the merge default pattern, whatever `compile` does. */
  lemma BlankMergeFieldIsDefault(field: string, compile: string -> Option<Regex>)
    requires Strip(field) == ""
    ensures CompileIdRegex(MergeRegexText(field), compile) == MergeDefault
  {
  }

  /** An empty renamer field selects the renamer default pattern, whatever `compile` does. */
  lemma EmptyRenameFieldIsDefault(compile: string -> Option<Regex>)
    ensures ResolveRenamePattern(RenameRegexText(""), compile) == Success(RenameDefault)
  {
  }

  /** The merge default reads a lower-case `s<dd>e<dd><rest>` from its start. */
  lemma MergeReadsLowerCase(s: string, d1: string, d2: string, rest: string)
    requires s == "s" + d1 + "e" + d2 + rest
    requires |d1| == 2 && AllDigits(d1) && |d2| == 2 && AllDigits(d2)
    ensures ParseIdentifier(s, MergeDefault) == Some(Ident(DigitsValue(d1), DigitsValue(d2), Upper(OptionalLetter(rest, 0))))
  {
    assert s == "" + ['s'] + d1 + ['e'] + d2 + rest;
    MergeDefaultReads(s, "", 's', d1, 'e', d2, rest);
  }

  /** The renamer default finds nothing in `s<dd>e<dd><rest>` when `rest` has no `S`. */
  lemma RenameMissesLowerCase(s: string, d1: string, d2: string, rest: string)
    requires s == "s" + d1 + "e" + d2 + rest
    requires |d1| == 2 && AllDigits(d1) && |d2| == 2 && AllDigits(d2)
    requires forall k :: 0 <= k < |rest| ==> rest[k] != 'S'
    ensures MatchIdentifier(s, RenameDefault) == None
  {
    forall k | 0 <= k <= |s|
      ensures RenameDefaultAt(s, k).None?
    {
      if k < |s| {
        if k == 0 || k == 3 {
        } else if k < 3 {
          assert s[k] == d1[k - 1];
        } else if k < 6 {
          assert s[k] == d2[k - 4];
        } else {
          assert s[k] == rest[k - 6];
        }
        assert s[k] != 'S';
      }
    }
    DefaultMisses(s, RenameDefault);
  }

  /**
   * With the renamer default missing, `s<dd>e<dd><rest>` is read from its
   * first digit pair: season 1, the season digits as the episode, `e` as
   * the part.
   */
  lemma RenameFallsBackLowerCase(s: string, d1: string, d2: string, rest: string)
    requires s == "s" + d1 + "e" + d2 + rest
    requires |d1| == 2 && AllDigits(d1) && |d2| == 2 && AllDigits(d2)
    requires forall k :: 0 <= k < |rest| ==> rest[k] != 'S'
    ensures ParseIdentifier(s, RenameDefault) == Some(Ident(1, DigitsValue(d1), "E"))
  {
    RenameMissesLowerCase(s, d1, d2, rest);
    assert s[1..3] == d1 && s[3] == 'e';
    assert !IsDigit(s[0]);
    FallbackReads(s, RenameDefault, 1);
    assert Upper(OptionalLetter(s, 3)) == "E";
  }

  /**
   * The two default patterns differ in case sensitivity. A name that starts
   * with a lower-case `s<dd>e<dd>` is read by the merge default as that
   * season and episode, while the renamer default does not match it (when no
   * upper-case `S` follows), so the renamer falls back to the first digit
   * pair: season 1, the season digits as the episode, and the `e` after them
   * as the part.
   */
  lemma CaseSensitivityDiffers(s: string, d1: string, d2: string, rest: string)
    requires s == "s" + d1 + "e" + d2 + rest
    requires |d1| == 2 && AllDigits(d1) && |d2| == 2 && AllDigits(d2)
    requires forall k :: 0 <= k < |rest| ==> rest[k] != 'S'
    ensures ParseIdentifier(s, MergeDefault) == Some(Ident(DigitsValue(d1), DigitsValue(d2), Upper(OptionalLetter(rest, 0))))
    ensures MatchIdentifier(s, RenameDefault) == None
    ensures ParseIdentifier(s, RenameDefault) == Some(Ident(1, DigitsValue(d1), "E"))
  {
    MergeReadsLowerCase(s, d1, d2, rest);
    RenameMissesLowerCase(s, d1, d2, rest);
    RenameFallsBackLowerCase(s, d1, d2, rest);
  }
}
