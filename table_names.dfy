/**
 * Table names in user text and in SQL queries:
 * `detect_table_name` (a `re.search` for `\btable\s+([a-zA-Z0-9_]+)` under
 * `re.IGNORECASE`) and the `^\w+$` guard that `fetch_specific_table`
 * applies before it builds `SELECT TOP {limit} * FROM {table_name};`.
 */
module TableNames {
  import opened Wrappers
  import opened PyText

  // ---------------------------------------------------------------------
  // Character classes and runs
  // ---------------------------------------------------------------------

  /**
   * How `[a-zA-Z0-9_]` is read. Under `re.IGNORECASE` Python's `str`
   * patterns let the letter ranges also match four non-ASCII letters
   * (IgnoreCaseRange, what the source does); AsciiOnly is the class the
   * pattern spells out.
   */
  datatype IdentClass = IgnoreCaseRange | AsciiOnly

  datatype CharClass = Whitespace | Word | Ident(ident: IdentClass)

  predicate InClass(c: char, cc: CharClass) {
    match cc
    case Whitespace => IsSpace(c)
    case Word => IsWordChar(c)
    case Ident(IgnoreCaseRange) => IsAsciiWordChar(c) || IsCaseFoldedLatin(c)
    case Ident(AsciiOnly) => IsAsciiWordChar(c)
  }

  ghost predicate AllIn(s: string, cc: CharClass) {
    forall i :: 0 <= i < |s| ==> InClass(s[i], cc)
  }

  /** Every character of `s` at indices `lo .. hi - 1` is in `cc`. */
  ghost predicate AllInRange(s: string, lo: int, hi: int, cc: CharClass) {
    forall k :: lo <= k < hi && 0 <= k < |s| ==> InClass(s[k], cc)
  }

  /** Length of the longest run of `cc` characters starting at index `i` (a greedy `+` / `*`). */
  function Run(s: string, i: nat, cc: CharClass): (n: nat)
    requires i <= |s|
    ensures i + n <= |s|
    ensures AllInRange(s, i, i + n, cc)
    ensures i + n == |s| || !InClass(s[i + n], cc)
    decreases |s| - i
  {
    if i < |s| && InClass(s[i], cc) then
      1 + Run(s, i + 1, cc)
    else
      0
  }

  /** Every run of `cc` characters that stops at a non-`cc` character is the greedy one. */
  lemma RunIsUnique(s: string, i: nat, k: nat, cc: CharClass)
    requires i + k <= |s|
    requires AllInRange(s, i, i + k, cc)
    requires i + k == |s| || !InClass(s[i + k], cc)
    ensures Run(s, i, cc) == k
  {
  }

  // ---------------------------------------------------------------------
  // detect_table_name
  // ---------------------------------------------------------------------

  /** `\b` at index `p`, given that `s[p]` is a word character (the `t` of `table`). */
  predicate BoundaryBefore(s: string, p: nat)
    requires p <= |s|
  {
    p == 0 || !IsWordChar(s[p - 1])
  }

  /** `table` in any letter case at index `p`. */
  predicate KeywordAt(s: string, p: nat) {
    p + 5 <= |s| && Lower(s[p..p + 5]) == "table"
  }

  /**
   * `KeywordAt` spelled out letter by letter: each of the five characters is
   * the lower- or the upper-case form of the matching letter of `table`, and
   * nothing else (no other character lower-cases onto one of them).
   */
  lemma KeywordAtSpelledOut(s: string, p: nat)
    ensures KeywordAt(s, p) <==>
      p + 5 <= |s| && forall k :: 0 <= k < 5 ==> s[p + k] == "table"[k] || s[p + k] == "TABLE"[k]
  {
  }

  /**
   * Reference definition of a qualifying occurrence: at index `p`, a word
   * boundary, `table` in any case, one or more whitespace characters and
   * then a character of the identifier class.
   */
  ghost predicate QualifyingAt(s: string, p: int, cls: IdentClass) {
    0 <= p && KeywordAt(s, p) && BoundaryBefore(s, p) && SpacesThenIdent(s, p + 5, cls)
  }

  /** One or more whitespace characters from index `i`, then an identifier character. */
  ghost predicate SpacesThenIdent(s: string, i: int, cls: IdentClass) {
    exists q :: 0 <= i < q < |s| && AllInRange(s, i, q, Whitespace) && InClass(s[q], Ident(cls))
  }

  /** `p` is the leftmost qualifying occurrence. */
  ghost predicate Leftmost(s: string, p: int, cls: IdentClass) {
    QualifyingAt(s, p, cls) && forall p' :: 0 <= p' < p ==> !QualifyingAt(s, p', cls)
  }

  /** `r` is a maximal, non-empty run of identifier characters starting at `q`. */
  ghost predicate MaximalIdentAt(s: string, q: int, r: string, cls: IdentClass) {
    && 0 <= q && q + |r| <= |s| && |r| >= 1 && s[q..q + |r|] == r
    && AllInRange(s, q, q + |r|, Ident(cls))
    && (q + |r| == |s| || !InClass(s[q + |r|], Ident(cls)))
  }

  /**
   * `r` is the capture group of the leftmost qualifying occurrence `p`:
   * whitespace from `p + 5` up to `q`, then the maximal identifier `r`.
   */
  ghost predicate GroupAt(s: string, p: int, q: int, r: string, cls: IdentClass) {
    Leftmost(s, p, cls) && GroupShape(s, p, q, r, cls)
  }

  /** Whitespace from `p + 5` up to `q`, then the maximal identifier `r`. */
  ghost predicate GroupShape(s: string, p: int, q: int, r: string, cls: IdentClass) {
    p + 5 < q <= |s| && AllInRange(s, p + 5, q, Whitespace) && MaximalIdentAt(s, q, r, cls)
  }

  /** The regex engine's test at one start position, by greedy runs. */
  predicate MatchesAt(s: string, p: nat, cls: IdentClass)
    requires p <= |s|
  {
    KeywordAt(s, p) && BoundaryBefore(s, p) && SpacesThenIdentByRun(s, p + 5, cls)
  }

  /** `\s+` takes the whole whitespace run; the identifier must start right after it. */
  predicate SpacesThenIdentByRun(s: string, i: nat, cls: IdentClass)
    requires i <= |s|
  {
    var w := Run(s, i, Whitespace);
    w >= 1 && i + w < |s| && InClass(s[i + w], Ident(cls))
  }

  lemma SpaceIsNotIdent(c: char, cls: IdentClass)
    requires IsSpace(c)
    ensures !InClass(c, Ident(cls))
  {
  }

  /** Backtracking cannot help `\s+` followed by an identifier: the greedy run decides. */
  lemma SpacesThenIdentGivesRun(s: string, i: nat, cls: IdentClass)
    requires i <= |s| && SpacesThenIdent(s, i, cls)
    ensures SpacesThenIdentByRun(s, i, cls)
  {
    var q :| 0 <= i < q < |s| && AllInRange(s, i, q, Whitespace) && InClass(s[q], Ident(cls));
    WhitespaceRunEndsAt(s, i, q, cls);
  }

  lemma RunGivesSpacesThenIdent(s: string, i: nat, cls: IdentClass)
    requires i <= |s| && SpacesThenIdentByRun(s, i, cls)
    ensures SpacesThenIdent(s, i, cls)
  {
    var q := i + Run(s, i, Whitespace);
    assert 0 <= i < q < |s| && AllInRange(s, i, q, Whitespace) && InClass(s[q], Ident(cls));
  }

  /** A whitespace stretch that an identifier character ends is the whole greedy run. */
  lemma WhitespaceRunEndsAt(s: string, i: nat, q: nat, cls: IdentClass)
    requires i < q < |s| && AllInRange(s, i, q, Whitespace) && InClass(s[q], Ident(cls))
    ensures Run(s, i, Whitespace) == q - i
  {
    assert !InClass(s[q], Whitespace) by {
      if IsSpace(s[q]) { SpaceIsNotIdent(s[q], cls); }
    }
    RunIsUnique(s, i, q - i, Whitespace);
  }

  lemma MatchesAtIsQualifying(s: string, p: nat, cls: IdentClass)
    requires p <= |s|
    ensures MatchesAt(s, p, cls) <==> QualifyingAt(s, p, cls)
  {
    if MatchesAt(s, p, cls) {
      MatchIsQualifying(s, p, cls);
    }
    if QualifyingAt(s, p, cls) {
      QualifyingIsMatch(s, p, cls);
    }
  }

  lemma MatchIsQualifying(s: string, p: nat, cls: IdentClass)
    requires p <= |s| && MatchesAt(s, p, cls)
    ensures QualifyingAt(s, p, cls)
  {
    RunGivesSpacesThenIdent(s, p + 5, cls);
  }

  lemma QualifyingIsMatch(s: string, p: nat, cls: IdentClass)
    requires p <= |s| && QualifyingAt(s, p, cls)
    ensures MatchesAt(s, p, cls)
  {
    assert KeywordAt(s, p) && BoundaryBefore(s, p) && SpacesThenIdent(s, p + 5, cls);
    SpacesThenIdentGivesRun(s, p + 5, cls);
  }

  /** The first index in `i .. n - 1` that passes `test`, scanning left to right. */
  function FirstFrom(i: nat, n: nat, test: nat -> bool): (r: Option<nat>)
    requires i <= n
    ensures r.Some? ==> i <= r.value < n && test(r.value)
    decreases n - i
  {
    if i == n then None
    else if test(i) then Some(i)
    else FirstFrom(i + 1, n, test)
  }

  /** No index before the one the scan returns passes; with no result, none passes at all. */
  lemma {:induction false} FirstFromIsFirst(i: nat, n: nat, test: nat -> bool)
    requires i <= n
    ensures FirstFrom(i, n, test).Some? ==> forall p :: i <= p < FirstFrom(i, n, test).value ==> !test(p)
    ensures FirstFrom(i, n, test).None? ==> forall p :: i <= p < n ==> !test(p)
    decreases n - i
  {
    if i < n && !test(i) {
      FirstFromIsFirst(i + 1, n, test);
    }
  }

  /** The engine's test at each start position. */
  function MatchTest(s: string, cls: IdentClass): nat -> bool {
    (p: nat) => p <= |s| && MatchesAt(s, p, cls)
  }

  /** The search loop of `pattern.search`: the first start position that matches. */
  function FindMatch(s: string, cls: IdentClass): (r: Option<nat>)
    ensures r.Some? ==> r.value < |s| && MatchesAt(s, r.value, cls)
  {
    FirstFrom(0, |s|, MatchTest(s, cls))
  }

  /** No start position before the one the search returns matches; with no result, none matches at all. */
  lemma FindMatchIsFirst(s: string, cls: IdentClass)
    ensures FindMatch(s, cls).Some? ==> forall p :: 0 <= p < FindMatch(s, cls).value ==> !MatchesAt(s, p, cls)
    ensures FindMatch(s, cls).None? ==> forall p :: 0 <= p < |s| ==> !MatchesAt(s, p, cls)
  {
    var test := MatchTest(s, cls);
    FirstFromIsFirst(0, |s|, test);
    forall p: nat | p <= |s| ensures test(p) == MatchesAt(s, p, cls) {
    }
  }

  /** Where the engine finds no match, no position qualifies. */
  lemma NoMatchMeansNoQualifying(s: string, lo: nat, hi: nat, cls: IdentClass)
    requires hi <= |s|
    requires forall p :: lo <= p < hi ==> !MatchesAt(s, p, cls)
    ensures forall p :: lo <= p < hi ==> !QualifyingAt(s, p, cls)
  {
    forall p | lo <= p < hi
      ensures !QualifyingAt(s, p, cls)
    {
      MatchesAtIsQualifying(s, p, cls);
    }
  }

  /** Where the capture group starts for a match at `p`: right after the whitespace run. */
  function GroupStart(s: string, p: nat): nat
    requires p + 5 <= |s|
  {
    p + 5 + Run(s, p + 5, Whitespace)
  }

  /** The capture group the engine reports for a match at `p`. */
  function GreedyGroup(s: string, p: nat, cls: IdentClass): string
    requires p + 5 <= |s|
  {
    var q := GroupStart(s, p);
    s[q..q + Run(s, q, Ident(cls))]
  }

  /**
   * `detect_table_name` for either reading of the identifier class: the
   * first capture group of the leftmost match, or "" when nothing matches.
   */
  function DetectWith(s: string, cls: IdentClass): string {
    match FindMatch(s, cls)
    case None => ""
    case Some(p) => GreedyGroup(s, p, cls)
  }

  /**
   * The detector returns "" exactly when no position qualifies; otherwise
   * it returns the maximal identifier of the leftmost qualifying occurrence.
   */
  lemma DetectWithMeaning(s: string, cls: IdentClass)
    ensures DetectWith(s, cls) == "" <==> forall p :: 0 <= p < |s| ==> !QualifyingAt(s, p, cls)
    ensures DetectWith(s, cls) != "" ==> exists p, q :: GroupAt(s, p, q, DetectWith(s, cls), cls)
  {
    FindMatchIsFirst(s, cls);
    match FindMatch(s, cls)
    case None =>
      NoMatchMeansNoQualifying(s, 0, |s|, cls);
    case Some(p) =>
      LeftmostMatchGroup(s, p, cls);
      assert GroupAt(s, p, GroupStart(s, p), DetectWith(s, cls), cls);
  }

  /** The first match is the leftmost qualifying occurrence, and its group has the described shape. */
  lemma LeftmostMatchGroup(s: string, p: nat, cls: IdentClass)
    requires p < |s| && MatchesAt(s, p, cls)
    requires forall p' :: 0 <= p' < p ==> !MatchesAt(s, p', cls)
    ensures GroupAt(s, p, GroupStart(s, p), GreedyGroup(s, p, cls), cls)
  {
    NoMatchMeansNoQualifying(s, 0, p, cls);
    MatchIsQualifying(s, p, cls);
    GroupOfMatch(s, p, cls);
  }

  /** At the leftmost match, the group starts after the whitespace run and is the identifier run there. */
  lemma GroupOfMatch(s: string, p: nat, cls: IdentClass)
    requires p < |s| && MatchesAt(s, p, cls)
    ensures GroupShape(s, p, GroupStart(s, p), GreedyGroup(s, p, cls), cls)
  {
    var q := GroupStart(s, p);
    assert q < |s| && InClass(s[q], Ident(cls));
    var n := Run(s, q, Ident(cls));
    assert n >= 1;
    assert AllInRange(s, p + 5, q, Whitespace);
    assert MaximalIdentAt(s, q, s[q..q + n], cls);
  }

  /** `detect_table_name(user_text)`, as the source's regex behaves. */
  function DetectTableName(userText: string): string {
    DetectWith(userText, IgnoreCaseRange)
  }

  /**
   * `detect_table_name` returns "" exactly when there is no qualifying
   * `table` occurrence; otherwise the name of the leftmost one, made of
   * characters of `[a-zA-Z0-9_]` as matched under `re.IGNORECASE`.
   */
  lemma DetectTableNameMeaning(userText: string)
    ensures DetectTableName(userText) == "" <==> forall p :: 0 <= p < |userText| ==> !QualifyingAt(userText, p, IgnoreCaseRange)
    ensures DetectTableName(userText) != "" ==> exists p, q :: GroupAt(userText, p, q, DetectTableName(userText), IgnoreCaseRange)
    ensures var r := DetectTableName(userText); forall i :: 0 <= i < |r| ==> IsAsciiWordChar(r[i]) || IsCaseFoldedLatin(r[i])
  {
    var r := DetectTableName(userText);
    assert r == DetectWith(userText, IgnoreCaseRange);
    DetectWithMeaning(userText, IgnoreCaseRange);
    GroupIsIdentifier(userText, r, IgnoreCaseRange);
  }


  /** The description in DetectWith's contract admits exactly one name. */
  lemma {:induction false} DetectedNameIsDetermined(s: string, p: int, q: int, r: string, cls: IdentClass)
    requires GroupAt(s, p, q, r, cls)
    ensures DetectWith(s, cls) == r
  {
    DetectWithMeaning(s, cls);
    var d := DetectWith(s, cls);
    assert d != "" by {
      assert 0 <= p < |s| && QualifyingAt(s, p, cls);
    }
    var p', q' :| GroupAt(s, p', q', d, cls);
    assert p == p' by {
      LeftmostIsUnique(s, p, p', cls);
    }
    GroupIsGreedy(s, p, q, r, cls);
    GroupIsGreedy(s, p', q', d, cls);
  }

  lemma LeftmostIsUnique(s: string, p: int, p': int, cls: IdentClass)
    requires Leftmost(s, p, cls) && Leftmost(s, p', cls)
    ensures p == p'
  {
  }

  /** A reported group consists of identifier characters only. */
  lemma GroupIsIdentifier(s: string, r: string, cls: IdentClass)
    requires r != "" ==> exists p, q :: GroupAt(s, p, q, r, cls)
    ensures r != "" ==> AllIn(r, Ident(cls))
  {
    if r != "" {
      var p, q :| GroupAt(s, p, q, r, cls);
      forall i | 0 <= i < |r|
        ensures InClass(r[i], Ident(cls))
      {
        assert r[i] == s[q..q + |r|][i] == s[q + i];
      }
    }
  }

  /** The whitespace and the identifier of a group are the greedy runs. */
  lemma GroupIsGreedy(s: string, p: nat, q: int, r: string, cls: IdentClass)
    requires p + 5 < q <= |s| && AllInRange(s, p + 5, q, Whitespace)
    requires MaximalIdentAt(s, q, r, cls)
    ensures r == GreedyGroup(s, p, cls)
  {
    assert q == GroupStart(s, p) by {
      assert q < |s| && InClass(s[q], Ident(cls));
      WhitespaceRunEndsAt(s, p + 5, q, cls);
    }
    assert Run(s, q, Ident(cls)) == |r| by {
      RunIsUnique(s, q, |r|, Ident(cls));
    }
  }

  /** Corrected detector: the identifier class read as the ASCII characters it spells out. */
  function DetectTableNameAscii(userText: string): string {
    DetectWith(userText, AsciiOnly)
  }

  /** The corrected detector keeps the meaning and returns ASCII identifier characters only. */
  lemma DetectTableNameAsciiMeaning(userText: string)
    ensures DetectTableNameAscii(userText) == "" <==> forall p :: 0 <= p < |userText| ==> !QualifyingAt(userText, p, AsciiOnly)
    ensures DetectTableNameAscii(userText) != "" ==> exists p, q :: GroupAt(userText, p, q, DetectTableNameAscii(userText), AsciiOnly)
    ensures var r := DetectTableNameAscii(userText); forall i :: 0 <= i < |r| ==> IsAsciiWordChar(r[i])
  {
    var r := DetectTableNameAscii(userText);
    assert r == DetectWith(userText, AsciiOnly);
    DetectWithMeaning(userText, AsciiOnly);
    GroupIsIdentifier(userText, r, AsciiOnly);
  }


  /** User text whose table name starts with U+212A KELVIN SIGN. */
  const KelvinText := "table \U{212A}ey"

  /** As written, a Kelvin sign after `table ` is returned as part of the table name. */
  lemma KelvinSignIsDetected()
    ensures DetectTableName(KelvinText) == "\U{212A}ey"
    ensures !IsAsciiWordChar("\U{212A}ey"[0])
  {
    KelvinTextMatchesAtStart();
    KelvinTextFirstMatch();
  }

  lemma KelvinTextFirstMatch()
    ensures FindMatch(KelvinText, IgnoreCaseRange) == Some(0)
  {
    KelvinTextMatchesAtStart();
  }

  lemma KelvinTextMatchesAtStart()
    ensures MatchesAt(KelvinText, 0, IgnoreCaseRange)
    ensures GreedyGroup(KelvinText, 0, IgnoreCaseRange) == "\U{212A}ey"
  {
    KelvinTextKeyword();
    KelvinTextRuns();
    assert GreedyGroup(KelvinText, 0, IgnoreCaseRange) == KelvinText[6..9];
  }

  lemma KelvinTextKeyword()
    ensures KeywordAt(KelvinText, 0)
  {
    assert KelvinText[0..5] == "table";
  }

  lemma KelvinTextRuns()
    ensures Run(KelvinText, 5, Whitespace) == 1
    ensures Run(KelvinText, 6, Ident(IgnoreCaseRange)) == 3
  {
    var s := KelvinText;
    assert IsSpace(s[5]) && !IsSpace(s[6]);
    RunIsUnique(s, 5, 1, Whitespace);
    assert InClass(s[6], Ident(IgnoreCaseRange)) && InClass(s[7], Ident(IgnoreCaseRange));
    assert InClass(s[8], Ident(IgnoreCaseRange));
    RunIsUnique(s, 6, 3, Ident(IgnoreCaseRange));
  }

  // ---------------------------------------------------------------------
  // fetch_specific_table: guard and query
  // ---------------------------------------------------------------------

  datatype QueryError = ValueError(message: string)

  const InvalidTableNameFormat := ValueError("Invalid table name format.")

  /** Raised by `f"{limit}"` for an `int` with more than `IntMaxStrDigits` digits. */
  const IntStrDigitsExceeded :=
    ValueError("Exceeds the limit (4300 digits) for integer string conversion; use sys.set_int_max_str_digits() to increase the limit")

  /**
   * `re.match(r'^\w+$', name)`: one or more word characters from the start,
   * then `$`, which matches at the end or just before a final newline.
   */
  function AcceptsTableName(name: string): (b: bool)
    ensures b <==> || (|name| >= 1 && AllIn(name, Word))
                   || (|name| >= 2 && name[|name| - 1] == '\n' && AllIn(name[..|name| - 1], Word))
  {
    var k := Run(name, 0, Word);
    AnchoredWordRun(name);
    k >= 1 && (k == |name| || (k == |name| - 1 && name[k] == '\n'))
  }

  /** How the greedy `\w+` run from the start decides `^\w+$`. */
  lemma AnchoredWordRun(name: string)
    ensures var k := Run(name, 0, Word);
            (k >= 1 && (k == |name| || (k == |name| - 1 && name[k] == '\n')))
            <==> || (|name| >= 1 && AllIn(name, Word))
                 || (|name| >= 2 && name[|name| - 1] == '\n' && AllIn(name[..|name| - 1], Word))
  {
    var k := Run(name, 0, Word);
    assert AllIn(name, Word) <==> AllInRange(name, 0, |name|, Word);
    if |name| >= 1 {
      var init := name[..|name| - 1];
      assert AllIn(init, Word) <==> AllInRange(name, 0, |name| - 1, Word) by {
        assert forall i :: 0 <= i < |init| ==> init[i] == name[i];
      }
      if k == |name| - 1 && k >= 1 {
        assert !AllIn(name, Word) by { assert !InClass(name[k], Word); }
      }
      if |name| >= 2 && name[|name| - 1] == '\n' && AllIn(init, Word) {
        assert !InClass(name[|name| - 1], Word);
        RunIsUnique(name, 0, |name| - 1, Word);
      }
    }
    if |name| >= 1 && AllIn(name, Word) {
      RunIsUnique(name, 0, |name|, Word);
    }
  }

  /** Corrected guard: non-empty and word characters only. */
  function AcceptsTableNameStrict(name: string): (b: bool)
    ensures b <==> |name| >= 1 && AllIn(name, Word)
  {
    var k := Run(name, 0, Word);
    assert AllIn(name, Word) <==> AllInRange(name, 0, |name|, Word);
    if k < |name| then false else k >= 1
  }

  /** The `$` anchor lets a name with a trailing newline through. */
  lemma TrailingNewlinePassesGuard()
    ensures AcceptsTableName("orders\n")
    ensures !AcceptsTableNameStrict("orders\n")
  {
    assert "orders\n"[..6] == "orders";
    assert !InClass("orders\n"[6], Word);
  }

  const SelectTop := "SELECT TOP "
  const FromClause := " * FROM "

  /** `f"SELECT TOP {limit} * FROM {table_name};"`. */
  function TopQuery(name: string, limit: int): string {
    SelectTop + IntToDecimal(limit) + FromClause + name + ";"
  }

  /** Index of the first space at or after `i`, or `|s|`. */
  function IndexOfSpace(s: string, i: nat): (k: nat)
    requires i <= |s|
    ensures i <= k <= |s| && (k < |s| ==> s[k] == ' ')
    ensures forall j :: i <= j < k ==> s[j] != ' '
    decreases |s| - i
  {
    if i == |s| || s[i] == ' ' then i else IndexOfSpace(s, i + 1)
  }

  /** Reads the row limit and the table name back out of a `SELECT TOP` query. */
  function ParseTopQuery(q: string): Option<(int, string)> {
    if |q| < |SelectTop| || q[..|SelectTop|] != SelectTop then
      None
    else
      var rest := q[|SelectTop|..];
      var k := IndexOfSpace(rest, 0);
      var tail := rest[k..];
      if |tail| < |FromClause| + 1 || tail[..|FromClause|] != FromClause || tail[|tail| - 1] != ';' then
        None
      else
        match ParseInt(rest[..k])
        case None => None
        case Some(limit) => Some((limit, tail[|FromClause|..|tail| - 1]))
  }

  /** The query text names exactly the given limit and table: nothing is lost or merged. */
  lemma TopQueryRoundTrip(name: string, limit: int)
    ensures ParseTopQuery(TopQuery(name, limit)) == Some((limit, name))
  {
    var d := IntToDecimal(limit);
    var tail := FromClause + name + ";";
    TopQueryParts(name, limit);
    NumberEndsAtSpace(d, tail);
    TailParts(name);
    IntDecimalRoundTrip(limit);
  }

  lemma TopQueryParts(name: string, limit: int)
    ensures var q := TopQuery(name, limit);
            && q[..|SelectTop|] == SelectTop
            && q[|SelectTop|..] == IntToDecimal(limit) + (FromClause + name + ";")
  {
  }

  /** The number ends where the first space of the rest begins. */
  lemma NumberEndsAtSpace(d: string, tail: string)
    requires forall j :: 0 <= j < |d| ==> d[j] != ' '
    requires |tail| >= 1 && tail[0] == ' '
    ensures IndexOfSpace(d + tail, 0) == |d|
    ensures (d + tail)[..|d|] == d && (d + tail)[|d|..] == tail
  {
    var rest := d + tail;
    assert rest[|d|] == ' ';
    assert forall j :: 0 <= j < |d| ==> rest[j] == d[j];
  }

  lemma TailParts(name: string)
    ensures var tail := FromClause + name + ";";
            && tail[..|FromClause|] == FromClause
            && tail[|FromClause|..|tail| - 1] == name
            && tail[|tail| - 1] == ';'
  {
  }


  /**
   * The guard and query of `fetch_specific_table`: the query is built only
   * for names that pass `^\w+$` (any other name raises `ValueError`) and
   * for limits that `f"{limit}"` can render (more than 4300 digits raise
   * `ValueError` as well).
   */
  function TableQuery(tableName: string, limit: int): (r: Result<string, QueryError>)
    ensures r.Ok? <==> AcceptsTableName(tableName) && DigitCount(limit) <= IntMaxStrDigits
    ensures r.Ok? ==> ParseTopQuery(r.value) == Some((limit, tableName))
    ensures !(AcceptsTableName(tableName)) ==> r == Err(InvalidTableNameFormat)
    ensures AcceptsTableName(tableName) && DigitCount(limit) > IntMaxStrDigits ==> r == Err(IntStrDigitsExceeded)
  {
    if !AcceptsTableName(tableName) then
      Err(InvalidTableNameFormat)
    else if DigitCount(limit) > IntMaxStrDigits then
      Err(IntStrDigitsExceeded)
    else
      TopQueryRoundTrip(tableName, limit);
      Ok(TopQuery(tableName, limit))
  }

  /** Corrected guard and query: the table slot of the query holds word characters only. */
  function TableQueryStrict(tableName: string, limit: int): (r: Result<string, QueryError>)
    ensures r.Ok? <==> |tableName| >= 1 && AllIn(tableName, Word) && DigitCount(limit) <= IntMaxStrDigits
    ensures r.Ok? ==> ParseTopQuery(r.value) == Some((limit, tableName))
    ensures !(|tableName| >= 1 && AllIn(tableName, Word)) ==> r == Err(InvalidTableNameFormat)
    ensures |tableName| >= 1 && AllIn(tableName, Word) && DigitCount(limit) > IntMaxStrDigits ==> r == Err(IntStrDigitsExceeded)
  {
    if !AcceptsTableNameStrict(tableName) then
      Err(InvalidTableNameFormat)
    else if DigitCount(limit) > IntMaxStrDigits then
      Err(IntStrDigitsExceeded)
    else
      TopQueryRoundTrip(tableName, limit);
      Ok(TopQuery(tableName, limit))
  }
}
