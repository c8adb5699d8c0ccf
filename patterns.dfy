/** The three regular expressions the updater uses, hand-coded as predicates
    over text, and the line classifications of the initialization patcher. */
module Patterns {
  import opened Strings

  const TrackerModule: Text := "dbdemos_tracker"

  // ---------------------------------------------------------------------
  // re.search(r'from\s+dbdemos_tracker|import\s+dbdemos_tracker', content)

  /** `kw\s+dbdemos_tracker` matches at index i. The `\s+` run is forced to be
      maximal because the module name does not start with whitespace. */
  predicate ImportPhraseAt(s: Text, i: nat, kw: Text) {
    OccursAt(s, kw, i) &&
    var j := i + |kw|;
    var n := LeadingSpace(s[j..]);
    n >= 1 && OccursAt(s, TrackerModule, j + n)
  }

  predicate MentionsTrackerImport(s: Text) {
    exists i: nat | i <= |s| :: ImportPhraseAt(s, i, "from") || ImportPhraseAt(s, i, "import")
  }

  /** The regular-expression reading of `kw\s+dbdemos_tracker` at i: some
      non-empty whitespace run, of any length, then the module name. */
  predicate RegexImportAt(s: Text, i: nat, kw: Text) {
    exists j: nat | i + |kw| < j <= |s| ::
      OccursAt(s, kw, i) && AllSpace(s[i + |kw|..j]) && OccursAt(s, TrackerModule, j)
  }

  lemma ImportPhraseIsRegexMatch(s: Text, i: nat, kw: Text)
    requires ImportPhraseAt(s, i, kw)
    ensures RegexImportAt(s, i, kw)
  {
    var j := i + |kw|;
    var n := LeadingSpace(s[j..]);
    assert s[j..j + n] == s[j..][..n];
    assert AllSpace(s[j..j + n]);
    assert OccursAt(s, TrackerModule, j + n);
  }

  lemma RegexMatchIsImportPhrase(s: Text, i: nat, kw: Text)
    requires RegexImportAt(s, i, kw)
    ensures ImportPhraseAt(s, i, kw)
  {
    var j: nat :| i + |kw| < j <= |s| && OccursAt(s, kw, i) && AllSpace(s[i + |kw|..j]) && OccursAt(s, TrackerModule, j);
    var t := s[i + |kw|..];
    var m := j - (i + |kw|);
    assert t[..m] == s[i + |kw|..j];
    assert t[m] == s[j] == TrackerModule[0] == 'd';
    LeadingSpaceExact(t, m);
  }

  /** The deterministic predicate agrees with the regular-expression reading. */
  lemma ImportPhraseIsRegex(s: Text, i: nat, kw: Text)
    ensures ImportPhraseAt(s, i, kw) <==> RegexImportAt(s, i, kw)
  {
    if ImportPhraseAt(s, i, kw) { ImportPhraseIsRegexMatch(s, i, kw); }
    if RegexImportAt(s, i, kw) { RegexMatchIsImportPhrase(s, i, kw); }
  }

  /** Either spelling the initialization patcher looks for before it edits a file. */
  predicate AlreadyImports(content: Text) {
    Contains(content, "import dbdemos_tracker") || Contains(content, "from dbdemos_tracker")
  }

  /** `kw dbdemos_tracker` with one space is an instance of the pattern. */
  lemma PhraseImpliesImport(s: Text, i: nat, kw: Text)
    requires OccursAt(s, kw + " " + TrackerModule, i)
    ensures ImportPhraseAt(s, i, kw)
  {
    var p := kw + " " + TrackerModule;
    var w := s[i..i + |p|];
    assert s[i..i + |kw|] == w[..|kw|] == kw;
    var j := i + |kw|;
    var t := s[j..];
    assert t[0] == w[|kw|] == ' ';
    assert t[1] == w[|kw| + 1] == TrackerModule[0] == 'd';
    assert t[..1] == [' '];
    LeadingSpaceExact(t, 1);
    assert s[j + 1..j + 1 + |TrackerModule|] == w[|kw| + 1..] == TrackerModule;
  }

  /** Whatever stops the initialization patcher also makes the detector report
      the tracker (for a scanned, readable file). */
  lemma AlreadyImportsIsDetected(s: Text)
    requires AlreadyImports(s)
    ensures MentionsTrackerImport(s)
  {
    var kw := if Contains(s, "import dbdemos_tracker") then "import" else "from";
    assert kw + " " + TrackerModule == if kw == "import" then "import dbdemos_tracker" else "from dbdemos_tracker";
    var i: nat :| i <= |s| && OccursAt(s, kw + " " + TrackerModule, i);
    PhraseImpliesImport(s, i, kw);
  }

  /** The converse fails: the detector accepts any whitespace run, the guard
      only a single space. */
  lemma DetectorAcceptsTab()
    ensures MentionsTrackerImport("import\tdbdemos_tracker")
  {
    var s := "import\tdbdemos_tracker";
    assert s[..6] == "import";
    var t := s[6..];
    assert t[..1] == ['\t'];
    LeadingSpaceExact(t, 1);
    assert s[7..] == TrackerModule;
    assert ImportPhraseAt(s, 0, "import");
  }

  lemma GuardRejectsTab()
    ensures !AlreadyImports("import\tdbdemos_tracker")
  {
    var s := "import\tdbdemos_tracker";
    forall i: nat | i <= |s| ensures !OccursAt(s, "import dbdemos_tracker", i) {
      if i == 0 { assert s[6] != "import dbdemos_tracker"[6]; }
    }
    forall i: nat | i <= |s| ensures !OccursAt(s, "from dbdemos_tracker", i) {
      if i + 20 <= |s| {
        assert s[i..i + 20][0] == s[i];
        assert s[0] == 'i' && s[1] == 'm' && s[2] == 'p';
      }
    }
  }

  // ---------------------------------------------------------------------
  // re.match(r'def\s+main\s*\(', stripped_line)

  predicate DefMainAt(t: Text) {
    StartsWith(t, "def") &&
    var n := LeadingSpace(t[3..]);
    n >= 1 && OccursAt(t, "main", 3 + n) &&
    var m := LeadingSpace(t[7 + n..]);
    OccursAt(t, "(", 7 + n + m)
  }

  /** The regular-expression reading of `def\s+main\s*\(` at the start of t:
      a non-empty whitespace run before `main` and a possibly empty one after
      it, of any lengths. */
  predicate RegexDefMain(t: Text) {
    exists j: nat, k: nat | 3 < j && j + 4 <= k < |t| ::
      && StartsWith(t, "def") && AllSpace(t[3..j]) && OccursAt(t, "main", j)
      && AllSpace(t[j + 4..k]) && t[k] == '('
  }

  lemma DefMainIsRegexMatch(t: Text)
    requires DefMainAt(t)
    ensures RegexDefMain(t)
  {
    var n := LeadingSpace(t[3..]);
    var j := 3 + n;
    var m := LeadingSpace(t[j + 4..]);
    var k := j + 4 + m;
    assert t[3..j] == t[3..][..n];
    assert t[j + 4..k] == t[j + 4..][..m];
    assert t[k..k + 1] == "(";
    assert AllSpace(t[3..j]) && AllSpace(t[j + 4..k]) && t[k] == '(';
  }

  lemma RegexMatchIsDefMain(t: Text)
    requires RegexDefMain(t)
    ensures DefMainAt(t)
  {
    var j: nat, k: nat :| 3 < j && j + 4 <= k < |t|
      && StartsWith(t, "def") && AllSpace(t[3..j]) && OccursAt(t, "main", j)
      && AllSpace(t[j + 4..k]) && t[k] == '(';
    RegexPartsAreDefMain(t, j, k);
  }

  /** One reading of the regular expression, with its runs ending at j and k. */
  lemma RegexPartsAreDefMain(t: Text, j: nat, k: nat)
    requires 3 < j && j + 4 <= k < |t|
    requires StartsWith(t, "def") && AllSpace(t[3..j]) && OccursAt(t, "main", j)
    requires AllSpace(t[j + 4..k]) && t[k] == '('
    ensures DefMainAt(t)
  {
    MainAfterRun(t, j);
    ParenAfterRun(t, j + 4, k);
    DefMainFromParts(t, j, k);
  }

  lemma MainAfterRun(t: Text, j: nat)
    requires 3 < j && j + 4 <= |t| && AllSpace(t[3..j]) && OccursAt(t, "main", j)
    ensures LeadingSpace(t[3..]) == j - 3
  {
    assert !IsSpace(t[j]) by {
      assert t[j] == t[j..j + 4][0] == 'm';
    }
    SpaceRunEnds(t, 3, j);
  }

  lemma ParenAfterRun(t: Text, a: nat, k: nat)
    requires a <= k < |t| && AllSpace(t[a..k]) && t[k] == '('
    ensures LeadingSpace(t[a..]) == k - a && OccursAt(t, "(", k)
  {
    SpaceRunEnds(t, a, k);
    assert t[k..k + 1] == [t[k]];
  }

  /** DefMainAt from its parts: `main` at j and `(` at k, each after a
      whitespace run. */
  lemma DefMainFromParts(t: Text, j: nat, k: nat)
    requires StartsWith(t, "def") && 3 < j && j + 4 <= k < |t|
    requires LeadingSpace(t[3..]) == j - 3 && OccursAt(t, "main", j)
    requires LeadingSpace(t[j + 4..]) == k - (j + 4) && OccursAt(t, "(", k)
    ensures DefMainAt(t)
  {
    var n := LeadingSpace(t[3..]);
    assert 3 + n == j && 7 + n == j + 4;
    assert t[7 + n..] == t[j + 4..];
  }

  /** A whitespace run from a ended by a non-space at b: t[a..] has b - a
      leading spaces. */
  lemma SpaceRunEnds(t: Text, a: nat, b: nat)
    requires a <= b < |t| && AllSpace(t[a..b]) && !IsSpace(t[b])
    ensures LeadingSpace(t[a..]) == b - a
  {
    var u := t[a..];
    assert u[..b - a] == t[a..b];
    assert u[b - a] == t[b];
    LeadingSpaceExact(u, b - a);
  }

  /** The deterministic predicate agrees with the regular-expression reading. */
  lemma DefMainIsRegex(t: Text)
    ensures DefMainAt(t) <==> RegexDefMain(t)
  {
    if DefMainAt(t) { DefMainIsRegexMatch(t); }
    if RegexDefMain(t) { RegexMatchIsDefMain(t); }
  }

  // ---------------------------------------------------------------------
  // Line tests used by the patchers' scans over a file's lines

  datatype LineTest =
    | Header(name: Text)   // line.strip() == name
    | MainGuard            // '__name__' in line and '__main__' in line
    | DefMain              // re.match(r'def\s+main\s*\(', line.strip())

  predicate Holds(test: LineTest, line: Text) {
    match test
    case Header(name) => Strip(line) == name
    case MainGuard => Contains(line, "__name__") && Contains(line, "__main__")
    case DefMain => DefMainAt(Strip(line))
  }

  /** The first line at or after i that passes the test. */
  function FirstFrom(ls: seq<Text>, i: nat, test: LineTest): (r: Option<nat>)
    requires i <= |ls|
    ensures r.Some? ==> i <= r.value < |ls|
    decreases |ls| - i
  {
    if i == |ls| then None
    else if Holds(test, ls[i]) then Some(i)
    else FirstFrom(ls, i + 1, test)
  }

  /** What the search finds passes the test, and no line before it does. */
  lemma {:induction false} FirstFromFinds(ls: seq<Text>, i: nat, test: LineTest)
    requires i <= |ls|
    ensures var r := FirstFrom(ls, i, test);
      r.Some? ==> Holds(test, ls[r.value])
    ensures var r := FirstFrom(ls, i, test);
      forall k :: i <= k < |ls| && (r.None? || k < r.value) ==> !Holds(test, ls[k])
    decreases |ls| - i
  {
    if i < |ls| && !Holds(test, ls[i]) {
      FirstFromFinds(ls, i + 1, test);
    }
  }

  /** The first passing line is the one the search finds. */
  lemma FirstFromIs(ls: seq<Text>, i: nat, test: LineTest, h: nat)
    requires i <= h < |ls| && Holds(test, ls[h])
    requires forall k :: i <= k < h ==> !Holds(test, ls[k])
    ensures FirstFrom(ls, i, test) == Some(h)
  {
    FirstFromFinds(ls, i, test);
  }

  /** No passing line: the search finds nothing. */
  lemma FirstFromNone(ls: seq<Text>, i: nat, test: LineTest)
    requires i <= |ls|
    requires forall k :: i <= k < |ls| ==> !Holds(test, ls[k])
    ensures FirstFrom(ls, i, test) == None
  {
    FirstFromFinds(ls, i, test);
  }

  // ---------------------------------------------------------------------
  // re.search(r'(install_requires\s*=\s*\[)(.*?)(\])', content, re.DOTALL)

  const InstallRequires: Text := "install_requires"

  /** If `install_requires\s*=\s*\[` matches at the start of t: the length
      of that match (the first group). */
  function ListOpenLen(t: Text): (r: Option<nat>)
    ensures r.Some? ==> 18 <= r.value <= |t| && t[r.value - 1] == '['
  {
    if && StartsWith(t, InstallRequires)
       && CharAt(t, SkipSpaces(t, 16), '=')
       && CharAt(t, SkipSpaces(t, SkipSpaces(t, 16) + 1), '[')
    then Some(SkipSpaces(t, SkipSpaces(t, 16) + 1) + 1)
    else None
  }

  /** Whether the first group matches depends only on the text it spans. */
  lemma ListOpenAgree(t: Text, t': Text, k: nat)
    requires k <= |t| && k <= |t'|
    requires forall x :: 0 <= x < k ==> t[x] == t'[x]
    requires ListOpenLen(t).Some? && ListOpenLen(t).value <= k
    ensures ListOpenLen(t') == ListOpenLen(t)
  {
    assert t'[..16] == t[..16];
    SkipSpacesAgree(t, t', 16, k);
    SkipSpacesAgree(t, t', SkipSpaces(t, 16) + 1, k);
  }

  /** The first `]` at or after k: where the lazy `(.*?)` stops. */
  function CloseFrom(s: Text, k: nat): (r: Option<nat>)
    requires k <= |s|
    ensures r.Some? ==> k <= r.value < |s| && s[r.value] == ']'
    ensures forall c :: k <= c < |s| && (r.None? || c < r.value) ==> s[c] != ']'
    decreases |s| - k
  {
    if k == |s| then None else if s[k] == ']' then Some(k) else CloseFrom(s, k + 1)
  }

  /** A match: the whole match is s[start..close + 1], group 1 is
      s[start..open], group 2 is s[open..close], group 3 is "]". */
  datatype ListMatch = ListMatch(start: nat, open: nat, close: nat)

  predicate MatchesAt(s: Text, i: nat)
    requires i <= |s|
  {
    && ListOpenLen(s[i..]).Some?
    && CloseFrom(s, i + ListOpenLen(s[i..]).value).Some?
  }

  /** The leftmost match at or after i. */
  function FindListFrom(s: Text, i: nat): (r: Option<ListMatch>)
    requires i <= |s|
    ensures r.Some? ==> i <= r.value.start < r.value.open <= r.value.close < |s|
    decreases |s| - i
  {
    if MatchesAt(s, i) then
      var k := i + ListOpenLen(s[i..]).value;
      Some(ListMatch(i, k, CloseFrom(s, k).value))
    else if i == |s| then None
    else FindListFrom(s, i + 1)
  }

  /** The search finds the leftmost match at or after i, with its groups;
      None means there is none. */
  lemma FindListFromIsLeftmost(s: Text, i: nat)
    requires i <= |s|
    ensures var r := FindListFrom(s, i);
      r.Some? ==>
        && MatchesAt(s, r.value.start)
        && ListOpenLen(s[r.value.start..]) == Some(r.value.open - r.value.start)
        && CloseFrom(s, r.value.open) == Some(r.value.close)
    ensures var r := FindListFrom(s, i);
      forall k: nat :: i <= k <= |s| && (r.None? || k < r.value.start) ==> !MatchesAt(s, k)
  {
    var r := FindListFrom(s, i);
    assert r.Some? ==>
        && MatchesAt(s, r.value.start)
        && ListOpenLen(s[r.value.start..]) == Some(r.value.open - r.value.start)
        && CloseFrom(s, r.value.open) == Some(r.value.close) by {
      FindListFromGroups(s, i);
    }
    FindListFromNoEarlier(s, i);
  }

  /** A found match of the pattern, with its groups. */
  predicate GroupsOf(s: Text, r: Option<ListMatch>) {
    r.Some? ==>
      && r.value.start <= r.value.open <= |s|
      && MatchesAt(s, r.value.start)
      && ListOpenLen(s[r.value.start..]) == Some(r.value.open - r.value.start)
      && CloseFrom(s, r.value.open) == Some(r.value.close)
  }

  lemma {:induction false} FindListFromGroups(s: Text, i: nat)
    requires i <= |s|
    ensures GroupsOf(s, FindListFrom(s, i))
    decreases |s| - i
  {
    if MatchesAt(s, i) {
      MatchHereGroups(s, i);
    } else if i < |s| {
      FindListFromGroups(s, i + 1);
      NoMatchHere(s, i);
    }
  }

  /** A match at i is what the search from i returns, with its groups. */
  lemma MatchHereGroups(s: Text, i: nat)
    requires i <= |s| && MatchesAt(s, i)
    ensures FindListFrom(s, i).Some? && FindListFrom(s, i).value.start == i
    ensures GroupsOf(s, FindListFrom(s, i))
  {
    var n := ListOpenLen(s[i..]).value;
    assert FindListFrom(s, i) == Some(ListMatch(i, i + n, CloseFrom(s, i + n).value));
  }

  /** Without a match at i the search goes on at i + 1. */
  lemma NoMatchHere(s: Text, i: nat)
    requires i < |s| && !MatchesAt(s, i)
    ensures FindListFrom(s, i) == FindListFrom(s, i + 1)
  {
  }

  lemma {:induction false} FindListFromNoEarlier(s: Text, i: nat)
    requires i <= |s|
    ensures var r := FindListFrom(s, i);
      forall k: nat :: i <= k <= |s| && (r.None? || k < r.value.start) ==> !MatchesAt(s, k)
    decreases |s| - i
  {
    if !MatchesAt(s, i) && i < |s| {
      FindListFromNoEarlier(s, i + 1);
      NoMatchHere(s, i);
    }
  }

  lemma SameWindow(s: Text, i: nat, j: nat, L: nat)
    requires i + L <= |s| && OccursAt(s, s[i..i + L], j)
    ensures forall x :: 0 <= x < L ==> s[i..][x] == s[j..][x]
  {
    forall x | 0 <= x < L ensures s[i..][x] == s[j..][x] {
      assert s[i..i + L][x] == s[j..j + L][x];
    }
  }

  /** The pattern matches at j when the text at j agrees with a match at i
      up to and including its closing bracket. */
  lemma MatchesAtAgreeing(s: Text, i: nat, g: nat, c: nat, j: nat)
    requires i + c < |s| && g <= c && j + c < |s|
    requires ListOpenLen(s[i..]) == Some(g) && s[i + c] == ']'
    requires forall x :: 0 <= x < c + 1 ==> s[i..][x] == s[j..][x]
    ensures MatchesAt(s, j)
  {
    ListOpenAgree(s[i..], s[j..], c + 1);
    assert s[j + c] == s[j..][c] == s[i..][c] == ']';
  }

  /** A match's text determines the match: wherever the same text occurs, the
      pattern matches there too. */
  lemma MatchTextDeterminesMatch(s: Text, m: ListMatch, j: nat)
    requires m.start < m.open <= m.close < |s|
    requires ListOpenLen(s[m.start..]) == Some(m.open - m.start) && s[m.close] == ']'
    requires OccursAt(s, s[m.start..m.close + 1], j)
    ensures MatchesAt(s, j)
  {
    SameWindow(s, m.start, j, m.close + 1 - m.start);
    MatchesAtAgreeing(s, m.start, m.open - m.start, m.close - m.start, j);
  }
}
