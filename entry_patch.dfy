/** add_tracker_init_to_file on a file's text: the import line, then one
    initialize call placed by a three-way heuristic. The spec functions state
    where each line goes; the methods scan the line list the way the updater
    does and are proved to agree with them. */
module EntryPatch {
  import opened Strings
  import opened Patterns

  const ImportLine: Text := "import dbdemos_tracker"
  const InitCall: Text := TrackerModule + ".initialize()"
  /** The call as written into a `__main__` block: always four spaces. */
  const GuardCall: Text := "    " + InitCall
  const InitComment: Text := "# Initialize dbdemos tracker"
  /** The three lines appended when no place is found. */
  const Trailer: seq<Text> := [[], InitComment, InitCall]

  // ---------------------------------------------------------------------
  // Where the import goes

  // The line tests below read the line from its first non-space character,
  // the position where strip() begins; the ...Agrees lemmas show each equals
  // the strip()-based test the updater writes.

  /** line.strip() == "" */
  predicate IsBlank(line: Text) {
    SkipSpaces(line, 0) == |line|
  }

  /** line.strip().startswith(kw), for a keyword that ends in a space. */
  predicate KeywordFirst(line: Text, kw: Text) {
    var a := SkipSpaces(line, 0);
    OccursAt(line, kw, a) && SkipSpaces(line, a + |kw|) < |line|
  }

  predicate IsImportLike(line: Text) {
    KeywordFirst(line, "import ") || KeywordFirst(line, "from ")
  }

  lemma BlankAgrees(line: Text)
    ensures IsBlank(line) <==> Strip(line) == []
  {
    var b := StripWindow(line);
    SkipSpacesStops(line, 0);
  }

  lemma KeywordFirstAgrees(line: Text, kw: Text)
    requires kw != [] && kw[|kw| - 1] == ' '
    ensures KeywordFirst(line, kw) <==> StartsWith(Strip(line), kw)
  {
    if KeywordFirst(line, kw) {
      KeywordFirstIsStripPrefix(line, kw);
    }
    if StartsWith(Strip(line), kw) {
      StripPrefixIsKeywordFirst(line, kw);
    }
  }

  lemma KeywordFirstIsStripPrefix(line: Text, kw: Text)
    requires KeywordFirst(line, kw)
    ensures StartsWith(Strip(line), kw)
  {
    var b := StripWindow(line);
    KeywordFirstInWindow(line, kw, b);
  }

  lemma StripPrefixIsKeywordFirst(line: Text, kw: Text)
    requires kw != [] && kw[|kw| - 1] == ' '
    requires StartsWith(Strip(line), kw)
    ensures KeywordFirst(line, kw)
  {
    var b := StripWindow(line);
    WindowPrefixIsKeywordFirst(line, kw, b);
  }

  /** The two directions on the window line[a..b] that strip() keeps, where
      a is the first non-space and line[b - 1] the last one. */
  lemma KeywordFirstInWindow(line: Text, kw: Text, b: nat)
    requires SkipSpaces(line, 0) <= b <= |line|
    requires SpacesFrom(line, b)
    requires KeywordFirst(line, kw)
    ensures StartsWith(line[SkipSpaces(line, 0)..b], kw)
  {
    var a := SkipSpaces(line, 0);
    SkipSpacesEnd(line, a + |kw|);
    KeywordBeforeWindowEnd(line, kw, a, SkipSpaces(line, a + |kw|), b);
  }

  /** A keyword at a followed by a non-space at c lies inside a window that
      ends at b with only spaces after it. */
  lemma KeywordBeforeWindowEnd(line: Text, kw: Text, a: nat, c: nat, b: nat)
    requires OccursAt(line, kw, a) && a + |kw| <= c < |line| && !IsSpace(line[c])
    requires a <= b <= |line| && SpacesFrom(line, b)
    ensures StartsWith(line[a..b], kw)
  {
    assert c < b;
    assert line[a..b][..|kw|] == line[a..a + |kw|];
  }

  lemma WindowPrefixIsKeywordFirst(line: Text, kw: Text, b: nat)
    requires kw != [] && kw[|kw| - 1] == ' '
    requires SkipSpaces(line, 0) < b <= |line| && !IsSpace(line[b - 1])
    requires StartsWith(line[SkipSpaces(line, 0)..b], kw)
    ensures KeywordFirst(line, kw)
  {
    var a := SkipSpaces(line, 0);
    KeywordInWindow(line, kw, a, b);
    SkipSpacesStops(line, a + |kw|);
  }

  /** A keyword ending in a space at the start of a window that ends in a
      non-space occurs there and ends inside the window. */
  lemma KeywordInWindow(line: Text, kw: Text, a: nat, b: nat)
    requires kw != [] && kw[|kw| - 1] == ' '
    requires a < b <= |line| && !IsSpace(line[b - 1])
    requires StartsWith(line[a..b], kw)
    ensures OccursAt(line, kw, a) && a + |kw| < b
  {
    assert line[a..a + |kw|] == line[a..b][..|kw|];
    assert line[a + |kw| - 1] == kw[|kw| - 1];
  }

  lemma IsImportLikeAgrees(line: Text)
    ensures IsImportLike(line) <==>
      StartsWith(Strip(line), "import ") || StartsWith(Strip(line), "from ")
  {
    KeywordFirstAgrees(line, "import ");
    KeywordFirstAgrees(line, "from ");
  }

  /** One past the last import-like line, or 0 when there is none. */
  function ImportIndex(ls: seq<Text>): (r: nat)
    ensures r <= |ls|
  {
    if ls == [] then 0
    else if IsImportLike(ls[|ls| - 1]) then |ls|
    else ImportIndex(ls[..|ls| - 1])
  }

  /** The index is right after the last import-like line; no line from it on
      is import-like, so 0 means there is none. */
  lemma {:induction false} ImportIndexIsAfterLast(ls: seq<Text>)
    ensures ImportIndex(ls) > 0 ==> IsImportLike(ls[ImportIndex(ls) - 1])
    ensures forall k :: ImportIndex(ls) <= k < |ls| ==> !IsImportLike(ls[k])
  {
    if ls != [] && !IsImportLike(ls[|ls| - 1]) {
      ImportIndexIsAfterLast(ls[..|ls| - 1]);
      ImportIndexDropLast(ls);
    }
  }

  /** A last line that is not import-like leaves the index where the lines
      before it put it. */
  lemma ImportIndexDropLast(ls: seq<Text>)
    requires ls != [] && !IsImportLike(ls[|ls| - 1])
    requires var p := ls[..|ls| - 1];
      ImportIndex(p) > 0 ==> IsImportLike(p[ImportIndex(p) - 1])
    requires var p := ls[..|ls| - 1];
      forall k :: ImportIndex(p) <= k < |p| ==> !IsImportLike(p[k])
    ensures ImportIndex(ls) > 0 ==> IsImportLike(ls[ImportIndex(ls) - 1])
    ensures forall k :: ImportIndex(ls) <= k < |ls| ==> !IsImportLike(ls[k])
  {
    var p := ls[..|ls| - 1];
    var n := ImportIndex(p);
    assert ImportIndex(ls) == n;
    if n > 0 { assert ls[n - 1] == p[n - 1]; }
    forall k | n <= k < |ls| ensures !IsImportLike(ls[k]) {
      if k < |p| { assert ls[k] == p[k]; }
    }
  }

  /** The updater's scan: every import-like line moves the index past it. */
  method FindImportIndex(lines: seq<Text>) returns (idx: nat)
    ensures idx == ImportIndex(lines)
  {
    idx := 0;
    for i := 0 to |lines|
      invariant idx == ImportIndex(lines[..i])
    {
      assert lines[..i + 1][..i] == lines[..i];
      if IsImportLike(lines[i]) {
        idx := i + 1;
      }
    }
    assert lines[..|lines|] == lines;
  }

  // ---------------------------------------------------------------------
  // Where the call goes

  /** Blank, or indented by a space or a tab: still inside the guarded block. */
  predicate InGuardBlock(line: Text) {
    IsBlank(line) || StartsWith(line, " ") || StartsWith(line, "\t")
  }

  /** Blank or a comment: skipped when looking for the first statement. */
  predicate IsFiller(line: Text) {
    var a := SkipSpaces(line, 0);
    a == |line| || line[a] == '#'
  }

  lemma InGuardBlockAgrees(line: Text)
    ensures InGuardBlock(line) <==>
      Strip(line) == [] || StartsWith(line, " ") || StartsWith(line, "\t")
  {
    BlankAgrees(line);
  }

  lemma IsFillerAgrees(line: Text)
    ensures IsFiller(line) <==> Strip(line) == [] || StartsWith(Strip(line), "#")
  {
    BlankAgrees(line);
    var a := SkipSpaces(line, 0);
    var b := StripWindow(line);
    if a < |line| {
      SkipSpacesStops(line, 0);
      assert b > a;
      assert Strip(line)[0] == line[a];
    }
  }

  /** The scan of a `__main__` block from j: the first statement line, if
      one comes before the block ends. */
  function GuardScan(ls: seq<Text>, j: nat): (r: Option<nat>)
    requires j <= |ls|
    ensures r.Some? ==> j <= r.value < |ls|
    decreases |ls| - j
  {
    if j == |ls| || !InGuardBlock(ls[j]) then None
    else if !IsFiller(ls[j]) then Some(j)
    else GuardScan(ls, j + 1)
  }

  /** Lines j up to e are all indented or blank fillers. */
  predicate FillerBlock(ls: seq<Text>, j: nat, e: nat)
    requires j <= e <= |ls|
  {
    forall k :: j <= k < e ==> InGuardBlock(ls[k]) && IsFiller(ls[k])
  }

  /** Some(s): the block lines from j up to s are fillers, and s is the first
      statement. None: the block ends (or the file does) before a statement. */
  lemma {:induction false} GuardScanFinds(ls: seq<Text>, j: nat)
    requires j <= |ls|
    ensures GuardScan(ls, j).Some? ==>
      var s := GuardScan(ls, j).value;
      InGuardBlock(ls[s]) && !IsFiller(ls[s]) && FillerBlock(ls, j, s)
    ensures GuardScan(ls, j).None? ==>
      exists e :: j <= e <= |ls| && FillerBlock(ls, j, e) && (e == |ls| || !InGuardBlock(ls[e]))
    decreases |ls| - j
  {
    if j == |ls| || !InGuardBlock(ls[j]) {
      assert FillerBlock(ls, j, j);
    } else if IsFiller(ls[j]) {
      GuardScanFinds(ls, j + 1);
      match GuardScan(ls, j + 1)
      case Some(s) =>
        assert FillerBlock(ls, j, s);
      case None =>
        var e :| j + 1 <= e <= |ls| && FillerBlock(ls, j + 1, e) && (e == |ls| || !InGuardBlock(ls[e]));
        assert FillerBlock(ls, j, e);
    }
  }

  /** The converse of GuardScanFinds: a statement line s preceded in the
      block only by fillers is what the scan finds. */
  lemma {:induction false} GuardScanIs(ls: seq<Text>, j: nat, s: nat)
    requires j <= s < |ls|
    requires forall k :: j <= k < s ==> InGuardBlock(ls[k]) && IsFiller(ls[k])
    requires InGuardBlock(ls[s]) && !IsFiller(ls[s])
    ensures GuardScan(ls, j) == Some(s)
    decreases s - j
  {
    if j < s {
      assert InGuardBlock(ls[j]) && IsFiller(ls[j]);
      GuardScanIs(ls, j + 1, s);
    }
  }

  /** The first non-filler line at or after j, or |ls|. */
  function SkipFillers(ls: seq<Text>, j: nat): (r: nat)
    requires j <= |ls|
    ensures j <= r <= |ls|
    decreases |ls| - j
  {
    if j < |ls| && IsFiller(ls[j]) then SkipFillers(ls, j + 1) else j
  }

  lemma {:induction false} SkipFillersStops(ls: seq<Text>, j: nat)
    requires j <= |ls|
    ensures forall k :: j <= k < SkipFillers(ls, j) ==> IsFiller(ls[k])
    ensures SkipFillers(ls, j) < |ls| ==> !IsFiller(ls[SkipFillers(ls, j)])
    decreases |ls| - j
  {
    if j < |ls| && IsFiller(ls[j]) {
      SkipFillersStops(ls, j + 1);
    }
  }

  lemma {:induction false} SkipFillersIs(ls: seq<Text>, j: nat, s: nat)
    requires j <= s < |ls|
    requires forall k :: j <= k < s ==> IsFiller(ls[k])
    requires !IsFiller(ls[s])
    ensures SkipFillers(ls, j) == s
    decreases s - j
  {
    if j < s {
      assert IsFiller(ls[j]);
      SkipFillersIs(ls, j + 1, s);
    }
  }

  /** Rule 1: the first statement of the block after the first line that
      mentions both `__name__` and `__main__`. */
  function GuardSlot(ls: seq<Text>): (r: Option<nat>)
    ensures r.Some? ==> r.value < |ls|
  {
    match FirstFrom(ls, 0, MainGuard)
    case None => None
    case Some(i) => GuardScan(ls, i + 1)
  }

  /** Rule 2: the first non-filler line after the first `def main(` line. */
  function MainSlot(ls: seq<Text>): (r: Option<nat>)
    ensures r.Some? ==> r.value < |ls|
  {
    match FirstFrom(ls, 0, DefMain)
    case None => None
    case Some(i) =>
      var j := SkipFillers(ls, i + 1);
      if j < |ls| then Some(j) else None
  }

  /** The call as inserted before line j by rule 2: indented by as many spaces
      as line j has leading whitespace characters. */
  function IndentedCall(ls: seq<Text>, j: nat): Text
    requires j < |ls|
  {
    Spaces(LeadingSpace(ls[j])) + InitCall
  }

  /** The inserted line has as many leading whitespace characters as line j,
      and the call follows them. */
  lemma IndentedCallKeepsIndent(ls: seq<Text>, j: nat)
    requires j < |ls|
    ensures var r := IndentedCall(ls, j); var n := LeadingSpace(ls[j]);
      LeadingSpace(r) == n && r[n..] == InitCall
  {
    var r := IndentedCall(ls, j);
    var n := LeadingSpace(ls[j]);
    assert r[..n] == Spaces(n) && r[n..] == InitCall;
    LeadingSpaceExact(r, n);
  }

  /** The line list after the call is placed. */
  function PlaceCall(ls: seq<Text>): seq<Text> {
    match GuardSlot(ls)
    case Some(j) => Insert(ls, j, GuardCall)
    case None =>
      match MainSlot(ls)
      case Some(j) => Insert(ls, j, IndentedCall(ls, j))
      case None => ls + Trailer
  }

  /** The outer loop of both rules: the first line that passes the test. */
  method FindFirst(lines: seq<Text>, test: LineTest) returns (first: Option<nat>)
    ensures first == FirstFrom(lines, 0, test)
  {
    var i := 0;
    while i < |lines|
      invariant 0 <= i <= |lines|
      invariant FirstFrom(lines, 0, test) == FirstFrom(lines, i, test)
    {
      if Holds(test, lines[i]) {
        return Some(i);
      }
      i := i + 1;
    }
    return None;
  }

  /** The scan for rule 1: the first guard line, then the block after it. */
  method FindGuardSlot(lines: seq<Text>) returns (slot: Option<nat>)
    ensures slot == GuardSlot(lines)
  {
    var first := FindFirst(lines, MainGuard);
    if first.None? {
      return None;
    }
    var i := first.value;
    var j := i + 1;
    while j < |lines| && InGuardBlock(lines[j])
      invariant i + 1 <= j <= |lines|
      invariant GuardScan(lines, i + 1) == GuardScan(lines, j)
    {
      if !IsFiller(lines[j]) {
        return Some(j);
      }
      j := j + 1;
    }
    return None;
  }

  /** The scan for rule 2: the first `def main(` line, then past the fillers. */
  method FindMainSlot(lines: seq<Text>) returns (slot: Option<nat>)
    ensures slot == MainSlot(lines)
  {
    var first := FindFirst(lines, DefMain);
    if first.None? {
      return None;
    }
    var i := first.value;
    var j := i + 1;
    while j < |lines| && IsFiller(lines[j])
      invariant i + 1 <= j <= |lines|
      invariant SkipFillers(lines, i + 1) == SkipFillers(lines, j)
    {
      j := j + 1;
    }
    if j < |lines| {
      return Some(j);
    }
    return None;
  }

  /** The three-way placement, in the updater's order. */
  method PlaceInitCall(lines: seq<Text>) returns (out: seq<Text>)
    ensures out == PlaceCall(lines)
  {
    var slot := FindGuardSlot(lines);
    if slot.Some? {
      return Insert(lines, slot.value, GuardCall);
    }
    slot := FindMainSlot(lines);
    if slot.Some? {
      var indent := LeadingSpace(lines[slot.value]);
      return Insert(lines, slot.value, Spaces(indent) + InitCall);
    }
    out := lines + Trailer;
  }

  // ---------------------------------------------------------------------
  // The whole edit

  /** The lines after the import is inserted. */
  function WithImport(ls: seq<Text>): seq<Text> {
    Insert(ls, ImportIndex(ls), ImportLine)
  }

  /** add_tracker_init_to_file on readable content: None is "return False,
      no write"; Some(c) is "write c, return True". */
  function InitEdit(content: Text): (r: Option<Text>)
    ensures r.None? <==> AlreadyImports(content)
  {
    if AlreadyImports(content) then None
    else Some(Join(PlaceCall(WithImport(Lines(content)))))
  }

  /** Method form of InitEdit, with the updater's scans. */
  method AddTrackerInit(content: Text) returns (r: Option<Text>)
    ensures r == InitEdit(content)
  {
    if Contains(content, "import dbdemos_tracker") || Contains(content, "from dbdemos_tracker") {
      return None;
    }
    var lines := Lines(content);
    var idx := FindImportIndex(lines);
    lines := Insert(lines, idx, ImportLine);
    lines := PlaceInitCall(lines);
    r := Some(Join(lines));
  }

  // ---------------------------------------------------------------------
  // Properties

  /** Rule 1, stated without the scan: i is the first guard line, the lines
      between it and s are indented or blank fillers, s is an indented or blank
      statement line. */
  lemma GuardRule(ls: seq<Text>, i: nat, s: nat)
    requires i < s < |ls|
    requires Holds(MainGuard, ls[i]) && forall k :: 0 <= k < i ==> !Holds(MainGuard, ls[k])
    requires forall k :: i < k < s ==> InGuardBlock(ls[k]) && IsFiller(ls[k])
    requires InGuardBlock(ls[s]) && !IsFiller(ls[s])
    ensures GuardSlot(ls) == Some(s)
    ensures PlaceCall(ls) == Insert(ls, s, GuardCall)
  {
    assert FirstFrom(ls, 0, MainGuard) == Some(i) by {
      FirstFromIs(ls, 0, MainGuard, i);
    }
    assert GuardScan(ls, i + 1) == Some(s) by {
      GuardScanIs(ls, i + 1, s);
    }
  }

  /** Rule 2, stated without the scan: rule 1 found nothing, i is the first
      `def main(` line, the lines between it and s are fillers, s is not. */
  lemma MainRule(ls: seq<Text>, i: nat, s: nat)
    requires GuardSlot(ls).None?
    requires i < s < |ls|
    requires Holds(DefMain, ls[i]) && forall k :: 0 <= k < i ==> !Holds(DefMain, ls[k])
    requires forall k :: i < k < s ==> IsFiller(ls[k])
    requires !IsFiller(ls[s])
    ensures MainSlot(ls) == Some(s)
    ensures PlaceCall(ls) == Insert(ls, s, IndentedCall(ls, s))
  {
    FirstFromIs(ls, 0, DefMain, i);
    SkipFillersIs(ls, i + 1, s);
    MainSlotIs(ls, i, s);
  }

  lemma MainSlotIs(ls: seq<Text>, i: nat, s: nat)
    requires GuardSlot(ls).None? && i < s < |ls|
    requires FirstFrom(ls, 0, DefMain) == Some(i) && SkipFillers(ls, i + 1) == s
    ensures MainSlot(ls) == Some(s)
    ensures PlaceCall(ls) == Insert(ls, s, IndentedCall(ls, s))
  {
  }

  /** The converse of GuardScanFinds' None case: a block of fillers that
      ends (or reaches the end of the file) holds no statement. */
  lemma {:induction false} GuardScanNone(ls: seq<Text>, j: nat, e: nat)
    requires j <= e <= |ls|
    requires FillerBlock(ls, j, e) && (e == |ls| || !InGuardBlock(ls[e]))
    ensures GuardScan(ls, j).None?
    decreases e - j
  {
    if j < e {
      assert InGuardBlock(ls[j]) && IsFiller(ls[j]);
      assert FillerBlock(ls, j + 1, e);
      GuardScanNone(ls, j + 1, e);
    }
  }

  /** A guard block with no statement does not stop the search: i is the
      first guard line, the lines after it up to e are indented or blank
      fillers and line e ends the block, so rule 1 finds nothing and the
      placement is left to rule 2 or the trailer. */
  lemma EmptyGuardFallsThrough(ls: seq<Text>, i: nat, e: nat)
    requires i < e <= |ls|
    requires Holds(MainGuard, ls[i]) && forall k :: 0 <= k < i ==> !Holds(MainGuard, ls[k])
    requires FillerBlock(ls, i + 1, e) && (e == |ls| || !InGuardBlock(ls[e]))
    ensures GuardSlot(ls).None?
    ensures PlaceCall(ls) == if MainSlot(ls).Some?
      then Insert(ls, MainSlot(ls).value, IndentedCall(ls, MainSlot(ls).value))
      else ls + Trailer
  {
    FirstFromIs(ls, 0, MainGuard, i);
    GuardScanNone(ls, i + 1, e);
  }

  /** The first guard line, if there is one, opens a block of fillers only. */
  predicate NoGuardStatement(ls: seq<Text>) {
    forall i :: 0 <= i < |ls| && Holds(MainGuard, ls[i]) ==>
      (exists k :: 0 <= k < i && Holds(MainGuard, ls[k]))
      || (exists e :: i < e <= |ls| && FillerBlock(ls, i + 1, e)
            && (e == |ls| || !InGuardBlock(ls[e])))
  }

  /** Only fillers follow the first `def main(` line, if there is one. */
  predicate NoMainStatement(ls: seq<Text>) {
    forall i :: 0 <= i < |ls| && Holds(DefMain, ls[i]) ==>
      (exists k :: 0 <= k < i && Holds(DefMain, ls[k]))
      || (forall k :: i < k < |ls| ==> IsFiller(ls[k]))
  }

  lemma NoGuardSlot(ls: seq<Text>)
    requires NoGuardStatement(ls)
    ensures GuardSlot(ls).None?
  {
    FirstFromFinds(ls, 0, MainGuard);
    if FirstFrom(ls, 0, MainGuard).Some? {
      var i := FirstFrom(ls, 0, MainGuard).value;
      var e :| i < e <= |ls| && FillerBlock(ls, i + 1, e)
        && (e == |ls| || !InGuardBlock(ls[e]));
      GuardScanNone(ls, i + 1, e);
    }
  }

  lemma NoMainSlot(ls: seq<Text>)
    requires NoMainStatement(ls)
    ensures MainSlot(ls).None?
  {
    FirstFromFinds(ls, 0, DefMain);
    if FirstFrom(ls, 0, DefMain).Some? {
      SkipFillersStops(ls, FirstFrom(ls, 0, DefMain).value + 1);
    }
  }

  /** Rule 3, stated on the lines: with no statement under the first guard
      line and none after the first `def main(` line, the input is kept and
      the three trailer lines follow. */
  lemma AppendRule(ls: seq<Text>)
    requires NoGuardStatement(ls) && NoMainStatement(ls)
    ensures GuardSlot(ls).None? && MainSlot(ls).None?
    ensures PlaceCall(ls) == ls + Trailer
  {
    NoGuardSlot(ls);
    NoMainSlot(ls);
  }

  /** Only insertions: removing the one added line, or the appended trailer,
      gives back the input in order. */
  lemma PlaceCallOnlyInserts(ls: seq<Text>)
    ensures var out := PlaceCall(ls);
      || (exists j :: 0 <= j <= |ls| && |out| == |ls| + 1
            && out[..j] == ls[..j] && out[j + 1..] == ls[j..] && EndsWith(out[j], InitCall))
      || out == ls + Trailer
  {
    var out := PlaceCall(ls);
    match GuardSlot(ls)
    case Some(j) =>
      assert GuardCall == "    " + InitCall;
      assert EndsWith(out[j], InitCall);
    case None =>
      match MainSlot(ls)
      case Some(j) =>
        assert EndsWith(out[j], InitCall);
      case None =>
  }

  lemma {:induction false} SpacesOneLine(n: nat)
    ensures '\n' !in Spaces(n)
  {
  }

  /** Every line the edit writes is free of newlines. */
  lemma PlaceCallNoNewlines(ls: seq<Text>)
    requires NoNewlines(ls)
    ensures NoNewlines(PlaceCall(ls))
  {
    match GuardSlot(ls)
    case Some(j) =>
      assert '\n' !in GuardCall;
      InsertKeepsNoNewlines(ls, j, GuardCall);
    case None =>
      match MainSlot(ls)
      case Some(j) =>
        IndentedCallOneLine(ls, j);
        InsertKeepsNoNewlines(ls, j, IndentedCall(ls, j));
      case None =>
        TrailerNoNewlines(ls);
  }

  lemma IndentedCallOneLine(ls: seq<Text>, j: nat)
    requires j < |ls|
    ensures '\n' !in IndentedCall(ls, j)
  {
    SpacesOneLine(LeadingSpace(ls[j]));
    assert '\n' !in InitCall;
  }

  lemma TrailerNoNewlines(ls: seq<Text>)
    requires NoNewlines(ls)
    ensures NoNewlines(ls + Trailer)
  {
    var out := ls + Trailer;
    forall k | 0 <= k < |out| ensures '\n' !in out[k] {
      if k >= |ls| { assert out[k] == Trailer[k - |ls|]; }
    }
  }

  /** The written file splits back into exactly the edited line list. */
  lemma InitEditLines(content: Text)
    requires !AlreadyImports(content)
    ensures Lines(InitEdit(content).value) == PlaceCall(WithImport(Lines(content)))
  {
    var ls := Lines(content);
    LinesNoNewlines(content);
    assert '\n' !in ImportLine;
    InsertKeepsNoNewlines(ls, ImportIndex(ls), ImportLine);
    PlaceCallNoNewlines(WithImport(ls));
    LinesJoin(PlaceCall(WithImport(ls)));
  }

  /** The import line is kept by the placement. */
  lemma PlaceCallKeeps(ls: seq<Text>, x: nat)
    requires x < |ls|
    ensures ls[x] in PlaceCall(ls)
  {
    var out := PlaceCall(ls);
    match GuardSlot(ls)
    case Some(j) =>
      if x < j { assert out[x] == out[..j][x]; } else { assert out[x + 1] == out[j + 1..][x - j]; }
    case None =>
      match MainSlot(ls)
      case Some(j) =>
        if x < j { assert out[x] == out[..j][x]; } else { assert out[x + 1] == out[j + 1..][x - j]; }
      case None =>
        assert out[x] == ls[x];
  }

  /** After an edit the file imports the tracker, so a second application
      reports no change. */
  lemma InitEditIdempotent(content: Text)
    requires InitEdit(content).Some?
    ensures InitEdit(InitEdit(content).value) == None
  {
    var ls := WithImport(Lines(content));
    var out := PlaceCall(ls);
    assert ls[ImportIndex(Lines(content))] == ImportLine;
    PlaceCallKeeps(ls, ImportIndex(Lines(content)));
    var x :| 0 <= x < |out| && out[x] == ImportLine;
    assert Contains(Join(out), "import dbdemos_tracker") by {
      ContainsJoinedLine(out, x);
    }
  }
}
