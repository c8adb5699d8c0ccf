/** The four dependency-file editors. Each is a function from the file's
    content to the content it writes: None means "no write, report False",
    Some(c) means "write c, report True". */
module Manifests {
  import opened Strings
  import opened Patterns

  const PackageName: Text := "dbdemos-tracker"
  /** What add_to_requirements appends, and what a created requirements.txt holds. */
  const RequirementLine: Text := PackageName + "\n"
  /** The table entry inserted into pyproject.toml and Pipfile. */
  const TableEntry: Text := PackageName + " = \"*\""
  const PoetryHeader: Text := "[tool.poetry.dependencies]"
  const PipfileHeader: Text := "[packages]"

  // ---------------------------------------------------------------------
  // requirements.txt

  function RequirementsEdit(content: Text): (r: Option<Text>)
    ensures r.None? <==> Contains(content, PackageName)
    ensures r.Some? ==> StartsWith(r.value, content) && Contains(r.value, PackageName)
  {
    if Contains(content, PackageName) then None
    else
      var c := content + RequirementLine;
      assert c[..|content|] == content;
      assert c == content + PackageName + "\n";
      ContainsSelf(PackageName);
      ContainsInfix(content, PackageName, "\n", PackageName);
      Some(c)
  }

  /** A second application reports no change. */
  lemma RequirementsIdempotent(content: Text)
    requires RequirementsEdit(content).Some?
    ensures RequirementsEdit(RequirementsEdit(content).value) == None
  {
  }

  /** The appended name joins the file's last line: it lands on a line of its
      own only when the file ended with a newline (its last split line is ''),
      and is glued onto the last requirement otherwise. */
  lemma RequirementsAppendsToLastLine(content: Text)
    requires !Contains(content, PackageName)
    ensures var ls := Lines(content);
      Lines(RequirementsEdit(content).value)
        == ls[..|ls| - 1] + [ls[|ls| - 1] + PackageName, []]
  {
    assert RequirementLine == PackageName + "\n";
    LinesAppendTerminated(content, PackageName);
  }

  // ---------------------------------------------------------------------
  // pyproject.toml and Pipfile: insert one entry after a section header

  /** lines.insert(i + 1, entry) after the first line whose strip() is the
      header; no header line, no insertion. */
  function InsertAfterHeader(ls: seq<Text>, header: Text): (r: seq<Text>)
  {
    match FirstFrom(ls, 0, Header(header))
    case None => ls
    case Some(h) => Insert(ls, h + 1, TableEntry)
  }

  /** The loop of add_to_pyproject / add_to_pipfile over the file's lines. */
  method InsertAfterHeaderLine(lines: seq<Text>, header: Text) returns (out: seq<Text>)
    ensures out == InsertAfterHeader(lines, header)
  {
    var i := 0;
    while i < |lines|
      invariant 0 <= i <= |lines|
      invariant FirstFrom(lines, 0, Header(header)) == FirstFrom(lines, i, Header(header))
    {
      if Holds(Header(header), lines[i]) {
        out := Insert(lines, i + 1, TableEntry);
        return;
      }
      i := i + 1;
    }
    out := lines;
  }

  lemma TableEntryIsOneLine()
    ensures '\n' !in TableEntry
  {
  }

  /** The shared body of add_to_pyproject and add_to_pipfile. */
  function HeaderEdit(content: Text, header: Text): (r: Option<Text>)
    ensures r.None? <==> Contains(content, PackageName) || !Contains(content, header)
  {
    if Contains(content, PackageName) || !Contains(content, header) then None
    else Some(Join(InsertAfterHeader(Lines(content), header)))
  }

  function PyprojectEdit(content: Text): Option<Text> {
    HeaderEdit(content, PoetryHeader)
  }

  function PipfileEdit(content: Text): Option<Text> {
    HeaderEdit(content, PipfileHeader)
  }

  /** A line whose strip() is the header makes the header a substring. */
  lemma HeaderLineIsSubstring(content: Text, header: Text, h: nat)
    requires h < |Lines(content)| && Strip(Lines(content)[h]) == header
    ensures Contains(content, header)
  {
    var ls := Lines(content);
    StripContained(ls[h]);
    assert Contains(content, ls[h]) by {
      ContainsJoinedLine(ls, h);
      JoinLines(content);
    }
    ContainsTrans(content, ls[h], Strip(ls[h]));
  }

  /** A line contains its own strip(). */
  lemma StripContained(line: Text)
    ensures Contains(line, Strip(line))
  {
    var st := Strip(line);
    var a := StripIsSlice(line);
    assert line == line[..a] + st + line[a + |st|..];
    ContainsSelf(st);
    ContainsInfix(line[..a], st, line[a + |st|..], st);
  }

  /** The text written when the name is absent and h is the first line
      whose strip() is the header. */
  lemma HeaderEditFound(content: Text, header: Text, h: nat)
    requires !Contains(content, PackageName)
    requires h < |Lines(content)| && Strip(Lines(content)[h]) == header
    requires forall k :: 0 <= k < h ==> Strip(Lines(content)[k]) != header
    ensures HeaderEdit(content, header) == Some(Join(Insert(Lines(content), h + 1, TableEntry)))
  {
    assert Contains(content, header) by { HeaderLineIsSubstring(content, header, h); }
    assert FirstFrom(Lines(content), 0, Header(header)) == Some(h) by {
      FirstFromIs(Lines(content), 0, Header(header), h);
    }
  }

  /** With the name absent and h the first line whose strip() is the header,
      the written file is the old one with exactly one line, the entry,
      inserted directly after line h. */
  lemma HeaderEditInsertsAfterFirstHeader(content: Text, header: Text, h: nat)
    requires !Contains(content, PackageName)
    requires h < |Lines(content)| && Strip(Lines(content)[h]) == header
    requires forall k :: 0 <= k < h ==> Strip(Lines(content)[k]) != header
    ensures HeaderEdit(content, header).Some?
    ensures Lines(HeaderEdit(content, header).value) == Insert(Lines(content), h + 1, TableEntry)
  {
    HeaderEditFound(content, header, h);
    assert NoNewlines(Lines(content)) by { LinesNoNewlines(content); }
    TableEntryIsOneLine();
    InsertedLinesRoundTrip(Lines(content), h + 1, TableEntry);
  }

  /** When the header occurs only inside a longer line, the file is rewritten
      unchanged and the editor still reports a change: applying it again
      reports a change again. */
  lemma HeaderEditSubstringOnly(content: Text, header: Text)
    requires !Contains(content, PackageName) && Contains(content, header)
    requires forall k :: 0 <= k < |Lines(content)| ==> Strip(Lines(content)[k]) != header
    ensures HeaderEdit(content, header) == Some(content)
    ensures HeaderEdit(HeaderEdit(content, header).value, header) == Some(content)
  {
    FirstFromNone(Lines(content), 0, Header(header));
    JoinLines(content);
  }

  /** After an insertion the name is present, so a second application reports
      no change. */
  lemma HeaderEditIdempotentAfterInsert(content: Text, header: Text, h: nat)
    requires !Contains(content, PackageName)
    requires h < |Lines(content)| && Strip(Lines(content)[h]) == header
    requires forall k :: 0 <= k < h ==> Strip(Lines(content)[k]) != header
    ensures HeaderEdit(content, header).Some?
    ensures HeaderEdit(HeaderEdit(content, header).value, header) == None
  {
    HeaderEditFound(content, header, h);
    var ins := Insert(Lines(content), h + 1, TableEntry);
    assert Contains(Join(ins), PackageName) by {
      ContainsJoinedLine(ins, h + 1);
      ContainsPrefix(PackageName, " = \"*\"");
      ContainsTrans(Join(ins), TableEntry, PackageName);
    }
  }

  // ---------------------------------------------------------------------
  // setup.py: rewrite the install_requires list

  /** The element written into the list, on its own indented line. */
  const SetupElement: Text := "\n        '" + PackageName + "'"
  const SetupClose: Text := "\n    "

  /** The new second group: appended after a comma when the old list has
      anything but whitespace, the sole element otherwise. */
  function NewDeps(deps: Text): (r: Text)
    ensures Strip(deps) != [] ==> StartsWith(r, deps + ",")
    ensures Contains(r, PackageName)
  {
    assert Contains(SetupElement, PackageName) by {
      ContainsSelf(PackageName);
      ContainsInfix("\n        '", PackageName, "'", PackageName);
    }
    if Strip(deps) != [] then
      ContainsInfix(deps + ",", SetupElement, [], PackageName);
      assert (deps + "," + SetupElement)[..|deps + ","|] == deps + ",";
      assert deps + "," + SetupElement + [] == deps + "," + SetupElement;
      deps + "," + SetupElement
    else
      ContainsInfix([], SetupElement, SetupClose, PackageName);
      assert [] + SetupElement == SetupElement;
      SetupElement + SetupClose
  }

  /** group(0) of the match: the matched text. */
  function MatchText(content: Text, m: ListMatch): Text
    requires m.start <= m.close < |content|
  {
    content[m.start..m.close + 1]
  }

  /** The text the match is replaced with: group 1, the new group 2, `]`. */
  function Replacement(content: Text, m: ListMatch): (r: Text)
    requires m.start <= m.open <= m.close < |content|
    ensures Contains(r, PackageName)
  {
    var deps := NewDeps(content[m.open..m.close]);
    ContainsInfix(content[m.start..m.open], deps, "]", PackageName);
    content[m.start..m.open] + deps + "]"
  }

  /** content.replace(match.group(0), new_text) for the match m. */
  function Rewrite(content: Text, m: ListMatch): Text
    requires m.start <= m.open <= m.close < |content|
  {
    ReplaceAll(content, MatchText(content, m), Replacement(content, m))
  }

  /** add_to_setup_py: nothing when the name is present or the pattern does
      not match; otherwise the leftmost match's text is replaced. */
  function SetupEdit(content: Text): (r: Option<Text>)
    ensures r.None? <==> Contains(content, PackageName) || FindListFrom(content, 0).None?
  {
    if Contains(content, PackageName) then None
    else
      match FindListFrom(content, 0)
      case None => None
      case Some(m) => Some(Rewrite(content, m))
  }

  /** The facts about the leftmost match that the lemmas below rely on. */
  predicate LeftmostMatch(content: Text, m: ListMatch) {
    && m.start < m.open <= m.close < |content|
    && ListOpenLen(content[m.start..]) == Some(m.open - m.start)
    && content[m.close] == ']'
    && forall k: nat :: k < m.start ==> !MatchesAt(content, k)
  }

  lemma FoundIsLeftmost(content: Text, m: ListMatch)
    requires FindListFrom(content, 0) == Some(m)
    ensures LeftmostMatch(content, m)
  {
    FindListFromIsLeftmost(content, 0);
  }

  /** A copy of the matched text at k would itself be a match at k. */
  lemma NoCopyAt(content: Text, m: ListMatch, k: nat)
    requires m.start < m.open <= m.close < |content|
    requires ListOpenLen(content[m.start..]) == Some(m.open - m.start) && content[m.close] == ']'
    requires k <= |content| && !MatchesAt(content, k)
    ensures !OccursAt(content, MatchText(content, m), k)
  {
    if OccursAt(content, MatchText(content, m), k) {
      MatchTextDeterminesMatch(content, m, k);
      assert false;
    }
  }

  /** No copy of the matched text starts before the leftmost match. */
  lemma NoEarlierCopy(content: Text, m: ListMatch)
    requires LeftmostMatch(content, m)
    ensures forall k: nat :: k < m.start ==> !OccursAt(content, MatchText(content, m), k)
  {
    forall k: nat | k < m.start ensures !OccursAt(content, MatchText(content, m), k) {
      NoCopyAt(content, m, k);
    }
  }

  /** Replacing every copy of the leftmost match's text keeps what precedes
      the match and puts `rep` in its place. */
  lemma ReplaceAtLeftmost(content: Text, m: ListMatch, rep: Text)
    requires m.start <= m.close < |content|
    requires forall k: nat :: k < m.start ==> !OccursAt(content, MatchText(content, m), k)
    ensures ReplaceAll(content, MatchText(content, m), rep)
      == content[..m.start] + rep + ReplaceFrom(content, MatchText(content, m), rep, m.close + 1)
  {
    var w := MatchText(content, m);
    assert m.start + |w| == m.close + 1;
    assert OccursAt(content, w, m.start);
    ReplaceAllFirst(content, w, rep, m.start);
  }

  /** The text before the leftmost match is kept and the match gets the new
      list; the scan of the same replace goes on after the match. */
  lemma SetupEditRewritesLeftmostMatch(content: Text, m: ListMatch)
    requires !Contains(content, PackageName) && FindListFrom(content, 0) == Some(m)
    ensures SetupEdit(content) == Some(content[..m.start] + Replacement(content, m)
        + ReplaceFrom(content, MatchText(content, m), Replacement(content, m), m.close + 1))
  {
    assert SetupEdit(content) == Some(Rewrite(content, m));
    assert forall k: nat :: k < m.start ==> !OccursAt(content, MatchText(content, m), k) by {
      FoundIsLeftmost(content, m);
      NoEarlierCopy(content, m);
    }
    ReplaceAtLeftmost(content, m, Replacement(content, m));
  }

  /** A copy of the leftmost match's text right after it is replaced too. */
  lemma ReplaceNextCopy(content: Text, m: ListMatch, rep: Text)
    requires m.start <= m.close < |content|
    requires forall k: nat :: k < m.start ==> !OccursAt(content, MatchText(content, m), k)
    requires OccursAt(content, MatchText(content, m), m.close + 1)
    ensures ReplaceAll(content, MatchText(content, m), rep) == content[..m.start] + rep + rep
      + ReplaceFrom(content, MatchText(content, m), rep, m.close + 1 + (m.close + 1 - m.start))
  {
    var w := MatchText(content, m);
    assert m.start + |w| == m.close + 1;
    assert OccursAt(content, w, m.start);
    ReplaceAllTwice(content, w, rep, m.start);
    assert m.start + |w| + |w| == m.close + 1 + (m.close + 1 - m.start);
  }

  /** A second, identical install_requires list right after the first also
      gets the entry. */
  lemma SetupEditRewritesAdjacentCopy(content: Text, m: ListMatch)
    requires !Contains(content, PackageName) && FindListFrom(content, 0) == Some(m)
    requires OccursAt(content, MatchText(content, m), m.close + 1)
    ensures SetupEdit(content) == Some(content[..m.start] + Replacement(content, m) + Replacement(content, m)
      + ReplaceFrom(content, MatchText(content, m), Replacement(content, m), m.close + 1 + (m.close + 1 - m.start)))
  {
    assert forall k: nat :: k < m.start ==> !OccursAt(content, MatchText(content, m), k) by {
      FoundIsLeftmost(content, m);
      NoEarlierCopy(content, m);
    }
    ReplaceNextCopy(content, m, Replacement(content, m));
    assert SetupEdit(content) == Some(Rewrite(content, m));
  }

  /** str.replace rewrites every copy: the next copy of the match text after
      the match, wherever it starts, gets the entry as well, and the text in
      between is kept. */
  lemma SetupEditRewritesNextCopy(content: Text, m: ListMatch, c: nat)
    requires !Contains(content, PackageName) && FindListFrom(content, 0) == Some(m)
    requires m.close + 1 <= c && OccursAt(content, MatchText(content, m), c)
    requires forall k: nat :: m.close + 1 <= k < c ==> !OccursAt(content, MatchText(content, m), k)
    ensures SetupEdit(content) == Some(content[..m.start] + Replacement(content, m)
      + (content[m.close + 1..c] + Replacement(content, m)
        + ReplaceFrom(content, MatchText(content, m), Replacement(content, m), c + |MatchText(content, m)|)))
  {
    assert forall k: nat :: k < m.start ==> !OccursAt(content, MatchText(content, m), k) by {
      FoundIsLeftmost(content, m);
      NoEarlierCopy(content, m);
    }
    ReplaceLaterCopy(content, m, Replacement(content, m), c);
    assert SetupEdit(content) == Some(Rewrite(content, m));
  }

  /** A later copy of the leftmost match's text, with none in between, is
      replaced too. */
  lemma ReplaceLaterCopy(content: Text, m: ListMatch, rep: Text, c: nat)
    requires m.start <= m.close < |content|
    requires forall k: nat :: k < m.start ==> !OccursAt(content, MatchText(content, m), k)
    requires m.close + 1 <= c && OccursAt(content, MatchText(content, m), c)
    requires forall k: nat :: m.close + 1 <= k < c ==> !OccursAt(content, MatchText(content, m), k)
    ensures ReplaceAll(content, MatchText(content, m), rep) == content[..m.start] + rep
      + (content[m.close + 1..c] + rep + ReplaceFrom(content, MatchText(content, m), rep, c + |MatchText(content, m)|))
  {
    ReplaceAtLeftmost(content, m, rep);
    ScanOnToNextCopy(ReplaceAll(content, MatchText(content, m), rep), content, MatchText(content, m), rep,
      content[..m.start], m.close + 1, c);
  }

  /** The scan after the match goes on to the next copy at c. */
  lemma ScanOnToNextCopy(x: Text, content: Text, w: Text, rep: Text, head: Text, j: nat, c: nat)
    requires w != [] && j <= c && OccursAt(content, w, c)
    requires forall k: nat :: j <= k < c ==> !OccursAt(content, w, k)
    requires x == head + rep + ReplaceFrom(content, w, rep, j)
    ensures x == head + rep + (content[j..c] + rep + ReplaceFrom(content, w, rep, c + |w|))
  {
    ReplaceFromNext(content, w, rep, j, c);
  }

  /** After a rewrite the name is present. */
  lemma SetupEditAddsName(content: Text)
    requires SetupEdit(content).Some?
    ensures Contains(SetupEdit(content).value, PackageName)
  {
    var m := FindListFrom(content, 0).value;
    SetupEditRewritesLeftmostMatch(content, m);
    var rep := Replacement(content, m);
    var tail := ReplaceFrom(content, MatchText(content, m), rep, m.close + 1);
    ContainsInfix(content[..m.start], rep, tail, PackageName);
  }

  /** A second application reports no change. */
  lemma SetupEditIdempotent(content: Text)
    requires SetupEdit(content).Some?
    ensures SetupEdit(SetupEdit(content).value) == None
  {
    SetupEditAddsName(content);
  }
}
