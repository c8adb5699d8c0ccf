/** Text helpers with Python's `str` semantics: strip, startswith, `in`,
    split('\n') / '\n'.join, replace, and the UTF-8 size of written text. */
module Strings {

  type Text = seq<char>

  datatype Option<+T> = None | Some(value: T)

  /** The characters for which Python's `str.isspace()` holds; `str.strip()`
      removes them and the `re` class `\s` matches them. */
  predicate IsSpace(c: char) {
    var n := c as int;
    || n == 0x20 || 0x09 <= n <= 0x0D || 0x1C <= n <= 0x1F
    || n == 0x85 || n == 0xA0 || n == 0x1680 || 0x2000 <= n <= 0x200A
    || n == 0x2028 || n == 0x2029 || n == 0x202F || n == 0x205F || n == 0x3000
  }

  predicate AllSpace(s: Text) {
    forall i :: 0 <= i < |s| ==> IsSpace(s[i])
  }

  /** len(s) - len(s.lstrip()) */
  function LeadingSpace(s: Text): (n: nat)
    ensures n <= |s|
    ensures forall i :: 0 <= i < n ==> IsSpace(s[i])
    ensures n < |s| ==> !IsSpace(s[n])
  {
    if |s| > 0 && IsSpace(s[0]) then 1 + LeadingSpace(s[1..]) else 0
  }

  /** len(s) - len(s.rstrip()) */
  function TrailingSpace(s: Text): (n: nat)
    ensures n <= |s|
    ensures forall i :: |s| - n <= i < |s| ==> IsSpace(s[i])
    ensures n < |s| ==> !IsSpace(s[|s| - 1 - n])
  {
    if |s| > 0 && IsSpace(s[|s| - 1]) then 1 + TrailingSpace(s[..|s| - 1]) else 0
  }

  /** s.strip() */
  function Strip(s: Text): (r: Text)
    ensures r == [] <==> AllSpace(s)
    ensures r != [] ==> !IsSpace(r[0]) && !IsSpace(r[|r| - 1])
    ensures |r| <= |s|
  {
    var a := LeadingSpace(s);
    var t := s[a..];
    var r := t[..|t| - TrailingSpace(t)];
    assert a < |s| ==> t[0] == s[a] && !IsSpace(t[0]);
    assert r == [] ==> a == |s|;
    r
  }

  /** The stripped text is a slice of the original. */
  lemma StripIsSlice(s: Text) returns (a: nat)
    ensures a + |Strip(s)| <= |s| && Strip(s) == s[a..a + |Strip(s)|]
  {
    a := LeadingSpace(s);
    var t := s[a..];
    assert Strip(s) == t[..|t| - TrailingSpace(t)];
  }

  /** Stripping text that neither starts nor ends with whitespace changes nothing. */
  lemma StripNoop(t: Text)
    requires t != [] ==> !IsSpace(t[0]) && !IsSpace(t[|t| - 1])
    ensures Strip(t) == t
  {
    if t != [] {
      assert LeadingSpace(t) == 0;
      assert t[0..] == t;
      assert TrailingSpace(t) == 0;
    }
  }

  lemma StripIdempotent(s: Text)
    ensures Strip(Strip(s)) == Strip(s)
  {
    StripNoop(Strip(s));
  }

  predicate StartsWith(s: Text, p: Text) {
    |p| <= |s| && s[..|p|] == p
  }

  predicate EndsWith(s: Text, p: Text) {
    |p| <= |s| && s[|s| - |p|..] == p
  }

  predicate OccursAt(s: Text, p: Text, i: nat) {
    i + |p| <= |s| && s[i..i + |p|] == p
  }

  /** Python's `p in s` on strings. */
  predicate Contains(s: Text, p: Text) {
    exists i: nat | i <= |s| :: OccursAt(s, p, i)
  }

  /** The index after the whitespace run that starts at i. */
  function SkipSpaces(t: Text, i: nat): (r: nat)
    requires i <= |t|
    ensures i <= r <= |t|
    decreases |t| - i
  {
    if i < |t| && IsSpace(t[i]) then SkipSpaces(t, i + 1) else i
  }

  /** SkipSpaces stops at the first non-space at or after i. */
  lemma {:induction false} SkipSpacesStops(t: Text, i: nat)
    requires i <= |t|
    ensures forall x :: i <= x < SkipSpaces(t, i) ==> IsSpace(t[x])
    ensures SkipSpaces(t, i) < |t| ==> !IsSpace(t[SkipSpaces(t, i)])
    decreases |t| - i
  {
    if i < |t| && IsSpace(t[i]) {
      SkipSpacesStops(t, i + 1);
    }
  }

  /** Where SkipSpaces stops inside the text, there is a non-space: the
      second half of SkipSpacesStops without its quantifier, for callers
      whose proofs only need this fact and get slower with the other. */
  lemma {:induction false} SkipSpacesEnd(t: Text, i: nat)
    requires i <= |t|
    ensures SkipSpaces(t, i) < |t| ==> !IsSpace(t[SkipSpaces(t, i)])
    decreases |t| - i
  {
    if i < |t| && IsSpace(t[i]) {
      SkipSpacesEnd(t, i + 1);
    }
  }

  predicate CharAt(t: Text, i: nat, c: char) {
    i < |t| && t[i] == c
  }

  /** The window that determines a leading-whitespace count: a run of
      whitespace ended by a non-space character. */
  lemma {:induction false} LeadingSpaceExact(t: Text, m: nat)
    requires m < |t| && AllSpace(t[..m]) && !IsSpace(t[m])
    ensures LeadingSpace(t) == m
  {
    if m > 0 {
      assert IsSpace(t[..m][0]);
      assert t[1..][..m - 1] == t[..m][1..];
      LeadingSpaceExact(t[1..], m - 1);
    }
  }

  /** Everything from b on is whitespace. */
  predicate SpacesFrom(s: Text, b: nat) {
    forall x :: b <= x < |s| ==> IsSpace(s[x])
  }

  /** strip() keeps the window from the first non-space (where SkipSpaces
      stops) to just after the last non-space; everything after it is space. */
  lemma StripWindow(s: Text) returns (b: nat)
    ensures SkipSpaces(s, 0) <= b <= |s| && Strip(s) == s[SkipSpaces(s, 0)..b]
    ensures b > SkipSpaces(s, 0) ==> !IsSpace(s[b - 1])
    ensures SpacesFrom(s, b)
  {
    var a := SkipSpaces(s, 0);
    LeadingSpaceIsSkip(s);
    b := TrailingWindow(s, a);
  }

  /** lstrip() removes exactly the run that SkipSpaces passes over. */
  lemma LeadingSpaceIsSkip(s: Text)
    ensures LeadingSpace(s) == SkipSpaces(s, 0)
  {
    var a := SkipSpaces(s, 0);
    SkipSpacesStops(s, 0);
    if a < |s| {
      assert AllSpace(s[..a]) by {
        forall x | 0 <= x < a ensures IsSpace(s[..a][x]) { assert s[..a][x] == s[x]; }
      }
      LeadingSpaceExact(s, a);
    }
  }

  /** rstrip() of s[a..] ends at b: after b only spaces, before it a non-space. */
  lemma TrailingWindow(s: Text, a: nat) returns (b: nat)
    requires a <= |s|
    ensures a <= b <= |s| && s[a..][..|s[a..]| - TrailingSpace(s[a..])] == s[a..b]
    ensures b > a ==> !IsSpace(s[b - 1])
    ensures SpacesFrom(s, b)
  {
    var t := s[a..];
    var k := TrailingSpace(t);
    b := a + |t| - k;
    assert t[..|t| - k] == s[a..b];
    forall x | b <= x < |s| ensures IsSpace(s[x]) {
      assert s[x] == t[x - a];
    }
    if b > a {
      assert s[b - 1] == t[|t| - 1 - k];
    }
  }

  /** A whitespace run ended inside the first k characters is the same in any
      text that agrees on them. */
  lemma {:induction false} SkipSpacesAgree(t: Text, t': Text, i: nat, k: nat)
    requires i <= k <= |t| && k <= |t'| && SkipSpaces(t, i) < k
    requires forall x :: 0 <= x < k ==> t[x] == t'[x]
    ensures SkipSpaces(t', i) == SkipSpaces(t, i)
    decreases |t| - i
  {
    assert t[i] == t'[i];
    if IsSpace(t[i]) {
      SkipSpacesAgree(t, t', i + 1, k);
    }
  }

  lemma ContainsInfix(a: Text, x: Text, b: Text, p: Text)
    requires Contains(x, p)
    ensures Contains(a + x + b, p)
  {
    var i: nat :| i <= |x| && OccursAt(x, p, i);
    var s := a + x + b;
    assert s[|a| + i..|a| + i + |p|] == x[i..i + |p|];
    assert OccursAt(s, p, |a| + i);
  }

  lemma ContainsSelf(p: Text)
    ensures Contains(p, p)
  {
    assert OccursAt(p, p, 0);
  }

  lemma ContainsPrefix(p: Text, rest: Text)
    ensures Contains(p + rest, p)
  {
    assert OccursAt(p + rest, p, 0);
  }

  lemma ContainsTrans(s: Text, x: Text, p: Text)
    requires Contains(s, x) && Contains(x, p)
    ensures Contains(s, p)
  {
    var i: nat :| i <= |s| && OccursAt(s, x, i);
    assert s == s[..i] + x + s[i + |x|..];
    ContainsInfix(s[..i], x, s[i + |x|..], p);
  }

  // ---------------------------------------------------------------------
  // split('\n') and '\n'.join

  /** content.split('\n') */
  function Lines(s: Text): (ls: seq<Text>)
    ensures |ls| >= 1
    decreases |s|
  {
    if s == [] then [[]]
    else
      var rest := Lines(s[1..]);
      if s[0] == '\n' then [[]] + rest else [[s[0]] + rest[0]] + rest[1..]
  }

  /** No piece of split('\n') holds a newline. */
  lemma {:induction false} LinesNoNewlines(s: Text)
    ensures NoNewlines(Lines(s))
    decreases |s|
  {
    if s != [] {
      LinesNoNewlines(s[1..]);
      var rest := Lines(s[1..]);
      if s[0] != '\n' {
        assert '\n' !in [s[0]] + rest[0];
      }
    }
  }

  /** '\n'.join(ls) */
  function Join(ls: seq<Text>): Text {
    if |ls| == 0 then [] else if |ls| == 1 then ls[0] else ls[0] + "\n" + Join(ls[1..])
  }

  predicate NoNewlines(ls: seq<Text>) {
    forall i :: 0 <= i < |ls| ==> '\n' !in ls[i]
  }

  lemma JoinCons(x: Text, ls: seq<Text>)
    requires |ls| >= 1
    ensures Join([x] + ls) == x + "\n" + Join(ls)
  {
    assert ([x] + ls)[1..] == ls;
  }

  lemma {:induction false} JoinExtendHead(c: Text, ls: seq<Text>)
    requires |ls| >= 1
    ensures Join([c + ls[0]] + ls[1..]) == c + Join(ls)
  {
    if |ls| > 1 {
      JoinCons(c + ls[0], ls[1..]);
      JoinCons(ls[0], ls[1..]);
      assert ls == [ls[0]] + ls[1..];
    }
  }

  /** '\n'.join(s.split('\n')) == s */
  lemma {:induction false} JoinLines(s: Text)
    ensures Join(Lines(s)) == s
    decreases |s|
  {
    if s != [] {
      JoinLines(s[1..]);
      var rest := Lines(s[1..]);
      if s[0] == '\n' {
        JoinCons([], rest);
      } else {
        JoinExtendHead([s[0]], rest);
      }
      assert s == [s[0]] + s[1..];
    }
  }

  lemma {:induction false} LinesPrefix(x: Text, t: Text)
    requires '\n' !in x
    ensures Lines(x + t) == [x + Lines(t)[0]] + Lines(t)[1..]
    decreases |x|
  {
    if x != [] {
      LinesPrefix(x[1..], t);
      assert (x + t)[1..] == x[1..] + t;
      assert (x + t)[0] == x[0];
      assert [x[0]] + (x[1..] + Lines(t)[0]) == x + Lines(t)[0];
    } else {
      assert x + t == t;
      assert x + Lines(t)[0] == Lines(t)[0];
      assert Lines(t) == [Lines(t)[0]] + Lines(t)[1..];
    }
  }

  /** ('\n'.join(ls)).split('\n') == ls for lines without newlines */
  lemma {:induction false} LinesJoin(ls: seq<Text>)
    requires |ls| >= 1 && NoNewlines(ls)
    ensures Lines(Join(ls)) == ls
  {
    if |ls| == 1 {
      LinesPrefix(ls[0], []);
      assert ls[0] + [] == ls[0];
    } else {
      LinesJoin(ls[1..]);
      var t := "\n" + Join(ls[1..]);
      assert t[1..] == Join(ls[1..]);
      assert Lines(t) == [[]] + ls[1..];
      LinesPrefix(ls[0], t);
      assert ls[0] + "\n" + Join(ls[1..]) == ls[0] + t;
      assert ls[0] + [] == ls[0];
    }
  }

  /** A line of a list occurs as a substring of its join. */
  lemma {:induction false} ContainsJoinedLine(ls: seq<Text>, i: nat)
    requires i < |ls|
    ensures Contains(Join(ls), ls[i])
  {
    ContainsSelf(ls[i]);
    if |ls| == 1 {
      assert Join(ls) == [] + ls[0] + [];
      ContainsInfix([], ls[0], [], ls[0]);
    } else if i == 0 {
      ContainsInfix([], ls[0], "\n" + Join(ls[1..]), ls[0]);
      assert Join(ls) == [] + ls[0] + ("\n" + Join(ls[1..]));
    } else {
      ContainsJoinedLine(ls[1..], i - 1);
      ContainsInfix(ls[0] + "\n", Join(ls[1..]), [], ls[i]);
      assert Join(ls) == (ls[0] + "\n") + Join(ls[1..]) + [];
    }
  }

  /** Lines of a text that starts with one known character. */
  lemma LinesCons(c: char, t: Text)
    ensures Lines([c] + t) == if c == '\n' then [[]] + Lines(t) else [[c] + Lines(t)[0]] + Lines(t)[1..]
  {
    assert ([c] + t)[1..] == t;
  }

  /** The right-hand side of LinesConcat: the pieces of `a` with the pieces
      of `b` glued on at the last one. */
  function Glue(la: seq<Text>, lb: seq<Text>): seq<Text>
    requires |la| >= 1 && |lb| >= 1
  {
    la[..|la| - 1] + [la[|la| - 1] + lb[0]] + lb[1..]
  }

  lemma GlueEmptyLine(la: seq<Text>, lb: seq<Text>)
    requires |la| >= 1 && |lb| >= 1
    ensures [[]] + Glue(la, lb) == Glue([[]] + la, lb)
  {
    var la2 := [[]] + la;
    assert la2[..|la2| - 1] == [[]] + la[..|la| - 1];
  }

  lemma GlueExtendHead(c: char, la: seq<Text>, lb: seq<Text>)
    requires |la| >= 1 && |lb| >= 1
    ensures var g := Glue(la, lb); [[c] + g[0]] + g[1..] == Glue([[c] + la[0]] + la[1..], lb)
  {
    var g := Glue(la, lb);
    var la2 := [[c] + la[0]] + la[1..];
    if |la| == 1 {
      assert g == [la[0] + lb[0]] + lb[1..];
      assert [c] + (la[0] + lb[0]) == ([c] + la[0]) + lb[0];
    } else {
      assert g[0] == la[0];
      assert g[1..] == la[1..|la| - 1] + [la[|la| - 1] + lb[0]] + lb[1..];
      assert la2[..|la2| - 1] == [[c] + la[0]] + la[1..|la| - 1];
    }
  }

  /** split('\n') of a concatenation: the last line of the first part and the
      first line of the second are glued together. */
  lemma {:induction false} LinesConcat(a: Text, b: Text)
    ensures Lines(a + b) == Glue(Lines(a), Lines(b))
    decreases |a|
  {
    var la := Lines(a);
    var lb := Lines(b);
    if a == [] {
      assert a + b == b;
      assert la == [[]];
      assert la[|la| - 1] + lb[0] == lb[0];
      assert lb == [lb[0]] + lb[1..];
    } else {
      var c := a[0];
      var a' := a[1..];
      assert a == [c] + a';
      assert a + b == [c] + (a' + b);
      LinesConcat(a', b);
      LinesCons(c, a');
      LinesCons(c, a' + b);
      if c == '\n' {
        GlueEmptyLine(Lines(a'), lb);
      } else {
        GlueExtendHead(c, Lines(a'), lb);
      }
    }
  }

  /** Appending a newline-terminated line `x` extends the last piece of
      split('\n') by `x` and opens an empty last piece. */
  lemma LinesAppendTerminated(content: Text, x: Text)
    requires '\n' !in x
    ensures var ls := Lines(content);
      Lines(content + (x + "\n")) == ls[..|ls| - 1] + [ls[|ls| - 1] + x, []]
  {
    LinesTerminated(x);
    LinesConcat(content, x + "\n");
    GlueTerminated(Lines(content), x);
  }

  /** A newline-free line followed by a newline splits into it and "". */
  lemma LinesTerminated(x: Text)
    requires '\n' !in x
    ensures Lines(x + "\n") == [x, []]
  {
    LinesPrefix(x, "\n");
    assert "\n"[1..] == [];
    assert Lines("\n") == [[], []];
    assert x + [] == x;
  }

  lemma GlueTerminated(ls: seq<Text>, x: Text)
    requires |ls| >= 1
    ensures Glue(ls, [x, []]) == ls[..|ls| - 1] + [ls[|ls| - 1] + x, []]
  {
    assert [x, []][1..] == [[]];
  }

  /** list.insert(j, x) */
  function Insert(ls: seq<Text>, j: nat, x: Text): (r: seq<Text>)
    requires j <= |ls|
    ensures |r| == |ls| + 1 && r[j] == x
    ensures r[..j] == ls[..j] && r[j + 1..] == ls[j..]
  {
    ls[..j] + [x] + ls[j..]
  }

  lemma InsertKeepsNoNewlines(ls: seq<Text>, j: nat, x: Text)
    requires j <= |ls| && NoNewlines(ls) && '\n' !in x
    ensures NoNewlines(Insert(ls, j, x))
  {
    var r := Insert(ls, j, x);
    forall i | 0 <= i < |r| ensures '\n' !in r[i] {
      if i < j { assert r[i] == r[..j][i]; }
      else if i > j { assert r[i] == r[j + 1..][i - j - 1]; }
    }
  }

  /** Inserting a line keeps split('\n') and '\n'.join inverse. */
  lemma InsertedLinesRoundTrip(ls: seq<Text>, j: nat, x: Text)
    requires j <= |ls| && NoNewlines(ls) && '\n' !in x
    ensures Lines(Join(Insert(ls, j, x))) == Insert(ls, j, x)
  {
    InsertKeepsNoNewlines(ls, j, x);
    LinesJoin(Insert(ls, j, x));
  }

  /** ' ' * n */
  function Spaces(n: nat): (r: Text)
    ensures |r| == n && forall i :: 0 <= i < n ==> r[i] == ' '
  {
    seq(n, _ => ' ')
  }

  // ---------------------------------------------------------------------
  // str.replace

  /** s.replace(pat, rep): every non-overlapping occurrence, scanning left to right. */
  function ReplaceAll(s: Text, pat: Text, rep: Text): Text
    requires pat != []
  {
    ReplaceFrom(s, pat, rep, 0)
  }

  /** The replace scan from position i on: an occurrence at i is replaced and
      skipped, any other character is kept. */
  function ReplaceFrom(s: Text, pat: Text, rep: Text, i: nat): Text
    requires pat != [] && i <= |s|
    decreases |s| - i
  {
    if |s| < i + |pat| then s[i..]
    else if OccursAt(s, pat, i) then rep + ReplaceFrom(s, pat, rep, i + |pat|)
    else [s[i]] + ReplaceFrom(s, pat, rep, i + 1)
  }

  /** An occurrence where the scan stands is replaced. */
  lemma ReplaceFromAt(s: Text, pat: Text, rep: Text, i: nat)
    requires pat != [] && OccursAt(s, pat, i)
    ensures ReplaceFrom(s, pat, rep, i) == rep + ReplaceFrom(s, pat, rep, i + |pat|)
  {
  }

  lemma AppendAssoc(a: Text, b: Text, c: Text, d: Text)
    ensures a + b + (c + d) == a + b + c + d
  {
  }

  lemma ConsSplit(x: Text, y: Text, c: char, head: Text, mid: Text, tail: Text)
    requires x == [c] + y && y == head + mid + tail
    ensures x == ([c] + head) + mid + tail
  {
  }

  /** Scanning from j, where the next occurrence is at i, keeps s[j..i] and
      puts `rep` in place of that occurrence. */
  lemma {:induction false} ReplaceFromNext(s: Text, pat: Text, rep: Text, j: nat, i: nat)
    requires pat != [] && j <= i && OccursAt(s, pat, i)
    requires forall k: nat :: j <= k < i ==> !OccursAt(s, pat, k)
    ensures ReplaceFrom(s, pat, rep, j) == s[j..i] + rep + ReplaceFrom(s, pat, rep, i + |pat|)
    decreases i - j
  {
    if j == i {
      assert s[j..i] + rep == rep;
    } else {
      assert !OccursAt(s, pat, j);
      ReplaceFromNext(s, pat, rep, j + 1, i);
      assert [s[j]] + s[j + 1..i] == s[j..i];
      ConsSplit(ReplaceFrom(s, pat, rep, j), ReplaceFrom(s, pat, rep, j + 1), s[j],
                s[j + 1..i], rep, ReplaceFrom(s, pat, rep, i + |pat|));
    }
  }

  /** When the first occurrence of `pat` is at `i`, the text before it is kept,
      that occurrence becomes `rep`, and the scan goes on after it. */
  lemma ReplaceAllFirst(s: Text, pat: Text, rep: Text, i: nat)
    requires pat != [] && OccursAt(s, pat, i)
    requires forall k: nat :: k < i ==> !OccursAt(s, pat, k)
    ensures ReplaceAll(s, pat, rep) == s[..i] + rep + ReplaceFrom(s, pat, rep, i + |pat|)
  {
    ReplaceFromNext(s, pat, rep, 0, i);
    assert s[0..i] == s[..i];
  }

  lemma Regroup(r: Text, pre: Text, rep: Text, rest: Text, tail: Text)
    requires r == pre + rep + rest && rest == rep + tail
    ensures r == pre + rep + rep + tail
  {
    AppendAssoc(pre, rep, rep, tail);
  }

  /** Two adjacent occurrences, the first one the first in the text, are both
      replaced. */
  lemma ReplaceAllTwice(s: Text, pat: Text, rep: Text, i: nat)
    requires pat != [] && OccursAt(s, pat, i) && OccursAt(s, pat, i + |pat|)
    requires forall k: nat :: k < i ==> !OccursAt(s, pat, k)
    ensures ReplaceAll(s, pat, rep) == s[..i] + rep + rep + ReplaceFrom(s, pat, rep, i + |pat| + |pat|)
  {
    ReplaceAllFirst(s, pat, rep, i);
    ReplaceFromAt(s, pat, rep, i + |pat|);
    Regroup(ReplaceAll(s, pat, rep), s[..i], rep, ReplaceFrom(s, pat, rep, i + |pat|),
            ReplaceFrom(s, pat, rep, i + |pat| + |pat|));
  }

  // ---------------------------------------------------------------------
  // sizes

  /** Bytes taken by one character in UTF-8. */
  function Utf8Width(c: char): (w: nat)
    ensures 1 <= w <= 4
  {
    var n := c as int;
    if n < 0x80 then 1 else if n < 0x800 then 2 else if n < 0x10000 then 3 else 4
  }

  /** Size in bytes of text written with encoding='utf-8' (newlines written as '\n'). */
  function Utf8Len(s: Text): (n: nat)
    ensures |s| <= n <= 4 * |s|
  {
    if s == [] then 0 else Utf8Width(s[0]) + Utf8Len(s[1..])
  }
}
