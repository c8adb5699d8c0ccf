/** The repository list file: one URL per line, blank lines and `#` comments
    ignored, surrounding whitespace removed. */
module RepoList {
  import opened Strings

  /** A stripped line that is kept: not empty and not a comment. */
  predicate IsEntry(stripped: Text) {
    stripped != [] && !StartsWith(stripped, "#")
  }

  /** The stripped lines that are entries, in file order. */
  function Entries(ls: seq<Text>): seq<Text> {
    if ls == [] then []
    else
      var rest := Entries(ls[1..]);
      if IsEntry(Strip(ls[0])) then [Strip(ls[0])] + rest else rest
  }

  /** get_repositories_from_file: None is a file that cannot be read, which
      gives the empty list. */
  method RepositoriesFromFile(content: Option<Text>) returns (urls: seq<Text>)
    ensures content.None? ==> urls == []
    ensures content.Some? ==> urls == Entries(Lines(content.value))
  {
    urls := [];
    if content.None? {
      return;
    }
    var ls := Lines(content.value);
    for i := 0 to |ls|
      invariant urls == Entries(ls[..i])
    {
      var line := Strip(ls[i]);
      EntriesStep(ls, i);
      if IsEntry(line) {
        urls := urls + [line];
      }
    }
    assert ls[..|ls|] == ls;
  }

  /** One more line read: its stripped form follows when it is an entry. */
  lemma EntriesStep(ls: seq<Text>, i: nat)
    requires i < |ls|
    ensures Entries(ls[..i + 1])
      == Entries(ls[..i]) + if IsEntry(Strip(ls[i])) then [Strip(ls[i])] else []
  {
    assert ls[..i + 1] == ls[..i] + [ls[i]];
    EntriesAppend(ls[..i], [ls[i]]);
    EntriesOne(ls[i]);
  }

  lemma EntriesOne(x: Text)
    ensures Entries([x]) == if IsEntry(Strip(x)) then [Strip(x)] else []
  {
    assert [x][1..] == [];
  }

  /** Filtering line by line: the entries of two blocks of lines are the
      entries of the first followed by those of the second. */
  lemma {:induction false} EntriesAppend(a: seq<Text>, b: seq<Text>)
    ensures Entries(a + b) == Entries(a) + Entries(b)
  {
    if a == [] {
      assert a + b == b;
    } else {
      assert (a + b)[1..] == a[1..] + b;
      EntriesAppend(a[1..], b);
    }
  }

  /** Line i of ls, stripped, is the entry x. */
  predicate KeptAt(ls: seq<Text>, i: nat, x: Text)
    requires i < |ls|
  {
    Strip(ls[i]) == x && IsEntry(x)
  }

  /** An entry is a stripped, non-empty, non-comment form of some line, and
      every such form is an entry. */
  lemma EntriesAreKeptLines(ls: seq<Text>, x: Text)
    ensures x in Entries(ls) <==> exists i :: 0 <= i < |ls| && KeptAt(ls, i, x)
  {
    if x in Entries(ls) {
      EntryComesFromLine(ls, x);
    }
    if exists i :: 0 <= i < |ls| && KeptAt(ls, i, x) {
      var i :| 0 <= i < |ls| && KeptAt(ls, i, x);
      KeptLineIsEntry(ls, i, x);
    }
  }

  lemma {:induction false} EntryComesFromLine(ls: seq<Text>, x: Text)
    requires x in Entries(ls)
    ensures exists i :: 0 <= i < |ls| && KeptAt(ls, i, x)
  {
    if IsEntry(Strip(ls[0])) && x == Strip(ls[0]) {
      assert KeptAt(ls, 0, x);
    } else {
      EntryComesFromLine(ls[1..], x);
      var i :| 0 <= i < |ls[1..]| && KeptAt(ls[1..], i, x);
      assert ls[i + 1] == ls[1..][i];
      assert KeptAt(ls, i + 1, x);
    }
  }

  lemma {:induction false} KeptLineIsEntry(ls: seq<Text>, i: nat, x: Text)
    requires i < |ls| && KeptAt(ls, i, x)
    ensures x in Entries(ls)
  {
    if i > 0 {
      assert ls[1..][i - 1] == ls[i];
      KeptLineIsEntry(ls[1..], i - 1, x);
    }
  }

  /** Entries carry no surrounding whitespace: stripping them again changes
      nothing. */
  lemma {:induction false} EntriesAreStripped(ls: seq<Text>)
    ensures forall k :: 0 <= k < |Entries(ls)| ==> Strip(Entries(ls)[k]) == Entries(ls)[k]
  {
    if ls != [] {
      EntriesAreStripped(ls[1..]);
      StripIdempotent(ls[0]);
      var rest := Entries(ls[1..]);
      if IsEntry(Strip(ls[0])) {
        forall k | 0 <= k < |Entries(ls)| ensures Strip(Entries(ls)[k]) == Entries(ls)[k] {
          if k > 0 { assert Entries(ls)[k] == rest[k - 1]; }
        }
      }
    }
  }
}
