/**
 * The line-matching strategies of file_search.py. Each one decides whether a
 * query occurs in a file; the file is given as data (its text, or its bytes),
 * together with the two ways opening it can fail.
 */
module FileSearch {
  import opened Utf8
  import opened Strings

  /** What opening and reading the target file yields. */
  datatype Source<T> = Missing | Unreadable | Readable(content: T)

  /** What a call to a strategy produces: a boolean, or an exception that escaped it. */
  datatype SearchOutcome = Returned(found: bool) | Raised

  /** A line as Python's line iteration yields it: non-empty, with a '\n' at most at its end. */
  predicate IsLine(line: string) {
    line != [] && forall j :: 0 <= j < |line| - 1 ==> line[j] != '\n'
  }

  predicate EndsInNewline(line: string) {
    line != [] && line[|line| - 1] == '\n'
  }

  /** A line without its terminating '\n'. */
  function LineBody(line: string): (r: string)
    ensures '\n' !in r || !IsLine(line)
  {
    if EndsInNewline(line) then line[..|line| - 1] else line
  }

  /** The strings of `ls`, joined. */
  function Concat(ls: seq<string>): string {
    if ls == [] then [] else ls[0] + Concat(ls[1..])
  }

  /** A line of `t` may start at `s`: at the very beginning, or right after a '\n'. */
  predicate LineStart(t: string, s: int) {
    0 <= s <= |t| && (s == 0 || t[s - 1] == '\n')
  }

  /** End of the line that starts at `s`: just past the first '\n' from `s` on, or the end of `t`. */
  function LineEndFrom(t: string, s: nat): (e: nat)
    requires s < |t|
    ensures s < e <= |t|
    ensures forall j :: s <= j < e - 1 ==> t[j] != '\n'
    ensures t[e - 1] == '\n' || e == |t|
    decreases |t| - s
  {
    if t[s] == '\n' || s + 1 == |t| then s + 1 else LineEndFrom(t, s + 1)
  }

  /** The lines of `t` from position `s` on. */
  function LinesFrom(t: string, s: nat): (r: seq<string>)
    requires s <= |t|
    ensures |r| <= |t| - s
    ensures r == [] <==> s == |t|
    decreases |t| - s
  {
    if s == |t| then [] else [t[s..LineEndFrom(t, s)]] + LinesFrom(t, LineEndFrom(t, s))
  }

  /**
   * `f.readlines()`, and what `for line in f` visits: `t` cut after every
   * '\n', each line keeping its '\n'; a last line without one is kept too.
   */
  function Lines(t: string): (r: seq<string>)
    ensures |r| <= |t|
    ensures r == [] <==> t == []
  {
    LinesFrom(t, 0)
  }

  /** The end of a line is determined by its contract. */
  lemma LineEndUnique(t: string, s: nat, e: nat)
    requires s < e <= |t|
    requires forall j :: s <= j < e - 1 ==> t[j] != '\n'
    requires t[e - 1] == '\n' || e == |t|
    ensures LineEndFrom(t, s) == e
  {
  }

  lemma {:induction false} LinesFromJoin(t: string, s: nat)
    requires s <= |t|
    ensures Concat(LinesFrom(t, s)) == t[s..]
    decreases |t| - s
  {
    if s < |t| {
      var e := LineEndFrom(t, s);
      LinesFromJoin(t, e);
      var ls := LinesFrom(t, s);
      assert ls[0] == t[s..e] && ls[1..] == LinesFrom(t, e);
      assert t[s..] == t[s..e] + t[e..];
    }
  }

  /** The lines of a text join back to the text. */
  lemma LinesJoin(t: string)
    ensures Concat(Lines(t)) == t
  {
    LinesFromJoin(t, 0);
    assert t[0..] == t;
  }

  lemma {:induction false} LinesFromWellFormed(t: string, s: nat)
    requires s <= |t|
    ensures forall i :: 0 <= i < |LinesFrom(t, s)| ==> IsLine(LinesFrom(t, s)[i])
    ensures forall i :: 0 <= i < |LinesFrom(t, s)| - 1 ==> EndsInNewline(LinesFrom(t, s)[i])
    decreases |t| - s
  {
    if s < |t| {
      var e := LineEndFrom(t, s);
      LinesFromWellFormed(t, e);
      var ls := LinesFrom(t, s);
      var rest := LinesFrom(t, e);
      assert ls == [t[s..e]] + rest;
      assert IsLine(ls[0]);
      if rest != [] {
        assert e < |t|;
        assert EndsInNewline(ls[0]);
      }
      forall i | 0 < i < |ls| ensures IsLine(ls[i]) {
        assert ls[i] == rest[i - 1];
      }
      forall i | 0 < i < |ls| - 1 ensures EndsInNewline(ls[i]) {
        assert ls[i] == rest[i - 1];
      }
    }
  }

  /** Every line is non-empty with at most a final '\n', and all but the last end in '\n'. */
  lemma LinesWellFormed(t: string)
    ensures forall i :: 0 <= i < |Lines(t)| ==> IsLine(Lines(t)[i])
    ensures forall i :: 0 <= i < |Lines(t)| - 1 ==> EndsInNewline(Lines(t)[i])
  {
    LinesFromWellFormed(t, 0);
  }

  /** `search_in_list`: some line equals the query once both are stripped of whitespace. */
  function SearchInList(lines: seq<string>, query: string): (r: bool)
    ensures r <==> exists i :: 0 <= i < |lines| && Strip(lines[i]) == Strip(query)
  {
    var q := Strip(query);
    Any(lines, (line: string) => Strip(line) == q)
  }

  /** `search_in_lines`: the same test as `search_in_list`, written a second time in the source. */
  function SearchInLines(lines: seq<string>, query: string): (r: bool)
    ensures r <==> exists i :: 0 <= i < |lines| && Strip(lines[i]) == Strip(query)
  {
    var q := Strip(query);
    Any(lines, (line: string) => Strip(line) == q)
  }

  /**
   * `search_with_grep`: the term is a substring of some line (the line still
   * carrying its '\n'); a file that cannot be opened or decoded gives false.
   */
  function SearchWithGrep(file: Source<string>, term: string): (r: bool)
    ensures r <==> file.Readable? && exists i :: 0 <= i < |Lines(file.content)| && IsInfix(term, Lines(file.content)[i])
  {
    match file
    case Readable(text) => Any(Lines(text), (line: string) => IsInfix(term, line))
    case _ => false
  }

  /**
   * `search_with_mmap`: false for a missing or empty file and for any failure;
   * otherwise whether the UTF-8 bytes of the query occur anywhere in the file.
   */
  function SearchWithMmap(file: Source<seq<byte>>, query: string): (r: bool)
    ensures r <==> file.Readable? && file.content != [] && IsInfix(Encode(query), file.content)
  {
    match file
    case Readable(bytes) => bytes != [] && IsInfix(Encode(query), bytes)
    case _ => false
  }

  /**
   * `^query$` under MULTILINE matches at position `p` of `t`: `p` starts a
   * line, the query follows literally, and a line ends right after it.
   */
  predicate LineMatchAt(t: string, query: string, p: int): (r: bool)
    ensures r ==> LineStart(t, p) && IsInfix(query, t)
  {
    var m :=
      && 0 <= p <= |t| - |query|
      && (p == 0 || t[p - 1] == '\n')
      && t[p..p + |query|] == query
      && (p + |query| == |t| || t[p + |query|] == '\n');
    assert m ==> OccursAt(query, t, p);
    m
  }

  /**
   * `search_with_regex`: whether the escaped query, anchored at both ends,
   * matches somewhere in the text; a file that cannot be opened raises.
   */
  function SearchWithRegex(file: Source<string>, query: string): (r: SearchOutcome)
    ensures r.Raised? <==> !file.Readable?
  {
    match file
    case Readable(t) => Returned(exists p :: 0 <= p <= |t| - |query| && LineMatchAt(t, query, p))
    case _ => Raised
  }

  /** The two exact-match functions agree on every input. */
  lemma InLinesAgreesWithInList(lines: seq<string>, query: string)
    ensures SearchInLines(lines, query) == SearchInList(lines, query)
  {
  }

  /** Every line stripped of surrounding whitespace. */
  function StripAll(lines: seq<string>): (r: seq<string>)
    ensures |r| == |lines| && forall i :: 0 <= i < |r| ==> r[i] == Strip(lines[i])
  {
    seq(|lines|, i requires 0 <= i < |lines| => Strip(lines[i]))
  }

  /** Exact matching is blind to whitespace around the lines and around the query. */
  lemma ExactIgnoresSurroundingWhitespace(lines: seq<string>, query: string)
    ensures SearchInList(lines, query) == SearchInList(StripAll(lines), Strip(query))
  {
    TrimIdempotent(query, IsSpace);
    forall i | 0 <= i < |lines| ensures Strip(StripAll(lines)[i]) == Strip(lines[i]) {
      TrimIdempotent(lines[i], IsSpace);
    }
  }

  /** No line, no match; and a match survives appending lines. */
  lemma ExactEmptyAndMonotone(lines: seq<string>, more: seq<string>, query: string)
    ensures !SearchInList([], query)
    ensures SearchInList(lines, query) ==> SearchInList(lines + more, query)
  {
    if SearchInList(lines, query) {
      var i :| 0 <= i < |lines| && Strip(lines[i]) == Strip(query);
      assert (lines + more)[i] == lines[i];
    }
  }

  /** For a query without surrounding whitespace, an exact line match is also a substring match. */
  lemma ExactImpliesGrep(text: string, query: string)
    requires Strip(query) == query
    ensures SearchInList(Lines(text), query) ==> SearchWithGrep(Readable(text), query)
  {
    if SearchInList(Lines(text), query) {
      var i :| 0 <= i < |Lines(text)| && Strip(Lines(text)[i]) == query;
      TrimIsInfix(Lines(text)[i], IsSpace);
    }
  }

  /** Well-formed lines laid out from position `s` on are the lines found there. */
  lemma {:induction false} LinesFromOfLines(t: string, s: nat, ls: seq<string>)
    requires s <= |t| && t[s..] == Concat(ls)
    requires forall i :: 0 <= i < |ls| ==> IsLine(ls[i])
    requires forall i :: 0 <= i < |ls| - 1 ==> EndsInNewline(ls[i])
    ensures LinesFrom(t, s) == ls
    decreases |ls|
  {
    if ls == [] {
      assert |t[s..]| == 0;
    } else {
      var line := ls[0];
      var e := s + |line|;
      assert t[s..] == line + Concat(ls[1..]);
      assert t[s..e] == line;
      assert t[e..] == Concat(ls[1..]);
      forall j | s <= j < e - 1 ensures t[j] != '\n' {
        assert t[j] == line[j - s];
      }
      if |ls| > 1 {
        assert t[e - 1] == line[|line| - 1];
      } else {
        assert Concat(ls[1..]) == [];
      }
      LineEndUnique(t, s, e);
      LinesFromOfLines(t, e, ls[1..]);
    }
  }

  /**
   * Joining well-formed lines and splitting the result again gives back the
   * same lines: `Lines` and `Concat` are inverse on line lists.
   */
  lemma LinesOfConcatLines(ls: seq<string>)
    requires forall i :: 0 <= i < |ls| ==> IsLine(ls[i])
    requires forall i :: 0 <= i < |ls| - 1 ==> EndsInNewline(ls[i])
    ensures Lines(Concat(ls)) == ls
  {
    var t := Concat(ls);
    assert t[0..] == t;
    LinesFromOfLines(t, 0, ls);
  }

  /** The converse fails: "apple" is a substring of the line "applesauce" but not equal to it. */
  lemma GrepDoesNotImplyExact()
    ensures SearchWithGrep(Readable("applesauce"), "apple")
    ensures !SearchInList(["applesauce"], "apple")
  {
    var line := "applesauce";
    assert Concat([line]) == line;
    LinesOfConcatLines([line]);
    assert OccursAt("apple", line, 0);
    TrimKeeps(line, IsSpace);
    TrimKeeps("apple", IsSpace);
  }

  /**
   * The lines of the end-to-end file join to its text, one line at a time.
   * The literal is a parameter pinned by `requires` so that the solver keeps it as one term.
   */
  lemma TestLinesJoin(lines: seq<string>)
    requires lines == ["banana\n", "apple\n", "orange\n"]
    ensures Concat(lines) == "banana\napple\norange\n"
  {
    assert lines[1..][1..] == ["orange\n"] && lines[1..][1..][1..] == [];
    assert Concat(lines[1..][1..]) == "orange\n";
    assert Concat(lines[1..]) == "apple\n" + "orange\n";
    assert Concat(lines) == "banana\n" + ("apple\n" + "orange\n");
  }

  /** The end-to-end data: among the lines banana, apple, orange, grep finds "banana". */
  lemma GrepFindsBanana()
    ensures SearchWithGrep(Readable("banana\napple\norange\n"), "banana")
  {
    var lines := ["banana\n", "apple\n", "orange\n"];
    TestLinesJoin(lines);
    LinesOfConcatLines(lines);
    assert OccursAt("banana", lines[0], 0);
  }

  /** The end-to-end data: among the lines banana, apple, orange, grep does not find "pineapple". */
  lemma GrepMissesPineapple()
    ensures !SearchWithGrep(Readable("banana\napple\norange\n"), "pineapple")
  {
    var lines := ["banana\n", "apple\n", "orange\n"];
    TestLinesJoin(lines);
    LinesOfConcatLines(lines);
  }

  /** At the start `s` of a line, a match of `^q$` there is a line whose body is the query. */
  lemma MatchAtLineStartIsLine(t: string, q: string, s: nat)
    requires LineStart(t, s) && s < |t| && q != [] && '\n' !in q
    requires LineMatchAt(t, q, s)
    ensures LineBody(t[s..LineEndFrom(t, s)]) == q
  {
    assert t[s..s + |q|] == q;
    var e := if s + |q| == |t| then |t| else s + |q| + 1;
    forall j | s <= j < e - 1 ensures t[j] != '\n' {
      assert t[j] == q[j - s];
    }
    LineEndUnique(t, s, e);
    assert t[s..e][..|q|] == q;
    assert q[|q| - 1] != '\n';
  }

  /** At the start `s` of a line whose body is the query, `^q$` matches. */
  lemma LineAtLineStartMatches(t: string, q: string, s: nat)
    requires LineStart(t, s) && s < |t| && q != []
    requires LineBody(t[s..LineEndFrom(t, s)]) == q
    ensures LineMatchAt(t, q, s)
  {
    var e := LineEndFrom(t, s);
    var line := t[s..e];
    if EndsInNewline(line) {
      assert e == s + |q| + 1;
      assert t[s..s + |q|] == line[..|q|];
    } else {
      assert e == |t| && line == q;
    }
  }

  /** A match of the anchored pattern at or after a line start lies on a line whose body is the query. */
  lemma {:induction false} MatchIsLineBody(t: string, q: string, s: nat, p: int) returns (i: nat)
    requires q != [] && '\n' !in q
    requires LineStart(t, s) && s <= p && LineMatchAt(t, q, p)
    ensures i < |LinesFrom(t, s)| && LineBody(LinesFrom(t, s)[i]) == q
    decreases |t| - s
  {
    var e := LineEndFrom(t, s);
    if p == s {
      MatchAtLineStartIsLine(t, q, s);
      i := 0;
    } else {
      assert e <= p;
      var j := MatchIsLineBody(t, q, e, p);
      i := j + 1;
      assert LinesFrom(t, s)[i] == LinesFrom(t, e)[j];
    }
  }

  /** A line from a line start on whose body is the query gives a match of the anchored pattern. */
  lemma {:induction false} LineBodyIsMatch(t: string, q: string, s: nat, i: nat) returns (p: int)
    requires q != [] && '\n' !in q && LineStart(t, s)
    requires i < |LinesFrom(t, s)| && LineBody(LinesFrom(t, s)[i]) == q
    ensures s <= p && LineMatchAt(t, q, p)
    decreases |t| - s
  {
    var e := LineEndFrom(t, s);
    if i == 0 {
      LineAtLineStartMatches(t, q, s);
      p := s;
    } else {
      assert LinesFrom(t, s)[i] == LinesFrom(t, e)[i - 1];
      p := LineBodyIsMatch(t, q, e, i - 1);
    }
  }

  /**
   * `search_with_regex` on a readable file is whole-line equality with no
   * trimming: for a non-empty query without '\n', it finds the query exactly
   * when some line of the file, without its '\n', is the query.
   */
  lemma RegexIsWholeLineEquality(text: string, query: string)
    requires query != [] && '\n' !in query
    ensures SearchWithRegex(Readable(text), query).found
            <==> exists i :: 0 <= i < |Lines(text)| && LineBody(Lines(text)[i]) == query
  {
    var found := SearchWithRegex(Readable(text), query).found;
    if found {
      var p :| 0 <= p <= |text| - |query| && LineMatchAt(text, query, p);
      var i := MatchIsLineBody(text, query, 0, p);
      assert 0 <= i < |Lines(text)| && LineBody(Lines(text)[i]) == query;
    }
    if i :| 0 <= i < |Lines(text)| && LineBody(Lines(text)[i]) == query {
      var p := LineBodyIsMatch(text, query, 0, i);
      assert 0 <= p <= |text| - |query| && LineMatchAt(text, query, p);
      assert found;
    }
  }

  /** For a query without surrounding whitespace, a regex match is also an exact match. */
  lemma RegexImpliesExact(text: string, query: string)
    requires query != [] && '\n' !in query && Strip(query) == query
    ensures SearchWithRegex(Readable(text), query).found ==> SearchInList(Lines(text), query)
  {
    if SearchWithRegex(Readable(text), query).found {
      RegexIsWholeLineEquality(text, query);
      var i :| 0 <= i < |Lines(text)| && LineBody(Lines(text)[i]) == query;
      var line := Lines(text)[i];
      if EndsInNewline(line) {
        assert line == query + ['\n'];
        TrimAppendDropped(query, '\n', IsSpace);
      }
    }
  }

  /** The regex strategy does not trim: the line " apple" matches "apple" exactly but not by regex. */
  lemma RegexDoesNotTrim()
    ensures SearchInList(Lines(" apple\n"), "apple")
    ensures !SearchWithRegex(Readable(" apple\n"), "apple").found
  {
    var line := " apple\n";
    OneLine(line);
    ExactMatchesPaddedLine(line);
    RegexMissesPaddedLine(line);
  }

  /** A text of one line splits into just that line. */
  lemma OneLine(line: string)
    requires IsLine(line)
    ensures Lines(line) == [line]
  {
    assert [line][1..] == [];
    assert Concat([line]) == line;
    LinesOfConcatLines([line]);
  }

  /**
   * ` apple\n` and `apple` are equal once stripped.
   * The literal is a parameter pinned by `requires` so that the solver keeps it as one term.
   */
  lemma ExactMatchesPaddedLine(line: string)
    requires line == " apple\n"
    ensures Strip(line) == Strip("apple")
  {
    TrimUnique(line, IsSpace, 1, 6);
    assert line[1..6] == "apple";
    TrimKeeps("apple", IsSpace);
  }

  /**
   * `^apple$` does not match the text ` apple\n`.
   * The literal is a parameter pinned by `requires` so that the solver keeps it as one term.
   */
  lemma RegexMissesPaddedLine(line: string)
    requires line == " apple\n"
    ensures !SearchWithRegex(Readable(line), "apple").found
  {
    OneLine(line);
    RegexIsWholeLineEquality(line, "apple");
    assert LineBody(line) == " apple";
  }

  /** A joined list of strings splits around any one of them. */
  lemma {:induction false} ConcatAround(ls: seq<string>, i: int)
    requires 0 <= i < |ls|
    ensures Concat(ls) == Concat(ls[..i]) + ls[i] + Concat(ls[i + 1..])
  {
    if i > 0 {
      ConcatAround(ls[1..], i - 1);
      assert ls[1..][..i - 1] == ls[1..i] && ls[1..][i..] == ls[i + 1..];
      assert Concat(ls[..i]) == ls[0] + Concat(ls[1..i]) by {
        assert ls[..i][0] == ls[0] && ls[..i][1..] == ls[1..i];
      }
    } else {
      assert ls[..0] == [] && ls[1..] == ls[i + 1..];
    }
  }

  /** Encoding keeps occurrences: a substring's bytes occur in the whole string's bytes. */
  lemma InfixEncode(a: string, b: string)
    requires IsInfix(a, b)
    ensures IsInfix(Encode(a), Encode(b))
  {
    var i :| 0 <= i <= |b| - |a| && OccursAt(a, b, i);
    var pre, post := b[..i], b[i + |a|..];
    assert b == pre + a + post;
    EncodeAppend(pre + a, post);
    EncodeAppend(pre, a);
    assert OccursAt(Encode(a), Encode(a), 0);
    InfixOfConcat(Encode(a), Encode(pre), Encode(a), Encode(post));
  }

  /**
   * Whatever grep finds in a text, the byte scan finds in the UTF-8 bytes of
   * the same text.
   */
  lemma GrepImpliesMmap(text: string, query: string)
    ensures SearchWithGrep(Readable(text), query) ==> SearchWithMmap(Readable(Encode(text)), query)
  {
    if SearchWithGrep(Readable(text), query) {
      var ls := Lines(text);
      var i :| 0 <= i < |ls| && IsInfix(query, ls[i]);
      LinesJoin(text);
      ConcatAround(ls, i);
      InfixOfConcat(query, Concat(ls[..i]), ls[i], Concat(ls[i + 1..]));
      InfixEncode(query, text);
    }
  }

  /** The byte scan crosses line breaks where grep does not: "b\nc" in the text "ab\ncd". */
  lemma MmapCrossesLineBreaks()
    ensures SearchWithMmap(Readable(Encode("ab\ncd")), "b\nc")
    ensures !SearchWithGrep(Readable("ab\ncd"), "b\nc")
  {
    MmapFindsAcrossLines("ab\ncd");
    GrepMissesAcrossLines("ab\ncd");
  }

  /**
   * The UTF-8 bytes of `b\nc` occur in those of `ab\ncd`.
   * The literal is a parameter pinned by `requires` so that the solver keeps it as one term.
   */
  lemma MmapFindsAcrossLines(text: string)
    requires text == "ab\ncd"
    ensures SearchWithMmap(Readable(Encode(text)), "b\nc")
  {
    assert OccursAt("b\nc", text, 1);
    InfixEncode("b\nc", text);
  }

  /**
   * Neither line of `ab\ncd` contains `b\nc`.
   * The literal is a parameter pinned by `requires` so that the solver keeps it as one term.
   */
  lemma GrepMissesAcrossLines(text: string)
    requires text == "ab\ncd"
    ensures !SearchWithGrep(Readable(text), "b\nc")
  {
    var lines := ["ab\n", "cd"];
    assert Concat(lines) == text;
    LinesOfConcatLines(lines);
    NoInfixLonger("b\nc", "cd");
    assert !IsInfix("b\nc", "ab\n") by {
      forall i | 0 <= i <= 0 ensures !OccursAt("b\nc", "ab\n", i) {
        assert "ab\n"[0..3][0] == 'a';
      }
    }
  }

  /** A needle longer than the haystack never occurs in it. */
  lemma NoInfixLonger<T>(needle: seq<T>, hay: seq<T>)
    requires |hay| < |needle|
    ensures !IsInfix(needle, hay)
  {
  }

  /** `mm.find(b"")` is 0: the empty query is found in every non-empty file. */
  lemma MmapEmptyQuery(bytes: seq<byte>)
    ensures SearchWithMmap(Readable(bytes), "") <==> bytes != []
  {
    assert OccursAt([], bytes, 0);
  }
}
