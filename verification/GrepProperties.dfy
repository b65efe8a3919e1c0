/**
  What the four search strategies of grep/grep.py promise, stated over the
  functions that specify them: which tokens or lines a search records and
  with what text, when it answers with a sentinel, how read and regex errors
  turn into "no match", and which paths `run` returns.
 */
module GrepProperties {
  import opened PyStr
  import opened Grep

  // -----------------------------------------------------------------------
  // Whole-file searches

  /** `r` is the token dictionary of `text.split()` for the hit `hit`:
      every entry is a token index with that token, the token holds `hit`,
      the indices increase, and every token holding `hit` has its entry. */
  predicate TokensRecorded(r: MatchResult, tokens: seq<string>, hit: string) {
    && r.Entries?
    && |r.items| <= |tokens|
    && (forall i | 0 <= i < |r.items| ::
          r.items[i].0 < |tokens| && r.items[i].1 == tokens[r.items[i].0] && Contains(r.items[i].1, hit))
    && (forall i, j | 0 <= i < j < |r.items| :: r.items[i].0 < r.items[j].0)
    && (forall k | 0 <= k < |tokens| :: Lookup(r.items, k) == (if Contains(tokens[k], hit) then Some(tokens[k]) else None))
  }

  /** Past the empty-term, no-hit and binary gates, the whole-file scan
      records exactly the tokens that hold the hit. */
  lemma ScanRecordsTokens(term: string, text: string, hit: string)
    requires term != "" && hit != ""
    ensures TokensRecorded(WholeFileResult(term, text, hit, false), Words(text), hit)
  {
    var tokens := Words(text);
    var vals := TokenValues(tokens, hit);
    var d := Collect(vals, 0);
    CollectSpec(vals, 0);
    forall i | 0 <= i < |d|
      ensures d[i].0 < |tokens| && d[i].1 == tokens[d[i].0] && Contains(d[i].1, hit)
    {
      assert vals[d[i].0] == Some(d[i].1);
    }
    forall k | 0 <= k < |tokens|
      ensures Lookup(d, k) == (if Contains(tokens[k], hit) then Some(tokens[k]) else None)
    {
      assert Lookup(d, 0 + k) == vals[k];
    }
  }

  /** `match_f_for_str` on a readable file: the content itself for the empty
      term, `{}` when the term does not occur, the binary sentinel when it
      occurs in a binary file, and otherwise every whitespace-separated token
      that contains the term, under its index. */
  lemma WholeFileLiteralSpec(term: string, lines: seq<string>, isBinary: bool)
    ensures var text := Concat(lines);
            var o := WholeFileLiteral(term, Text(lines), isBinary);
            && o.Returned?
            && (term == "" ==> o.result == FileSentinel(text))
            && (term != "" && !Contains(text, term) ==> o.result == Entries([]))
            && (term != "" && Contains(text, term) && isBinary ==> o.result == BinarySentinel)
            && (term != "" && Contains(text, term) && !isBinary ==> TokensRecorded(o.result, Words(text), term))
  {
    var text := Concat(lines);
    if term != "" && Contains(text, term) && !isBinary {
      ScanRecordsTokens(term, text, term);
    }
  }

  /** `match_f_for_pattern` on a readable file: as the literal search, with
      the last `findall` hit in place of the term; that hit occurs in the
      content. */
  lemma WholeFilePatternSpec(term: string, lines: seq<string>, isBinary: bool, findall: string -> seq<string>)
    requires HitsOccur(findall)
    ensures var text := Concat(lines);
            var hit := LastHit(findall(text));
            var o := WholeFilePattern(term, Text(lines), isBinary, Pattern(findall));
            && o.Returned?
            && (hit == "" || Contains(text, hit))
            && (term == "" ==> o.result == FileSentinel(text))
            && (term != "" && hit == "" ==> o.result == Entries([]))
            && (term != "" && hit != "" && isBinary ==> o.result == BinarySentinel)
            && (term != "" && hit != "" && !isBinary ==> TokensRecorded(o.result, Words(text), hit))
  {
    var text := Concat(lines);
    var hit := LastHit(findall(text));
    if term != "" && hit != "" && !isBinary {
      ScanRecordsTokens(term, text, hit);
    }
  }

  /** A term with whitespace in it never matches a token of `split()`, so
      the whole-file literal search of a text file finds nothing even where
      the term occurs verbatim. */
  lemma SpacedTermNeverMatches(term: string, file: File, isBinary: bool)
    requires HasSpace(term) && !file.Unopenable? && !isBinary
    ensures WholeFileLiteral(term, file, isBinary) == Returned(Entries([]))
  {
    var text := if file.Text? then Concat(file.lines) else "";
    var tokens := Words(text);
    var vals := TokenValues(tokens, term);
    forall n | 0 <= n < |vals| ensures vals[n].None? {
      NoSpacedTermInWord(tokens[n], term);
    }
    CollectNonePresent(vals, 0);
  }

  /** The converse for a whitespace-free term: when it occurs in the text of
      a text file, the token holding it is recorded, so the result is not
      `{}`. With `SpacedTermNeverMatches`, the whole-file literal search of a
      text file finds something exactly when the term occurs and has no
      whitespace. */
  lemma PresentTermMatches(term: string, lines: seq<string>)
    requires term != "" && !HasSpace(term) && Contains(Concat(lines), term)
    ensures var o := WholeFileLiteral(term, Text(lines), false);
            o.Returned? && o.result.Entries? && o.result.items != []
  {
    var text := Concat(lines);
    var tokens := Words(text);
    var o := WholeFileLiteral(term, Text(lines), false);
    OccurrenceInWord(text, term, Find(text, term));
    var k :| 0 <= k < |tokens| && Contains(tokens[k], term);
    WholeFileLiteralSpec(term, lines, false);
    assert Lookup(o.result.items, k) == Some(tokens[k]);
  }

  /** The `return` inside `finally` swallows the decoding error of a whole-file
      search, which then searches an empty text: only the empty term gives a
      result (`{'file': ''}`). The line-by-line searches let the error escape,
      which `search_wrapper` turns into no match. */
  lemma DecodeErrorSwallowed(term: string, isRegex: bool, path: string, isBinary: bool, compiled: Compiled)
    requires compiled.Pattern? ==> HitsOccur(compiled.findall)
    ensures Searched(term, false, isRegex, path, Undecodable, isBinary, compiled)
              == if term == "" && !(isRegex && compiled.CompileError?) then Some(Found(path, FileSentinel("")))
                 else None
    ensures Searched(term, true, isRegex, path, Undecodable, isBinary, compiled) == None
  {
    if isRegex && compiled.Pattern? {
      var hits := compiled.findall("");
      if hits != [] {
        assert Contains("", hits[|hits| - 1]);
      }
    }
  }

  /** A file that cannot be opened never matches, whatever the strategy. */
  lemma UnopenableNeverMatches(term: string, lineByLine: bool, isRegex: bool, path: string,
                               isBinary: bool, compiled: Compiled)
    requires compiled.Pattern? ==> HitsOccur(compiled.findall)
    ensures Searched(term, lineByLine, isRegex, path, Unopenable, isBinary, compiled) == None
  {
  }

  // -----------------------------------------------------------------------
  // Line-by-line searches

  /** The truncated text is a prefix of the line that runs through the first
      occurrence of the separator. With `a` the length of `split_str[0] + sep`
      and `b` that of `split_str[1]`, the negative slice keeps `a` characters
      of `split_str[1]` when that piece is longer, otherwise the difference
      `a - b` when it is below `b`, and otherwise the whole piece. */
  lemma TruncatedRawSpec(line: string, sep: string)
    requires sep != "" && Contains(line, sep)
    ensures var parts := Split(line, sep);
            var a := |parts[0]| + |sep|;
            var b := |parts[1]|;
            var raw := TruncatedRaw(line, sep);
            && a + b <= |line|
            && |raw| == a + (if a < b then a else if a - b < b then a - b else b)
            && raw == line[..|raw|]
            && raw[..a] == parts[0] + sep
  {
    TruncatedRawPrefix(line, sep);
  }

  /** The truncated text as a prefix of the line. */
  lemma TruncatedRawPrefix(line: string, sep: string)
    requires sep != "" && Contains(line, sep)
    ensures var parts := Split(line, sep);
            var a := |parts[0]| + |sep|;
            var b := |parts[1]|;
            && a + b <= |line|
            && parts[0] + sep == line[..a]
            && TruncatedRaw(line, sep) == line[..a + (if a < b then a else if a - b < b then a - b else b)]
  {
    var parts := Split(line, sep);
    var a := |parts[0]| + |sep|;
    var b := |parts[1]|;
    assert parts[0] + sep == line[..a] && parts[1] == line[a..a + b] by {
      SplitHead(line, sep);
    }
    SliceKeeps(line, a, b);
  }

  /** The negative slice on the piece `line[a..a + b]` that follows a
      prefix of length `a`: the prefix and the kept part of the piece form
      a prefix of the line, of the stated length. */
  lemma SliceKeeps(line: string, a: nat, b: nat)
    requires 0 < a && a + b <= |line|
    ensures var p1 := line[a..a + b];
            var m := if a < b then a else if a - b < b then a - b else b;
            line[..a] + SliceTo(p1, -|p1| + a) == line[..a + m]
  {
    var p1 := line[a..a + b];
    var kept := SliceTo(p1, -|p1| + a);
    var m := |kept|;
    assert kept == p1[..m];
    assert p1[..m] == line[a..a + m];
  }

  /** A line that starts with the term and holds it nowhere else: the
      negative slice keeps the term and then, of the rest, as many
      characters as the term has when the rest is longer, the difference of
      the lengths when that is shorter than the rest, and the whole rest
      otherwise. */
  lemma LeadingTerm(term: string, rest: string)
    requires term != "" && !Contains(rest, term)
    ensures var line := term + rest;
            var a := |term|;
            var b := |rest|;
            && Contains(line, term)
            && TruncatedRaw(line, term) == line[..a + (if a < b then a else if a - b < b then a - b else b)]
  {
    var line := term + rest;
    assert OccursAt(line, term, 0);
    assert Find(line, term) == 0;
    assert line[|term|..] == rest;
    SplitHead(line, term);
    assert Split(line, term)[0] == "" && Split(line, term)[1] == rest;
    TruncatedRawPrefix(line, term);
  }

  /** The line `'aware werwer\n'` searched for `'aware'` keeps four
      characters past the term. */
  lemma TruncationExample(line: string, term: string)
    requires line == "aware werwer\n" && term == "aware"
    ensures Contains(line, term) && TruncatedMatch(line, term) == "aware werw"
  {
    var rest := " werwer\n";
    assert line == term + rest;
    NoTermInRest(rest, term);
    LeadingTerm(term, rest);
    assert line[..10] == "aware werw";
    NoSpaceAtEnds("aware werw");
  }

  /** What follows the term in that line does not contain it. */
  lemma NoTermInRest(rest: string, term: string)
    requires rest == " werwer\n" && term == "aware"
    ensures !Contains(rest, term)
  {
    assert forall k | 0 <= k < |rest| :: rest[k] != 'a';
    MissingFirstChar(rest, term);
  }

  /** `'aware werw'.strip()` is itself. */
  lemma NoSpaceAtEnds(s: string)
    requires s == "aware werw"
    ensures Strip(s) == s
  {
    assert s + "" == s;
    assert !IsSpace(s[0]) && !IsSpace(s[9]);
    StripTrailing(s, "");
  }

  /** A line holding only the term keeps the term: the slice then runs past
      the end of the (shorter) rest, and `strip()` removes the newline. */
  lemma TruncationWholeLine(line: string, term: string)
    requires line == "aware\n" && term == "aware"
    ensures Contains(line, term) && TruncatedMatch(line, term) == "aware"
  {
    assert line == term + "\n";
    assert !Contains("\n", term) by {
      MissingFirstChar("\n", term);
    }
    LeadingTerm(term, "\n");
    assert line[..6] == line;
    assert !IsSpace(term[0]) && !IsSpace(term[4]);
    StripTrailing(term, "\n");
  }

  /** A string in which the first character of `t` never appears does not contain `t`. */
  lemma MissingFirstChar(s: string, t: string)
    requires t != "" && forall k | 0 <= k < |s| :: s[k] != t[0]
    ensures !Contains(s, t)
  {
    forall j | 0 <= j ensures !OccursAt(s, t, j) {
      if j + |t| <= |s| {
        assert s[j..j + |t|][0] == s[j];
      }
    }
  }

  /** `strip()` of a text that neither starts nor ends with whitespace,
      followed by whitespace only, gives back that text. */
  lemma StripTrailing(s: string, t: string)
    requires s != "" && !IsSpace(s[0]) && !IsSpace(s[|s| - 1])
    requires forall k | 0 <= k < |t| :: IsSpace(t[k])
    ensures Strip(s + t) == s
  {
    RStripTrailing(s, t);
    assert (s + t)[0] == s[0];
    assert LStrip(s + t) == s + t;
  }

  /** `rstrip()` removes whitespace that follows a text not ending in whitespace, and nothing more. */
  lemma {:induction false} RStripTrailing(s: string, t: string)
    requires s == "" || !IsSpace(s[|s| - 1])
    requires forall k | 0 <= k < |t| :: IsSpace(t[k])
    ensures RStrip(s + t) == s
    decreases |t|
  {
    if t == [] {
      assert s + t == s;
    } else {
      var u := t[..|t| - 1];
      assert (s + t)[..|s + t| - 1] == s + u;
      assert (s + t)[|s + t| - 1] == t[|t| - 1];
      RStripTrailing(s, u);
    }
  }

  /** `AnyTermFires` holds exactly when some line contains the non-empty term. */
  lemma {:induction false} AnyTermFiresIff(term: string, lines: seq<string>)
    ensures AnyTermFires(term, lines) <==> exists n | 0 <= n < |lines| :: TermFires(term, lines[n])
    decreases |lines|
  {
    if lines != [] {
      var m := |lines| - 1;
      AnyTermFiresIff(term, lines[..m]);
      if exists n | 0 <= n < |lines| :: TermFires(term, lines[n]) {
        var n :| 0 <= n < |lines| && TermFires(term, lines[n]);
        if n < m {
          assert lines[..m][n] == lines[n];
        }
      }
      if AnyTermFires(term, lines[..m]) {
        var n :| 0 <= n < m && TermFires(term, lines[..m][n]);
        assert lines[n] == lines[..m][n];
      }
    }
  }

  /** `search_line_by_line_for_term` with the empty term records every line,
      stripped, under its 1-based number, binary or not. */
  lemma EmptyTermRecordsEveryLine(lines: seq<string>, isBinary: bool)
    ensures var r := LinesForTerm("", lines, isBinary);
            && r.Entries?
            && |r.items| == |lines|
            && forall n | 0 <= n < |lines| :: r.items[n] == (n + 1, Strip(lines[n]))
  {
    var vals := TermLineValues("", lines);
    assert !AnyTermFires("", lines) by {
      AnyTermFiresIff("", lines);
    }
    assert forall n | 0 <= n < |vals| :: vals[n] == Some(Strip(lines[n]));
    CollectAllPresent(vals, 1);
  }

  /** The dictionary the literal search builds for a non-empty term: line
      numbers in increasing order, line `n + 1` mapped to its truncated match
      when it contains the term and absent when it does not. */
  lemma TermDictionary(term: string, lines: seq<string>)
    requires term != ""
    ensures var d := Collect(TermLineValues(term, lines), 1);
            && (forall i, j | 0 <= i < j < |d| :: d[i].0 < d[j].0)
            && (forall n | 0 <= n < |lines| ::
                  Lookup(d, n + 1) == if Contains(lines[n], term) then Some(TruncatedMatch(lines[n], term)) else None)
  {
    var vals := TermLineValues(term, lines);
    CollectOrdered(vals, 1);
    forall n | 0 <= n < |lines|
      ensures Lookup(Collect(vals, 1), n + 1) == TermLineValue(term, lines[n])
    {
      CollectLookup(vals, 1, n);
    }
  }

  /** `search_line_by_line_for_term` with a non-empty term: the binary
      sentinel exactly when the file is binary and some line contains the
      term, and otherwise the dictionary of `TermDictionary`. */
  lemma LinesForTermSpec(term: string, lines: seq<string>, isBinary: bool)
    requires term != ""
    ensures var r := LinesForTerm(term, lines, isBinary);
            && (r == BinarySentinel <==> isBinary && exists n | 0 <= n < |lines| :: Contains(lines[n], term))
            && (r != BinarySentinel ==> r == Entries(Collect(TermLineValues(term, lines), 1)))
  {
    AnyTermFiresIff(term, lines);
    if exists n | 0 <= n < |lines| :: Contains(lines[n], term) {
      var n :| 0 <= n < |lines| && Contains(lines[n], term);
      assert TermFires(term, lines[n]);
    }
  }

  /** Two recorded lines give the dictionary `{1: first, 2: second}`. */
  lemma TwoLinesRecorded(vals: seq<Option<string>>)
    requires |vals| == 2 && vals[0].Some? && vals[1].Some?
    ensures Collect(vals, 1) == [(1, vals[0].value), (2, vals[1].value)]
  {
    assert vals[..1][..0] == [];
    assert Collect(vals[..1], 1) == [(1, vals[0].value)];
    assert vals[..2] == vals;
    assert Collect(vals, 1) == Collect(vals[..1], 1) + [(2, vals[1].value)];
  }

  /** A two-line file in which the term fires on both lines, searched
      without the binary check, records both lines under 1 and 2. */
  lemma TwoLineSearch(term: string, first: string, second: string, v0: string, v1: string)
    requires TermLineValue(term, first) == Some(v0) && TermLineValue(term, second) == Some(v1)
    ensures LinesForTerm(term, [first, second], false) == Entries([(1, v0), (2, v1)])
  {
    var vals := TermLineValues(term, [first, second]);
    assert vals[0] == Some(v0) && vals[1] == Some(v1);
    TwoLinesRecorded(vals);
  }

  /** The file `'aware\naware werwer\n'` searched line by line for `'aware'`. */
  lemma LineByLineExample(lines: seq<string>, term: string)
    requires lines == ["aware\n", "aware werwer\n"] && term == "aware"
    ensures LinesForTerm(term, lines, false) == Entries([(1, "aware"), (2, "aware werw")])
  {
    TruncationWholeLine(lines[0], term);
    TruncationExample(lines[1], term);
    assert lines == [lines[0], lines[1]];
    TwoLineSearch(term, lines[0], lines[1], "aware", "aware werw");
  }

  /** `AnyHits` holds exactly when `findall` finds something on some line. */
  lemma {:induction false} AnyHitsIff(findall: string -> seq<string>, lines: seq<string>)
    ensures AnyHits(findall, lines) <==> exists n | 0 <= n < |lines| :: findall(lines[n]) != []
    decreases |lines|
  {
    if lines != [] {
      var m := |lines| - 1;
      AnyHitsIff(findall, lines[..m]);
      if exists n | 0 <= n < |lines| :: findall(lines[n]) != [] {
        var n :| 0 <= n < |lines| && findall(lines[n]) != [];
        if n < m {
          assert lines[..m][n] == lines[n];
        }
      }
      if AnyHits(findall, lines[..m]) {
        var n :| 0 <= n < m && findall(lines[..m][n]) != [];
        assert lines[n] == lines[..m][n];
      }
    }
  }

  /** What the regex search's dictionary holds for line `n + 1`: the text up
      to the first hit (the whole stripped line when that hit is empty) when
      the line has a hit; otherwise the stripped line for the empty pattern,
      and nothing for any other. */
  lemma RegexDictionaryAt(term: string, lines: seq<string>, findall: string -> seq<string>, n: nat)
    requires HitsOccur(findall) && n < |lines|
    ensures var d := Collect(RegexLineValues(term, lines, findall), 1);
            var hits := findall(lines[n]);
            Lookup(d, n + 1)
              == if hits == [] then (if term == "" then Some(Strip(lines[n])) else None)
                 else if hits[0] == "" then Some(Strip(lines[n]))
                 else Some(TruncatedMatch(lines[n], hits[0]))
  {
    var vals := RegexLineValues(term, lines, findall);
    CollectSpec(vals, 1);
    assert Lookup(Collect(vals, 1), 1 + n) == vals[n];
  }

  /** The regex search's dictionary lists line numbers in increasing order,
      each at most once. */
  lemma RegexDictionaryOrdered(term: string, lines: seq<string>, findall: string -> seq<string>)
    requires HitsOccur(findall)
    ensures var d := Collect(RegexLineValues(term, lines, findall), 1);
            && |d| <= |lines|
            && (forall i | 0 <= i < |d| :: 1 <= d[i].0 <= |lines|)
            && (forall i, j | 0 <= i < j < |d| :: d[i].0 < d[j].0)
  {
    CollectSpec(RegexLineValues(term, lines, findall), 1);
  }

  /** `search_line_by_line_for_regex`: the binary sentinel exactly when the
      file is binary and some line has a hit, and otherwise the dictionary of
      `RegexDictionary`. */
  lemma LinesForRegexSpec(term: string, lines: seq<string>, isBinary: bool, findall: string -> seq<string>)
    requires HitsOccur(findall)
    ensures var r := LinesForRegex(term, lines, isBinary, findall);
            && (r == BinarySentinel <==> isBinary && exists n | 0 <= n < |lines| :: findall(lines[n]) != [])
            && (r != BinarySentinel ==> r == Entries(Collect(RegexLineValues(term, lines, findall), 1)))
  {
    AnyHitsIff(findall, lines);
  }

  /** `re.findall` of the empty pattern: one empty hit first on every line. */
  ghost predicate EmptyHitFirst(findall: string -> seq<string>) {
    forall t :: findall(t) != [] && findall(t)[0] == ""
  }

  /** The empty pattern searched line by line: the binary sentinel for a
      non-empty binary file, and otherwise the same dictionary as the empty
      literal term, every stripped line under its number. */
  lemma EmptyPatternMatchesEveryLine(lines: seq<string>, isBinary: bool, findall: string -> seq<string>)
    requires HitsOccur(findall) && EmptyHitFirst(findall)
    ensures LinesForRegex("", lines, isBinary, findall)
              == if isBinary && lines != [] then BinarySentinel else LinesForTerm("", lines, isBinary)
  {
    AnyTermFiresIff("", lines);
    var rv := RegexLineValues("", lines, findall);
    var tv := TermLineValues("", lines);
    assert rv == tv;
  }

  // -----------------------------------------------------------------------
  // Dispatch and run

  /** A pattern that does not compile gives no match in either regex strategy. */
  lemma CompileErrorNoMatch(term: string, lineByLine: bool, path: string, file: File, isBinary: bool)
    ensures Searched(term, lineByLine, true, path, file, isBinary, CompileError) == None
  {
  }

  /** `Kept` keeps exactly the paths for which `hit` holds, no more paths than it is given. */
  lemma {:induction false} KeptSpec(paths: seq<string>, hit: string -> bool)
    ensures var r := Kept(paths, hit);
            && |r| <= |paths|
            && forall p :: p in r <==> p in paths && hit(p)
    decreases |paths|
  {
    if paths != [] {
      var n := |paths| - 1;
      KeptSpec(paths[..n], hit);
      assert paths == paths[..n] + [paths[n]];
    }
  }

  /** `Kept` of a concatenation is the concatenation of the two `Kept`s. */
  lemma {:induction false} KeptAppend(ps: seq<string>, qs: seq<string>, hit: string -> bool)
    ensures Kept(ps + qs, hit) == Kept(ps, hit) + Kept(qs, hit)
    decreases |qs|
  {
    if qs == [] {
      assert ps + qs == ps;
    } else {
      var n := |qs| - 1;
      var last := if hit(qs[n]) then [qs[n]] else [];
      KeptAppend(ps, qs[..n], hit);
      assert (ps + qs)[..|ps + qs| - 1] == ps + qs[..n];
      assert (ps + qs)[|ps + qs| - 1] == qs[n];
      assert Kept(ps + qs, hit) == Kept(ps + qs[..n], hit) + last;
      assert Kept(qs, hit) == Kept(qs[..n], hit) + last;
    }
  }

  /** `run` keeps exactly the paths whose search matched, each at most as
      often as it is enumerated. */
  lemma MatchedPathsSpec(term: string, lineByLine: bool, isRegex: bool, paths: seq<string>,
                         disk: string -> File, isBinaryFile: string -> bool, compiled: Compiled)
    requires compiled.Pattern? ==> HitsOccur(compiled.findall)
    ensures var r := MatchedPaths(term, lineByLine, isRegex, paths, disk, isBinaryFile, compiled);
            && |r| <= |paths|
            && forall p :: p in r <==> p in paths && Searched(term, lineByLine, isRegex, p, disk(p), isBinaryFile(p), compiled).Some?
  {
    KeptSpec(paths, p => Searched(term, lineByLine, isRegex, p, disk(p), isBinaryFile(p), compiled).Some?);
  }

  /** `run` searches the paths in the order they are enumerated: the paths of
      a longer enumeration are those of its first part followed by those of
      the rest. */
  lemma MatchedPathsAppend(term: string, lineByLine: bool, isRegex: bool, ps: seq<string>, qs: seq<string>,
                           disk: string -> File, isBinaryFile: string -> bool, compiled: Compiled)
    requires compiled.Pattern? ==> HitsOccur(compiled.findall)
    ensures MatchedPaths(term, lineByLine, isRegex, ps + qs, disk, isBinaryFile, compiled)
              == MatchedPaths(term, lineByLine, isRegex, ps, disk, isBinaryFile, compiled)
                 + MatchedPaths(term, lineByLine, isRegex, qs, disk, isBinaryFile, compiled)
  {
    KeptAppend(ps, qs, p => Searched(term, lineByLine, isRegex, p, disk(p), isBinaryFile(p), compiled).Some?);
  }
}
