/**
  The match engine of simple_grep (grep/grep.py): the four search strategies
  selected by (line-by-line, regex), the wrapping of a file's result by
  `search_f` and `search_wrapper`, and `run`, which collects the paths that
  matched.

  The file system, the binary-file test and Python's regex engine are
  inputs: a file is a `File` value, `is_binary_file(path)` is a boolean, and
  `re.compile(search_term)` is a `Compiled` value whose `findall` is an
  arbitrary function. Python dictionaries are ordered association lists, in
  insertion order, which is the order in which Python iterates them.
 */
module Grep {
  import opened PyStr

  /** What `open(path, 'r')` and reading it give. */
  datatype File =
    | Unopenable              // open() raises IOError (missing file, permission denied)
    | Undecodable             // the text cannot be decoded: reading raises UnicodeDecodeError
    | Text(lines: seq<string>) // the lines as Python yields them, each keeping its '\n'

  /** The outcome of `re.compile(search_term)`. */
  datatype Compiled = CompileError | Pattern(findall: string -> seq<string>)

  type Entry = (nat, string)

  /** The dictionary a search strategy returns. */
  datatype MatchResult =
    | FileSentinel(content: string)   // {'file': entire_file}
    | BinarySentinel                  // {'file_matched': ''}
    | Entries(items: seq<Entry>)      // {token index or line number: text}
  {
    /** The dictionary is `{}`, which Python treats as false. */
    predicate IsEmpty() {
      Entries? && items == []
    }
  }

  datatype Error = IOError | UnicodeDecodeError | RegexError

  /** A strategy either returns a dictionary or raises. */
  datatype Outcome = Returned(result: MatchResult) | Raised(error: Error)

  /** `{file_path: matched_line_dict}` as built by `search_f`. */
  datatype Found = Found(path: string, result: MatchResult)

  /** What `search_f` does: return `{path: dict}` or `None`, or let a read error escape. */
  datatype FileOutcome = Completed(found: Option<Found>) | Failed(error: Error)

  // -----------------------------------------------------------------------
  // Ordered dictionaries

  /** `d.get(k)`. */
  function Lookup(d: seq<Entry>, k: nat): Option<string>
  {
    if d == [] then None
    else if d[0].0 == k then Some(d[0].1)
    else Lookup(d[1..], k)
  }

  /** `d[k] = v`: an existing key keeps its place and takes the new value,
      a new key goes at the end. */
  function Put(d: seq<Entry>, k: nat, v: string): (r: seq<Entry>)
    ensures Lookup(r, k) == Some(v)
    ensures forall j | j != k :: Lookup(r, j) == Lookup(d, j)
    ensures |r| == if Lookup(d, k).Some? then |d| else |d| + 1
  {
    if d == [] then [(k, v)]
    else if d[0].0 == k then [(k, v)] + d[1..]
    else [d[0]] + Put(d[1..], k, v)
  }

  lemma {:induction false} PutNewKey(d: seq<Entry>, k: nat, v: string)
    requires forall i | 0 <= i < |d| :: d[i].0 < k
    ensures Put(d, k, v) == d + [(k, v)]
  {
    if d != [] {
      PutNewKey(d[1..], k, v);
    }
  }

  lemma {:induction false} PutLastKey(d: seq<Entry>, k: nat, v: string, w: string)
    requires forall i | 0 <= i < |d| :: d[i].0 < k
    ensures Put(d + [(k, v)], k, w) == d + [(k, w)]
  {
    if d != [] {
      assert (d + [(k, v)])[1..] == d[1..] + [(k, v)];
      PutLastKey(d[1..], k, v, w);
    }
  }

  lemma {:induction false} LookupAppend(d: seq<Entry>, e: seq<Entry>, k: nat)
    ensures Lookup(d + e, k) == if Lookup(d, k).Some? then Lookup(d, k) else Lookup(e, k)
  {
    if d == [] {
      assert d + e == e;
    } else {
      assert (d + e)[0] == d[0];
      assert (d + e)[1..] == d[1..] + e;
      LookupAppend(d[1..], e, k);
    }
  }

  lemma {:induction false} LookupAbsent(d: seq<Entry>, k: nat)
    requires forall i | 0 <= i < |d| :: d[i].0 != k
    ensures Lookup(d, k) == None
  {
    if d != [] {
      LookupAbsent(d[1..], k);
    }
  }

  /** The dictionary `{base + i: v}` for every `i` with `vals[i] == Some(v)`,
      inserted in increasing order of `i`. */
  function Collect(vals: seq<Option<string>>, base: nat): seq<Entry>
    decreases |vals|
  {
    if vals == [] then []
    else
      var n := |vals| - 1;
      Collect(vals[..n], base) + (if vals[n].Some? then [(base + n, vals[n].value)] else [])
  }

  /** `Collect` gives a dictionary whose keys increase strictly, lie in
      `base .. base + |vals| - 1`, and map `base + i` to the text of `vals[i]`
      exactly when there is one. */
  lemma {:induction false} CollectSpec(vals: seq<Option<string>>, base: nat)
    ensures var d := Collect(vals, base);
            && |d| <= |vals|
            && (forall i | 0 <= i < |d| :: base <= d[i].0 < base + |vals|)
            && (forall i, j | 0 <= i < j < |d| :: d[i].0 < d[j].0)
            && (forall i | 0 <= i < |d| :: vals[d[i].0 - base] == Some(d[i].1))
            && (forall n | 0 <= n < |vals| :: Lookup(d, base + n) == vals[n])
    decreases |vals|
  {
    if vals != [] {
      var n := |vals| - 1;
      var d0 := Collect(vals[..n], base);
      var tail := if vals[n].Some? then [(base + n, vals[n].value)] else [];
      CollectSpec(vals[..n], base);
      assert Collect(vals, base) == d0 + tail;
      forall i | 0 <= i < |d0| ensures vals[d0[i].0 - base] == Some(d0[i].1) {
        assert vals[..n][d0[i].0 - base] == vals[d0[i].0 - base];
      }
      forall m | 0 <= m < |vals|
        ensures Lookup(d0 + tail, base + m) == vals[m]
      {
        LookupAppend(d0, tail, base + m);
        if m < n {
          assert vals[..n][m] == vals[m];
        } else {
          LookupAbsent(d0, base + n);
        }
      }
    }
  }

  /** The entry `Collect` holds for value `n`. */
  lemma CollectLookup(vals: seq<Option<string>>, base: nat, n: nat)
    requires n < |vals|
    ensures Lookup(Collect(vals, base), base + n) == vals[n]
  {
    CollectSpec(vals, base);
  }

  /** The keys of `Collect` increase strictly. */
  lemma CollectOrdered(vals: seq<Option<string>>, base: nat)
    ensures var d := Collect(vals, base);
            forall i, j | 0 <= i < j < |d| :: d[i].0 < d[j].0
  {
    CollectSpec(vals, base);
  }

  /** When every value is present, `Collect` holds one entry per value, in order. */
  lemma {:induction false} CollectAllPresent(vals: seq<Option<string>>, base: nat)
    requires forall n | 0 <= n < |vals| :: vals[n].Some?
    ensures var d := Collect(vals, base);
            |d| == |vals| && forall n | 0 <= n < |vals| :: d[n] == (base + n, vals[n].value)
    decreases |vals|
  {
    if vals != [] {
      CollectAllPresent(vals[..|vals| - 1], base);
    }
  }

  /** When no value is present, `Collect` gives `{}`. */
  lemma {:induction false} CollectNonePresent(vals: seq<Option<string>>, base: nat)
    requires forall n | 0 <= n < |vals| :: vals[n].None?
    ensures Collect(vals, base) == []
    decreases |vals|
  {
    if vals != [] {
      CollectNonePresent(vals[..|vals| - 1], base);
    }
  }

  /** One more value: `d[base + n] = v` extends the dictionary of the first `n` values. */
  lemma CollectPut(vals: seq<Option<string>>, n: nat, base: nat, v: string)
    requires n < |vals| && vals[n] == Some(v)
    ensures Put(Collect(vals[..n], base), base + n, v) == Collect(vals[..n + 1], base)
  {
    var d := Collect(vals[..n], base);
    assert Put(d, base + n, v) == d + [(base + n, v)] by {
      CollectSpec(vals[..n], base);
      PutNewKey(d, base + n, v);
    }
    assert vals[..n + 1][..n] == vals[..n];
    assert Collect(vals[..n + 1], base) == d + [(base + n, v)];
  }

  /** One more value that is absent leaves the dictionary as it was. */
  lemma CollectSkip(vals: seq<Option<string>>, n: nat, base: nat)
    requires n < |vals| && vals[n] == None
    ensures Collect(vals[..n], base) == Collect(vals[..n + 1], base)
  {
    assert vals[..n + 1][..n] == vals[..n];
  }

  // -----------------------------------------------------------------------
  // Whole-file search (match_f_for_str, match_f_for_pattern)

  /** `entire_file` after `entire_file += line` over all lines. */
  function Concat(lines: seq<string>): string
  {
    if lines == [] then "" else Concat(lines[..|lines| - 1]) + lines[|lines| - 1]
  }

  /** `matches.pop()` with the `IndexError` of an empty list caught. */
  function LastHit(hits: seq<string>): string
  {
    if hits == [] then "" else hits[|hits| - 1]
  }

  /** The last hit of `re.compile(re.escape(term)).findall(text)`: every
      hit is `term` itself, so it is `term` when `term` occurs and "" otherwise. */
  function LiteralLastHit(term: string, text: string): string
  {
    if Contains(text, term) then term else ""
  }

  /** Per token of `entire_file.split()`: recorded when `match in line`. */
  function TokenValues(tokens: seq<string>, hit: string): seq<Option<string>>
  {
    seq(|tokens|, i requires 0 <= i < |tokens| => if Contains(tokens[i], hit) then Some(tokens[i]) else None)
  }

  /** What a whole-file search returns once `entire_file` and the last hit are known. */
  function WholeFileResult(term: string, text: string, hit: string, isBinary: bool): MatchResult
  {
    if term == "" then FileSentinel(text)
    else if hit == "" then Entries([])
    else if isBinary then BinarySentinel
    else Entries(Collect(TokenValues(Words(text), hit), 0))
  }

  /** `match_f_for_str`. `open` raises before the `try`; a decoding error
      raised by `readlines()` is discarded by the `return` inside `finally`,
      which then searches the still empty `entire_file`. */
  function WholeFileLiteral(term: string, file: File, isBinary: bool): Outcome
  {
    match file
    case Unopenable => Raised(IOError)
    case Undecodable => Returned(WholeFileResult(term, "", LiteralLastHit(term, ""), isBinary))
    case Text(lines) =>
      var text := Concat(lines);
      Returned(WholeFileResult(term, text, LiteralLastHit(term, text), isBinary))
  }

  /** `match_f_for_pattern`: as `match_f_for_str`, with the last `findall`
      hit of the pattern; `re.compile` runs inside `finally`, so a bad
      pattern raises even when reading failed. */
  function WholeFilePattern(term: string, file: File, isBinary: bool, compiled: Compiled): Outcome
  {
    match file
    case Unopenable => Raised(IOError)
    case _ =>
      if compiled.CompileError? then Raised(RegexError)
      else
        var text := if file.Text? then Concat(file.lines) else "";
        Returned(WholeFileResult(term, text, LastHit(compiled.findall(text)), isBinary))
  }

  // -----------------------------------------------------------------------
  // Line-by-line search (search_line_by_line_for_term / _for_regex)

  /** `split_str[0] + sep + split_str[1][:-len(split_str[1]) + len(split_str[0] + sep)]`
      with `split_str = line.split(sep)`. */
  function TruncatedRaw(line: string, sep: string): string
    requires sep != "" && Contains(line, sep)
  {
    var parts := Split(line, sep);
    parts[0] + sep + SliceTo(parts[1], -|parts[1]| + |parts[0] + sep|)
  }

  /** The text a line-by-line search records for a line in which `sep` occurs. */
  function TruncatedMatch(line: string, sep: string): string
    requires sep != "" && Contains(line, sep)
  {
    Strip(TruncatedRaw(line, sep))
  }

  /** The literal search reaches its binary check on this line. */
  predicate TermFires(term: string, line: string) {
    term != "" && Contains(line, term)
  }

  /** What the literal search records for one line, if anything. */
  function TermLineValue(term: string, line: string): Option<string>
  {
    if term == "" then Some(Strip(line))
    else if Contains(line, term) then Some(TruncatedMatch(line, term))
    else None
  }

  function TermLineValues(term: string, lines: seq<string>): seq<Option<string>>
  {
    seq(|lines|, i requires 0 <= i < |lines| => TermLineValue(term, lines[i]))
  }

  /** Some line reaches the binary check of the literal search. */
  predicate AnyTermFires(term: string, lines: seq<string>)
    decreases |lines|
  {
    lines != [] && (AnyTermFires(term, lines[..|lines| - 1]) || TermFires(term, lines[|lines| - 1]))
  }

  lemma {:induction false} AnyTermFiresPrefix(term: string, lines: seq<string>, k: nat)
    requires k <= |lines| && AnyTermFires(term, lines[..k])
    ensures AnyTermFires(term, lines)
    decreases |lines|
  {
    if k < |lines| {
      var n := |lines| - 1;
      assert lines[..n][..k] == lines[..k];
      AnyTermFiresPrefix(term, lines[..n], k);
    } else {
      assert lines[..k] == lines;
    }
  }

  function LinesForTerm(term: string, lines: seq<string>, isBinary: bool): MatchResult
  {
    if isBinary && AnyTermFires(term, lines) then BinarySentinel
    else Entries(Collect(TermLineValues(term, lines), 1))
  }

  /** What one more line adds to the literal search's dictionary and to its binary check. */
  lemma TermLineStep(term: string, lines: seq<string>, n: nat)
    requires n < |lines|
    ensures var vals := TermLineValues(term, lines);
            var v := TermLineValue(term, lines[n]);
            Collect(vals[..n + 1], 1)
              == if v.Some? then Put(Collect(vals[..n], 1), n + 1, v.value) else Collect(vals[..n], 1)
    ensures AnyTermFires(term, lines[..n + 1]) == (AnyTermFires(term, lines[..n]) || TermFires(term, lines[n]))
  {
    var vals := TermLineValues(term, lines);
    assert lines[..n + 1][..n] == lines[..n];
    if vals[n].Some? {
      CollectPut(vals, n, 1, vals[n].value);
    } else {
      CollectSkip(vals, n, 1);
    }
  }

  /** `search_line_by_line_for_term`. */
  function LineByLineForTerm(term: string, file: File, isBinary: bool): Outcome
  {
    match file
    case Unopenable => Raised(IOError)
    case Undecodable => Raised(UnicodeDecodeError)
    case Text(lines) => Returned(LinesForTerm(term, lines, isBinary))
  }

  /** Every string `findall` returns occurs in the text it searched, as
      with Python's `re.findall` (group tuples are not modelled). */
  ghost predicate HitsOccur(findall: string -> seq<string>) {
    forall t, k | 0 <= k < |findall(t)| :: Contains(t, findall(t)[k])
  }

  /** What the regex search records for a line whose first hit is `hit`:
      `line.split('')` raises `ValueError`, which falls back to the whole
      stripped line. */
  function HitText(line: string, hit: string): string
    requires hit == "" || Contains(line, hit)
  {
    if hit == "" then Strip(line) else TruncatedMatch(line, hit)
  }

  /** The value a line ends with: a hit overwrites what the empty-term
      branch stored under the same line number. */
  function RegexLineValue(term: string, line: string, hits: seq<string>): Option<string>
    requires hits == [] || hits[0] == "" || Contains(line, hits[0])
  {
    if hits != [] then Some(HitText(line, hits[0]))
    else if term == "" then Some(Strip(line))
    else None
  }

  function RegexLineValues(term: string, lines: seq<string>, findall: string -> seq<string>): seq<Option<string>>
    requires HitsOccur(findall)
  {
    seq(|lines|, i requires 0 <= i < |lines| => RegexLineValue(term, lines[i], findall(lines[i])))
  }

  /** `findall` finds something on some line, which reaches the binary check of the regex search. */
  predicate AnyHits(findall: string -> seq<string>, lines: seq<string>)
    decreases |lines|
  {
    lines != [] && (AnyHits(findall, lines[..|lines| - 1]) || findall(lines[|lines| - 1]) != [])
  }

  lemma {:induction false} AnyHitsPrefix(findall: string -> seq<string>, lines: seq<string>, k: nat)
    requires k <= |lines| && AnyHits(findall, lines[..k])
    ensures AnyHits(findall, lines)
    decreases |lines|
  {
    if k < |lines| {
      var n := |lines| - 1;
      assert lines[..n][..k] == lines[..k];
      AnyHitsPrefix(findall, lines[..n], k);
    } else {
      assert lines[..k] == lines;
    }
  }

  function LinesForRegex(term: string, lines: seq<string>, isBinary: bool, findall: string -> seq<string>): MatchResult
    requires HitsOccur(findall)
  {
    if isBinary && AnyHits(findall, lines) then BinarySentinel
    else Entries(Collect(RegexLineValues(term, lines, findall), 1))
  }

  /** What one more line adds to the regex search's dictionary (after the
      empty-term branch, when it ran, stored the stripped line under the same
      number) and to its binary check. */
  lemma RegexLineStep(term: string, lines: seq<string>, findall: string -> seq<string>, n: nat)
    requires HitsOccur(findall) && n < |lines|
    ensures var vals := RegexLineValues(term, lines, findall);
            var d := Collect(vals[..n], 1);
            var v := vals[n];
            && (v.Some? ==> Collect(vals[..n + 1], 1) == Put(d, n + 1, v.value))
            && (v.None? ==> Collect(vals[..n + 1], 1) == d)
            && (term == "" && v.Some? ==>
                  Put(Put(d, n + 1, Strip(lines[n])), n + 1, v.value) == Collect(vals[..n + 1], 1))
    ensures AnyHits(findall, lines[..n + 1]) == (AnyHits(findall, lines[..n]) || findall(lines[n]) != [])
  {
    var vals := RegexLineValues(term, lines, findall);
    var d := Collect(vals[..n], 1);
    assert lines[..n + 1][..n] == lines[..n];
    if vals[n].Some? {
      CollectPut(vals, n, 1, vals[n].value);
      CollectSpec(vals[..n], 1);
      PutNewKey(d, n + 1, Strip(lines[n]));
      PutLastKey(d, n + 1, Strip(lines[n]), vals[n].value);
      PutNewKey(d, n + 1, vals[n].value);
    } else {
      CollectSkip(vals, n, 1);
    }
  }

  /** `search_line_by_line_for_regex`: the pattern is compiled before the file is opened. */
  function LineByLineForRegex(term: string, file: File, isBinary: bool, compiled: Compiled): Outcome
    requires compiled.Pattern? ==> HitsOccur(compiled.findall)
  {
    if compiled.CompileError? then Raised(RegexError)
    else match file
      case Unopenable => Raised(IOError)
      case Undecodable => Raised(UnicodeDecodeError)
      case Text(lines) => Returned(LinesForRegex(term, lines, isBinary, compiled.findall))
  }

  // -----------------------------------------------------------------------
  // Dispatch and collection

  /** The strategy `search_f` picks for the flags (is_search_line_by_line, is_regex_pattern). */
  function Strategy(term: string, lineByLine: bool, isRegex: bool, file: File, isBinary: bool, compiled: Compiled): Outcome
    requires compiled.Pattern? ==> HitsOccur(compiled.findall)
  {
    if lineByLine then
      (if isRegex then LineByLineForRegex(term, file, isBinary, compiled) else LineByLineForTerm(term, file, isBinary))
    else
      (if isRegex then WholeFilePattern(term, file, isBinary, compiled) else WholeFileLiteral(term, file, isBinary))
  }

  /** What `search_wrapper(path)` gives `run`: the non-empty result with its
      path, or nothing (an empty result, a regex error or a read error; the
      `None` of `search_f` and the `{}` of a caught read error are both false). */
  function Searched(term: string, lineByLine: bool, isRegex: bool, path: string,
                    file: File, isBinary: bool, compiled: Compiled): Option<Found>
    requires compiled.Pattern? ==> HitsOccur(compiled.findall)
  {
    var o := Strategy(term, lineByLine, isRegex, file, isBinary, compiled);
    if o.Returned? && !o.result.IsEmpty() then Some(Found(path, o.result)) else None
  }

  /** The paths, in order, for which `hit` holds. */
  function Kept(paths: seq<string>, hit: string -> bool): seq<string>
    decreases |paths|
  {
    if paths == [] then []
    else
      var n := |paths| - 1;
      Kept(paths[..n], hit) + (if hit(paths[n]) then [paths[n]] else [])
  }

  /** The paths, in order, for which `search_wrapper` gives a match. */
  function MatchedPaths(term: string, lineByLine: bool, isRegex: bool, paths: seq<string>,
                        disk: string -> File, isBinaryFile: string -> bool, compiled: Compiled): seq<string>
    requires compiled.Pattern? ==> HitsOccur(compiled.findall)
  {
    Kept(paths, p => Searched(term, lineByLine, isRegex, p, disk(p), isBinaryFile(p), compiled).Some?)
  }

  // -----------------------------------------------------------------------
  // The Searcher object

  class Searcher {
    const callerDir: string
    const searchTerm: string
    const specificFile: string
    const isRecursive: bool
    const isAbsPath: bool
    const isRegexPattern: bool
    const isSearchLineByLine: bool
    const isFromStdin: bool

    constructor (callerDir: string, searchTerm: string, specificFile: string, isRecursive: bool,
                 isAbsPath: bool, isRegexPattern: bool, isSearchLineByLine: bool, isFromStdin: bool)
      ensures this.callerDir == callerDir && this.searchTerm == searchTerm
      ensures this.specificFile == specificFile && this.isRecursive == isRecursive
      ensures this.isAbsPath == isAbsPath && this.isRegexPattern == isRegexPattern
      ensures this.isSearchLineByLine == isSearchLineByLine && this.isFromStdin == isFromStdin
    {
      this.callerDir := callerDir;
      this.searchTerm := searchTerm;
      this.specificFile := specificFile;
      this.isRecursive := isRecursive;
      this.isAbsPath := isAbsPath;
      this.isRegexPattern := isRegexPattern;
      this.isSearchLineByLine := isSearchLineByLine;
      this.isFromStdin := isFromStdin;
    }

    /** `run`: search the specific file, or else every enumerated path, and
        collect the paths whose search matched, in order. `enumerated` is
        what `file_helper.get_next_file(caller_dir, is_recursive)` yields;
        `disk` and `isBinaryFile` stand for the file system. */
    method Run(enumerated: seq<string>, disk: string -> File, isBinaryFile: string -> bool, compiled: Compiled)
      returns (allMatched: seq<string>)
      requires compiled.Pattern? ==> HitsOccur(compiled.findall)
      ensures allMatched == MatchedPaths(searchTerm, isSearchLineByLine, isRegexPattern,
                                         if specificFile == "" then enumerated else [specificFile],
                                         disk, isBinaryFile, compiled)
    {
      allMatched := [];
      if specificFile == "" {
        for i := 0 to |enumerated|
          invariant allMatched == MatchedPaths(searchTerm, isSearchLineByLine, isRegexPattern,
                                               enumerated[..i], disk, isBinaryFile, compiled)
        {
          var f := enumerated[i];
          var matchedFile := SearchWrapper(f, disk(f), isBinaryFile(f), compiled);
          if matchedFile.Some? {
            allMatched := allMatched + [matchedFile.value.path];
          }
          assert enumerated[..i + 1][..i] == enumerated[..i];
          assert enumerated[..i + 1][i] == f;
        }
        assert enumerated[..|enumerated|] == enumerated;
      } else {
        var matchedFile := SearchWrapper(specificFile, disk(specificFile), isBinaryFile(specificFile), compiled);
        if matchedFile.Some? {
          allMatched := allMatched + [matchedFile.value.path];
        }
        assert [specificFile][..0] == [];
        assert MatchedPaths(searchTerm, isSearchLineByLine, isRegexPattern, [], disk, isBinaryFile, compiled) == [];
        assert MatchedPaths(searchTerm, isSearchLineByLine, isRegexPattern, [specificFile], disk, isBinaryFile, compiled)
               == if matchedFile.Some? then [specificFile] else [];
      }
    }

    /** `search_wrapper`: a read error escaping `search_f` means no match. */
    method SearchWrapper(filePath: string, file: File, isBinary: bool, compiled: Compiled)
      returns (matchedFile: Option<Found>)
      requires compiled.Pattern? ==> HitsOccur(compiled.findall)
      ensures matchedFile == Searched(searchTerm, isSearchLineByLine, isRegexPattern, filePath, file, isBinary, compiled)
    {
      matchedFile := None;
      var r := SearchF(filePath, file, isBinary, compiled);
      if r.Completed? {
        matchedFile := r.found;
      }
    }

    /** `search_f`: run the strategy the two flags select; a regex error is
        caught and gives no result; a non-empty dictionary is returned as
        `{file_path: dict}` and an empty one as `None`; read errors escape. */
    method SearchF(filePath: string, file: File, isBinary: bool, compiled: Compiled) returns (r: FileOutcome)
      requires compiled.Pattern? ==> HitsOccur(compiled.findall)
      ensures var o := Strategy(searchTerm, isSearchLineByLine, isRegexPattern, file, isBinary, compiled);
              && (r.Failed? <==> o.Raised? && o.error != RegexError)
              && (r.Failed? ==> r.error == o.error)
              && (r == Completed(None) <==> o == Raised(RegexError) || (o.Returned? && o.result.IsEmpty()))
              && (r.Completed? && r.found.Some? ==> o.Returned? && r.found.value == Found(filePath, o.result))
    {
      var matchedLineDict := Entries([]);
      var o: Outcome;
      if isSearchLineByLine {
        if isRegexPattern {
          o := SearchLineByLineForRegex(file, isBinary, compiled);
          if o == Raised(RegexError) {
            // "Regex expression error" is printed; the dictionary stays empty
            o := Returned(Entries([]));
          }
        } else {
          o := SearchLineByLineForTerm(file, isBinary);
        }
      } else {
        if isRegexPattern {
          o := MatchFForPattern(file, isBinary, compiled);
          if o == Raised(RegexError) {
            o := Returned(Entries([]));
          }
        } else {
          o := MatchFForStr(file, isBinary);
        }
      }
      if o.Raised? {
        return Failed(o.error);
      }
      matchedLineDict := o.result;
      if !matchedLineDict.IsEmpty() {
        r := Completed(Some(Found(filePath, matchedLineDict)));
      } else {
        r := Completed(None);
      }
    }

    /** `entire_file += line` over the file's lines. */
    method ReadEntireFile(lines: seq<string>) returns (entireFile: string)
      ensures entireFile == Concat(lines)
    {
      entireFile := "";
      for i := 0 to |lines|
        invariant entireFile == Concat(lines[..i])
      {
        entireFile := entireFile + lines[i];
        assert lines[..i + 1][..i] == lines[..i];
      }
      assert lines[..|lines|] == lines;
    }

    /** The part both whole-file searches share once `entire_file` is read:
        the empty-term sentinel, the `if match` gate, the binary sentinel and
        the loop over `entire_file.split()`. */
    method ScanWholeFile(entireFile: string, hit: string, isBinary: bool) returns (r: MatchResult)
      ensures r == WholeFileResult(searchTerm, entireFile, hit, isBinary)
    {
      var matched: seq<Entry> := [];
      if searchTerm == "" {
        return FileSentinel(entireFile);
      }
      if hit != "" {
        if isBinary {
          return BinarySentinel;
        }
        var tokens := Words(entireFile);
        ghost var vals := TokenValues(tokens, hit);
        for index := 0 to |tokens|
          invariant matched == Collect(vals[..index], 0)
        {
          CollectSpec(vals[..index], 0);
          assert vals[..index + 1][..index] == vals[..index];
          if Contains(tokens[index], hit) {
            PutNewKey(matched, index, tokens[index]);
            matched := Put(matched, index, tokens[index]);
          }
        }
        assert vals[..|tokens|] == vals;
      }
      return Entries(matched);
    }

    /** `match_f_for_str`. */
    method MatchFForStr(file: File, isBinary: bool) returns (o: Outcome)
      ensures o == WholeFileLiteral(searchTerm, file, isBinary)
    {
      if file.Unopenable? {
        return Raised(IOError);
      }
      var entireFile := "";
      if file.Text? {
        entireFile := ReadEntireFile(file.lines);
      }
      // finally: the escaped term is searched whether or not reading succeeded
      var hit := LiteralLastHit(searchTerm, entireFile);
      var matched := ScanWholeFile(entireFile, hit, isBinary);
      return Returned(matched);
    }

    /** `match_f_for_pattern`. */
    method MatchFForPattern(file: File, isBinary: bool, compiled: Compiled) returns (o: Outcome)
      ensures o == WholeFilePattern(searchTerm, file, isBinary, compiled)
    {
      if file.Unopenable? {
        return Raised(IOError);
      }
      var entireFile := "";
      if file.Text? {
        entireFile := ReadEntireFile(file.lines);
      }
      if compiled.CompileError? {
        return Raised(RegexError);
      }
      var matches := compiled.findall(entireFile);
      var hit := LastHit(matches);
      var matched := ScanWholeFile(entireFile, hit, isBinary);
      return Returned(matched);
    }

    /** `search_line_by_line_for_term`. */
    method SearchLineByLineForTerm(file: File, isBinary: bool) returns (o: Outcome)
      ensures o == LineByLineForTerm(searchTerm, file, isBinary)
    {
      if file.Unopenable? {
        return Raised(IOError);
      }
      if file.Undecodable? {
        return Raised(UnicodeDecodeError);
      }
      var lines := file.lines;
      ghost var vals := TermLineValues(searchTerm, lines);
      var matchedLines: seq<Entry> := [];
      for lineNum := 0 to |lines|
        invariant matchedLines == Collect(vals[..lineNum], 1)
        invariant !(isBinary && AnyTermFires(searchTerm, lines[..lineNum]))
      {
        TermLineStep(searchTerm, lines, lineNum);
        var line := lines[lineNum];
        if searchTerm == "" {
          assert TermLineValue(searchTerm, line) == Some(Strip(line));
          matchedLines := Put(matchedLines, lineNum + 1, Strip(line));
        } else if Contains(line, searchTerm) {
          if isBinary {
            AnyTermFiresPrefix(searchTerm, lines, lineNum + 1);
            return Returned(BinarySentinel);
          }
          assert TermLineValue(searchTerm, line) == Some(TruncatedMatch(line, searchTerm));
          matchedLines := Put(matchedLines, lineNum + 1, TruncatedMatch(line, searchTerm));
        } else {
          assert TermLineValue(searchTerm, line) == None;
        }
      }
      assert vals[..|lines|] == vals;
      assert lines[..|lines|] == lines;
      return Returned(Entries(matchedLines));
    }

    /** `search_line_by_line_for_regex`. */
    method SearchLineByLineForRegex(file: File, isBinary: bool, compiled: Compiled) returns (o: Outcome)
      requires compiled.Pattern? ==> HitsOccur(compiled.findall)
      ensures o == LineByLineForRegex(searchTerm, file, isBinary, compiled)
    {
      if compiled.CompileError? {
        return Raised(RegexError);
      }
      if file.Unopenable? {
        return Raised(IOError);
      }
      if file.Undecodable? {
        return Raised(UnicodeDecodeError);
      }
      var lines := file.lines;
      var findall := compiled.findall;
      ghost var vals := RegexLineValues(searchTerm, lines, findall);
      var matchedLines: seq<Entry> := [];
      for lineNum := 0 to |lines|
        invariant matchedLines == Collect(vals[..lineNum], 1)
        invariant !(isBinary && AnyHits(findall, lines[..lineNum]))
      {
        RegexLineStep(searchTerm, lines, findall, lineNum);
        var line := lines[lineNum];
        if searchTerm == "" {
          matchedLines := Put(matchedLines, lineNum + 1, Strip(line));
        }
        var hits := findall(line);
        if hits != [] {
          if isBinary {
            AnyHitsPrefix(findall, lines, lineNum + 1);
            return Returned(BinarySentinel);
          }
          // `for row in match: if not row: del row` only unbinds the loop variable
          var text: string;
          if hits[0] == "" {
            // line.split('') raises ValueError: the whole stripped line is kept
            text := Strip(line);
          } else {
            text := TruncatedMatch(line, hits[0]);
          }
          matchedLines := Put(matchedLines, lineNum + 1, text);
        }
      }
      assert vals[..|lines|] == vals;
      assert lines[..|lines|] == lines;
      return Returned(Entries(matchedLines));
    }
  }
}
