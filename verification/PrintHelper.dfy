/**
  The result formatter of simple_grep (grep/print_helper.py): ANSI colour
  wrappers, the lines printed for each matched file, the removal of the last
  newline and the highlighting of the last occurrence of the search term.

  `os.path.normpath`, `os.path.relpath` and `file_helper.is_binary_file` are
  inputs (string functions and a predicate on paths); `print` is modelled by
  returning the printed lines next to the returned list.
 */
module PrintHelper {
  import opened PyStr
  import opened Grep

  const Reset := "\U{1B}[0m"
  const BlueCode := "\U{1B}[0;34m"
  const GreenCode := "\U{1B}[0;32m"
  const PurpleCode := "\U{1B}[0;35m"
  const BoldRed := "\U{1B}[1;31m"

  // -----------------------------------------------------------------------
  // Colours

  /** `code + term + '\033[0m'`. */
  function Color(code: string, term: string): string
  {
    code + term + Reset
  }

  /** The text inside an escape sequence `code` … reset, if `s` is one. */
  function Uncolor(code: string, s: string): Option<string>
  {
    if |code| + |Reset| <= |s| && s[..|code|] == code && s[|s| - |Reset|..] == Reset
    then Some(s[|code|..|s| - |Reset|])
    else None
  }

  /** Colouring can be undone: the wrapped text comes back out. */
  lemma UncolorColor(code: string, term: string)
    ensures Uncolor(code, Color(code, term)) == Some(term)
  {
    var s := Color(code, term);
    assert s[..|code|] == code;
    assert s[|s| - |Reset|..] == Reset;
    assert s[|code|..|s| - |Reset|] == term;
  }

  /** `color_blue`. */
  function ColorBlue(term: string): (r: string)
    ensures Uncolor(BlueCode, r) == Some(term)
  {
    UncolorColor(BlueCode, term);
    Color(BlueCode, term)
  }

  /** `color_green`. */
  function ColorGreen(term: string): (r: string)
    ensures Uncolor(GreenCode, r) == Some(term)
  {
    UncolorColor(GreenCode, term);
    Color(GreenCode, term)
  }

  /** `color_purple`. */
  function ColorPurple(term: string): (r: string)
    ensures Uncolor(PurpleCode, r) == Some(term)
  {
    UncolorColor(PurpleCode, term);
    Color(PurpleCode, term)
  }

  /** The three colours never produce the same string: their start codes
      differ in the sixth character, whatever text they wrap. */
  lemma ColorsDistinct(t: string, u: string)
    ensures ColorBlue(t) != ColorGreen(u)
    ensures ColorBlue(t) != ColorPurple(u)
    ensures ColorGreen(t) != ColorPurple(u)
  {
    assert ColorBlue(t)[5] == '4';
    assert ColorGreen(u)[5] == '2';
    assert ColorGreen(t)[5] == '2';
    assert ColorPurple(u)[5] == '5';
  }

  // -----------------------------------------------------------------------
  // Removing the last newline

  /** `''.join(s.rsplit('\n', 1))`. */
  function RemoveLastNewline(s: string): string
  {
    Join("", RSplit(s, "\n", 1))
  }

  /** Only the last `'\n'` goes: a string without one is unchanged, and
      otherwise exactly that character is cut out. */
  lemma RemoveLastNewlineSpec(s: string)
    ensures var i := RFind(s, "\n");
            RemoveLastNewline(s) == if i < 0 then s else s[..i] + s[i + 1..]
  {
    ReplaceLastSpec(s, "\n", "");
    var i := RFind(s, "\n");
    if i >= 0 {
      assert s[..i] + "" + s[i + 1..] == s[..i] + s[i + 1..];
    }
  }

  /** A line ending in `'\n'` loses that newline and nothing else, even when
      it holds other newlines. */
  lemma RemoveFinalNewline(p: string)
    ensures RemoveLastNewline(p + "\n") == p
  {
    var s := p + "\n";
    assert OccursAt(s, "\n", |p|);
    RemoveLastNewlineSpec(s);
    assert s[..|p|] == p;
  }

  // -----------------------------------------------------------------------
  // Highlighting

  /** The decorator `color_term_in_string` applied to `func`: for a
      non-empty term, the last occurrence of the term in every line of
      `func(list_to_edit, term)` is wrapped in bold red, unless the first
      line is a binary-file notice; `None` stands for the `IndexError` that
      `list_to_edit[0]` raises on an empty list. */
  function ColorTermInString(func: (seq<string>, string) -> seq<string>, lst: seq<string>, term: string)
    : (r: Option<seq<string>>)
    ensures r.None? <==> term != "" && lst == []
  {
    if term == "" then Some(lst)
    else if lst == [] then None
    else if StartsWith(lst[0], "Binary file") then Some(lst)
    else
      var edited := func(lst, term);
      Some(seq(|edited|, i requires 0 <= i < |edited| => ReplaceLast(edited[i], term, BoldRed + term + Reset)))
  }

  /** `color_matched_items`: the decorator over the identity. */
  function ColorMatchedItems(output: seq<string>, searchTerm: string): (r: Option<seq<string>>)
    ensures r.None? <==> searchTerm != "" && output == []
  {
    ColorTermInString((l, t) => l, output, searchTerm)
  }

  /** With a non-empty term and a first line that is not a binary-file
      notice, each line keeps its length in count and only its last
      occurrence of the term is wrapped; lines without the term are unchanged. */
  lemma HighlightSpec(lst: seq<string>, term: string)
    requires term != "" && lst != [] && !StartsWith(lst[0], "Binary file")
    ensures var r := ColorMatchedItems(lst, term);
            && r.Some? && |r.value| == |lst|
            && forall i | 0 <= i < |lst| ::
                 var j := RFind(lst[i], term);
                 r.value[i] == if j < 0 then lst[i] else lst[i][..j] + BoldRed + term + Reset + lst[i][j + |term|..]
  {
    var r := ColorMatchedItems(lst, term);
    forall i | 0 <= i < |lst|
      ensures var j := RFind(lst[i], term);
              r.value[i] == if j < 0 then lst[i] else lst[i][..j] + BoldRed + term + Reset + lst[i][j + |term|..]
    {
      ReplaceLastSpec(lst[i], term, BoldRed + term + Reset);
    }
  }

  /** With an empty term, or a binary-file notice first, the list comes back as it is. */
  lemma HighlightUnchanged(lst: seq<string>, term: string)
    requires term == "" || (lst != [] && StartsWith(lst[0], "Binary file"))
    ensures ColorMatchedItems(lst, term) == Some(lst)
  {
  }

  /** `t` occurs at `i` and its first character never appears after `i`:
      `i` is the last occurrence. */
  lemma LastOccurrence(s: string, t: string, i: int)
    requires t != "" && OccursAt(s, t, i)
    requires forall k | i < k < |s| :: s[k] != t[0]
    ensures RFind(s, t) == i
  {
    forall k | i < k ensures !OccursAt(s, t, k) {
      if k + |t| <= |s| {
        assert s[k..k + |t|][0] == s[k];
      }
    }
  }

  /** The line `'Thebrownfoxjumpsover.'` with the term `'fox'`. */
  lemma HighlightExample(lst: seq<string>, term: string)
    requires lst == ["Thebrownfoxjumpsover."] && term == "fox"
    ensures ColorMatchedItems(lst, term) == Some(["Thebrown" + BoldRed + "fox" + Reset + "jumpsover."])
  {
    var s := lst[0];
    assert s == "Thebrownfoxjumpsover.";
    assert !StartsWith(s, "Binary file") by {
      assert s[0] != "Binary file"[0];
    }
    assert RFind(s, term) == 8 by {
      assert s[8] == 'f' && s[9] == 'o' && s[10] == 'x';
      assert s[8..11] == term;
      LastOccurrence(s, term, 8);
    }
    var r := ColorMatchedItems(lst, term).value;
    assert |r| == 1 && r[0] == s[..8] + BoldRed + term + Reset + s[11..] by {
      HighlightSpec(lst, term);
    }
    assert s[..8] == "Thebrown" && s[11..] == "jumpsover.";
    assert r == [r[0]];
  }

  // -----------------------------------------------------------------------
  // Rendering the matched files

  /** How a path is shown: `normpath(f)` with green separators, or
      `normpath(relpath(f))` with blue ones. */
  datatype PathStyle = FullPath | RelativePath(relpath: string -> string)

  function Shown(style: PathStyle, normpath: string -> string, f: string): string
  {
    match style
    case FullPath => normpath(f)
    case RelativePath(relpath) => normpath(relpath(f))
  }

  /** The coloured `':'` between path, line number and line. */
  function Separator(style: PathStyle): string
  {
    if style.FullPath? then ColorGreen(":") else ColorBlue(":")
  }

  /** `lines.items()` for a result dictionary, each key as `str(key)`. */
  function Items(r: MatchResult): (items: seq<(string, string)>)
    ensures |items| == if r.Entries? then |r.items| else 1
  {
    match r
    case FileSentinel(content) => [("file", content)]
    case BinarySentinel => [("file_matched", "")]
    case Entries(es) => seq(|es|, i requires 0 <= i < |es| => (NatToString(es[i].0), es[i].1))
  }

  /** What one file adds to `output`: the binary-file notice alone, the bare
      values for standard input, or each value after the coloured path, a
      separator and, line by line, the green line number and another
      separator. */
  function RenderFile(f: string, lines: MatchResult, isBinary: bool, fromStdin: bool, lineByLine: bool,
                      style: PathStyle, normpath: string -> string): (out: seq<string>)
    ensures |out| == if isBinary then 1 else |Items(lines)|
  {
    if isBinary then ["Binary file " + f + " matches"]
    else
      var items := Items(lines);
      var prefix := ColorPurple(Shown(style, normpath, f)) + Separator(style);
      if fromStdin then seq(|items|, i requires 0 <= i < |items| => items[i].1)
      else if !lineByLine then seq(|items|, i requires 0 <= i < |items| => prefix + items[i].1)
      else seq(|items|, i requires 0 <= i < |items| => prefix + ColorGreen(items[i].0) + Separator(style) + items[i].1)
  }

  /** `output` after the loop over `matched_files_and_lines.items()`. */
  function RenderAll(matched: seq<(string, MatchResult)>, fromStdin: bool, lineByLine: bool,
                     isBinaryFile: string -> bool, style: PathStyle, normpath: string -> string): seq<string>
    decreases |matched|
  {
    if matched == [] then []
    else
      var n := |matched| - 1;
      var (f, lines) := matched[n];
      RenderAll(matched[..n], fromStdin, lineByLine, isBinaryFile, style, normpath)
      + RenderFile(f, lines, isBinaryFile(f), fromStdin, lineByLine, style, normpath)
  }

  /** The number of (file, entry) pairs, a binary file counting once. */
  function EntryCount(matched: seq<(string, MatchResult)>, isBinaryFile: string -> bool): nat
    decreases |matched|
  {
    if matched == [] then 0
    else
      var n := |matched| - 1;
      EntryCount(matched[..n], isBinaryFile)
      + (if isBinaryFile(matched[n].0) then 1 else |Items(matched[n].1)|)
  }

  /** The returned list: every rendered line without its last newline. */
  function Output(matched: seq<(string, MatchResult)>, fromStdin: bool, lineByLine: bool,
                  isBinaryFile: string -> bool, style: PathStyle, normpath: string -> string): (out: seq<string>)
  {
    var rendered := RenderAll(matched, fromStdin, lineByLine, isBinaryFile, style, normpath);
    seq(|rendered|, i requires 0 <= i < |rendered| => RemoveLastNewline(rendered[i]))
  }

  /** The returned list holds one line per (file, entry) pair, and a binary
      file one line whatever its entries. */
  lemma {:induction false} OutputCount(matched: seq<(string, MatchResult)>, fromStdin: bool, lineByLine: bool,
                                       isBinaryFile: string -> bool, style: PathStyle, normpath: string -> string)
    ensures |Output(matched, fromStdin, lineByLine, isBinaryFile, style, normpath)| == EntryCount(matched, isBinaryFile)
  {
    RenderAllCount(matched, fromStdin, lineByLine, isBinaryFile, style, normpath);
  }

  lemma {:induction false} RenderAllCount(matched: seq<(string, MatchResult)>, fromStdin: bool, lineByLine: bool,
                                          isBinaryFile: string -> bool, style: PathStyle, normpath: string -> string)
    ensures |RenderAll(matched, fromStdin, lineByLine, isBinaryFile, style, normpath)| == EntryCount(matched, isBinaryFile)
    decreases |matched|
  {
    if matched != [] {
      RenderAllCount(matched[..|matched| - 1], fromStdin, lineByLine, isBinaryFile, style, normpath);
    }
  }

  /** A single matched file: the returned list is that file's lines, each
      without its last newline. */
  lemma SingleFileOutput(f: string, lines: MatchResult, fromStdin: bool, lineByLine: bool,
                         isBinaryFile: string -> bool, style: PathStyle, normpath: string -> string)
    ensures var out := RenderFile(f, lines, isBinaryFile(f), fromStdin, lineByLine, style, normpath);
            Output([(f, lines)], fromStdin, lineByLine, isBinaryFile, style, normpath)
              == seq(|out|, i requires 0 <= i < |out| => RemoveLastNewline(out[i]))
  {
    var out := RenderFile(f, lines, isBinaryFile(f), fromStdin, lineByLine, style, normpath);
    assert [(f, lines)][..0] == [];
    assert RenderAll([(f, lines)], fromStdin, lineByLine, isBinaryFile, style, normpath) == [] + out == out;
  }

  /** For a single matched file, returned line `i` is rendered line `i`
      without its last newline. */
  lemma OutputAt(f: string, lines: MatchResult, i: nat, fromStdin: bool, lineByLine: bool,
                 isBinaryFile: string -> bool, style: PathStyle, normpath: string -> string)
    requires i < |RenderFile(f, lines, isBinaryFile(f), fromStdin, lineByLine, style, normpath)|
    ensures var out := RenderFile(f, lines, isBinaryFile(f), fromStdin, lineByLine, style, normpath);
            var o := Output([(f, lines)], fromStdin, lineByLine, isBinaryFile, style, normpath);
            |o| == |out| && o[i] == RemoveLastNewline(out[i])
  {
    SingleFileOutput(f, lines, fromStdin, lineByLine, isBinaryFile, style, normpath);
  }

  /** A string without `'\n'` keeps every character. */
  lemma NoNewlineKept(s: string)
    requires forall k | 0 <= k < |s| :: s[k] != '\n'
    ensures RemoveLastNewline(s) == s
  {
    forall k | 0 <= k ensures !OccursAt(s, "\n", k) {
      if k + 1 <= |s| {
        assert s[k..k + 1][0] == s[k];
      }
    }
    RemoveLastNewlineSpec(s);
  }

  /** A binary file gives the one line `'Binary file ' + f + ' matches'`,
      whatever its entries and flags, and that line is printed as it is,
      never highlighted. */
  lemma BinaryFileNotice(f: string, lines: MatchResult, searchTerm: string, fromStdin: bool, lineByLine: bool,
                         isBinaryFile: string -> bool, style: PathStyle, normpath: string -> string)
    requires isBinaryFile(f) && forall k | 0 <= k < |f| :: f[k] != '\n'
    ensures var notice := "Binary file " + f + " matches";
            Printed(Output([(f, lines)], fromStdin, lineByLine, isBinaryFile, style, normpath), searchTerm)
              == Printout([notice], [notice])
  {
    var notice := "Binary file " + f + " matches";
    SingleFileOutput(f, lines, fromStdin, lineByLine, isBinaryFile, style, normpath);
    forall k | 0 <= k < |notice| ensures notice[k] != '\n' {
      if 12 <= k < 12 + |f| {
        assert notice[k] == f[k - 12];
      }
    }
    NoNewlineKept(notice);
    assert notice[..11] == "Binary file";
  }

  /** Standard input: each returned line is the bare value of an entry
      (the content of `{'file': content}`, or a token or a line of a
      dictionary), without its last newline, with no path and no line
      number, whatever the path style and mode. */
  lemma StdinBareValue(f: string, lines: MatchResult, lineByLine: bool,
                       isBinaryFile: string -> bool, style: PathStyle, normpath: string -> string)
    requires !isBinaryFile(f)
    ensures var items := Items(lines);
            Output([(f, lines)], true, lineByLine, isBinaryFile, style, normpath)
              == seq(|items|, i requires 0 <= i < |items| => RemoveLastNewline(items[i].1))
  {
    SingleFileOutput(f, lines, true, lineByLine, isBinaryFile, style, normpath);
  }

  /** Whole-file mode, not from standard input: entry `i` is the purple
      path, a separator and the value, with no line-number segment. */
  lemma WholeFileEntry(f: string, lines: MatchResult, i: nat, style: PathStyle, normpath: string -> string)
    requires i < |Items(lines)|
    ensures var out := RenderFile(f, lines, false, false, false, style, normpath);
            i < |out| && out[i] == ColorPurple(Shown(style, normpath, f)) + Separator(style) + Items(lines)[i].1
  {
  }

  /** The file `{'/tmp/sadf.tmp': {'file': 'aware'}}` read from standard
      input and searched for `'aware'`: `['aware']` is returned, and printed
      with the term highlighted. */
  lemma StdinExample(f: string, content: string, searchTerm: string, lineByLine: bool,
                     isBinaryFile: string -> bool, style: PathStyle, normpath: string -> string)
    requires !isBinaryFile(f) && content == "aware" && searchTerm == "aware"
    ensures Printed(Output([(f, FileSentinel(content))], true, lineByLine, isBinaryFile, style, normpath), searchTerm)
              == Printout(["aware"], [BoldRed + "aware" + Reset])
  {
    StdinBareValue(f, FileSentinel(content), lineByLine, isBinaryFile, style, normpath);
    NoNewlineKept(content);
    var out := ["aware"];
    assert RFind(out[0], searchTerm) == 0 by {
      assert OccursAt(out[0], searchTerm, 0);
    }
    HighlightSpec(out, searchTerm);
    assert out[0][..0] == "" && out[0][5..] == "";
    var printed := ColorMatchedItems(out, searchTerm).value;
    assert printed[0] == BoldRed + "aware" + Reset;
    assert printed == [printed[0]];
    assert Output([(f, FileSentinel(content))], true, lineByLine, isBinaryFile, style, normpath) == out;
  }

  /** Entry `i` of a file searched line by line: the purple path, a
      separator, the green line number, a separator and the line. */
  lemma RenderedEntry(f: string, es: seq<Entry>, i: nat, style: PathStyle, normpath: string -> string)
    requires i < |es|
    ensures var out := RenderFile(f, Entries(es), false, false, true, style, normpath);
            var prefix := ColorPurple(Shown(style, normpath, f)) + Separator(style);
            i < |out| && out[i] == prefix + ColorGreen(NatToString(es[i].0)) + Separator(style) + es[i].1
  {
    assert Items(Entries(es))[i] == (NatToString(es[i].0), es[i].1);
  }

  /** Entry `i` of a file searched line by line, when its line ends in
      `'\n'`: the returned line is the rendering without that newline. */
  lemma TrimmedEntry(f: string, es: seq<Entry>, i: nat, l: string, style: PathStyle, normpath: string -> string)
    requires i < |es| && es[i].1 == l + "\n"
    ensures var out := RenderFile(f, Entries(es), false, false, true, style, normpath);
            var prefix := ColorPurple(Shown(style, normpath, f)) + Separator(style);
            i < |out| && RemoveLastNewline(out[i]) == prefix + ColorGreen(NatToString(es[i].0)) + Separator(style) + l
  {
    var e := ColorPurple(Shown(style, normpath, f)) + Separator(style) + ColorGreen(NatToString(es[i].0)) + Separator(style) + l;
    RenderedEntry(f, es, i, style, normpath);
    assert RenderFile(f, Entries(es), false, false, true, style, normpath)[i] == e + "\n";
    RemoveFinalNewline(e);
  }

  /** Two entries of one file, each line ending in `'\n'`: each returned
      line is the purple path, a separator, the green line number, a
      separator and the line without its newline. */
  lemma TwoEntriesOutput(f: string, k0: nat, l0: string, k1: nat, l1: string, isBinaryFile: string -> bool,
                         style: PathStyle, normpath: string -> string)
    requires !isBinaryFile(f)
    ensures var prefix := ColorPurple(Shown(style, normpath, f)) + Separator(style);
            Output([(f, Entries([(k0, l0 + "\n"), (k1, l1 + "\n")]))], false, true, isBinaryFile, style, normpath)
              == [prefix + ColorGreen(NatToString(k0)) + Separator(style) + l0,
                  prefix + ColorGreen(NatToString(k1)) + Separator(style) + l1]
  {
    var lines := Entries([(k0, l0 + "\n"), (k1, l1 + "\n")]);
    var prefix := ColorPurple(Shown(style, normpath, f)) + Separator(style);
    var o := Output([(f, lines)], false, true, isBinaryFile, style, normpath);
    OutputAt(f, lines, 0, false, true, isBinaryFile, style, normpath);
    OutputAt(f, lines, 1, false, true, isBinaryFile, style, normpath);
    TrimmedEntry(f, lines.items, 0, l0, style, normpath);
    TrimmedEntry(f, lines.items, 1, l1, style, normpath);
    PairOf(o, prefix + ColorGreen(NatToString(k0)) + Separator(style) + l0,
           prefix + ColorGreen(NatToString(k1)) + Separator(style) + l1);
  }

  lemma PairOf(o: seq<string>, a: string, b: string)
    requires |o| == 2 && o[0] == a && o[1] == b
    ensures o == [a, b]
  {
  }

  /** `'aware\n'` and `'aware werwer\n'` as lines 1 and 2 of one file. */
  lemma LineByLineOutput(f: string, lines: MatchResult, isBinaryFile: string -> bool,
                         style: PathStyle, normpath: string -> string)
    requires !isBinaryFile(f) && lines == Entries([(1, "aware\n"), (2, "aware werwer\n")])
    ensures var prefix := ColorPurple(Shown(style, normpath, f)) + Separator(style);
            Output([(f, lines)], false, true, isBinaryFile, style, normpath)
              == [prefix + ColorGreen("1") + Separator(style) + "aware",
                  prefix + ColorGreen("2") + Separator(style) + "aware werwer"]
  {
    assert NatToString(1) == "1" && NatToString(2) == "2";
    assert "aware" + "\n" == "aware\n" && "aware werwer" + "\n" == "aware werwer\n";
    TwoEntriesOutput(f, 1, "aware", 2, "aware werwer", isBinaryFile, style, normpath);
  }

  /** A coloured line written out code by code. */
  lemma LineText(pathCode: string, shown: string, sepCode: string, n: string, v: string)
    ensures Color(pathCode, shown) + Color(sepCode, ":") + Color(GreenCode, n) + Color(sepCode, ":") + v
            == pathCode + shown + Reset + sepCode + ":" + Reset + GreenCode + n + Reset + sepCode + ":" + Reset + v
  {
  }

  /** The full-path rendering of that file at `/home/flo/Untitled Document`,
      byte for byte. */
  lemma FullPathExample(f: string, lines: MatchResult, isBinaryFile: string -> bool, normpath: string -> string)
    requires f == "/home/flo/Untitled Document" && normpath(f) == f && !isBinaryFile(f)
    requires lines == Entries([(1, "aware\n"), (2, "aware werwer\n")])
    ensures Output([(f, lines)], false, true, isBinaryFile, FullPath, normpath)
              == [PurpleCode + f + Reset + GreenCode + ":" + Reset + GreenCode + "1" + Reset + GreenCode + ":" + Reset + "aware",
                  PurpleCode + f + Reset + GreenCode + ":" + Reset + GreenCode + "2" + Reset + GreenCode + ":" + Reset + "aware werwer"]
  {
    LineByLineOutput(f, lines, isBinaryFile, FullPath, normpath);
    LineText(PurpleCode, f, GreenCode, "1", "aware");
    LineText(PurpleCode, f, GreenCode, "2", "aware werwer");
  }

  /** The relative-path rendering of that file at
      `./../../../../Untitled Document`: blue separators around the green
      line number. */
  lemma RelativePathExample(f: string, lines: MatchResult, isBinaryFile: string -> bool,
                            normpath: string -> string, relpath: string -> string)
    requires f == "./../../../../Untitled Document" && normpath(relpath(f)) == "../../../../Untitled Document"
    requires !isBinaryFile(f) && lines == Entries([(1, "aware\n"), (2, "aware werwer\n")])
    ensures var shown := "../../../../Untitled Document";
            Output([(f, lines)], false, true, isBinaryFile, RelativePath(relpath), normpath)
              == [PurpleCode + shown + Reset + BlueCode + ":" + Reset + GreenCode + "1" + Reset + BlueCode + ":" + Reset + "aware",
                  PurpleCode + shown + Reset + BlueCode + ":" + Reset + GreenCode + "2" + Reset + BlueCode + ":" + Reset + "aware werwer"]
  {
    var shown := "../../../../Untitled Document";
    LineByLineOutput(f, lines, isBinaryFile, RelativePath(relpath), normpath);
    LineText(PurpleCode, shown, BlueCode, "1", "aware");
    LineText(PurpleCode, shown, BlueCode, "2", "aware werwer");
  }

  /** What the formatter leaves behind: the returned list and the printed
      lines, or the `IndexError` of highlighting an empty list. */
  datatype Printout = Printout(returned: seq<string>, printed: seq<string>) | IndexError

  function Printed(output: seq<string>, searchTerm: string): Printout
  {
    var colored := ColorMatchedItems(output, searchTerm);
    if colored.None? then IndexError else Printout(output, colored.value)
  }

  /** The loop shared by both `generate_output_*` functions: `output.extend`
      per file, then the last newline of every entry removed. */
  method BuildOutput(matched: seq<(string, MatchResult)>, fromStdin: bool, lineByLine: bool,
                     isBinaryFile: string -> bool, style: PathStyle, normpath: string -> string)
    returns (output: seq<string>)
    ensures output == Output(matched, fromStdin, lineByLine, isBinaryFile, style, normpath)
  {
    output := [];
    for i := 0 to |matched|
      invariant output == RenderAll(matched[..i], fromStdin, lineByLine, isBinaryFile, style, normpath)
    {
      var (f, lines) := matched[i];
      RenderAllStep(matched, i, fromStdin, lineByLine, isBinaryFile, style, normpath);
      output := output + RenderFile(f, lines, isBinaryFile(f), fromStdin, lineByLine, style, normpath);
    }
    assert matched[..|matched|] == matched;
    // every rendered line loses its last newline
    output := seq(|output|, i requires 0 <= i < |output| => RemoveLastNewline(output[i]));
  }

  /** One more file appends its rendering. */
  lemma RenderAllStep(matched: seq<(string, MatchResult)>, i: nat, fromStdin: bool, lineByLine: bool,
                      isBinaryFile: string -> bool, style: PathStyle, normpath: string -> string)
    requires i < |matched|
    ensures var (f, lines) := matched[i];
            RenderAll(matched[..i + 1], fromStdin, lineByLine, isBinaryFile, style, normpath)
              == RenderAll(matched[..i], fromStdin, lineByLine, isBinaryFile, style, normpath)
                 + RenderFile(f, lines, isBinaryFile(f), fromStdin, lineByLine, style, normpath)
  {
    assert matched[..i + 1][..i] == matched[..i];
    assert matched[..i + 1][i] == matched[i];
  }

  /** `generate_output_for_matched_files_full_path`: paths as
      `normpath(f)`, green separators. */
  method GenerateOutputForMatchedFilesFullPath(matched: seq<(string, MatchResult)>, searchTerm: string,
                                               fromStdin: bool, lineByLine: bool,
                                               isBinaryFile: string -> bool, normpath: string -> string)
    returns (r: Printout)
    ensures r == Printed(Output(matched, fromStdin, lineByLine, isBinaryFile, FullPath, normpath), searchTerm)
  {
    var output := BuildOutput(matched, fromStdin, lineByLine, isBinaryFile, FullPath, normpath);
    // highlight, then print
    var colored := ColorMatchedItems(output, searchTerm);
    if colored.None? {
      return IndexError;
    }
    return Printout(output, colored.value);
  }

  /** `generate_output_for_matched_files_relative_path`: paths as
      `normpath(relpath(f))`, blue separators. */
  method GenerateOutputForMatchedFilesRelativePath(matched: seq<(string, MatchResult)>, searchTerm: string,
                                                   fromStdin: bool, lineByLine: bool,
                                                   isBinaryFile: string -> bool, normpath: string -> string,
                                                   relpath: string -> string)
    returns (r: Printout)
    ensures r == Printed(Output(matched, fromStdin, lineByLine, isBinaryFile, RelativePath(relpath), normpath), searchTerm)
  {
    var output := BuildOutput(matched, fromStdin, lineByLine, isBinaryFile, RelativePath(relpath), normpath);
    // highlight, then print
    var colored := ColorMatchedItems(output, searchTerm);
    if colored.None? {
      return IndexError;
    }
    return Printout(output, colored.value);
  }
}
