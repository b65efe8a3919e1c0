/**
  The older formatter of simple_grep (grep_redone/grep/print_helper.py):
  `rreplace`, and the two print functions, which reassign `output` for every
  file so that only the last file's lines are kept.

  clint's `colored.magenta(text, True, False)` and
  `colored.green(text, True, False).__str__()` and `os.path.relpath` are
  inputs (string functions); `print` is left out, so each function is
  modelled by the list it returns.
 */
module RedonePrintHelper {
  import opened PyStr

  // -----------------------------------------------------------------------
  // rreplace

  /** `rreplace(string, old, new, num_occurrences)`:
      `new.join(string.rsplit(old, num_occurrences))`. */
  function RReplace(s: string, pat: string, repl: string, num: int): string
    requires pat != ""
  {
    Join(repl, RSplit(s, pat, num))
  }

  /** A string without `old` comes back unchanged, whatever the count. */
  lemma RReplaceAbsent(s: string, pat: string, repl: string, num: int)
    requires pat != "" && !Contains(s, pat)
    ensures RReplace(s, pat, repl, num) == s
  {
    ContainsIff(s, pat);
  }

  /** With one occurrence to replace, only the last occurrence of `old`
      becomes `new`; everything before it, including earlier occurrences,
      and everything after it stays. */
  lemma RReplaceLast(s: string, pat: string, repl: string)
    requires pat != ""
    ensures var i := RFind(s, pat);
            RReplace(s, pat, repl, 1) == if i < 0 then s else s[..i] + repl + s[i + |pat|..]
  {
    ReplaceLastSpec(s, pat, repl);
  }

  /** When `old` occurs, one replacement changes the length by `len(new) - len(old)`. */
  lemma RReplaceLength(s: string, pat: string, repl: string)
    requires pat != "" && Contains(s, pat)
    ensures |RReplace(s, pat, repl, 1)| == |s| - |pat| + |repl|
  {
    ContainsIff(s, pat);
    RReplaceLast(s, pat, repl);
  }

  /** A string ending in `old` has that final occurrence replaced. */
  lemma RReplaceFinal(p: string, pat: string, repl: string)
    requires pat != ""
    ensures RReplace(p + pat, pat, repl, 1) == p + repl
  {
    var s := p + pat;
    assert OccursAt(s, pat, |p|);
    RReplaceLast(s, pat, repl);
    assert s[..|p|] == p;
  }

  // -----------------------------------------------------------------------
  // print_matched_files_full_path / print_matched_files_relative_path

  /** A file's dictionary of lines: `(line_num, line)` in iteration order. */
  type LineDict = seq<(nat, string)>

  /** How the path is labelled: `file + ':'`, or `'./' + relpath(file) + ':'`. */
  datatype Label = Full | Relative(relpath: string -> string)

  function LabelOf(style: Label, file: string): string
  {
    match style
    case Full => file + ":"
    case Relative(relpath) => "./" + relpath(file) + ":"
  }

  /** The comprehension over one file's lines:
      `magenta(label) + str(line_num) + ':' + line` per entry. */
  function FileEntries(style: Label, file: string, lines: LineDict, magenta: string -> string): (out: seq<string>)
    ensures |out| == |lines|
  {
    seq(|lines|, i requires 0 <= i < |lines| => magenta(LabelOf(style, file)) + NatToString(lines[i].0) + ":" + lines[i].1)
  }

  /** `output` once the loop over the files is done: the entries of the
      last file, or `[]` when there is none. */
  function LastFileEntries(matched: seq<(string, LineDict)>, style: Label, magenta: string -> string): seq<string>
  {
    if matched == [] then []
    else
      var (file, lines) := matched[|matched| - 1];
      FileEntries(style, file, lines, magenta)
  }

  /** The last newline of every entry removed, then, for a non-empty term,
      every occurrence of the term replaced by its green form. */
  function Finished(output: seq<string>, searchTerm: string, green: string -> string): (out: seq<string>)
    ensures |out| == |output|
  {
    var trimmed := seq(|output|, i requires 0 <= i < |output| => RReplace(output[i], "\n", "", 1));
    if searchTerm != "" then seq(|trimmed|, i requires 0 <= i < |trimmed| => ReplaceAll(trimmed[i], searchTerm, green(searchTerm)))
    else trimmed
  }

  /** What either print function returns. */
  function Returned(matched: seq<(string, LineDict)>, searchTerm: string, style: Label,
                    magenta: string -> string, green: string -> string): seq<string>
  {
    Finished(LastFileEntries(matched, style, magenta), searchTerm, green)
  }

  /** The loop and the two comprehensions shared by both print functions. */
  method PrintMatchedFiles(matched: seq<(string, LineDict)>, searchTerm: string, style: Label,
                           magenta: string -> string, green: string -> string)
    returns (output: seq<string>)
    ensures output == Returned(matched, searchTerm, style, magenta, green)
  {
    output := [];
    for k := 0 to |matched|
      invariant output == LastFileEntries(matched[..k], style, magenta)
    {
      var (file, lines) := matched[k];
      output := FileEntries(style, file, lines, magenta);
      assert matched[..k + 1][k] == matched[k];
    }
    assert matched[..|matched|] == matched;
    // every entry loses its last newline, then the term is coloured
    output := seq(|output|, i requires 0 <= i < |output| => RReplace(output[i], "\n", "", 1));
    if searchTerm != "" {
      output := seq(|output|, i requires 0 <= i < |output| => ReplaceAll(output[i], searchTerm, green(searchTerm)));
    }
  }

  /** `print_matched_files_full_path`. */
  method PrintMatchedFilesFullPath(matched: seq<(string, LineDict)>, searchTerm: string,
                                   magenta: string -> string, green: string -> string)
    returns (output: seq<string>)
    ensures output == Returned(matched, searchTerm, Full, magenta, green)
  {
    output := PrintMatchedFiles(matched, searchTerm, Full, magenta, green);
  }

  /** `print_matched_files_relative_path`. */
  method PrintMatchedFilesRelativePath(matched: seq<(string, LineDict)>, searchTerm: string,
                                       magenta: string -> string, green: string -> string,
                                       relpath: string -> string)
    returns (output: seq<string>)
    ensures output == Returned(matched, searchTerm, Relative(relpath), magenta, green)
  {
    output := PrintMatchedFiles(matched, searchTerm, Relative(relpath), magenta, green);
  }

  /** Only the last file survives the loop: whatever files come before it,
      the result is the one for the last file alone, one line per entry. */
  lemma OnlyLastFileSurvives(earlier: seq<(string, LineDict)>, file: string, lines: LineDict, searchTerm: string,
                             style: Label, magenta: string -> string, green: string -> string)
    ensures Returned(earlier + [(file, lines)], searchTerm, style, magenta, green)
              == Returned([(file, lines)], searchTerm, style, magenta, green)
    ensures |Returned(earlier + [(file, lines)], searchTerm, style, magenta, green)| == |lines|
  {
    assert (earlier + [(file, lines)])[|earlier|] == (file, lines);
  }

  /** For a non-empty term, every entry is the newline-trimmed entry cut at
      each occurrence of the term, with the green term in every cut: no
      occurrence is left uncoloured. */
  lemma EveryOccurrenceColoured(matched: seq<(string, LineDict)>, searchTerm: string, style: Label,
                                magenta: string -> string, green: string -> string)
    requires searchTerm != ""
    ensures var raw := LastFileEntries(matched, style, magenta);
            var out := Returned(matched, searchTerm, style, magenta, green);
            && |out| == |raw|
            && forall i | 0 <= i < |raw| ::
                 var pieces := Split(RReplace(raw[i], "\n", "", 1), searchTerm);
                 && out[i] == Join(green(searchTerm), pieces)
                 && forall k | 0 <= k < |pieces| :: !Contains(pieces[k], searchTerm)
  {
    var raw := LastFileEntries(matched, style, magenta);
    var out := Returned(matched, searchTerm, style, magenta, green);
    forall i | 0 <= i < |raw|
      ensures var pieces := Split(RReplace(raw[i], "\n", "", 1), searchTerm);
              && out[i] == Join(green(searchTerm), pieces)
              && forall k | 0 <= k < |pieces| :: !Contains(pieces[k], searchTerm)
    {
      var trimmed := RReplace(raw[i], "\n", "", 1);
      assert out[i] == ReplaceAll(trimmed, searchTerm, green(searchTerm));
      ReplaceAllIsSplitJoin(trimmed, searchTerm, green(searchTerm));
      SplitPieces(trimmed, searchTerm);
    }
  }

  /** With an empty term nothing is coloured: an entry whose line ends in
      `'\n'` is the magenta style, `str(line_num)`, `':'` and the line without
      that newline. */
  lemma EntryShape(file: string, lines: LineDict, style: Label, magenta: string -> string,
                   green: string -> string, i: nat)
    requires i < |lines| && |lines[i].1| > 0 && lines[i].1[|lines[i].1| - 1] == '\n'
    ensures var line := lines[i].1;
            Returned([(file, lines)], "", style, magenta, green)[i]
              == magenta(LabelOf(style, file)) + NatToString(lines[i].0) + ":" + line[..|line| - 1]
  {
    var line := lines[i].1;
    var p := magenta(LabelOf(style, file)) + NatToString(lines[i].0) + ":" + line[..|line| - 1];
    assert line == line[..|line| - 1] + "\n";
    assert FileEntries(style, file, lines, magenta)[i] == p + "\n";
    RReplaceFinal(p, "\n", "");
    assert p + "" == p;
  }
}
