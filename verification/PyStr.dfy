/**
  Python `str` semantics used by simple_grep: substring search, `split`,
  `rsplit`, `join`, `replace`, `strip`, whitespace `split()`, the slice
  `s[:k]` with a possibly negative bound and `str()` of a natural number.
 */
module PyStr {

  datatype Option<T> = None | Some(value: T)

  /** Python's `str.isspace()` for a single character (the characters that
      `strip()` and `split()` without arguments treat as whitespace). */
  predicate IsSpace(c: char) {
    || ('\t' <= c <= '\r')
    || ('\U{1C}' <= c <= '\U{1F}')
    || c == ' ' || c == '\U{85}' || c == '\U{A0}' || c == '\U{1680}'
    || ('\U{2000}' <= c <= '\U{200A}')
    || c == '\U{2028}' || c == '\U{2029}' || c == '\U{202F}'
    || c == '\U{205F}' || c == '\U{3000}'
  }

  predicate HasSpace(s: string) {
    exists i | 0 <= i < |s| :: IsSpace(s[i])
  }

  /** `t` occurs in `s` at index `i`. */
  predicate OccursAt(s: string, t: string, i: int) {
    0 <= i && i + |t| <= |s| && s[i..i + |t|] == t
  }

  predicate StartsWith(s: string, p: string) {
    |p| <= |s| && s[..|p|] == p
  }

  // ---------------------------------------------------------------------
  // find / rfind / in

  function FindFrom(s: string, t: string, k: nat): (r: int)
    ensures r == -1 || (k <= r && OccursAt(s, t, r))
    ensures forall j :: k <= j && (r == -1 || j < r) ==> !OccursAt(s, t, j)
    decreases |s| - k
  {
    if k + |t| > |s| then -1
    else if OccursAt(s, t, k) then k
    else FindFrom(s, t, k + 1)
  }

  /** `s.find(t)`: the first index at which `t` occurs, or -1. */
  function Find(s: string, t: string): (r: int)
    ensures r == -1 || OccursAt(s, t, r)
    ensures forall j :: 0 <= j && (r == -1 || j < r) ==> !OccursAt(s, t, j)
  {
    FindFrom(s, t, 0)
  }

  function RFindFrom(s: string, t: string, k: int): (r: int)
    ensures r == -1 || (0 <= r <= k && OccursAt(s, t, r))
    ensures forall j :: r < j <= k ==> !OccursAt(s, t, j)
    decreases k + 1
  {
    if k < 0 then -1
    else if OccursAt(s, t, k) then k
    else RFindFrom(s, t, k - 1)
  }

  /** `s.rfind(t)`: the last index at which `t` occurs, or -1. */
  function RFind(s: string, t: string): (r: int)
    ensures r == -1 || OccursAt(s, t, r)
    ensures forall j :: r < j ==> !OccursAt(s, t, j)
  {
    RFindFrom(s, t, |s| - |t|)
  }

  /** Python's `t in s`. */
  predicate Contains(s: string, t: string) {
    Find(s, t) >= 0
  }

  /** `t in s` holds exactly when `t` occurs somewhere in `s`, which is also
      when `rfind` succeeds. */
  lemma ContainsIff(s: string, t: string)
    ensures Contains(s, t) <==> exists j :: OccursAt(s, t, j)
    ensures Contains(s, t) <==> RFind(s, t) >= 0
  {
    if exists j :: OccursAt(s, t, j) {
      var j :| OccursAt(s, t, j);
      assert Find(s, t) != -1;
      assert RFind(s, t) != -1;
    }
  }

  // ---------------------------------------------------------------------
  // split(sep), join, replace

  /** `s.split(sep)` for a non-empty separator: cut at every occurrence,
      scanning left to right without overlaps. */
  function Split(s: string, sep: string): (parts: seq<string>)
    requires sep != ""
    ensures |parts| >= 1
    ensures |parts| >= 2 <==> Contains(s, sep)
    decreases |s|
  {
    var i := Find(s, sep);
    if i < 0 then [s] else [s[..i]] + Split(s[i + |sep|..], sep)
  }

  /** No piece of `s.split(sep)` contains `sep`. */
  lemma {:induction false} SplitPieces(s: string, sep: string)
    requires sep != ""
    ensures var parts := Split(s, sep);
            forall k | 0 <= k < |parts| :: !Contains(parts[k], sep)
    decreases |s|
  {
    var i := Find(s, sep);
    if i >= 0 {
      var rest := s[i + |sep|..];
      SplitPieces(rest, sep);
      NoOccurrenceInPrefix(s, sep, i);
      var parts := Split(s, sep);
      assert parts == [s[..i]] + Split(rest, sep);
      forall k | 0 <= k < |parts| ensures !Contains(parts[k], sep) {
        if k > 0 {
          assert parts[k] == Split(rest, sep)[k - 1];
        }
      }
    }
  }

  /** A prefix that ends before the first occurrence of `t` does not contain `t`. */
  lemma NoOccurrenceInPrefix(s: string, t: string, i: int)
    requires t != "" && 0 <= i <= |s|
    requires forall j :: 0 <= j < i ==> !OccursAt(s, t, j)
    ensures !Contains(s[..i], t)
  {
    var p := s[..i];
    if Contains(p, t) {
      var j := Find(p, t);
      assert OccursAt(p, t, j);
      assert j + |t| <= i;
      forall k | 0 <= k < |t| ensures s[j + k] == t[k] {
        assert p[j..j + |t|][k] == p[j + k];
      }
      assert s[j..j + |t|] == t;
      assert OccursAt(s, t, j);
    }
  }

  /** The first two pieces of `s.split(sep)` when `sep` occurs: the text
      before the first occurrence, and the text between the first and the
      second occurrence (or the end of `s`). */
  lemma SplitHead(s: string, sep: string)
    requires sep != "" && Contains(s, sep)
    ensures var i := Find(s, sep);
            var a := i + |sep|;
            var rest := s[a..];
            var b := if Contains(rest, sep) then Find(rest, sep) else |rest|;
            var parts := Split(s, sep);
            && parts[0] == s[..i]
            && a + b <= |s|
            && parts[1] == s[a..a + b]
  {
    var i := Find(s, sep);
    var a := i + |sep|;
    var rest := s[a..];
    var b := if Contains(rest, sep) then Find(rest, sep) else |rest|;
    assert Split(s, sep) == [s[..i]] + Split(rest, sep);
    var j := Find(rest, sep);
    if j < 0 {
      assert Split(rest, sep) == [rest];
      assert rest[..b] == rest;
    } else {
      assert Split(rest, sep) == [rest[..j]] + Split(rest[j + |sep|..], sep);
    }
    assert rest[..b] == s[a..a + b];
  }

  /** `sep.join(parts)`. */
  function Join(sep: string, parts: seq<string>): (r: string)
  {
    if parts == [] then ""
    else if |parts| == 1 then parts[0]
    else parts[0] + sep + Join(sep, parts[1..])
  }

  /** Splitting and joining again with the same separator gives back the string. */
  lemma {:induction false} SplitJoin(s: string, sep: string)
    requires sep != ""
    ensures Join(sep, Split(s, sep)) == s
    decreases |s|
  {
    var i := Find(s, sep);
    if i >= 0 {
      var rest := s[i + |sep|..];
      SplitJoin(rest, sep);
      assert s == s[..i] + sep + rest;
    }
  }

  /** `s.replace(pat, repl)` for a non-empty `pat`: every occurrence,
      left to right without overlaps. */
  function ReplaceAll(s: string, pat: string, repl: string): (r: string)
    requires pat != ""
    decreases |s|
  {
    var i := Find(s, pat);
    if i < 0 then s else s[..i] + repl + ReplaceAll(s[i + |pat|..], pat, repl)
  }

  /** `replace` cuts the string at every occurrence, exactly as `split`
      does, and puts `repl` in every cut. */
  lemma {:induction false} ReplaceAllIsSplitJoin(s: string, pat: string, repl: string)
    requires pat != ""
    ensures ReplaceAll(s, pat, repl) == Join(repl, Split(s, pat))
    decreases |s|
  {
    var i := Find(s, pat);
    if i >= 0 {
      var rest := s[i + |pat|..];
      var parts := Split(rest, pat);
      ReplaceAllIsSplitJoin(rest, pat, repl);
      assert Split(s, pat) == [s[..i]] + parts;
      assert ([s[..i]] + parts)[1..] == parts;
    } else {
      assert Split(s, pat) == [s];
    }
  }

  // ---------------------------------------------------------------------
  // rsplit(sep, maxsplit)

  /** `s.rsplit(sep, maxsplit)` for a non-empty separator: at most
      `maxsplit` cuts (any number when it is negative), taken from the right. */
  function RSplit(s: string, sep: string, maxsplit: int): (parts: seq<string>)
    requires sep != ""
    ensures |parts| >= 1
    decreases |s|
  {
    var i := RFind(s, sep);
    if maxsplit == 0 || i < 0 then [s]
    else RSplit(s[..i], sep, if maxsplit > 0 then maxsplit - 1 else maxsplit) + [s[i + |sep|..]]
  }

  /** `repl.join(s.rsplit(pat, 1))`: the last occurrence of `pat` becomes `repl`. */
  function ReplaceLast(s: string, pat: string, repl: string): (r: string)
    requires pat != ""
  {
    Join(repl, RSplit(s, pat, 1))
  }

  /** `ReplaceLast` leaves a string without `pat` alone; otherwise it
      swaps exactly the last occurrence, keeping everything before and after it. */
  lemma ReplaceLastSpec(s: string, pat: string, repl: string)
    requires pat != ""
    ensures var i := RFind(s, pat);
            ReplaceLast(s, pat, repl) == if i < 0 then s else s[..i] + repl + s[i + |pat|..]
  {
    var i := RFind(s, pat);
    if i >= 0 {
      assert RSplit(s[..i], pat, 0) == [s[..i]];
      assert RSplit(s, pat, 1) == [s[..i], s[i + |pat|..]];
      assert Join(repl, [s[..i], s[i + |pat|..]]) == s[..i] + repl + Join(repl, [s[i + |pat|..]]);
    }
  }

  // ---------------------------------------------------------------------
  // strip() and split()

  function LStrip(s: string): (r: string)
    ensures |r| <= |s| && r == s[|s| - |r|..]
    ensures r == "" || !IsSpace(r[0])
    ensures forall k | 0 <= k < |s| - |r| :: IsSpace(s[k])
  {
    if |s| > 0 && IsSpace(s[0]) then LStrip(s[1..]) else s
  }

  function RStrip(s: string): (r: string)
    ensures |r| <= |s| && r == s[..|r|]
    ensures r == "" || !IsSpace(r[|r| - 1])
    ensures forall k | |r| <= k < |s| :: IsSpace(s[k])
  {
    if |s| > 0 && IsSpace(s[|s| - 1]) then RStrip(s[..|s| - 1]) else s
  }

  /** `s.strip()`: the string with the whitespace at both ends removed.
      What is removed is whitespace, and what is left starts and ends with
      a non-whitespace character. */
  function Strip(s: string): (r: string)
    ensures exists a, b :: 0 <= a <= b <= |s| && r == s[a..b] &&
                           (forall k | 0 <= k < a :: IsSpace(s[k])) &&
                           (forall k | b <= k < |s| :: IsSpace(s[k]))
    ensures r == "" || (!IsSpace(r[0]) && !IsSpace(r[|r| - 1]))
  {
    var l := LStrip(s);
    var r := RStrip(l);
    var a := |s| - |l|;
    assert r == s[a..a + |r|];
    r
  }

  /** Length of the leading run of non-whitespace characters. */
  function WordLen(s: string): (n: nat)
    ensures n <= |s|
    ensures forall k | 0 <= k < n :: !IsSpace(s[k])
    ensures n == |s| || IsSpace(s[n])
  {
    if s == [] || IsSpace(s[0]) then 0 else 1 + WordLen(s[1..])
  }

  /** `s.split()`: the maximal runs of non-whitespace characters, in order.
      Every token is non-empty and free of whitespace. */
  function Words(s: string): (ws: seq<string>)
    ensures forall k | 0 <= k < |ws| :: ws[k] != "" && !HasSpace(ws[k])
    decreases |s|
  {
    if s == [] then []
    else if IsSpace(s[0]) then Words(s[1..])
    else
      var n := WordLen(s);
      [s[..n]] + Words(s[n..])
  }

  /** Whitespace alone has no tokens. */
  lemma {:induction false} WordsOfSpaces(s: string)
    requires forall k | 0 <= k < |s| :: IsSpace(s[k])
    ensures Words(s) == []
    decreases |s|
  {
    if s != [] {
      WordsOfSpaces(s[1..]);
    }
  }

  /** A non-empty text without whitespace is one token. */
  lemma WordsOfWord(w: string)
    requires w != "" && !HasSpace(w)
    ensures Words(w) == [w]
  {
    assert !IsSpace(w[0]);
    var n := WordLen(w);
    assert n == |w|;
    assert w[..n] == w && w[n..] == [];
  }

  /** A word run ends at the first whitespace character, whatever follows. */
  lemma {:induction false} WordLenAppend(a: string, t: string)
    requires WordLen(a) < |a| || (t != [] && IsSpace(t[0]))
    ensures WordLen(a + t) == WordLen(a)
    decreases |a|
  {
    if a == [] {
      assert a + t == t;
    } else if !IsSpace(a[0]) {
      assert (a + t)[1..] == a[1..] + t;
      WordLenAppend(a[1..], t);
    }
  }

  /** A whitespace character separates tokens: the tokens of `a + [c] + b`
      are those of `a` followed by those of `b`. With `WordsOfSpaces` and
      `WordsOfWord`, this fixes `split()` as the maximal non-whitespace runs,
      in order. */
  lemma {:induction false} WordsAtSpace(a: string, c: char, b: string)
    requires IsSpace(c)
    ensures Words(a + [c] + b) == Words(a) + Words(b)
    decreases |a|
  {
    var s := a + [c] + b;
    if a == [] {
      assert s[1..] == b;
    } else if IsSpace(a[0]) {
      assert s[1..] == a[1..] + [c] + b;
      WordsAtSpace(a[1..], c, b);
    } else {
      var n := WordLen(a);
      WordLenAppend(a, [c] + b);
      assert a + ([c] + b) == s;
      assert s[..n] == a[..n];
      assert s[n..] == a[n..] + [c] + b;
      WordsAtSpace(a[n..], c, b);
      assert Words(s) == [a[..n]] + Words(s[n..]);
    }
  }

  /** An occurrence of a whitespace-free `t` in `s` lies inside one token
      of `s.split()`. */
  lemma OccurrenceInWord(s: string, t: string, j: nat)
    requires t != "" && !HasSpace(t) && OccursAt(s, t, j)
    ensures exists k | 0 <= k < |Words(s)| :: Contains(Words(s)[k], t)
  {
    var k, i := TokenOfOccurrence(s, t, j);
    ContainsIff(Words(s)[k], t);
  }

  /** The token `k` of `s.split()` that holds the occurrence at `j`, and the
      offset `i` of the occurrence within it. */
  lemma {:induction false} TokenOfOccurrence(s: string, t: string, j: nat) returns (k: nat, i: nat)
    requires t != "" && !HasSpace(t) && OccursAt(s, t, j)
    ensures k < |Words(s)| && OccursAt(Words(s)[k], t, i)
    decreases |s|
  {
    if IsSpace(s[0]) {
      SpaceOutsideOccurrence(s, t, j, 0);
      OccursAtDrop(s, t, j, 1);
      k, i := TokenOfOccurrence(s[1..], t, j - 1);
      WordsOfSpaceFirst(s);
    } else {
      var n := WordLen(s);
      WordsOfWordFirst(s);
      SpaceOutsideOccurrence(s, t, j, n);
      if j + |t| <= n {
        OccursAtTake(s, t, j, n);
        k, i := 0, j;
      } else {
        OccursAtDrop(s, t, j, n);
        var k', i' := TokenOfOccurrence(s[n..], t, j - n);
        k, i := k' + 1, i';
      }
    }
  }

  /** Leading whitespace contributes no token. */
  lemma WordsOfSpaceFirst(s: string)
    requires s != [] && IsSpace(s[0])
    ensures Words(s) == Words(s[1..])
  {
  }

  /** A leading run of non-whitespace is the first token. */
  lemma WordsOfWordFirst(s: string)
    requires s != [] && !IsSpace(s[0])
    ensures Words(s) == [s[..WordLen(s)]] + Words(s[WordLen(s)..])
  {
  }

  /** Every character of an occurrence of a whitespace-free `t` is not
      whitespace. */
  lemma SpaceOutsideOccurrence(s: string, t: string, j: int, q: nat)
    requires !HasSpace(t) && OccursAt(s, t, j)
    ensures j <= q < j + |t| ==> q < |s| && !IsSpace(s[q])
  {
    if j <= q < j + |t| {
      assert s[j..j + |t|][q - j] == s[q];
    }
  }

  /** An occurrence past the first `m` characters is one of `s[m..]`. */
  lemma OccursAtDrop(s: string, t: string, j: int, m: nat)
    requires OccursAt(s, t, j) && m <= j
    ensures OccursAt(s[m..], t, j - m)
  {
    assert s[m..][j - m..j - m + |t|] == s[j..j + |t|];
  }

  /** An occurrence ending within the first `n` characters is one of `s[..n]`. */
  lemma OccursAtTake(s: string, t: string, j: int, n: nat)
    requires OccursAt(s, t, j) && j + |t| <= n <= |s|
    ensures OccursAt(s[..n], t, j)
  {
    assert s[..n][j..j + |t|] == s[j..j + |t|];
  }

  /** A token of `split()` never contains a term that has whitespace in it. */
  lemma NoSpacedTermInWord(w: string, term: string)
    requires !HasSpace(w) && HasSpace(term)
    ensures !Contains(w, term)
  {
  }

  // ---------------------------------------------------------------------
  // Slicing and str()

  /** Python's `s[:k]` for an integer `k`, negative `k` counting from the end. */
  function SliceTo(s: string, k: int): (r: string)
    ensures StartsWith(s, r)
    ensures |r| == if k >= 0 then (if k < |s| then k else |s|)
                   else (if |s| + k > 0 then |s| + k else 0)
  {
    if k >= 0 then (if k < |s| then s[..k] else s)
    else (if |s| + k > 0 then s[..|s| + k] else "")
  }

  function DigitChar(d: nat): (c: char)
    requires d < 10
    ensures '0' <= c <= '9' && c as int - '0' as int == d
  {
    "0123456789"[d]
  }

  /** The number a string of decimal digits denotes. */
  function DecimalValue(s: string): int
    decreases |s|
  {
    if s == [] then 0
    else 10 * DecimalValue(s[..|s| - 1]) + (s[|s| - 1] as int - '0' as int)
  }

  /** `str(n)` for a natural number: the decimal digits of `n`, with no
      leading zero except for `n == 0` itself. */
  function NatToString(n: nat): (r: string)
    ensures |r| >= 1
    ensures forall k | 0 <= k < |r| :: '0' <= r[k] <= '9'
    ensures DecimalValue(r) == n
    ensures n > 0 ==> r[0] != '0'
    ensures n == 0 ==> r == "0"
  {
    if n < 10 then [DigitChar(n)]
    else
      var r := NatToString(n / 10) + [DigitChar(n % 10)];
      assert r[..|r| - 1] == NatToString(n / 10);
      r
  }
}
