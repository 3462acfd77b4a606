/**
 * Text normalisation and metadata heuristics of utils/text_utils.py:
 * clean_text, extract_metadata and split_by_section, together with the
 * pieces of Python's string library they rely on (str.strip, str.split,
 * str.join) and the two regular expressions, written out as scanners.
 */
module TextUtils {
  import opened Wrappers
  import opened Sequences

  // ---------------------------------------------------------------------
  // Whitespace and str.strip()
  // ---------------------------------------------------------------------

  /** The characters Python's str.isspace() accepts, which str.strip() removes. */
  predicate IsSpace(c: char) {
    || c == ' '
    || ('\t' <= c <= '\r')
    || ('\U{1C}' <= c <= '\U{1F}')
    || c == '\U{85}' || c == '\U{A0}' || c == '\U{1680}'
    || ('\U{2000}' <= c <= '\U{200A}')
    || c == '\U{2028}' || c == '\U{2029}' || c == '\U{202F}' || c == '\U{205F}'
    || c == '\U{3000}'
  }

  /** No whitespace at either end. */
  predicate IsStripped(s: string) {
    s == [] || (!IsSpace(s[0]) && !IsSpace(s[|s| - 1]))
  }

  /** The first index from i on that does not hold whitespace (|s| when there is none). */
  function SkipSpaces(s: string, i: nat): (j: nat)
    requires i <= |s|
    ensures i <= j <= |s|
    ensures forall k :: i <= k < j ==> IsSpace(s[k])
    ensures j == |s| || !IsSpace(s[j])
    decreases |s| - i
  {
    if i < |s| && IsSpace(s[i]) then SkipSpaces(s, i + 1) else i
  }

  /** The end of s[..j] once its trailing whitespace is cut off. */
  function TrimSpaces(s: string, j: nat): (k: nat)
    requires j <= |s|
    ensures k <= j
    ensures forall m :: k <= m < j ==> IsSpace(s[m])
    ensures k == 0 || !IsSpace(s[k - 1])
    decreases j
  {
    if j > 0 && IsSpace(s[j - 1]) then TrimSpaces(s, j - 1) else j
  }

  /** How many whitespace characters str.strip() removes from the front of `s`. */
  function StripOffset(s: string): nat
    ensures StripOffset(s) <= |s|
  {
    SkipSpaces(s, 0)
  }

  /**
   * str.strip(): the result is the slice of `s` that starts at StripOffset(s)
   * and that begins and ends with a non-whitespace character; everything cut
   * away on either side is whitespace.
   */
  function Strip(s: string): (r: string)
    ensures IsStripped(r)
    ensures StripOffset(s) + |r| <= |s| && r == s[StripOffset(s)..StripOffset(s) + |r|]
    ensures forall i :: 0 <= i < StripOffset(s) ==> IsSpace(s[i])
    ensures forall i :: StripOffset(s) + |r| <= i < |s| ==> IsSpace(s[i])
  {
    var lo := SkipSpaces(s, 0);
    var hi := TrimSpaces(s, |s|);
    if hi <= lo then
      []
    else
      assert !IsSpace(s[lo]) && !IsSpace(s[hi - 1]);
      s[lo..hi]
  }

  /** A string that is already stripped is left alone. */
  lemma StripStripped(s: string)
    requires IsStripped(s)
    ensures Strip(s) == s
  {
    if s != [] {
      assert SkipSpaces(s, 0) == 0;
      assert TrimSpaces(s, |s|) == |s|;
    }
  }

  /** A string made only of whitespace strips to the empty string, and only such a string does. */
  lemma {:induction false} StripEmpty(s: string)
    ensures Strip(s) == [] <==> forall i :: 0 <= i < |s| ==> IsSpace(s[i])
  {
    var r := Strip(s);
    if r != [] {
      assert r[0] == s[StripOffset(s)];
    }
  }

  // ---------------------------------------------------------------------
  // Runs of one character and clean_text
  // ---------------------------------------------------------------------

  /** The number of copies of `c` at the start of `s`. */
  function LeadingRun(s: string, c: char): (n: nat)
    ensures n <= |s|
    ensures forall i :: 0 <= i < n ==> s[i] == c
    ensures n == |s| || s[n] != c
    decreases |s|
  {
    if s != [] && s[0] == c then 1 + LeadingRun(s[1..], c) else 0
  }

  /** `n` copies of `c`. */
  function Repeat(c: char, n: nat): (r: string)
    ensures |r| == n
    ensures forall i :: 0 <= i < n ==> r[i] == c
  {
    seq(n, _ => c)
  }

  /**
   * re.sub(c{atLeast,}, c * keep, s): every maximal run of at least `atLeast`
   * copies of `c` becomes `keep` copies; shorter runs and all other
   * characters are copied. A leftmost, greedy scan always starts a match at
   * the first character of a run, so matches are exactly the maximal runs.
   */
  function CollapseRuns(s: string, c: char, atLeast: nat, keep: nat): string
    requires atLeast >= 1
    decreases |s|
  {
    if s == [] then []
    else if s[0] != c then [s[0]] + CollapseRuns(s[1..], c, atLeast, keep)
    else
      var n := LeadingRun(s, c);
      (if n >= atLeast then Repeat(c, keep) else s[..n]) + CollapseRuns(s[n..], c, atLeast, keep)
  }

  /** re.sub(r'\n{3,}', '\n\n', text) */
  function CollapseNewlines(s: string): string {
    CollapseRuns(s, '\n', 3, 2)
  }

  /** re.sub(r' +', ' ', text) */
  function CollapseSpaces(s: string): string {
    CollapseRuns(s, ' ', 1, 1)
  }

  /** Three newlines start at index i. */
  predicate TripleNewlineAt(s: string, i: int)
    requires 0 <= i && i + 2 < |s|
  {
    s[i] == '\n' && s[i + 1] == '\n' && s[i + 2] == '\n'
  }

  /** Two spaces start at index i. */
  predicate DoubleSpaceAt(s: string, i: int)
    requires 0 <= i && i + 1 < |s|
  {
    s[i] == ' ' && s[i + 1] == ' '
  }

  /** No three consecutive newlines. */
  predicate NoTripleNewline(s: string) {
    forall i :: 0 <= i && i + 2 < |s| ==> !TripleNewlineAt(s, i)
  }

  /** No two adjacent spaces. */
  predicate NoDoubleSpace(s: string) {
    forall i :: 0 <= i && i + 1 < |s| ==> !DoubleSpaceAt(s, i)
  }

  /** The normal form clean_text produces. */
  predicate IsClean(s: string) {
    NoTripleNewline(s) && NoDoubleSpace(s) && IsStripped(s)
  }

  /** clean_text: collapse newline runs, then space runs, then strip. */
  function CleanText(text: string): (r: string)
    ensures IsClean(r)
    ensures IsSubsequence(r, text)
  {
    var a := CollapseNewlines(text);
    var b := CollapseSpaces(a);
    CollapseNewlinesBound(text);
    CollapseSpacesKeepsNewlineBound(a);
    CollapseSpacesBound(a);
    CollapseRunsSubsequence(text, '\n', 3, 2);
    CollapseRunsSubsequence(a, ' ', 1, 1);
    var r := Strip(b);
    StripKeepsNewlineBound(b);
    StripKeepsSpaceBound(b);
    StripSubsequence(b);
    SubsequenceTransitive(b, a, text);
    SubsequenceTransitive(r, b, text);
    r
  }

  /** clean_text leaves a string alone exactly when it is already in normal form. */
  lemma CleanTextFixpoint(s: string)
    ensures CleanText(s) == s <==> IsClean(s)
  {
    if IsClean(s) {
      CollapseNewlinesIdentity(s);
      CollapseSpacesIdentity(s);
      StripStripped(s);
    }
  }

  /** clean_text is idempotent. */
  lemma CleanTextIdempotent(s: string)
    ensures CleanText(CleanText(s)) == CleanText(s)
  {
    CleanTextFixpoint(CleanText(s));
  }

  /** The collapse keeps the first character when it keeps at least one copy of each run. */
  lemma CollapseRunsFirst(s: string, c: char, atLeast: nat, keep: nat)
    requires atLeast >= 1 && keep >= 1 && s != []
    ensures CollapseRuns(s, c, atLeast, keep) != []
    ensures CollapseRuns(s, c, atLeast, keep)[0] == s[0]
  {
  }

  /** Prepending one character that is not a newline keeps the newline bound. */
  lemma ConsKeepsNewlineBound(x: char, t: string)
    requires x != '\n' && NoTripleNewline(t)
    ensures NoTripleNewline([x] + t)
  {
    var u := [x] + t;
    forall i | 0 <= i && i + 2 < |u|
      ensures !TripleNewlineAt(u, i)
    {
      if i > 0 {
        assert !TripleNewlineAt(t, i - 1);
      }
    }
  }

  /** A suffix keeps the newline bound. */
  lemma SuffixKeepsNewlineBound(s: string, k: nat)
    requires k <= |s| && NoTripleNewline(s)
    ensures NoTripleNewline(s[k..])
  {
    var r := s[k..];
    forall i | 0 <= i && i + 2 < |r|
      ensures !TripleNewlineAt(r, i)
    {
      assert !TripleNewlineAt(s, k + i);
    }
  }

  lemma {:induction false} CollapseNewlinesBound(s: string)
    ensures NoTripleNewline(CollapseNewlines(s))
    decreases |s|
  {
    if s == [] {
    } else if s[0] != '\n' {
      CollapseNewlinesBound(s[1..]);
      ConsKeepsNewlineBound(s[0], CollapseNewlines(s[1..]));
    } else {
      var n := LeadingRun(s, '\n');
      var rest := s[n..];
      CollapseNewlinesBound(rest);
      var t := CollapseNewlines(rest);
      if rest != [] {
        CollapseRunsFirst(rest, '\n', 3, 2);
      }
      var p := if n >= 3 then Repeat('\n', 2) else s[..n];
      assert CollapseNewlines(s) == p + t;
      assert |p| <= 2;
      var u := p + t;
      forall i | 0 <= i && i + 2 < |u|
        ensures !TripleNewlineAt(u, i)
      {
        if i < |p| {
          var j := if |p| - i == 1 then i + 1 else i + 2;
          assert j == |p| && u[j] == t[0];
        } else {
          assert !TripleNewlineAt(t, i - |p|);
          assert u[i] == t[i - |p|] && u[i + 1] == t[i - |p| + 1] && u[i + 2] == t[i - |p| + 2];
        }
      }
    }
  }

  lemma {:induction false} CollapseSpacesBound(s: string)
    ensures NoDoubleSpace(CollapseSpaces(s))
    decreases |s|
  {
    if s == [] {
    } else {
      var n := if s[0] != ' ' then 1 else LeadingRun(s, ' ');
      var rest := s[n..];
      CollapseSpacesBound(rest);
      var t := CollapseSpaces(rest);
      if rest != [] {
        CollapseRunsFirst(rest, ' ', 1, 1);
      }
      var u := [s[0]] + t;
      assert CollapseSpaces(s) == u;
      forall i | 0 <= i && i + 1 < |u|
        ensures !DoubleSpaceAt(u, i)
      {
        if i > 0 {
          assert !DoubleSpaceAt(t, i - 1);
          assert u[i] == t[i - 1] && u[i + 1] == t[i];
        } else if s[0] == ' ' {
          assert u[1] == t[0] == rest[0];
        }
      }
    }
  }

  /** Collapsing spaces cannot bring three newlines together. */
  lemma {:induction false} CollapseSpacesKeepsNewlineBound(s: string)
    requires NoTripleNewline(s)
    ensures NoTripleNewline(CollapseSpaces(s))
    decreases |s|
  {
    if s == [] {
    } else if s[0] != ' ' {
      SuffixKeepsNewlineBound(s, 1);
      CollapseSpacesKeepsNewlineBound(s[1..]);
      var t := CollapseSpaces(s[1..]);
      var u := [s[0]] + t;
      assert CollapseSpaces(s) == u;
      forall i | 0 <= i && i + 2 < |u|
        ensures !TripleNewlineAt(u, i)
      {
        if i > 0 {
          assert !TripleNewlineAt(t, i - 1);
          assert u[i] == t[i - 1] && u[i + 1] == t[i] && u[i + 2] == t[i + 1];
        } else if u[0] == '\n' && u[1] == '\n' {
          CollapseRunsFirst(s[1..], ' ', 1, 1);
          assert t[0] == s[1] == '\n';
          assert s[1..] == [s[1]] + s[2..];
          assert t == [s[1]] + CollapseSpaces(s[2..]);
          assert s[2..] != [];
          CollapseRunsFirst(s[2..], ' ', 1, 1);
          assert u[2] == s[2];
          assert !TripleNewlineAt(s, 0);
        }
      }
    } else {
      var n := LeadingRun(s, ' ');
      var rest := s[n..];
      SuffixKeepsNewlineBound(s, n);
      CollapseSpacesKeepsNewlineBound(rest);
      ConsKeepsNewlineBound(' ', CollapseSpaces(rest));
      assert CollapseSpaces(s) == " " + CollapseSpaces(rest);
    }
  }

  /** Strip returns a slice, and a slice inherits the newline bound. */
  lemma StripKeepsNewlineBound(s: string)
    requires NoTripleNewline(s)
    ensures NoTripleNewline(Strip(s))
  {
    var r := Strip(s);
    var a := StripOffset(s);
    forall i | 0 <= i && i + 2 < |r|
      ensures !TripleNewlineAt(r, i)
    {
      assert !TripleNewlineAt(s, a + i);
      assert r[i] == s[a + i] && r[i + 1] == s[a + i + 1] && r[i + 2] == s[a + i + 2];
    }
  }

  /** Strip returns a slice, and a slice inherits the space bound. */
  lemma StripKeepsSpaceBound(s: string)
    requires NoDoubleSpace(s)
    ensures NoDoubleSpace(Strip(s))
  {
    var r := Strip(s);
    var a := StripOffset(s);
    forall i | 0 <= i && i + 1 < |r|
      ensures !DoubleSpaceAt(r, i)
    {
      assert !DoubleSpaceAt(s, a + i);
      assert r[i] == s[a + i] && r[i + 1] == s[a + i + 1];
    }
  }

  /** Strip only deletes characters. */
  lemma StripSubsequence(s: string)
    ensures IsSubsequence(Strip(s), s)
  {
    SubsequenceSlice(s, StripOffset(s), StripOffset(s) + |Strip(s)|);
  }

  lemma {:induction false} RepeatSubsequence(c: char, k: nat, n: nat)
    requires k <= n
    ensures IsSubsequence(Repeat(c, k), Repeat(c, n))
    decreases n
  {
    if k == 0 {
    } else {
      assert Repeat(c, n)[1..] == Repeat(c, n - 1);
      if k == n {
        SubsequenceReflexive(Repeat(c, k));
      } else {
        RepeatSubsequence(c, k, n - 1);
      }
    }
  }

  /** Collapsing runs only deletes characters, since at most `atLeast` copies are kept. */
  lemma {:induction false} CollapseRunsSubsequence(s: string, c: char, atLeast: nat, keep: nat)
    requires 1 <= atLeast && keep <= atLeast
    ensures IsSubsequence(CollapseRuns(s, c, atLeast, keep), s)
    decreases |s|
  {
    if s == [] {
    } else if s[0] != c {
      CollapseRunsSubsequence(s[1..], c, atLeast, keep);
      SubsequenceReflexive([s[0]]);
      SubsequenceConcat([s[0]], [s[0]], CollapseRuns(s[1..], c, atLeast, keep), s[1..]);
      assert [s[0]] + s[1..] == s;
    } else {
      var n := LeadingRun(s, c);
      CollapseRunsSubsequence(s[n..], c, atLeast, keep);
      var p := if n >= atLeast then Repeat(c, keep) else s[..n];
      assert IsSubsequence(p, s[..n]) by {
        if n >= atLeast {
          assert s[..n] == Repeat(c, n);
          RepeatSubsequence(c, keep, n);
        } else {
          SubsequenceReflexive(s[..n]);
        }
      }
      SubsequenceConcat(p, s[..n], CollapseRuns(s[n..], c, atLeast, keep), s[n..]);
      assert s[..n] + s[n..] == s;
    }
  }

  lemma {:induction false} CollapseNewlinesIdentity(s: string)
    requires NoTripleNewline(s)
    ensures CollapseNewlines(s) == s
    decreases |s|
  {
    if s == [] {
    } else {
      var n := if s[0] != '\n' then 1 else LeadingRun(s, '\n');
      if |s| >= 3 {
        assert !TripleNewlineAt(s, 0);
      }
      assert n <= 2;
      var rest := s[n..];
      SuffixKeepsNewlineBound(s, n);
      CollapseNewlinesIdentity(rest);
      assert s == s[..n] + rest;
    }
  }

  lemma {:induction false} CollapseSpacesIdentity(s: string)
    requires NoDoubleSpace(s)
    ensures CollapseSpaces(s) == s
    decreases |s|
  {
    if s == [] {
    } else {
      var n := if s[0] != ' ' then 1 else LeadingRun(s, ' ');
      if |s| >= 2 {
        assert !DoubleSpaceAt(s, 0);
      }
      assert n == 1;
      var rest := s[1..];
      assert NoDoubleSpace(rest) by {
        forall i | 0 <= i && i + 1 < |rest| ensures !DoubleSpaceAt(rest, i) {
          assert !DoubleSpaceAt(s, i + 1);
        }
      }
      CollapseSpacesIdentity(rest);
      assert s == [s[0]] + rest;
    }
  }

  // ---------------------------------------------------------------------
  // str.split and str.join
  // ---------------------------------------------------------------------

  /** sep.join(parts) */
  function Join(parts: seq<string>, sep: string): string
    decreases |parts|
  {
    if |parts| == 0 then []
    else if |parts| == 1 then parts[0]
    else parts[0] + sep + Join(parts[1..], sep)
  }

  /**
   * s.split(sep) for a one-character separator: at least one part, no part
   * holds the separator, and joining the parts back gives `s`.
   */
  function Split(s: string, sep: char): (parts: seq<string>)
    ensures |parts| >= 1
    ensures forall i :: 0 <= i < |parts| ==> sep !in parts[i]
    ensures Join(parts, [sep]) == s
    decreases |s|
  {
    if s == [] then [[]]
    else
      var rest := Split(s[1..], sep);
      if s[0] == sep then
        assert Join([[]] + rest, [sep]) == [sep] + Join(rest, [sep]) by {
          assert ([[]] + rest)[1..] == rest;
        }
        [[]] + rest
      else
        var parts := [[s[0]] + rest[0]] + rest[1..];
        assert Join(parts, [sep]) == [s[0]] + Join(rest, [sep]) by {
          if |rest| > 1 {
            assert parts[1..] == rest[1..];
          }
        }
        parts
  }

  /** Splitting a joined list of separator-free parts gives the parts back. */
  lemma {:induction false} SplitJoin(parts: seq<string>, sep: char)
    requires |parts| >= 1
    requires forall i :: 0 <= i < |parts| ==> sep !in parts[i]
    ensures Split(Join(parts, [sep]), sep) == parts
    decreases |parts|
  {
    if |parts| == 1 {
      SplitNoSeparator(parts[0], sep);
    } else {
      SplitJoin(parts[1..], sep);
      SplitAfterPart(parts[0], sep, Join(parts[1..], [sep]));
      assert [parts[0]] + parts[1..] == parts;
    }
  }

  lemma {:induction false} SplitNoSeparator(x: string, sep: char)
    requires sep !in x
    ensures Split(x, sep) == [x]
    decreases |x|
  {
    if x != [] {
      SplitNoSeparator(x[1..], sep);
      assert [x[0]] + x[1..] == x;
    }
  }

  lemma {:induction false} SplitAfterPart(x: string, sep: char, y: string)
    requires sep !in x
    ensures Split(x + [sep] + y, sep) == [x] + Split(y, sep)
    decreases |x|
  {
    var s := x + [sep] + y;
    if x == [] {
      assert s[1..] == y;
    } else {
      assert s[1..] == x[1..] + [sep] + y;
      SplitAfterPart(x[1..], sep, y);
      assert [x[0]] + x[1..] == x;
    }
  }

  // ---------------------------------------------------------------------
  // extract_metadata
  // ---------------------------------------------------------------------

  /** ASCII lower-casing; for the letters of "author" and "by" this is what re.IGNORECASE folds. */
  function LowerAscii(c: char): (r: char)
    ensures 'A' <= c <= 'Z' ==> 'a' <= r <= 'z'
  {
    if 'A' <= c <= 'Z' then (c as int + 32) as char else c
  }

  /** The characters of `line` from index i on spell `word`, ignoring ASCII case. */
  predicate FoldedAt(line: string, i: int, word: string)
    requires 0 <= i && i + |word| <= |line|
  {
    forall j :: 0 <= j < |word| ==> LowerAscii(line[i + j]) == word[j]
  }

  /** \w, restricted to ASCII. */
  predicate IsWordChar(c: char) {
    ('a' <= c <= 'z') || ('A' <= c <= 'Z') || ('0' <= c <= '9') || c == '_'
  }

  /** The alternative (?i)author: "author" in any case, anywhere in the line. */
  predicate ContainsAuthor(line: string) {
    exists i :: 0 <= i && i + 6 <= |line| && FoldedAt(line, i, "author")
  }

  /** The alternative (?i)^by\b: "by" in any case at the start, then a non-word character or the end. */
  predicate StartsWithBy(line: string) {
    |line| >= 2 && FoldedAt(line, 0, "by") && (|line| == 2 || !IsWordChar(line[2]))
  }

  /** re.search(r'(?i)author|^by\b', line) finds a match. */
  predicate IsAuthorLine(line: string) {
    ContainsAuthor(line) || StartsWithBy(line)
  }

  /**
   * "author" matches in any case and anywhere; "by" matches only at the
   * start and only as a whole word, so "by," passes and "Byron" does not.
   */
  lemma AuthorLineExamples()
    ensures IsAuthorLine("Co-AUTHORS: A. Smith")
    ensures IsAuthorLine("By Jane Doe")
    ensures IsAuthorLine("by, J. Doe")
    ensures IsAuthorLine("by")
    ensures !IsAuthorLine("Byron Smith")
  {
    assert FoldedAt("Co-AUTHORS: A. Smith", 3, "author");
    var s := "Byron Smith";
    assert !IsWordChar(" Jane Doe"[0]) && !IsWordChar(", J. Doe"[0]);
    assert !ContainsAuthor(s) by {
      forall i | 0 <= i && i + 6 <= |s| ensures !FoldedAt(s, i, "author") {
        assert LowerAscii(s[i + 0]) != "author"[0];
      }
    }
  }

  /** [line.strip() for line in parts] */
  function StripAll(parts: seq<string>): (lines: seq<string>)
    ensures |lines| == |parts|
  {
    seq(|parts|, i requires 0 <= i < |parts| => Strip(parts[i]))
  }

  /** [line for line in lines if line]: the non-blank lines, in order. */
  function NonBlank(lines: seq<string>): seq<string>
    decreases |lines|
  {
    if lines == [] then []
    else (if lines[0] != [] then [lines[0]] else []) + NonBlank(lines[1..])
  }

  /** [line for line in lines if re.search(r'(?i)author|^by\b', line)] */
  function AuthorLines(lines: seq<string>): seq<string>
    decreases |lines|
  {
    if lines == [] then []
    else (if IsAuthorLine(lines[0]) then [lines[0]] else []) + AuthorLines(lines[1..])
  }

  /** Line k is the first non-blank line. */
  ghost predicate FirstNonBlank(lines: seq<string>, k: int) {
    && 0 <= k < |lines| && lines[k] != []
    && forall j :: 0 <= j < k ==> lines[j] == []
  }

  /** Line k is the first non-blank line that passes the author test. */
  ghost predicate FirstAuthor(lines: seq<string>, k: int) {
    && 0 <= k < |lines| && lines[k] != [] && IsAuthorLine(lines[k])
    && forall j :: 0 <= j < k ==> lines[j] == [] || !IsAuthorLine(lines[j])
  }

  /** The text's lines, each stripped: [line.strip() for line in text.split('\n')]. */
  function StrippedLines(text: string): seq<string> {
    StripAll(Split(text, '\n'))
  }

  /** The metadata dictionary built from the stripped lines. */
  function MetadataOf(stripped: seq<string>): (m: map<string, string>)
    ensures m.Keys <= {"title", "authors"}
  {
    var lines := NonBlank(stripped);
    var authorLines := AuthorLines(lines);
    var withTitle: map<string, string> := if lines != [] then map["title" := lines[0]] else map[];
    if authorLines != [] then withTitle["authors" := authorLines[0]] else withTitle
  }

  /**
   * extract_metadata: `title` from the first non-blank stripped line and
   * `authors` from the first one that passes the author test, each only
   * when there is such a line; no other keys.
   */
  function ExtractMetadata(text: string): (m: map<string, string>)
    ensures m.Keys <= {"title", "authors"}
  {
    MetadataOf(StrippedLines(text))
  }

  lemma MetadataOfTitle(stripped: seq<string>)
    ensures "title" in MetadataOf(stripped) <==> NonBlank(stripped) != []
    ensures "title" in MetadataOf(stripped) ==> MetadataOf(stripped)["title"] == NonBlank(stripped)[0]
  {
    assert "title" != "authors";
  }

  lemma MetadataOfAuthors(stripped: seq<string>)
    ensures "authors" in MetadataOf(stripped) <==> AuthorLines(NonBlank(stripped)) != []
    ensures "authors" in MetadataOf(stripped) ==> MetadataOf(stripped)["authors"] == AuthorLines(NonBlank(stripped))[0]
  {
  }

  /** `title` is present exactly when some stripped line is non-blank, and is then the first such line. */
  lemma ExtractMetadataTitle(text: string)
    ensures var lines := StrippedLines(text);
      && ("title" in ExtractMetadata(text) <==> exists k :: 0 <= k < |lines| && lines[k] != [])
      && (forall k :: FirstNonBlank(lines, k) ==> "title" in ExtractMetadata(text) && ExtractMetadata(text)["title"] == lines[k])
  {
    var lines := StrippedLines(text);
    MetadataOfTitle(lines);
    NonBlankFirst(lines);
  }

  /**
   * `authors` is present exactly when some non-blank stripped line passes the
   * author test, and is then the first such line.
   */
  lemma ExtractMetadataAuthors(text: string)
    ensures var lines := StrippedLines(text);
      && ("authors" in ExtractMetadata(text) <==> exists k :: 0 <= k < |lines| && lines[k] != [] && IsAuthorLine(lines[k]))
      && (forall k :: FirstAuthor(lines, k) ==> "authors" in ExtractMetadata(text) && ExtractMetadata(text)["authors"] == lines[k])
  {
    var lines := StrippedLines(text);
    MetadataOfAuthors(lines);
    AuthorLinesFirst(lines);
  }

  lemma NonBlankCons(x: string, tail: seq<string>)
    ensures NonBlank([x] + tail) == (if x != [] then [x] else []) + NonBlank(tail)
  {
    assert ([x] + tail)[1..] == tail;
  }

  lemma AuthorLinesCons(x: string, tail: seq<string>)
    ensures AuthorLines([x] + tail) == (if IsAuthorLine(x) then [x] else []) + AuthorLines(tail)
  {
    assert ([x] + tail)[1..] == tail;
  }

  /** The author lines among the non-blank lines, one line at a time. */
  lemma AuthorsCons(x: string, tail: seq<string>)
    ensures AuthorLines(NonBlank([x] + tail)) ==
      (if x != [] && IsAuthorLine(x) then [x] else []) + AuthorLines(NonBlank(tail))
  {
    NonBlankCons(x, tail);
    if x != [] {
      AuthorLinesCons(x, NonBlank(tail));
    } else {
      assert [] + NonBlank(tail) == NonBlank(tail);
    }
  }

  /** No non-blank line survives exactly when every line is blank. */
  lemma {:induction false} NonBlankEmpty(lines: seq<string>)
    ensures NonBlank(lines) == [] <==> forall j :: 0 <= j < |lines| ==> lines[j] == []
    decreases |lines|
  {
    if lines != [] {
      var tail := lines[1..];
      NonBlankEmpty(tail);
      assert forall j :: 0 < j < |lines| ==> lines[j] == tail[j - 1];
    }
  }

  /** Blank lines in front do not change the non-blank lines. */
  lemma {:induction false} NonBlankSkip(lines: seq<string>, k: nat)
    requires k <= |lines|
    requires forall j :: 0 <= j < k ==> lines[j] == []
    ensures NonBlank(lines) == NonBlank(lines[k..])
    decreases k
  {
    if k > 0 {
      var tail := lines[1..];
      assert lines == [lines[0]] + tail;
      NonBlankCons(lines[0], tail);
      assert [] + NonBlank(tail) == NonBlank(tail);
      assert forall j :: 0 <= j < k - 1 ==> tail[j] == lines[j + 1];
      NonBlankSkip(tail, k - 1);
      assert tail[k - 1..] == lines[k..];
    }
  }

  /** The first non-blank line in the list is the first one kept. */
  lemma NonBlankFirstAt(lines: seq<string>, k: nat)
    requires FirstNonBlank(lines, k)
    ensures NonBlank(lines) != [] && NonBlank(lines)[0] == lines[k]
  {
    NonBlankSkip(lines, k);
    assert lines[k..] == [lines[k]] + lines[k + 1..];
    NonBlankCons(lines[k], lines[k + 1..]);
  }

  lemma NonBlankFirst(lines: seq<string>)
    ensures NonBlank(lines) != [] <==> exists k :: 0 <= k < |lines| && lines[k] != []
    ensures forall k :: FirstNonBlank(lines, k) ==> NonBlank(lines) != [] && NonBlank(lines)[0] == lines[k]
  {
    NonBlankEmpty(lines);
    forall k | FirstNonBlank(lines, k)
      ensures NonBlank(lines) != [] && NonBlank(lines)[0] == lines[k]
    {
      NonBlankFirstAt(lines, k);
    }
  }

  /** No author line survives exactly when every line is blank or fails the author test. */
  lemma {:induction false} AuthorsEmpty(lines: seq<string>)
    ensures AuthorLines(NonBlank(lines)) == [] <==>
      forall j :: 0 <= j < |lines| ==> lines[j] == [] || !IsAuthorLine(lines[j])
    decreases |lines|
  {
    if lines != [] {
      var tail := lines[1..];
      AuthorsEmpty(tail);
      assert lines == [lines[0]] + tail;
      AuthorsCons(lines[0], tail);
      assert forall j :: 0 < j < |lines| ==> lines[j] == tail[j - 1];
    }
  }

  /** Lines in front that are blank or fail the author test do not change the author lines. */
  lemma {:induction false} AuthorsSkip(lines: seq<string>, k: nat)
    requires k <= |lines|
    requires forall j :: 0 <= j < k ==> lines[j] == [] || !IsAuthorLine(lines[j])
    ensures AuthorLines(NonBlank(lines)) == AuthorLines(NonBlank(lines[k..]))
    decreases k
  {
    if k > 0 {
      var tail := lines[1..];
      assert lines == [lines[0]] + tail;
      AuthorsCons(lines[0], tail);
      assert [] + AuthorLines(NonBlank(tail)) == AuthorLines(NonBlank(tail));
      assert forall j :: 0 <= j < k - 1 ==> tail[j] == lines[j + 1];
      AuthorsSkip(tail, k - 1);
      assert tail[k - 1..] == lines[k..];
    }
  }

  /** The first author line in the list is the first one kept. */
  lemma AuthorsFirstAt(lines: seq<string>, k: nat)
    requires FirstAuthor(lines, k)
    ensures AuthorLines(NonBlank(lines)) != [] && AuthorLines(NonBlank(lines))[0] == lines[k]
  {
    AuthorsSkip(lines, k);
    assert lines[k..] == [lines[k]] + lines[k + 1..];
    AuthorsCons(lines[k], lines[k + 1..]);
  }

  lemma AuthorLinesFirst(lines: seq<string>)
    ensures AuthorLines(NonBlank(lines)) != [] <==>
              exists k :: 0 <= k < |lines| && lines[k] != [] && IsAuthorLine(lines[k])
    ensures forall k :: FirstAuthor(lines, k) ==>
              AuthorLines(NonBlank(lines)) != [] && AuthorLines(NonBlank(lines))[0] == lines[k]
  {
    AuthorsEmpty(lines);
    forall k | FirstAuthor(lines, k)
      ensures AuthorLines(NonBlank(lines)) != [] && AuthorLines(NonBlank(lines))[0] == lines[k]
    {
      AuthorsFirstAt(lines, k);
    }
  }

  // ---------------------------------------------------------------------
  // split_by_section: the heading pattern (?:\n|^)([A-Z][A-Za-z0-9 ]{1,50}[:.?!]?)(?:\n)+
  // ---------------------------------------------------------------------

  /** [A-Z] */
  predicate IsUpper(c: char) {
    'A' <= c <= 'Z'
  }

  /** [A-Za-z0-9 ] */
  predicate IsHeadingChar(c: char) {
    ('A' <= c <= 'Z') || ('a' <= c <= 'z') || ('0' <= c <= '9') || c == ' '
  }

  /** [:.?!] */
  predicate IsHeadingPunct(c: char) {
    c == ':' || c == '.' || c == '?' || c == '!'
  }

  /** The length of the maximal run of [A-Za-z0-9 ] characters from index i. */
  function HeadingCharRun(t: string, i: nat): (n: nat)
    requires i <= |t|
    ensures i + n <= |t|
    decreases |t| - i
  {
    if i < |t| && IsHeadingChar(t[i]) then 1 + HeadingCharRun(t, i + 1) else 0
  }

  /** The run is made of [A-Za-z0-9 ] characters and cannot be extended. */
  lemma {:induction false} HeadingCharRunMaximal(t: string, i: nat)
    requires i <= |t|
    ensures var n := HeadingCharRun(t, i);
      && (forall j :: i <= j < i + n ==> IsHeadingChar(t[j]))
      && (i + n == |t| || !IsHeadingChar(t[i + n]))
    decreases |t| - i
  {
    if i < |t| && IsHeadingChar(t[i]) {
      HeadingCharRunMaximal(t, i + 1);
    }
  }

  /** The length of the maximal run of newlines from index i. */
  function NewlineRun(t: string, i: nat): (n: nat)
    requires i <= |t|
    ensures i + n <= |t|
    decreases |t| - i
  {
    if i < |t| && t[i] == '\n' then 1 + NewlineRun(t, i + 1) else 0
  }

  /** The run is made of newlines and cannot be extended. */
  lemma {:induction false} NewlineRunMaximal(t: string, i: nat)
    requires i <= |t|
    ensures var n := NewlineRun(t, i);
      && (forall j :: i <= j < i + n ==> t[j] == '\n')
      && (i + n == |t| || t[i + n] != '\n')
    decreases |t| - i
  {
    if i < |t| && t[i] == '\n' {
      NewlineRunMaximal(t, i + 1);
    }
  }

  /**
   * One match of the heading pattern: it spans [start, end), its group 1 (the
   * heading) spans [headStart, headEnd), and the newlines after it run from
   * headEnd to end.
   */
  datatype HeadingMatch = HeadingMatch(start: nat, headStart: nat, headEnd: nat, end: nat)

  /** Where the [A-Za-z0-9 ] part of a heading spanning [hs, he) ends: before a final [:.?!], if any. */
  function HeadBodyEnd(t: string, hs: nat, he: nat): nat
    requires hs < he <= |t|
  {
    if IsHeadingPunct(t[he - 1]) then he - 1 else he
  }

  /**
   * t[hs..he] is what group 1 matches: an upper-case letter, then 1 to 50
   * of [A-Za-z0-9 ], then at most one of [:.?!].
   */
  predicate IsHeadingAt(t: string, hs: nat, he: nat)
    requires hs <= he <= |t|
  {
    && hs + 2 <= he
    && IsUpper(t[hs])
    && hs + 2 <= HeadBodyEnd(t, hs, he) <= hs + 51
    && forall j :: hs < j < HeadBodyEnd(t, hs, he) ==> IsHeadingChar(t[j])
  }

  /** A whole string that group 1 matches. */
  predicate IsHeadingText(h: string) {
    IsHeadingAt(h, 0, |h|)
  }

  /** The window form and the string form of a heading agree. */
  lemma HeadingAtText(t: string, hs: nat, he: nat)
    requires hs <= he <= |t|
    ensures IsHeadingAt(t, hs, he) <==> IsHeadingText(t[hs..he])
  {
    var h := t[hs..he];
    assert forall j :: 0 <= j < |h| ==> h[j] == t[hs + j];
    if hs < he {
      assert HeadBodyEnd(h, 0, |h|) == HeadBodyEnd(t, hs, he) - hs;
    }
    if IsHeadingText(h) {
      forall j | hs < j < HeadBodyEnd(t, hs, he) ensures IsHeadingChar(t[j]) {
        assert t[j] == h[j - hs];
      }
    }
  }

  /**
   * Reference definition: m is some way for the whole pattern to match t,
   * with the newline alternative or with ^ (only at index 0, there being no
   * MULTILINE flag), a heading, and at least one newline after it.
   */
  ghost predicate IsPatternInstance(t: string, m: HeadingMatch) {
    && m.start <= m.headStart < m.headEnd < m.end <= |t|
    && ((t[m.start] == '\n' && m.headStart == m.start + 1) || (m.start == 0 && m.headStart == 0))
    && IsHeadingAt(t, m.headStart, m.headEnd)
    && forall j :: m.headEnd <= j < m.end ==> t[j] == '\n'
  }

  /** A slice of a slice is a slice of the original. */
  lemma SliceOfSlice(t: string, a: nat, b: nat, c: nat, d: nat)
    requires a <= b <= |t| && c <= d <= b - a
    ensures t[a..b][c..d] == t[a + c..a + d]
  {
    var u := t[a..b][c..d];
    forall i | 0 <= i < |u| ensures u[i] == t[a + c + i] {
      assert u[i] == t[a..b][c + i];
    }
  }

  /** The heading part of the pattern, tried with group 1 starting at h. */
  function HeadingFrom(t: string, start: nat, h: nat): (r: Option<HeadingMatch>)
    requires start <= h <= |t|
    ensures r.Some? ==> r.value.start == start && r.value.headStart == h
    ensures r.Some? ==> h < r.value.headEnd < r.value.end <= |t|
  {
    if h < |t| && IsUpper(t[h]) then
      var m := HeadingCharRun(t, h + 1);
      var q := h + 1 + m;
      var e := if q < |t| && IsHeadingPunct(t[q]) then q + 1 else q;
      if 1 <= m <= 50 && e < |t| && t[e] == '\n' then
        Some(HeadingMatch(start, h, e, e + NewlineRun(t, e)))
      else None
    else None
  }

  /** What HeadingFrom finds is a heading followed by the longest run of newlines there. */
  lemma HeadingFromSound(t: string, start: nat, h: nat)
    requires start <= h <= |t|
    ensures var r := HeadingFrom(t, start, h);
      r.Some? ==>
        && IsHeadingAt(t, h, r.value.headEnd)
        && (forall j :: r.value.headEnd <= j < r.value.end ==> t[j] == '\n')
        && (r.value.end == |t| || t[r.value.end] != '\n')
  {
    if HeadingFrom(t, start, h).Some? {
      HeadingCharRunMaximal(t, h + 1);
      NewlineRunMaximal(t, HeadingFrom(t, start, h).value.headEnd);
      var q := h + 1 + HeadingCharRun(t, h + 1);
      var e := HeadingFrom(t, start, h).value.headEnd;
      assert HeadBodyEnd(t, h, e) == q by {
        if e == q {
          assert IsHeadingChar(t[q - 1]);
        }
      }
    }
  }

  /**
   * The leftmost-alternative match of the pattern starting exactly at p: the
   * newline alternative, or ^ at index 0.
   */
  function MatchAt(t: string, p: nat): (r: Option<HeadingMatch>)
    requires p <= |t|
    ensures r.Some? ==> r.value.start == p && Spans(t, r.value)
  {
    if p < |t| && t[p] == '\n' then HeadingFrom(t, p, p + 1)
    else if p == 0 then HeadingFrom(t, 0, 0)
    else None
  }

  /** A match found is an instance of the pattern whose newline run is maximal. */
  lemma MatchAtSound(t: string, p: nat)
    requires p <= |t|
    ensures var r := MatchAt(t, p);
      r.Some? ==> IsPatternInstance(t, r.value) && (r.value.end == |t| || t[r.value.end] != '\n')
  {
    if p < |t| && t[p] == '\n' {
      HeadingFromSound(t, p, p + 1);
    } else if p == 0 {
      HeadingFromSound(t, 0, 0);
    }
  }

  lemma {:induction false} HeadingCharRunExact(t: string, i: nat, n: nat)
    requires i + n <= |t|
    requires forall j :: i <= j < i + n ==> IsHeadingChar(t[j])
    requires i + n == |t| || !IsHeadingChar(t[i + n])
    ensures HeadingCharRun(t, i) == n
    decreases n
  {
    if n > 0 {
      HeadingCharRunExact(t, i + 1, n - 1);
    }
  }

  lemma {:induction false} NewlineRunAtLeast(t: string, i: nat, n: nat)
    requires i + n <= |t|
    requires forall j :: i <= j < i + n ==> t[j] == '\n'
    ensures NewlineRun(t, i) >= n
    decreases n
  {
    if n > 0 {
      NewlineRunAtLeast(t, i + 1, n - 1);
    }
  }

  /** A heading followed by a newline is read back by HeadingFrom's scan. */
  lemma HeadingTextScan(t: string, hs: nat, he: nat)
    requires hs < he < |t| && t[he] == '\n'
    requires IsHeadingAt(t, hs, he)
    ensures IsUpper(t[hs])
    ensures var q := hs + 1 + HeadingCharRun(t, hs + 1);
      && 1 <= HeadingCharRun(t, hs + 1) <= 50
      && he == (if q < |t| && IsHeadingPunct(t[q]) then q + 1 else q)
  {
    var b := HeadBodyEnd(t, hs, he);
    assert !IsHeadingChar(t[b]);
    HeadingCharRunExact(t, hs + 1, b - hs - 1);
  }

  /** A heading at h followed by newlines is what HeadingFrom finds at h, with the longest newline run. */
  lemma HeadingFromComplete(t: string, start: nat, h: nat, he: nat, end: nat)
    requires start <= h < he < end <= |t|
    requires IsHeadingAt(t, h, he)
    requires forall j :: he <= j < end ==> t[j] == '\n'
    ensures HeadingFrom(t, start, h) == Some(HeadingMatch(start, h, he, he + NewlineRun(t, he)))
    ensures he + NewlineRun(t, he) >= end
  {
    HeadingTextScan(t, h, he);
    NewlineRunAtLeast(t, he, end - he);
  }

  /**
   * Completeness: wherever the pattern can match, MatchAt finds the match with
   * the same heading and the longest newline run.
   */
  lemma MatchAtComplete(t: string, m: HeadingMatch)
    requires IsPatternInstance(t, m)
    ensures MatchAt(t, m.start).Some?
    ensures MatchAt(t, m.start).value.headStart == m.headStart
    ensures MatchAt(t, m.start).value.headEnd == m.headEnd
    ensures MatchAt(t, m.start).value.end >= m.end
  {
    HeadingFromComplete(t, m.start, m.headStart, m.headEnd, m.end);
    if t[m.start] == '\n' {
      assert MatchAt(t, m.start) == HeadingFrom(t, m.start, m.start + 1);
    } else {
      assert MatchAt(t, m.start) == HeadingFrom(t, 0, 0);
    }
  }

  /** Matches reported by a scan from pos: inside the text from pos on, in order, without overlap. */
  predicate ScanResult(t: string, pos: nat, ms: seq<HeadingMatch>) {
    && (forall i :: 0 <= i < |ms| ==> pos <= ms[i].start && Spans(t, ms[i]))
    && (forall i, j :: 0 <= i < j < |ms| ==> ms[i].end <= ms[j].start)
  }

  /** The positions of a match are in order and inside the text. */
  predicate Spans(t: string, m: HeadingMatch) {
    m.start <= m.headStart < m.headEnd < m.end <= |t|
  }

  /**
   * re.finditer from index pos: take the match at the first index where one
   * exists, and resume the search at the end of that match.
   */
  function FindAll(t: string, pos: nat): (ms: seq<HeadingMatch>)
    requires pos <= |t|
    ensures forall i :: 0 <= i < |ms| ==> pos <= ms[i].start && Spans(t, ms[i])
    decreases |t| - pos
  {
    match MatchAt(t, pos)
    case Some(m) => [m] + FindAll(t, m.end)
    case None => if pos < |t| then FindAll(t, pos + 1) else []
  }

  /** The scan from pos reports matches from pos on, in order and without overlap. */
  lemma {:induction false} FindAllScan(t: string, pos: nat)
    requires pos <= |t|
    ensures ScanResult(t, pos, FindAll(t, pos))
    decreases |t| - pos
  {
    match MatchAt(t, pos)
    case Some(m) =>
      FindAllScan(t, m.end);
      assert FindAll(t, pos) == [m] + FindAll(t, m.end);
    case None =>
      if pos < |t| {
        FindAllScan(t, pos + 1);
      }
  }

  /** Every reported match is the match MatchAt finds at its start. */
  lemma {:induction false} FindAllSound(t: string, pos: nat, i: nat)
    requires pos <= |t| && i < |FindAll(t, pos)|
    ensures MatchAt(t, FindAll(t, pos)[i].start) == Some(FindAll(t, pos)[i])
    decreases |t| - pos
  {
    var ms := FindAll(t, pos);
    match MatchAt(t, pos)
    case Some(m) =>
      if i > 0 {
        FindAllSound(t, m.end, i - 1);
        assert ms[i] == FindAll(t, m.end)[i - 1];
      }
    case None =>
      FindAllSound(t, pos + 1, i);
  }

  /** Index q lies inside one of the reported matches. */
  ghost predicate Covered(ms: seq<HeadingMatch>, q: int) {
    exists i :: 0 <= i < |ms| && ms[i].start <= q < ms[i].end
  }

  /**
   * The scan misses nothing: every index from pos on at which the pattern can
   * match lies inside a reported match. With ScanResult this pins the result
   * down to the leftmost, non-overlapping matches.
   */
  lemma {:induction false} FindAllComplete(t: string, pos: nat, q: nat)
    requires pos <= q <= |t|
    requires MatchAt(t, q).Some?
    ensures Covered(FindAll(t, pos), q)
    decreases |t| - pos
  {
    var ms := FindAll(t, pos);
    var here := MatchAt(t, pos);
    if here.Some? {
      var m := here.value;
      var rest := FindAll(t, m.end);
      assert ms == [m] + rest;
      if q < m.end {
        assert ms[0].start <= q < ms[0].end;
      } else {
        FindAllComplete(t, m.end, q);
        var i :| 0 <= i < |rest| && rest[i].start <= q < rest[i].end;
        assert ms[i + 1] == rest[i];
      }
    } else if q > pos {
      assert ms == FindAll(t, pos + 1);
      FindAllComplete(t, pos + 1, q);
    }
  }

  /** A match's trailing newline run is maximal, so no match starts where the previous one ends. */
  lemma NoMatchAtEnd(t: string, m: HeadingMatch)
    requires m.start <= |t|
    requires MatchAt(t, m.start) == Some(m)
    ensures MatchAt(t, m.end) == None
  {
    MatchAtSound(t, m.start);
  }

  /** One section of the result: {"title": ..., "content": ...}. */
  datatype Section = Section(title: string, content: string)

  /** Python's t[a:b] for non-negative bounds: out-of-range bounds are clamped, and a reversed range is empty. */
  function Slice(t: string, a: nat, b: nat): (r: string)
    ensures a <= b <= |t| ==> r == t[a..b]
  {
    var hi := if b < |t| then b else |t|;
    var lo := if a < hi then a else hi;
    t[lo..hi]
  }

  /**
   * The section that match i of ms gives: its heading stripped, and the
   * text from the end of the match up to the start of the next one (or to
   * the end of the text), stripped.
   */
  function SectionOf(t: string, ms: seq<HeadingMatch>, i: nat): Section
    requires i < |ms|
  {
    var m := ms[i];
    var stop := if i + 1 < |ms| then ms[i + 1].start else |t|;
    Section(Strip(Slice(t, m.headStart, m.headEnd)), Strip(Slice(t, m.end, stop)))
  }

  /** A section title is a stripped heading: it starts with an upper-case letter and is at most 52 characters long. */
  predicate IsSectionTitle(title: string) {
    |title| >= 1 && IsUpper(title[0]) && |title| <= 52
  }

  lemma HeadingTitle(h: string)
    requires IsHeadingText(h)
    ensures IsSectionTitle(Strip(h))
  {
    assert !IsSpace(h[0]);
    assert SkipSpaces(h, 0) == 0;
    StripEmpty(h);
  }

  /** Every section a match gives is titled by a stripped heading. */
  lemma SectionTitleAt(t: string, i: nat)
    requires i < |FindAll(t, 0)|
    ensures IsSectionTitle(SectionOf(t, FindAll(t, 0), i).title)
  {
    var m := FindAll(t, 0)[i];
    FindAllSound(t, 0, i);
    MatchAtSound(t, m.start);
    HeadingAtText(t, m.headStart, m.headEnd);
    assert Slice(t, m.headStart, m.headEnd) == t[m.headStart..m.headEnd];
    HeadingTitle(t[m.headStart..m.headEnd]);
  }

  /** The sections of the matches ms, in match order. */
  function SectionsOf(t: string, ms: seq<HeadingMatch>): (r: seq<Section>)
    ensures |r| == |ms|
  {
    seq(|ms|, k requires 0 <= k < |ms| => SectionOf(t, ms, k))
  }

  /** What split_by_section returns for `text`. */
  function Sections(text: string): seq<Section> {
    var ms := FindAll(text, 0);
    if ms == [] then [Section("Document", text)] else SectionsOf(text, ms)
  }

  /**
   * split_by_section: one section per heading match, titled by the stripped
   * heading and holding the stripped text up to the next match; with no
   * match, the whole text as one section titled "Document".
   */
  method SplitBySection(text: string) returns (sections: seq<Section>)
    ensures sections == Sections(text)
  {
    var matches := FindAll(text, 0);
    ghost var all := SectionsOf(text, matches);
    sections := [];
    for i := 0 to |matches|
      invariant sections == all[..i]
    {
      var section := SectionOf(text, matches, i);
      Sequences.TakeSnoc(all, i);
      sections := sections + [section];
    }
    assert all[..|matches|] == all;
    if sections == [] {
      sections := [Section("Document", text)];
    }
  }

  /** With no heading match the whole text, unstripped, is the one section "Document". */
  lemma SectionsWithoutHeading(text: string)
    requires FindAll(text, 0) == []
    ensures Sections(text) == [Section("Document", text)]
  {
  }

  /**
   * With matches, section i comes from match i: its title is the stripped
   * heading and its content the stripped text from the end of match i to
   * the start of match i + 1, or to the end of the text.
   */
  lemma SectionsFromMatches(text: string, i: nat)
    requires i < |FindAll(text, 0)|
    ensures var ms := FindAll(text, 0);
      && |Sections(text)| == |ms|
      && Sections(text)[i] == SectionOf(text, ms, i)
  {
  }

  /** Every section title starts with an upper-case letter and is at most 52 characters long. */
  lemma SectionTitles(text: string, i: nat)
    requires i < |Sections(text)|
    ensures IsSectionTitle(Sections(text)[i].title)
  {
    var ms := FindAll(text, 0);
    if ms != [] {
      SectionsFromMatches(text, i);
      SectionTitleAt(text, i);
    } else {
      assert Sections(text)[i].title == "Document";
    }
  }

  /** A heading line holds at most 51 [A-Za-z0-9 ] characters before its punctuation or newline. */
  lemma MatchedHeadingRun(t: string, p: nat)
    requires p <= |t| && MatchAt(t, p).Some?
    ensures MatchAt(t, p).value.headStart < |t|
    ensures HeadingCharRun(t, MatchAt(t, p).value.headStart) <= 51
  {
    var h := MatchAt(t, p).value.headStart;
    assert IsUpper(t[h]) && IsHeadingChar(t[h]);
    assert HeadingCharRun(t, h) == 1 + HeadingCharRun(t, h + 1);
  }

  /** Past index 0, no match is found when no newline is followed by an upper-case letter. */
  lemma {:induction false} NoHeadingFrom(t: string, p: nat)
    requires 0 < p <= |t|
    requires forall q :: p <= q < |t| - 1 && t[q] == '\n' ==> !IsUpper(t[q + 1])
    ensures FindAll(t, p) == []
    decreases |t| - p
  {
    assert MatchAt(t, p) == None;
    if p < |t| {
      NoHeadingFrom(t, p + 1);
    }
  }

  /**
   * A heading on the line right after another heading is not found: the first
   * match consumes the newline the second would need, so "Methods" becomes
   * content of the "Intro" section.
   */
  lemma AdjacentHeadingExample()
    ensures FindAll("Intro\nMethods\nbody", 0) == [HeadingMatch(0, 0, 5, 6)]
  {
    var t := "Intro\nMethods\nbody";
    assert t[5] == '\n' && t[6] == 'M' && t[13] == '\n' && t[14] == 'b';
    assert HeadingCharRun(t, 5) == 0;
    assert HeadingCharRun(t, 4) == 1;
    assert HeadingCharRun(t, 3) == 2;
    assert HeadingCharRun(t, 2) == 3;
    assert HeadingCharRun(t, 1) == 4;
    assert NewlineRun(t, 6) == 0;
    assert MatchAt(t, 0) == Some(HeadingMatch(0, 0, 5, 6));
    forall q | 6 <= q < |t| - 1 && t[q] == '\n' ensures !IsUpper(t[q + 1]) {
      assert q == 13;
    }
    NoHeadingFrom(t, 6);
  }
}
