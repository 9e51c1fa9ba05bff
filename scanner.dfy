/** The sanitisation scanner: it decides which files of a tree to inspect,
    reports every (line, pattern) pair where a sensitive word occurs as a whole
    word, and turns the result into a process exit status. */
module ReferenceScanner {
  import opened Sequences

  // ---------------------------------------------------------------------------
  // Configuration
  // ---------------------------------------------------------------------------

  /** The words searched for, in the order of the pattern list. */
  const SensitiveWords: seq<string> := ["Philips", "philips", "PHILIPS", "CSL", "csl"]

  /** The pattern texts as a match record quotes them: each word between two
      `\b` word-boundary anchors. */
  const SensitivePatterns: seq<string> :=
    ["\\bPhilips\\b", "\\bphilips\\b", "\\bPHILIPS\\b", "\\bCSL\\b", "\\bcsl\\b"]

  const IncludeExtensions: seq<string> := [".py", ".md", ".txt", ".yaml", ".yml", ".json", ".csv"]

  const ExcludeDirs: seq<string> := [".git", "__pycache__", "mlruns", ".cache", "venv", "env"]

  const ExcludeFiles: seq<string> := ["check_philips_references.py", "SPOTLIGHT_PROJECT_DOCUMENTATION.md"]

  /** Every included extension is a dot followed by at least one character, with no `/`. */
  lemma ExtensionsAreSuffixes()
    ensures forall k :: 0 <= k < |IncludeExtensions| ==>
      2 <= |IncludeExtensions[k]| && IncludeExtensions[k][0] == '.' && '/' !in IncludeExtensions[k]
  {
  }

  /** Every excluded directory is a non-empty single component. */
  lemma ExcludedDirsAreComponents()
    ensures forall k :: 0 <= k < |ExcludeDirs| ==> ExcludeDirs[k] != "" && '/' !in ExcludeDirs[k]
  {
  }

  /** Each deny-listed file has an included extension, so only the deny list keeps it out. */
  lemma DenyListedNamesHaveIncludedExtensions()
    ensures EndsWith(ExcludeFiles[0], IncludeExtensions[0])
    ensures EndsWith(ExcludeFiles[1], IncludeExtensions[1])
  {
  }


  /** A character that `\w` matches, over ASCII. */
  predicate IsWordChar(c: char) {
    'a' <= c <= 'z' || 'A' <= c <= 'Z' || '0' <= c <= '9' || c == '_'
  }

  /** Each pattern is its word anchored on both sides, and each word begins and
      ends with a word character; so `\b` next to the word only constrains the
      character outside it, which is how `OccursAt` reads the pattern. */
  lemma PatternsAreAnchoredWords()
    ensures |SensitivePatterns| == |SensitiveWords| == 5
    ensures forall k :: 0 <= k < 5 ==>
      && SensitivePatterns[k] == "\\b" + SensitiveWords[k] + "\\b"
      && |SensitiveWords[k]| > 0
      && IsWordChar(SensitiveWords[k][0])
      && IsWordChar(SensitiveWords[k][|SensitiveWords[k]| - 1])
    ensures Distinct(SensitivePatterns)
  {
  }

  // ---------------------------------------------------------------------------
  // Which files are scanned
  // ---------------------------------------------------------------------------

  /** A path as its sequence of components; the last one is the file name. */
  datatype FilePath = FilePath(parts: seq<string>)

  function Name(p: FilePath): string {
    if p.parts == [] then "" else p.parts[|p.parts| - 1]
  }

  /** The components joined by `/`. */
  function Join(parts: seq<string>): string {
    if parts == [] then ""
    else if |parts| == 1 then parts[0]
    else Join(parts[..|parts| - 1]) + "/" + parts[|parts| - 1]
  }

  /** The text of a path, which the extension test and the match records use. */
  function Text(p: FilePath): (r: string)
    ensures p.parts != [] ==> EndsWith(r, Name(p))
    ensures |p.parts| == 1 ==> r == Name(p)
  {
    JoinEndsWithLast(p.parts);
    Join(p.parts)
  }

  /** The joined text ends with the last component, whatever characters it holds. */
  lemma JoinEndsWithLast(parts: seq<string>)
    ensures parts != [] ==> EndsWith(Join(parts), parts[|parts| - 1])
  {
    if |parts| > 1 {
      var name := parts[|parts| - 1];
      var text := Join(parts);
      assert text == Join(parts[..|parts| - 1]) + "/" + name;
      assert text[|text| - |name|..] == name;
    }
  }

  predicate EndsWith(s: string, suffix: string) {
    |suffix| <= |s| && s[|s| - |suffix|..] == suffix
  }

  /** Whether the text ends with any of the extensions, tried in order. */
  function AnyEndsWith(text: string, exts: seq<string>): (r: bool)
    ensures r <==> exists k :: 0 <= k < |exts| && EndsWith(text, exts[k])
  {
    if exts == [] then false
    else EndsWith(text, exts[0]) || AnyEndsWith(text, exts[1..])
  }

  /** Whether any of the excluded names is one of the components, tried in order. */
  function AnyExcludedIn(parts: seq<string>, excluded: seq<string>): (r: bool)
    ensures r <==> exists c :: c in parts && c in excluded
  {
    if excluded == [] then false
    else excluded[0] in parts || AnyExcludedIn(parts, excluded[1..])
  }

  /** The file filter: right extension, no excluded directory among the
      components (compared for equality, not as substrings), and a name that is
      not on the deny list. */
  function ShouldCheckFile(p: FilePath): (r: bool)
    ensures r <==>
      && (exists e :: e in IncludeExtensions && EndsWith(Text(p), e))
      && (forall c :: c in p.parts ==> c !in ExcludeDirs)
      && Name(p) !in ExcludeFiles
  {
    if !AnyEndsWith(Text(p), IncludeExtensions) then false
    else if AnyExcludedIn(p.parts, ExcludeDirs) then false
    else if Name(p) in ExcludeFiles then false
    else true
  }

  /** Joining never hides the name: a suffix without `/` is a suffix of the
      joined text exactly when it is a suffix of the last component. */
  lemma {:induction false} JoinEndsWith(parts: seq<string>, ext: string)
    requires |parts| > 0
    requires '/' !in ext && '/' !in parts[|parts| - 1]
    ensures EndsWith(Join(parts), ext) <==> EndsWith(parts[|parts| - 1], ext)
  {
    if |parts| > 1 {
      var name := parts[|parts| - 1];
      var head := Join(parts[..|parts| - 1]) + "/";
      var text := Join(parts);
      assert text == head + name;
      if |ext| <= |name| {
        assert text[|text| - |ext|..] == name[|name| - |ext|..];
      } else if |ext| <= |text| {
        var at := |ext| - |name| - 1;
        assert text[|text| - |ext|..][at] == '/';
        assert !EndsWith(text, ext);
      }
    }
  }

  /** The extension rule only looks at the file name. */
  lemma ExtensionDecidedByName(p: FilePath)
    requires |p.parts| > 0 && '/' !in Name(p)
    ensures ShouldCheckFile(p) <==>
      && (exists e :: e in IncludeExtensions && EndsWith(Name(p), e))
      && (forall c :: c in p.parts ==> c !in ExcludeDirs)
      && Name(p) !in ExcludeFiles
  {
    forall e | e in IncludeExtensions
      ensures EndsWith(Text(p), e) <==> EndsWith(Name(p), e)
    {
      JoinEndsWith(p.parts, e);
    }
  }

  /** A suffix of a suffix is a suffix. */
  lemma EndsWithSuffix(s: string, t: string, u: string)
    requires EndsWith(s, t) && EndsWith(t, u)
    ensures EndsWith(s, u)
  {
    assert s[|s| - |u|..] == t[|t| - |u|..];
  }

  /** Directory exclusion is component equality: directories whose names merely
      contain an excluded name are still scanned. */
  lemma ContainingExcludedNameIsScanned()
    ensures ShouldCheckFile(FilePath(["myenv", "app.py"]))
  {
    var p := FilePath(["myenv", "app.py"]);
    assert EndsWith(Name(p), IncludeExtensions[0]);
    EndsWithSuffix(Text(p), Name(p), IncludeExtensions[0]);
    assert !AnyExcludedIn(p.parts, ExcludeDirs);
  }

  lemma ExtendingExcludedNameIsScanned()
    ensures ShouldCheckFile(FilePath(["venv2", "notes.md"]))
  {
    var p := FilePath(["venv2", "notes.md"]);
    assert EndsWith(Name(p), IncludeExtensions[1]);
    EndsWithSuffix(Text(p), Name(p), IncludeExtensions[1]);
    assert !AnyExcludedIn(p.parts, ExcludeDirs);
  }

  /** A component equal to an excluded directory name keeps the file out. */
  lemma ExactExcludedComponentIsSkipped()
    ensures !ShouldCheckFile(FilePath(["env", "app.py"]))
  {
  }

  lemma NestedExcludedComponentIsSkipped()
    ensures !ShouldCheckFile(FilePath(["src", "__pycache__", "app.py"]))
  {
  }

  /** A deny-listed name is skipped wherever it lives. */
  lemma DenyListedNameIsSkipped()
    ensures !ShouldCheckFile(FilePath(["docs", "SPOTLIGHT_PROJECT_DOCUMENTATION.md"]))
  {
  }

  /** The extension must end the text: `.pyc` is not `.py`. */
  lemma WrongExtensionIsSkipped()
    ensures !ShouldCheckFile(FilePath(["src", "app.pyc"]))
  {
    var text := Text(FilePath(["src", "app.pyc"]));
    assert text == "src/app.pyc";
    forall e | e in IncludeExtensions ensures !EndsWith(text, e) {
      assert text[|text| - 1] == 'c' != e[|e| - 1];
    }
  }

  /** Every component of the path counts, including those above the scanned
      root: under an ancestor directory named like an excluded one, no file is
      ever scanned. */
  lemma AncestorComponentExcludes(root: seq<string>, rel: seq<string>)
    requires exists c :: c in root && c in ExcludeDirs
    ensures !ShouldCheckFile(FilePath(root + rel))
  {
    var c :| c in root && c in ExcludeDirs;
    assert c in (root + rel);
  }

  // ---------------------------------------------------------------------------
  // Matching one line
  // ---------------------------------------------------------------------------

  /** `word` occurs at position `i` of `line` with a non-word character or the
      line's edge on each side. */
  predicate OccursAt(line: string, word: string, i: nat) {
    && i + |word| <= |line|
    && line[i..i + |word|] == word
    && (i == 0 || !IsWordChar(line[i - 1]))
    && (i + |word| == |line| || !IsWordChar(line[i + |word|]))
  }

  /** Search for a whole-word occurrence, trying positions from `i` on. */
  function SearchFrom(line: string, word: string, i: nat): (r: bool)
    requires i <= |line|
    ensures r ==> i + |word| <= |line|
    decreases |line| - i
  {
    if OccursAt(line, word, i) then true
    else if i == |line| then false
    else SearchFrom(line, word, i + 1)
  }

  /** `re.search(r'\bword\b', line)` for a word that begins and ends with a word character. */
  function Search(line: string, word: string): (r: bool)
    ensures r ==> |word| <= |line|
  {
    SearchFrom(line, word, 0)
  }

  /** The search from `i` succeeds exactly when there is an occurrence at or after `i`. */
  lemma {:induction false} SearchFromFinds(line: string, word: string, i: nat)
    requires i <= |line|
    ensures SearchFrom(line, word, i) <==> exists j :: i <= j <= |line| && OccursAt(line, word, j)
    decreases |line| - i
  {
    if !OccursAt(line, word, i) && i < |line| {
      SearchFromFinds(line, word, i + 1);
    }
  }

  /** A line matches a pattern exactly when its word occurs there between two boundaries. */
  lemma SearchFinds(line: string, word: string)
    ensures Search(line, word) <==> exists j :: 0 <= j <= |line| && OccursAt(line, word, j)
  {
    SearchFromFinds(line, word, 0);
  }

  /** A line on which none of the first `k` patterns matches yields no record. */
  lemma {:induction false} LineMatchesNone(file: string, n: nat, line: string, k: nat)
    requires k <= |SensitiveWords|
    requires forall j :: 0 <= j < k ==> !Search(line, SensitiveWords[j])
    ensures LineMatches(file, n, line, k) == []
  {
    if k > 0 {
      LineMatchesNone(file, n, line, k - 1);
    }
  }

  /** A line on which exactly pattern `q` matches yields exactly that pattern's record. */
  lemma {:induction false} LineMatchesOnly(file: string, n: nat, line: string, k: nat, q: nat)
    requires q < k <= |SensitiveWords|
    requires Search(line, SensitiveWords[q])
    requires forall j :: 0 <= j < k && j != q ==> !Search(line, SensitiveWords[j])
    ensures LineMatches(file, n, line, k) == [Match(file, n, Strip(line), SensitivePatterns[q])]
  {
    if k - 1 == q {
      LineMatchesNone(file, n, line, q);
    } else {
      LineMatchesOnly(file, n, line, k - 1, q);
    }
  }

  /** `philipsy` matches none of the five patterns: `philips` is followed by a word character. */
  lemma SuffixedWordMisses()
    ensures forall j :: 0 <= j < 5 ==> !Search("philipsy", SensitiveWords[j])
  {
  }

  /** `miscslassified` matches none of the five patterns: `csl` sits inside the word. */
  lemma InfixWordMisses()
    ensures forall j :: 0 <= j < 5 ==> !Search("miscslassified", SensitiveWords[j])
  {
    var line := "miscslassified";
    forall j | 0 <= j < 5 ensures !Search(line, SensitiveWords[j]) {
      SearchFinds(line, SensitiveWords[j]);
      forall i | 0 <= i <= |line| ensures !OccursAt(line, SensitiveWords[j], i) {
        if i + |SensitiveWords[j]| <= |line| && i > 0 {
          assert IsWordChar(line[i - 1]);
        }
      }
    }
  }



  /** A sensitive word embedded in a longer word, at its start or in its middle,
      yields no record at all. */
  lemma EmbeddedWordExamples(file: string, n: nat)
    ensures LineMatches(file, n, "philipsy", 5) == []
    ensures LineMatches(file, n, "miscslassified", 5) == []
  {
    SuffixedWordMisses();
    InfixWordMisses();
    LineMatchesNone(file, n, "philipsy", 5);
    LineMatchesNone(file, n, "miscslassified", 5);
  }

  /** `(Philips)` matches the first pattern only, and stripping leaves it unchanged. */
  lemma PunctuatedWordHits()
    ensures Search("(Philips)", SensitiveWords[0])
    ensures Strip("(Philips)") == "(Philips)"
  {
    var line := "(Philips)";
    assert line[1..8] == "Philips";
    assert OccursAt(line, SensitiveWords[0], 1);
    SearchFinds(line, SensitiveWords[0]);
    assert LeadingSpace(line) == 0 && TrailingSpace(line) == 0;
    assert line[0..|line|] == line;
  }

  lemma PunctuatedWordMisses(j: nat)
    requires 0 < j < 5
    ensures !Search("(Philips)", SensitiveWords[j])
  {
    var line := "(Philips)";
    assert line[1..8] == "Philips";
    SearchFinds(line, SensitiveWords[j]);
  }

  /** A word between punctuation yields exactly its pattern's record, with the line as content. */
  lemma PunctuatedWordExample(file: string, n: nat)
    ensures LineMatches(file, n, "(Philips)", 5) == [Match(file, n, "(Philips)", "\\bPhilips\\b")]
  {
    PunctuatedWordHits();
    forall j | 0 <= j < 5 && j != 0 ensures !Search("(Philips)", SensitiveWords[j]) {
      PunctuatedWordMisses(j);
    }
    LineMatchesOnly(file, n, "(Philips)", 5, 0);
    assert SensitivePatterns[0] == "\\bPhilips\\b";
  }

  /** A word at the end of the line, before a full stop, yields exactly its pattern's record. */
  lemma TrailingWordExample(file: string, n: nat)
    ensures LineMatches(file, n, "csl.", 5) == [Match(file, n, "csl.", "\\bcsl\\b")]
  {
    var line := "csl.";
    assert line[0..3] == "csl";
    assert OccursAt(line, SensitiveWords[4], 0);
    SearchFinds(line, SensitiveWords[4]);
    forall j | 0 <= j < 4 ensures !Search(line, SensitiveWords[j]) {
      SearchFinds(line, SensitiveWords[j]);
    }
    assert LeadingSpace(line) == 0 && TrailingSpace(line) == 0;
    assert line[0..|line|] == line;
    LineMatchesOnly(file, n, line, 5, 4);
  }

  /** Matching is case-specific: `PhiLips` and `Csl` match none of the five patterns. */
  lemma CaseSpecificExamples()
    ensures forall k :: 0 <= k < 5 ==> !Search("PhiLips", SensitiveWords[k])
    ensures forall k :: 0 <= k < 5 ==> !Search("Csl", SensitiveWords[k])
  {
    assert "PhiLips"[0..7] == "PhiLips";
    assert "PhiLips"[3] != "Philips"[3];
    assert "PhiLips"[0] != "philips"[0];
    assert "PhiLips"[1] != "PHILIPS"[1];
    assert !SearchFrom("PhiLips", "CSL", 0);
    assert !SearchFrom("PhiLips", "csl", 0);
    assert "Csl"[0..3] == "Csl";
    assert "Csl"[1] != "CSL"[1];
    assert "Csl"[0] != "csl"[0];
  }

  // ---------------------------------------------------------------------------
  // Trimming the reported line
  // ---------------------------------------------------------------------------

  /** The characters `str.strip()` removes: those for which `str.isspace()` holds. */
  predicate IsSpace(c: char) {
    || c == ' '
    || '\t' <= c <= '\r'
    || '\U{1C}' <= c <= '\U{1F}'
    || c == '\U{85}' || c == '\U{A0}' || c == '\U{1680}'
    || '\U{2000}' <= c <= '\U{200A}'
    || c == '\U{2028}' || c == '\U{2029}' || c == '\U{202F}' || c == '\U{205F}' || c == '\U{3000}'
  }

  /** The length of the run of spaces at the start of `s`. */
  function LeadingSpace(s: string): (n: nat)
    ensures n <= |s|
    ensures forall k :: 0 <= k < n ==> IsSpace(s[k])
    ensures n < |s| ==> !IsSpace(s[n])
  {
    if s == [] || !IsSpace(s[0]) then 0 else 1 + LeadingSpace(s[1..])
  }

  /** The length of the run of spaces at the end of `s`. */
  function TrailingSpace(s: string): (n: nat)
    ensures n <= |s|
    ensures forall k :: |s| - n <= k < |s| ==> IsSpace(s[k])
    ensures n < |s| ==> !IsSpace(s[|s| - 1 - n])
  {
    if s == [] || !IsSpace(s[|s| - 1]) then 0 else 1 + TrailingSpace(s[..|s| - 1])
  }

  /** `r` is `s` with `i` spaces cut from the front and only spaces cut from the back. */
  predicate TrimmedAt(s: string, r: string, i: nat) {
    && i + |r| <= |s|
    && r == s[i..i + |r|]
    && (forall k :: 0 <= k < i ==> IsSpace(s[k]))
    && (forall k :: i + |r| <= k < |s| ==> IsSpace(s[k]))
  }

  /** `s.strip()`: the middle of `s` left once the surrounding spaces are cut off. */
  function Strip(s: string): (r: string)
    ensures |r| <= |s|
  {
    var lead := LeadingSpace(s);
    if lead == |s| then [] else s[lead..|s| - TrailingSpace(s)]
  }

  /** What stripping leaves: a slice of the line with only spaces cut off on
      either side, and no space left at either of its ends. */
  lemma StripTrims(s: string)
    ensures var r := Strip(s);
      && (r != [] ==> !IsSpace(r[0]) && !IsSpace(r[|r| - 1]))
      && exists i: nat :: TrimmedAt(s, r, i)
  {
    var lead := LeadingSpace(s);
    if lead == |s| {
      assert TrimmedAt(s, [], 0);
    } else {
      var trail := TrailingSpace(s);
      assert lead < |s| - trail;
      assert TrimmedAt(s, s[lead..|s| - trail], lead);
    }
  }

  /** Stripping twice changes nothing more. */
  lemma StripIdempotent(s: string)
    ensures Strip(Strip(s)) == Strip(s)
  {
    var r := Strip(s);
    StripTrims(s);
    if r != [] {
      assert LeadingSpace(r) == 0;
      assert TrailingSpace(r) == 0;
      assert r[0..|r|] == r;
    }
  }

  // ---------------------------------------------------------------------------
  // Scanning one file
  // ---------------------------------------------------------------------------

  /** One reported occurrence: file text, 1-based line number, stripped line and pattern. */
  datatype Match = Match(file: string, line: nat, content: string, pattern: string)

  /** The records for line number `n` produced by the first `k` patterns. */
  function LineMatches(file: string, n: nat, line: string, k: nat): seq<Match>
    requires k <= |SensitiveWords|
  {
    if k == 0 then []
    else
      LineMatches(file, n, line, k - 1)
      + (if Search(line, SensitiveWords[k - 1])
         then [Match(file, n, Strip(line), SensitivePatterns[k - 1])]
         else [])
  }

  /** The records for the first `n` lines of a file. */
  function FileMatches(file: string, lines: seq<string>, n: nat): seq<Match>
    requires n <= |lines|
  {
    if n == 0 then []
    else FileMatches(file, lines, n - 1) + LineMatches(file, n, lines[n - 1], |SensitiveWords|)
  }

  /** The position of a record's pattern in the pattern list (5 if it is none of them). */
  function PatternIndex(pattern: string): (k: nat)
    ensures k <= 5
  {
    IndexOf(SensitivePatterns, pattern)
  }

  /** `m` is a true report about `lines`: its line number is in range, its
      pattern is one of the five and matches that line, and its content is the
      stripped line. */
  predicate IsHit(m: Match, file: string, lines: seq<string>) {
    && m.file == file
    && 1 <= m.line <= |lines|
    && PatternIndex(m.pattern) < 5
    && Search(lines[m.line - 1], SensitiveWords[PatternIndex(m.pattern)])
    && m.content == Strip(lines[m.line - 1])
  }

  /** Record `a` comes strictly before `b`: by line number, then by pattern order. */
  predicate Before(a: Match, b: Match) {
    a.line < b.line || (a.line == b.line && PatternIndex(a.pattern) < PatternIndex(b.pattern))
  }

  /** The scan of one file: line by line, pattern by pattern, one record for each pattern that matches. */
  method ScanFile(path: FilePath, lines: seq<string>) returns (matches: seq<Match>)
    ensures matches == FileMatches(Text(path), lines, |lines|)
  {
    var file := Text(path);
    matches := [];
    var lineNum: nat := 1;
    while lineNum <= |lines|
      invariant 1 <= lineNum <= |lines| + 1
      invariant matches == FileMatches(file, lines, lineNum - 1)
    {
      var line := lines[lineNum - 1];
      var k := 0;
      while k < |SensitivePatterns|
        invariant 0 <= k <= |SensitivePatterns|
        invariant matches == FileMatches(file, lines, lineNum - 1) + LineMatches(file, lineNum, line, k)
      {
        if Search(line, SensitiveWords[k]) {
          matches := matches + [Match(file, lineNum, Strip(line), SensitivePatterns[k])];
        }
        k := k + 1;
      }
      lineNum := lineNum + 1;
    }
  }

  /** The index of the `q`-th pattern is `q`. */
  lemma PatternIndexOf(q: nat)
    requires q < 5
    ensures PatternIndex(SensitivePatterns[q]) == q
  {
    PatternsAreAnchoredWords();
    IndexOfDistinct(SensitivePatterns, q);
  }

  /** Every record of `ms` is a true hit on `lines`. */
  predicate AllHits(ms: seq<Match>, file: string, lines: seq<string>) {
    forall i :: 0 <= i < |ms| ==> IsHit(ms[i], file, lines)
  }

  /** The records are strictly increasing by (line number, pattern order). */
  predicate Sorted(ms: seq<Match>) {
    forall i, j :: 0 <= i < j < |ms| ==> Before(ms[i], ms[j])
  }

  /** Every record of `ms` is on line `n` and comes from one of the first `k` patterns. */
  predicate OnLineBelow(ms: seq<Match>, n: nat, k: nat) {
    forall i :: 0 <= i < |ms| ==> ms[i].line == n && PatternIndex(ms[i].pattern) < k
  }

  /** A line has at most one record per pattern, all numbered with that line. */
  lemma {:induction false} LineMatchesShape(file: string, line: string, n: nat, k: nat)
    requires k <= 5
    ensures |LineMatches(file, n, line, k)| <= k
    ensures OnLineBelow(LineMatches(file, n, line, k), n, k)
  {
    if k > 0 {
      LineMatchesShape(file, line, n, k - 1);
      PatternIndexOf(k - 1);
    }
  }

  /** Every record of a line is a true hit on that line. */
  lemma {:induction false} LineMatchesSound(file: string, lines: seq<string>, n: nat, k: nat)
    requires 1 <= n <= |lines| && k <= 5
    ensures AllHits(LineMatches(file, n, lines[n - 1], k), file, lines)
  {
    if k > 0 {
      LineMatchesSound(file, lines, n, k - 1);
      var last := if Search(lines[n - 1], SensitiveWords[k - 1])
        then [Match(file, n, Strip(lines[n - 1]), SensitivePatterns[k - 1])] else [];
      RecordIsHit(file, lines, n, k - 1);
      AllHitsAppend(LineMatches(file, n, lines[n - 1], k - 1), last, file, lines);
    }
  }

  /** The record a matching pattern produces on line `n` is a true report. */
  lemma RecordIsHit(file: string, lines: seq<string>, n: nat, q: nat)
    requires 1 <= n <= |lines| && q < 5
    ensures Search(lines[n - 1], SensitiveWords[q]) ==>
      IsHit(Match(file, n, Strip(lines[n - 1]), SensitivePatterns[q]), file, lines)
  {
    PatternIndexOf(q);
  }


  /** The records of a line follow the order of the pattern list. */
  lemma {:induction false} LineMatchesOrdered(file: string, lines: seq<string>, n: nat, k: nat)
    requires 1 <= n <= |lines| && k <= 5
    ensures Sorted(LineMatches(file, n, lines[n - 1], k))
  {
    if k > 0 {
      LineMatchesOrdered(file, lines, n, k - 1);
      LineMatchesShape(file, lines[n - 1], n, k - 1);
      PatternIndexOf(k - 1);
    }
  }

  /** Every pattern among the first `k` that matches the line has its record. */
  lemma {:induction false} LineMatchesComplete(file: string, lines: seq<string>, n: nat, k: nat, q: nat)
    requires 1 <= n <= |lines| && q < k <= 5
    requires Search(lines[n - 1], SensitiveWords[q])
    ensures Match(file, n, Strip(lines[n - 1]), SensitivePatterns[q]) in LineMatches(file, n, lines[n - 1], k)
  {
    if q < k - 1 {
      LineMatchesComplete(file, lines, n, k - 1, q);
    }
  }

  /** All records of two lists of hits are hits. */
  lemma AllHitsAppend(a: seq<Match>, b: seq<Match>, file: string, lines: seq<string>)
    requires AllHits(a, file, lines) && AllHits(b, file, lines)
    ensures AllHits(a + b, file, lines)
  {
    forall i | 0 <= i < |a + b| ensures IsHit((a + b)[i], file, lines) {
      if i < |a| {
        assert (a + b)[i] == a[i];
      } else {
        assert (a + b)[i] == b[i - |a|];
      }
    }
  }

  /** Two sorted lists, the first entirely on earlier lines, concatenate to a sorted list. */
  lemma SortedAppend(a: seq<Match>, b: seq<Match>, n: nat)
    requires Sorted(a) && Sorted(b)
    requires forall i :: 0 <= i < |a| ==> a[i].line < n
    requires forall j :: 0 <= j < |b| ==> b[j].line == n
    ensures Sorted(a + b)
  {
    var ms := a + b;
    forall i, j | 0 <= i < j < |ms| ensures Before(ms[i], ms[j]) {
      if j < |a| {
        assert ms[i] == a[i] && ms[j] == a[j];
      } else if i < |a| {
        assert ms[i] == a[i] && ms[j] == b[j - |a|];
      } else {
        assert ms[i] == b[i - |a|] && ms[j] == b[j - |a|];
      }
    }
  }

  /** Soundness and order of a file's records: every one is a true hit on a
      line in range, and the records are strictly ordered by (line, pattern),
      so no (line, pattern) pair is reported twice. */
  lemma {:induction false} FileMatchesSoundAndOrdered(file: string, lines: seq<string>, n: nat)
    requires n <= |lines|
    ensures AllHits(FileMatches(file, lines, n), file, lines)
    ensures forall i :: 0 <= i < |FileMatches(file, lines, n)| ==> FileMatches(file, lines, n)[i].line <= n
    ensures Sorted(FileMatches(file, lines, n))
  {
    if n > 0 {
      FileMatchesSoundAndOrdered(file, lines, n - 1);
      LineMatchesSound(file, lines, n, 5);
      LineMatchesShape(file, lines[n - 1], n, 5);
      LineMatchesOrdered(file, lines, n, 5);
      var front := FileMatches(file, lines, n - 1);
      var back := LineMatches(file, n, lines[n - 1], 5);
      assert FileMatches(file, lines, n) == front + back;
      AllHitsAppend(front, back, file, lines);
      SortedAppend(front, back, n);
      forall i | 0 <= i < |front + back| ensures (front + back)[i].line <= n {
        if i < |front| {
          assert (front + back)[i] == front[i];
        } else {
          assert (front + back)[i] == back[i - |front|];
        }
      }
    }
  }

  /** Completeness: every (line, pattern) pair that matches is reported. */
  lemma {:induction false} FileMatchesComplete(file: string, lines: seq<string>, n: nat, l: nat, q: nat)
    requires n <= |lines| && 1 <= l <= n && q < 5
    requires Search(lines[l - 1], SensitiveWords[q])
    ensures Match(file, l, Strip(lines[l - 1]), SensitivePatterns[q]) in FileMatches(file, lines, n)
  {
    if l < n {
      FileMatchesComplete(file, lines, n - 1, l, q);
    } else {
      LineMatchesComplete(file, lines, n, 5, q);
    }
  }

  /** No duplicates: two records never share both line number and pattern. */
  lemma NoRepeatedPair(file: string, lines: seq<string>, i: nat, j: nat)
    requires i < j < |FileMatches(file, lines, |lines|)|
    ensures FileMatches(file, lines, |lines|)[i].line != FileMatches(file, lines, |lines|)[j].line
         || FileMatches(file, lines, |lines|)[i].pattern != FileMatches(file, lines, |lines|)[j].pattern
  {
    FileMatchesSoundAndOrdered(file, lines, |lines|);
  }

  /** The number of records in `ms` with line number `l`. */
  function CountOnLine(ms: seq<Match>, l: nat): nat {
    CountIf(ms, (m: Match) => m.line == l)
  }

  lemma CountOnLineAppend(a: seq<Match>, b: seq<Match>, l: nat)
    ensures CountOnLine(a + b, l) == CountOnLine(a, l) + CountOnLine(b, l)
  {
    CountIfAppend(a, b, (m: Match) => m.line == l);
  }

  lemma CountOnLineNone(ms: seq<Match>, l: nat)
    requires forall i :: 0 <= i < |ms| ==> ms[i].line != l
    ensures CountOnLine(ms, l) == 0
  {
    CountNone(ms, (m: Match) => m.line == l);
  }

  /** A line yields at most five records, one per pattern. */
  lemma {:induction false} AtMostFivePerLine(file: string, lines: seq<string>, n: nat, l: nat)
    requires n <= |lines|
    ensures CountOnLine(FileMatches(file, lines, n), l) <= 5
    ensures l > n ==> CountOnLine(FileMatches(file, lines, n), l) == 0
  {
    if n > 0 {
      AtMostFivePerLine(file, lines, n - 1, l);
      var front := FileMatches(file, lines, n - 1);
      var back := LineMatches(file, n, lines[n - 1], 5);
      assert FileMatches(file, lines, n) == front + back;
      LineMatchesShape(file, lines[n - 1], n, 5);
      CountOnLineAppend(front, back, l);
      if l != n {
        CountOnLineNone(back, l);
      }
    }
  }


  // ---------------------------------------------------------------------------
  // Scanning the tree
  // ---------------------------------------------------------------------------

  /** One entry of the recursive walk: its path, whether it is a regular file,
      and the lines the file would read as. */
  datatype Entry = Entry(path: FilePath, isFile: bool, lines: seq<string>)

  predicate Selected(e: Entry) {
    e.isFile && ShouldCheckFile(e.path)
  }

  /** The records a walk entry contributes: its file's records if it is scanned, none otherwise. */
  function EntryMatches(e: Entry): seq<Match> {
    if Selected(e) then FileMatches(Text(e.path), e.lines, |e.lines|) else []
  }

  /** The records of all entries, in the order of the walk. */
  function AllMatches(entries: seq<Entry>): seq<Match> {
    if entries == [] then []
    else AllMatches(entries[..|entries| - 1]) + EntryMatches(entries[|entries| - 1])
  }

  /** Some pattern matches line `l` (0-based) of `lines`. */
  predicate LineHit(lines: seq<string>, l: nat, q: nat) {
    l < |lines| && q < 5 && Search(lines[l], SensitiveWords[q])
  }

  /** Some pattern matches some line of the file. */
  ghost predicate FileHit(lines: seq<string>) {
    exists l: nat, q: nat :: LineHit(lines, l, q)
  }

  /** The entry is scanned and some pattern matches one of its lines. */
  ghost predicate EntryHit(e: Entry) {
    Selected(e) && FileHit(e.lines)
  }

  /** Some scanned file has a line on which some pattern matches. */
  ghost predicate SomeHit(entries: seq<Entry>) {
    ExistsIn(entries, EntryHit)
  }

  /** The walk: count the scanned files, gather their records, and return 1 if
      any record exists and 0 otherwise. */
  method ScanTree(entries: seq<Entry>) returns (filesScanned: nat, allMatches: seq<Match>, status: int)
    ensures filesScanned == CountIf(entries, Selected)
    ensures allMatches == AllMatches(entries)
    ensures status == (if allMatches == [] then 0 else 1)
    ensures status == (if SomeHit(entries) then 1 else 0)
  {
    filesScanned := 0;
    allMatches := [];
    var i := 0;
    while i < |entries|
      invariant 0 <= i <= |entries|
      invariant filesScanned == CountIf(entries[..i], Selected)
      invariant allMatches == AllMatches(entries[..i])
    {
      var e := entries[i];
      CountIfSnoc(entries, i, Selected);
      assert entries[..i + 1][..i] == entries[..i];
      if e.isFile && ShouldCheckFile(e.path) {
        filesScanned := filesScanned + 1;
        var matches := ScanFile(e.path, e.lines);
        allMatches := allMatches + matches;
      }
      i := i + 1;
    }
    assert entries[..|entries|] == entries;
    StatusIffSomeHit(entries);
    if allMatches != [] {
      status := 1;
    } else {
      status := 0;
    }
  }

  /** A file yields records exactly when some pattern matches one of its lines. */
  lemma FileMatchesNonEmptyIff(file: string, lines: seq<string>)
    ensures FileMatches(file, lines, |lines|) != [] <==> FileHit(lines)
  {
    var ms := FileMatches(file, lines, |lines|);
    if ms != [] {
      FileMatchesSoundAndOrdered(file, lines, |lines|);
      assert IsHit(ms[0], file, lines);
      assert LineHit(lines, ms[0].line - 1, PatternIndex(ms[0].pattern));
    }
    if FileHit(lines) {
      var l: nat, q: nat :| LineHit(lines, l, q);
      FileMatchesComplete(file, lines, |lines|, l + 1, q);
    }
  }

  /** An entry contributes records exactly when it is scanned and some line of it matches. */
  lemma EntryMatchesNonEmptyIff(e: Entry)
    ensures EntryMatches(e) != [] <==> EntryHit(e)
  {
    if Selected(e) {
      FileMatchesNonEmptyIff(Text(e.path), e.lines);
    }
  }

  /** The exit status is 1 exactly when some scanned file has a line containing
      one of the sensitive words as a whole word. */
  lemma {:induction false} StatusIffSomeHit(entries: seq<Entry>)
    ensures AllMatches(entries) != [] <==> SomeHit(entries)
  {
    if entries != [] {
      var init := entries[..|entries| - 1];
      var last := entries[|entries| - 1];
      StatusIffSomeHit(init);
      EntryMatchesNonEmptyIff(last);
      ExistsInSnoc(entries, EntryHit);
      assert AllMatches(entries) == AllMatches(init) + EntryMatches(last);
    }
  }

  /** A file the filter rejects is never read: what its lines would be has no
      effect on the records. */
  lemma {:induction false} RejectedFileNotRead(entries: seq<Entry>, i: nat, other: seq<string>)
    requires i < |entries| && !Selected(entries[i])
    ensures AllMatches(entries[i := entries[i].(lines := other)]) == AllMatches(entries)
  {
    var changed := entries[i := entries[i].(lines := other)];
    var n := |entries| - 1;
    if i < n {
      assert changed[..n] == entries[..n][i := entries[i].(lines := other)];
      assert changed[n] == entries[n];
      RejectedFileNotRead(entries[..n], i, other);
    } else {
      assert changed[..n] == entries[..n];
      assert changed[n].path == entries[n].path;
      assert EntryMatches(changed[n]) == [] == EntryMatches(entries[n]);
    }
  }
}
