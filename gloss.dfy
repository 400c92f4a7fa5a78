/**
 * Normalisation of one morpheme cell: `killspace`, `toSmallCaps` and the propagation of
 * boundary hyphens from the morpheme text onto its gloss.
 */
module Gloss {
  import opened Types
  import opened Strings

  // ---------------------------------------------------------------------------
  // killspace
  // ---------------------------------------------------------------------------

  predicate IsBlank(c: char)
  {
    c == '\r' || c == '\n' || c == '\t' || c == ' '
  }

  /**
   * `killspace`: a missing text counts as empty; carriage returns, line feeds and tabs are
   * deleted and every space becomes a period, by four replace passes.
   */
  function KillSpace(line: Option<string>): (r: string)
    ensures forall i :: 0 <= i < |r| ==> !IsBlank(r[i])
    ensures line.None? ==> r == ""
    ensures line.Some? ==> r == CellChars(line.value)
  {
    var s := line.GetOr("");
    KillSpaceByChar(s);
    ReplaceAll(ReplaceAll(ReplaceAll(ReplaceAll(s, "\r", ""), "\n", ""), " ", "."), "\t", "")
  }

  /** What killspace makes of one character. */
  function CellChar(c: char): string
  {
    if c == '\r' || c == '\n' || c == '\t' then "" else if c == ' ' then "." else [c]
  }

  /** Reference for killspace: the image of each character, in order. */
  function CellChars(s: string): string
  {
    if s == [] then [] else CellChar(s[0]) + CellChars(s[1..])
  }

  lemma {:induction false} CellCharsNoBlank(s: string)
    ensures forall i :: 0 <= i < |CellChars(s)| ==> !IsBlank(CellChars(s)[i])
    decreases |s|
  {
    if s != [] {
      CellCharsNoBlank(s[1..]);
    }
  }

  /** The four replace passes of killspace, each written as a per-character rewrite. */
  function Passes(s: string): string
  {
    Replaced(Replaced(Replaced(Replaced(s, "\r", ""), "\n", ""), " ", "."), "\t", "")
  }

  lemma PassesAppend(a: string, b: string)
    ensures Passes(a + b) == Passes(a) + Passes(b)
  {
    var a1, b1 := Replaced(a, "\r", ""), Replaced(b, "\r", "");
    ReplacedAppend(a, b, "\r", "");
    var a2, b2 := Replaced(a1, "\n", ""), Replaced(b1, "\n", "");
    ReplacedAppend(a1, b1, "\n", "");
    var a3, b3 := Replaced(a2, " ", "."), Replaced(b2, " ", ".");
    ReplacedAppend(a2, b2, " ", ".");
    ReplacedAppend(a3, b3, "\t", "");
  }

  lemma {:induction false} PassesByChar(s: string)
    ensures Passes(s) == CellChars(s)
    decreases |s|
  {
    if s != [] {
      PassesByChar(s[1..]);
      assert s == [s[0]] + s[1..];
      PassesAppend([s[0]], s[1..]);
      assert Passes([s[0]]) == CellChar(s[0]);
    }
  }

  lemma KillSpaceByChar(s: string)
    ensures ReplaceAll(ReplaceAll(ReplaceAll(ReplaceAll(s, "\r", ""), "\n", ""), " ", "."), "\t", "")
            == CellChars(s)
    ensures forall i :: 0 <= i < |CellChars(s)| ==> !IsBlank(CellChars(s)[i])
  {
    var s1 := ReplaceAll(s, "\r", "");
    ReplaceAllOneChar(s, '\r', "");
    var s2 := ReplaceAll(s1, "\n", "");
    ReplaceAllOneChar(s1, '\n', "");
    var s3 := ReplaceAll(s2, " ", ".");
    ReplaceAllOneChar(s2, ' ', ".");
    ReplaceAllOneChar(s3, '\t', "");
    PassesByChar(s);
    CellCharsNoBlank(s);
  }

  /**
   * On a text without line breaks or tabs killspace keeps the length and changes exactly
   * the spaces, each into a period.
   */
  lemma {:induction false} KillSpaceOnOneLine(s: string)
    requires forall i :: 0 <= i < |s| ==> s[i] != '\r' && s[i] != '\n' && s[i] != '\t'
    ensures |KillSpace(Some(s))| == |s|
    ensures forall i :: 0 <= i < |s| ==> KillSpace(Some(s))[i] == if s[i] == ' ' then '.' else s[i]
    decreases |s|
  {
    if s != [] {
      KillSpaceOnOneLine(s[1..]);
      assert KillSpace(Some(s)) == CellChar(s[0]) + KillSpace(Some(s[1..]));
    }
  }

  // ---------------------------------------------------------------------------
  // toSmallCaps
  // ---------------------------------------------------------------------------

  predicate IsUpper(c: char)
  {
    'A' <= c <= 'Z'
  }

  function Lower(c: char): (l: char)
    requires IsUpper(c)
    ensures 'a' <= l <= 'z' && Upper(l) == c
  {
    (c as int + 32) as char
  }

  function Upper(c: char): char
    requires 'a' <= c <= 'z'
  {
    (c as int - 32) as char
  }

  /** The LaTeX command that opens a small-caps span. */
  const Open: string := "\\textsc{"

  /**
   * The text toSmallCaps emits for the rest `s` of a word, when the scan is inside an open
   * span (`incaps`) or not.
   */
  function CapsFrom(s: string, incaps: bool): string
    decreases |s|
  {
    if s == [] then (if incaps then "}" else "")
    else if IsUpper(s[0]) then
      if incaps then [Lower(s[0])] + CapsFrom(s[1..], true) else Open + [Lower(s[0])] + CapsFrom(s[1..], true)
    else if incaps then "}" + [s[0]] + CapsFrom(s[1..], false) else [s[0]] + CapsFrom(s[1..], false)
  }

  function SmallCaps(word: string): string
  {
    CapsFrom(word, false)
  }

  /** `toSmallCaps`: one pass over the characters with one flag, accumulating the result. */
  method ToSmallCaps(word: string) returns (newword: string)
    ensures newword == SmallCaps(word)
  {
    newword := "";
    var incaps := false;
    var i := 0;
    while i < |word|
      invariant 0 <= i <= |word|
      invariant newword + CapsFrom(word[i..], incaps) == SmallCaps(word)
    {
      var c := word[i];
      ghost var before, wasIncaps := newword, incaps;
      if IsUpper(c) {
        if !incaps {
          newword := newword + Open;
          incaps := true;
        }
        newword := newword + [Lower(c)];
      } else {
        if incaps {
          incaps := false;
          newword := newword + "}";
        }
        newword := newword + [c];
      }
      CapsFromStep(word, i, wasIncaps, before, newword);
      i := i + 1;
    }
    if incaps {
      newword := newword + "}";
    }
  }

  /** The scan of one character: what it emits before the rest of the word is scanned. */
  lemma CapsFromStep(word: string, i: nat, incaps: bool, before: string, after: string)
    requires i < |word|
    requires after == before + (if IsUpper(word[i]) then (if incaps then "" else Open) + [Lower(word[i])]
                                else (if incaps then "}" else "") + [word[i]])
    ensures after + CapsFrom(word[i + 1..], IsUpper(word[i])) == before + CapsFrom(word[i..], incaps)
  {
    var s := word[i..];
    assert s[0] == word[i] && s[1..] == word[i + 1..];
    var emitted := after[|before|..];
    assert after == before + emitted;
    assert CapsFrom(s, incaps) == emitted + CapsFrom(word[i + 1..], IsUpper(word[i]));
    AppendAssoc(before, emitted, CapsFrom(word[i + 1..], IsUpper(word[i])), after, after + CapsFrom(word[i + 1..], IsUpper(word[i])));
  }

  /** Length of the run of capitals at the start of `s`. */
  function UpperRun(s: string): (n: nat)
    ensures n <= |s|
    ensures forall i :: 0 <= i < n ==> IsUpper(s[i])
    ensures n < |s| ==> !IsUpper(s[n])
    decreases |s|
  {
    if s != [] && IsUpper(s[0]) then 1 + UpperRun(s[1..]) else 0
  }

  function LowerAll(s: string): (r: string)
    requires forall i :: 0 <= i < |s| ==> IsUpper(s[i])
    ensures |r| == |s| && forall i :: 0 <= i < |s| ==> r[i] == Lower(s[i])
  {
    if s == [] then [] else [Lower(s[0])] + LowerAll(s[1..])
  }

  /**
   * Reference for toSmallCaps by maximal runs: each maximal run of A-Z becomes the run in
   * lower case inside one `\textsc{...}`; every other character is copied.
   */
  function CapsByRuns(s: string): string
    decreases |s|
  {
    if s == [] then []
    else if IsUpper(s[0]) then
      var n := UpperRun(s);
      Open + LowerAll(s[..n]) + "}" + CapsByRuns(s[n..])
    else [s[0]] + CapsByRuns(s[1..])
  }

  /** Number of maximal runs of capitals in `s`. */
  function Runs(s: string): nat
    decreases |s|
  {
    if s == [] then 0
    else if IsUpper(s[0]) then 1 + Runs(s[UpperRun(s)..])
    else Runs(s[1..])
  }

  /** Inside an open span, the scan lowers the current run, closes it, and resumes. */
  lemma {:induction false} CapsFromInRun(s: string)
    ensures CapsFrom(s, true) == LowerAll(s[..UpperRun(s)]) + "}" + CapsByRuns(s[UpperRun(s)..])
    decreases |s|
  {
    if s == [] {
    } else if IsUpper(s[0]) {
      CapsFromInRun(s[1..]);
      InRunCapital(s);
    } else {
      CapsFromOutside(s[1..]);
      InRunOther(s);
    }
  }

  /** Outside a span the scan agrees with the run-based reference. */
  lemma {:induction false} CapsFromOutside(s: string)
    ensures CapsFrom(s, false) == CapsByRuns(s)
    decreases |s|
  {
    if s == [] {
    } else if IsUpper(s[0]) {
      CapsFromInRun(s[1..]);
      OutsideCapital(s);
    } else {
      CapsFromOutside(s[1..]);
    }
  }

  /** A capital inside a span is lowered and the span goes on. */
  lemma InRunCapital(s: string)
    requires s != [] && IsUpper(s[0])
    requires var t := s[1..]; CapsFrom(t, true) == LowerAll(t[..UpperRun(t)]) + "}" + CapsByRuns(t[UpperRun(t)..])
    ensures CapsFrom(s, true) == LowerAll(s[..UpperRun(s)]) + "}" + CapsByRuns(s[UpperRun(s)..])
  {
    var t := s[1..];
    RunSplit(s);
    var low, rest := LowerAll(t[..UpperRun(t)]), CapsByRuns(t[UpperRun(t)..]);
    var head := [Lower(s[0])];
    Regroup(head, low, "}", rest);
  }

  /** Any other character closes the span and is copied. */
  lemma InRunOther(s: string)
    requires s != [] && !IsUpper(s[0])
    requires CapsFrom(s[1..], false) == CapsByRuns(s[1..])
    ensures CapsFrom(s, true) == LowerAll(s[..UpperRun(s)]) + "}" + CapsByRuns(s[UpperRun(s)..])
  {
    assert UpperRun(s) == 0;
    assert s[..0] == [] && s[0..] == s;
    RegroupEmpty("}", [s[0]], CapsByRuns(s[1..]));
  }

  /** A capital outside a span opens one around its whole run. */
  lemma OutsideCapital(s: string)
    requires s != [] && IsUpper(s[0])
    requires var t := s[1..]; CapsFrom(t, true) == LowerAll(t[..UpperRun(t)]) + "}" + CapsByRuns(t[UpperRun(t)..])
    ensures CapsFrom(s, false) == CapsByRuns(s)
  {
    var t := s[1..];
    RunSplit(s);
    var low, rest := LowerAll(t[..UpperRun(t)]), CapsByRuns(t[UpperRun(t)..]);
    var head := [Lower(s[0])];
    RegroupAfter(Open, head, low, "}", rest);
  }

  /** A run of capitals is its first letter followed by the run of the rest. */
  lemma RunSplit(s: string)
    requires s != [] && IsUpper(s[0])
    ensures var t, n := s[1..], UpperRun(s);
      n == 1 + UpperRun(t) && s[n..] == t[UpperRun(t)..] &&
      LowerAll(s[..n]) == [Lower(s[0])] + LowerAll(t[..UpperRun(t)])
  {
    RunRest(s);
    RunLower(s);
  }

  lemma RunRest(s: string)
    requires s != [] && IsUpper(s[0])
    ensures s[UpperRun(s)..] == s[1..][UpperRun(s[1..])..]
  {
  }

  lemma RunLower(s: string)
    requires s != [] && IsUpper(s[0])
    ensures LowerAll(s[..UpperRun(s)]) == [Lower(s[0])] + LowerAll(s[1..][..UpperRun(s[1..])])
  {
    var n := UpperRun(s);
    assert s[..n][1..] == s[1..][..UpperRun(s[1..])];
  }

  /** toSmallCaps wraps each maximal run of capitals, lower-cased, in exactly one span. */
  lemma SmallCapsByRuns(word: string)
    ensures SmallCaps(word) == CapsByRuns(word)
  {
    CapsFromOutside(word);
  }

  /** The result has no capital letter and is nine characters longer per run of capitals. */
  lemma {:induction false} CapsByRunsFacts(s: string)
    ensures forall i :: 0 <= i < |CapsByRuns(s)| ==> !IsUpper(CapsByRuns(s)[i])
    ensures |CapsByRuns(s)| == |s| + 9 * Runs(s)
    decreases |s|
  {
    if s == [] {
    } else if IsUpper(s[0]) {
      var n := UpperRun(s);
      CapsByRunsFacts(s[n..]);
      var low := LowerAll(s[..n]);
      assert forall i :: 0 <= i < |low| ==> !IsUpper(low[i]);
    } else {
      CapsByRunsFacts(s[1..]);
    }
  }

  lemma SmallCapsFacts(word: string)
    ensures forall i :: 0 <= i < |SmallCaps(word)| ==> !IsUpper(SmallCaps(word)[i])
    ensures |SmallCaps(word)| == |word| + 9 * Runs(word)
  {
    SmallCapsByRuns(word);
    CapsByRunsFacts(word);
  }

  /** A word without capitals passes through unchanged. */
  lemma {:induction false} SmallCapsNoCapitals(word: string)
    requires forall i :: 0 <= i < |word| ==> !IsUpper(word[i])
    ensures SmallCaps(word) == word
    decreases |word|
  {
    if word != [] {
      SmallCapsNoCapitals(word[1..]);
      assert [word[0]] + word[1..] == word;
    }
  }

  /** Markup and periods carry no blank, so a blank-free word stays blank-free. */
  lemma {:induction false} CapsFromNoBlank(s: string, incaps: bool)
    requires forall i :: 0 <= i < |s| ==> !IsBlank(s[i])
    ensures forall i :: 0 <= i < |CapsFrom(s, incaps)| ==> !IsBlank(CapsFrom(s, incaps)[i])
    decreases |s|
  {
    if s != [] {
      CapsFromNoBlank(s[1..], IsUpper(s[0]));
    }
  }

  /** Length of the run of lower-case letters at the start of `s`. */
  function LowerRun(s: string): (n: nat)
    ensures n <= |s|
    ensures forall i :: 0 <= i < n ==> 'a' <= s[i] <= 'z'
    decreases |s|
  {
    if s != [] && 'a' <= s[0] <= 'z' then 1 + LowerRun(s[1..]) else 0
  }

  function UpperAll(s: string): (r: string)
    requires forall i :: 0 <= i < |s| ==> 'a' <= s[i] <= 'z'
    ensures |r| == |s| && forall i :: 0 <= i < |s| ==> r[i] == Upper(s[i])
  {
    if s == [] then [] else [Upper(s[0])] + UpperAll(s[1..])
  }

  /**
   * Inverse of toSmallCaps: every `\textsc{` span is removed together with its closing brace
   * and its letters are put back in upper case.
   */
  function Uncaps(r: string): string
    decreases |r|
  {
    if r == [] then []
    else if |r| >= |Open| && r[..|Open|] == Open then
      var rest := r[|Open|..];
      var n := LowerRun(rest);
      UpperAll(rest[..n]) + Uncaps(if n < |rest| then rest[n + 1..] else [])
    else [r[0]] + Uncaps(r[1..])
  }

  /**
   * Stripping the markup and upper-casing the spans gives back the word, as long as the word
   * has no backslash of its own that could be read as markup.
   */
  lemma {:induction false} UncapsCapsByRuns(s: string)
    requires forall i :: 0 <= i < |s| ==> s[i] != '\\'
    ensures Uncaps(CapsByRuns(s)) == s
    decreases |s|
  {
    if s == [] {
    } else if IsUpper(s[0]) {
      UncapsCapsByRuns(s[UpperRun(s)..]);
      UncapsRun(s);
    } else {
      UncapsCapsByRuns(s[1..]);
      UncapsOther(s);
    }
  }

  /** A run of capitals: its span decodes back to the run, then decoding goes on after it. */
  lemma UncapsRun(s: string)
    requires s != [] && IsUpper(s[0])
    requires Uncaps(CapsByRuns(s[UpperRun(s)..])) == s[UpperRun(s)..]
    ensures Uncaps(CapsByRuns(s)) == s
  {
    var n := UpperRun(s);
    var low := LowerAll(s[..n]);
    var tail := CapsByRuns(s[n..]);
    assert forall i :: 0 <= i < |low| ==> 'a' <= low[i] <= 'z';
    UncapsSpan(low, tail);
    UpperLower(s[..n]);
    TakeDrop(s, n);
  }

  /** Any other character is copied, and a character other than a backslash opens no span. */
  lemma UncapsOther(s: string)
    requires s != [] && !IsUpper(s[0]) && s[0] != '\\'
    requires Uncaps(CapsByRuns(s[1..])) == s[1..]
    ensures Uncaps(CapsByRuns(s)) == s
  {
    var r := [s[0]] + CapsByRuns(s[1..]);
    assert r[0] != Open[0];
    assert [s[0]] + s[1..] == s;
  }

  /** One span: its letters come back in upper case and decoding resumes after the brace. */
  lemma UncapsSpan(low: string, tail: string)
    requires forall i :: 0 <= i < |low| ==> 'a' <= low[i] <= 'z'
    ensures Uncaps(Open + low + "}" + tail) == UpperAll(low) + Uncaps(tail)
  {
    var r := Open + low + "}" + tail;
    assert r[..|Open|] == Open;
    var rest := r[|Open|..];
    assert rest == low + ("}" + tail);
    LowerRunStops(low, "}" + tail);
    assert rest[..|low|] == low;
    assert rest[|low| + 1..] == tail;
  }

  lemma UpperLower(s: string)
    requires forall i :: 0 <= i < |s| ==> IsUpper(s[i])
    ensures UpperAll(LowerAll(s)) == s
  {
  }

  lemma {:induction false} LowerRunStops(low: string, rest: string)
    requires forall i :: 0 <= i < |low| ==> 'a' <= low[i] <= 'z'
    requires rest != [] && !('a' <= rest[0] <= 'z')
    ensures LowerRun(low + rest) == |low|
    decreases |low|
  {
    if low != [] {
      assert (low + rest)[1..] == low[1..] + rest;
      LowerRunStops(low[1..], rest);
    } else {
      assert low + rest == rest;
    }
  }

  lemma UncapsSmallCaps(word: string)
    requires forall i :: 0 <= i < |word| ==> word[i] != '\\'
    ensures Uncaps(SmallCaps(word)) == word
  {
    SmallCapsByRuns(word);
    UncapsCapsByRuns(word);
  }

  // ---------------------------------------------------------------------------
  // Hyphen propagation
  // ---------------------------------------------------------------------------

  /**
   * The morpheme invariant: when text and gloss are both non-empty, a hyphen that begins
   * (ends) the text also begins (ends) the gloss.
   */
  predicate Mirrored(txt: string, gls: string)
  {
    txt != [] && gls != [] ==>
      (txt[0] == '-' ==> gls[0] == '-') && (txt[|txt| - 1] == '-' ==> gls[|gls| - 1] == '-')
  }

  /** Copies a leading or trailing hyphen of the morpheme text onto its gloss, each side on its own. */
  function MirrorHyphens(txt: string, gls: string): (r: string)
    ensures txt == [] || gls == [] ==> r == gls
    ensures Mirrored(txt, r)
    ensures Mirrored(txt, gls) ==> r == gls
    ensures r == gls || r == "-" + gls || r == gls + "-" || r == "-" + gls + "-"
    ensures r != [] && r[0] == '-' ==> gls[0] == '-' || txt[0] == '-'
    ensures r != [] && r[|r| - 1] == '-' ==> gls[|gls| - 1] == '-' || txt[|txt| - 1] == '-'
    // each end on its own: no hyphen is added at an end that has one or that the text lacks
    ensures gls != [] && gls[0] == '-' ==> r == gls || r == gls + "-"
    ensures gls != [] && gls[|gls| - 1] == '-' ==> r == gls || r == "-" + gls
    ensures txt == [] || txt[0] != '-' ==> r == gls || r == gls + "-"
    ensures txt == [] || txt[|txt| - 1] != '-' ==> r == gls || r == "-" + gls
  {
    if |txt| > 0 && |gls| > 0 then
      var g := if txt[0] == '-' && gls[0] != '-' then "-" + gls else gls;
      if txt[|txt| - 1] == '-' && g[|g| - 1] != '-' then g + "-" else g
    else gls
  }

  /** Propagating twice is propagating once. */
  lemma MirrorHyphensIdempotent(txt: string, gls: string)
    ensures MirrorHyphens(txt, MirrorHyphens(txt, gls)) == MirrorHyphens(txt, gls)
  {
  }
}
