/**
 * One paragraph of an interlinear text: the phrases it is read from, the buffers the
 * script fills phrase by phrase (surface line, the three tiers, the free translation), and
 * the block written for it.
 */
module Paragraphs {
  import opened Types
  import opened Strings
  import opened Gloss
  import opened Surface
  import opened Tiers
  import opened Render

  /**
   * A phrase unit: its direct `item` children (where the free translation is found) and,
   * for every `word` element it yields (itself first when it is a `word`), that word's items.
   */
  datatype Phrase = Phrase(items: seq<Item>, words: seq<seq<Item>>)

  /** The `phrases` child of a paragraph: its `word` children and its `phrase` children. */
  datatype PhrasesBlock = PhrasesBlock(wordChildren: seq<Phrase>, phraseChildren: seq<Phrase>)

  /** A paragraph: its `phrases` child, if any, and its `morphemes` groups in document order. */
  datatype ParagraphInput = ParagraphInput(block: Option<PhrasesBlock>, groups: seq<seq<Morph>>)

  /**
   * The phrases a paragraph iterates over: those of its own `phrases` child (`word` children
   * before `phrase` children), or, without one, whatever an earlier paragraph left bound.
   */
  function ResolvePhrases(block: Option<PhrasesBlock>, stale: Binding<seq<Phrase>>): (r: Binding<seq<Phrase>>)
    ensures block.None? ==> r == stale
    ensures block.Some? ==> r.Bound? && |r.value| == |block.value.wordChildren| + |block.value.phraseChildren|
    ensures block.Some? ==> r.value[..|block.value.wordChildren|] == block.value.wordChildren
    ensures block.Some? ==> r.value[|block.value.wordChildren|..] == block.value.phraseChildren
  {
    match block
    case None => stale
    case Some(b) => Bound(b.wordChildren + b.phraseChildren)
  }

  /** Index of the first direct item of a phrase whose type is `gls`. */
  function FirstGloss(items: seq<Item>): (r: Option<nat>)
    ensures r.Some? ==> r.value < |items| && items[r.value].kind == Some("gls")
    ensures r.Some? ==> forall j :: 0 <= j < r.value ==> items[j].kind != Some("gls")
    ensures r.None? ==> forall j :: 0 <= j < |items| ==> items[j].kind != Some("gls")
  {
    if items == [] then None
    else if items[0].kind == Some("gls") then Some(0)
    else match FirstGloss(items[1..])
      case None => None
      case Some(k) => Some(k + 1)
  }

  /**
   * The translation after one look at a phrase's items: the first `gls` item, quoted (a
   * missing text counts as ""), or the translation unchanged when the phrase has none.
   */
  function NextTranslation(current: string, items: seq<Item>): (r: string)
    ensures FirstGloss(items).None? ==> r == current
    ensures FirstGloss(items).Some? ==> r == EncloseSingle(items[FirstGloss(items).value].text.GetOr(""))
  {
    match FirstGloss(items)
    case None => current
    case Some(i) => EncloseSingle(items[i].text.GetOr(""))
  }

  /** Looking again at the same phrase changes nothing. */
  lemma NextTranslationIdempotent(current: string, items: seq<Item>)
    ensures NextTranslation(NextTranslation(current, items), items) == NextTranslation(current, items)
  {
  }

  /**
   * The line after one more phrase: its words are appended and the whole line is
   * post-processed again. A word without text, or a line still empty, stops the paragraph.
   */
  function NextLine(line: string, ph: Phrase): (r: Result<string>)
    ensures !WordsOk(ph.words) ==> r == Err(WordWithoutText)
    ensures WordsOk(ph.words) ==> (r.Err? <==> line + WordsSurface(ph.words) == [])
    ensures r.Err? ==> r.failure == WordWithoutText || r.failure == EmptyLine
  {
    if !WordsOk(ph.words) then Err(WordWithoutText)
    else CleanLine(line + WordsSurface(ph.words))
  }

  /** The surface line after the given phrases, starting from an empty line. */
  function LineAfter(phrases: seq<Phrase>): Result<string>
  {
    if phrases == [] then Ok("")
    else match LineAfter(phrases[..|phrases| - 1])
      case Err(f) => Err(f)
      case Ok(line) => NextLine(line, phrases[|phrases| - 1])
  }

  /** The diagnostics of the given phrases, in order. */
  function WarningsAfter(phrases: seq<Phrase>): seq<string>
  {
    if phrases == [] then [] else WarningsAfter(phrases[..|phrases| - 1]) + WordsWarnings(phrases[|phrases| - 1].words)
  }

  /** The translation after the given phrases when the paragraph has at least one group. */
  function Translated(phrases: seq<Phrase>): string
  {
    if phrases == [] then "" else NextTranslation(Translated(phrases[..|phrases| - 1]), phrases[|phrases| - 1].items)
  }

  /** The translation is looked up once per group, so a paragraph without groups keeps "". */
  function TranslationAfter(phrases: seq<Phrase>, groups: seq<seq<Morph>>): string
  {
    if groups == [] then "" else Translated(phrases)
  }

  /** The free translation is that of the last phrase carrying a `gls` item. */
  lemma {:induction false} TranslatedFromLast(phrases: seq<Phrase>, k: nat)
    requires k < |phrases| && FirstGloss(phrases[k].items).Some?
    requires forall j :: k < j < |phrases| ==> FirstGloss(phrases[j].items).None?
    ensures Translated(phrases) == EncloseSingle(phrases[k].items[FirstGloss(phrases[k].items).value].text.GetOr(""))
    decreases |phrases|
  {
    if k < |phrases| - 1 {
      TranslatedFromLast(phrases[..|phrases| - 1], k);
    }
  }

  /** Without any `gls` item in any phrase the translation stays empty. */
  lemma {:induction false} TranslatedNone(phrases: seq<Phrase>)
    requires forall j :: 0 <= j < |phrases| ==> FirstGloss(phrases[j].items).None?
    ensures Translated(phrases) == ""
    decreases |phrases|
  {
    if phrases != [] {
      TranslatedNone(phrases[..|phrases| - 1]);
    }
  }

  /** `xs` written `n` times. */
  function Repeat<T>(xs: seq<T>, n: nat): seq<T>
  {
    if n == 0 then [] else Repeat(xs, n - 1) + xs
  }

  lemma {:induction false} RepeatLength<T>(xs: seq<T>, n: nat)
    ensures |Repeat(xs, n)| == n * |xs|
  {
    if n > 0 {
      RepeatLength(xs, n - 1);
    }
  }

  /**
   * The tier rows of a paragraph: every phrase appends the rows of all the paragraph's
   * `morphemes` groups, so `n` phrases carry them `n` times over.
   */
  function RowsAfter(phrases: seq<Phrase>, groups: seq<seq<Morph>>): seq<Row>
  {
    Repeat(GroupsRows(groups), |phrases|)
  }

  /** Copy `k` of the paragraph's rows sits at offset `k` times the rows of one pass. */
  lemma {:induction false} RepeatCopy<T>(xs: seq<T>, n: nat, k: nat)
    requires k < n
    ensures (k + 1) * |xs| <= |Repeat(xs, n)|
    ensures Repeat(xs, n)[k * |xs|..(k + 1) * |xs|] == xs
    decreases n
  {
    RepeatLength(xs, n);
    RepeatLength(xs, n - 1);
    if k < n - 1 {
      RepeatCopy(xs, n - 1, k);
      assert (k + 1) * |xs| <= (n - 1) * |xs| by {
        MulMonotone(k + 1, n - 1, |xs|);
      }
    } else {
      assert k * |xs| == |Repeat(xs, n - 1)|;
    }
  }

  lemma MulMonotone(a: nat, b: nat, c: nat)
    requires a <= b
    ensures a * c <= b * c
  {
  }

  /** Hence the tiers of a paragraph hold, per phrase, one row per morph and one per group. */
  lemma PhrasesRowsCount(phrases: seq<Phrase>, groups: seq<seq<Morph>>)
    ensures |RowsAfter(phrases, groups)| == |phrases| * (MorphCount(groups) + |groups|)
  {
    RepeatLength(GroupsRows(groups), |phrases|);
    GroupsRowsLength(groups);
  }

  /** Every row of a paragraph, separators included, mirrors its text's boundary hyphens. */
  lemma PhrasesRowsMirrored(phrases: seq<Phrase>, groups: seq<seq<Morph>>)
    ensures var rows := RowsAfter(phrases, groups);
      forall i :: 0 <= i < |rows| ==> RowMirrored(rows[i])
  {
    GroupsRowsMirrored(groups);
    RepeatElements(GroupsRows(groups), |phrases|);
  }

  lemma {:induction false} RepeatElements<T>(xs: seq<T>, n: nat)
    ensures forall i :: 0 <= i < |Repeat(xs, n)| ==> Repeat(xs, n)[i] in xs
  {
    if n > 0 {
      RepeatElements(xs, n - 1);
      var r := Repeat(xs, n);
      forall i | 0 <= i < |r| ensures r[i] in xs {
        if i >= |Repeat(xs, n - 1)| {
          assert r[i] == xs[i - |Repeat(xs, n - 1)|];
        }
      }
    }
  }

  /** A paragraph fails only on a word without text or on a line still empty after some phrase. */
  lemma {:induction false} LineAfterFailure(phrases: seq<Phrase>)
    ensures LineAfter(phrases).Err? ==> LineAfter(phrases).failure == WordWithoutText || LineAfter(phrases).failure == EmptyLine
    decreases |phrases|
  {
    if phrases != [] {
      LineAfterFailure(phrases[..|phrases| - 1]);
    }
  }

  /** What one more phrase does to each of the folds. */
  lemma PhraseStep(ps: seq<Phrase>, i: nat, line: string, groups: seq<seq<Morph>>)
    requires i < |ps| && LineAfter(ps[..i]) == Ok(line)
    ensures LineAfter(ps[..i + 1]) == NextLine(line, ps[i])
    ensures RowsAfter(ps[..i + 1], groups) == RowsAfter(ps[..i], groups) + GroupsRows(groups)
    ensures TranslationAfter(ps[..i + 1], groups) ==
      if groups == [] then TranslationAfter(ps[..i], groups) else NextTranslation(TranslationAfter(ps[..i], groups), ps[i].items)
    ensures WarningsAfter(ps[..i + 1]) == WarningsAfter(ps[..i]) + WordsWarnings(ps[i].words)
  {
    assert ps[..i + 1][..i] == ps[..i];
  }

  /** Once a phrase fails, the paragraph fails with that failure. */
  lemma {:induction false} FailurePersists(ps: seq<Phrase>, i: nat)
    requires i <= |ps| && LineAfter(ps[..i]).Err?
    ensures LineAfter(ps) == LineAfter(ps[..i])
    decreases |ps|
  {
    if i < |ps| {
      var init := ps[..|ps| - 1];
      assert init[..i] == ps[..i];
      FailurePersists(init, i);
    } else {
      assert ps[..i] == ps;
    }
  }

  /** Three tiers of equal length as rows. */
  function Zip(a: seq<string>, b: seq<string>, c: seq<string>): (r: seq<Row>)
    requires |a| == |b| == |c|
    ensures |r| == |a|
    ensures forall i :: 0 <= i < |a| ==> r[i] == Row(a[i], b[i], c[i])
  {
    seq(|a|, i requires 0 <= i < |a| => Row(a[i], b[i], c[i]))
  }

  function Txts(rows: seq<Row>): (r: seq<string>)
    ensures |r| == |rows| && forall i :: 0 <= i < |rows| ==> r[i] == rows[i].txt
  {
    seq(|rows|, i requires 0 <= i < |rows| => rows[i].txt)
  }

  function Cfs(rows: seq<Row>): (r: seq<string>)
    ensures |r| == |rows| && forall i :: 0 <= i < |rows| ==> r[i] == rows[i].cf
  {
    seq(|rows|, i requires 0 <= i < |rows| => rows[i].cf)
  }

  function Glosses(rows: seq<Row>): (r: seq<string>)
    ensures |r| == |rows| && forall i :: 0 <= i < |rows| ==> r[i] == rows[i].gls
  {
    seq(|rows|, i requires 0 <= i < |rows| => rows[i].gls)
  }

  /** Splitting zipped tiers gives the tiers back. */
  lemma ZipSplit(a: seq<string>, b: seq<string>, c: seq<string>)
    requires |a| == |b| == |c|
    ensures Txts(Zip(a, b, c)) == a && Cfs(Zip(a, b, c)) == b && Glosses(Zip(a, b, c)) == c
  {
  }

  /** What one paragraph writes, and the diagnostics it sends to standard error. */
  datatype Written = Written(block: string, stderr: seq<string>)

  /** The outcome of one paragraph, given the phrases an earlier paragraph left bound. */
  function ParagraphOutput(p: ParagraphInput, stale: Binding<seq<Phrase>>, exLabel: string, fourline: bool): Result<Written>
  {
    match ResolvePhrases(p.block, stale)
    case Unbound => Err(NoPhrases)
    case Bound(ps) =>
      match LineAfter(ps)
      case Err(f) => Err(f)
      case Ok(line) =>
        var rows := RowsAfter(ps, p.groups);
        Ok(Written(RenderBlock(exLabel, fourline, line, Txts(rows), Cfs(rows), Glosses(rows), TranslationAfter(ps, p.groups)),
                   WarningsAfter(ps)))
  }

  /** The locals of the paragraph loop, reset for every paragraph. */
  datatype Buffers = Buffers(fullline: string, linemorphs: seq<string>, linecfs: seq<string>,
                             lineglosses: seq<string>, translation: string, stderr: seq<string>)
  {
    /** The three tier lists are appended together, so they stay equal in length. */
    predicate Aligned()
    {
      |linemorphs| == |linecfs| == |lineglosses|
    }

    function Rows(): seq<Row>
      requires Aligned()
    {
      Zip(linemorphs, linecfs, lineglosses)
    }
  }

  const Fresh: Buffers := Buffers("", [], [], [], "", [])

  /**
   * One item of a word: a word or citation form adds a space and its text, punctuation its
   * text (nothing for none or a lone backslash, with a diagnostic for none), anything else
   * nothing. A word or citation form without text cannot be appended.
   */
  method AppendItem(line: string, log: seq<string>, item: Item)
    returns (ok: bool, fullline: string, stderr: seq<string>)
    ensures ok == !Fails(item)
    ensures ok ==> fullline == line + Piece(item) && stderr == log + Warning(item)
  {
    fullline, stderr := line, log;
    if item.kind.Some? {
      if item.kind.value == "txt" || item.kind.value == "cf" {
        if item.text.None? {
          return false, fullline, stderr;
        }
        var txt := " " + item.text.value;
        fullline := fullline + txt;
      }
      if item.kind.value == "punct" {
        var txt := item.text.GetOr("");
        if item.text.None? {
          stderr := stderr + [EmptyPunctuation];
        }
        if txt == "\\" {
          txt := "";
        }
        fullline := fullline + txt;
      }
    }
    return true, fullline, stderr;
  }

  /** The items of one word, in order; the first that cannot be appended stops the paragraph. */
  method AppendItems(line: string, log: seq<string>, items: seq<Item>)
    returns (ok: bool, fullline: string, stderr: seq<string>)
    ensures ok == ItemsOk(items)
    ensures ok ==> fullline == line + ItemsSurface(items)
    ensures ok ==> stderr == log + ItemsWarnings(items)
  {
    fullline, stderr := line, log;
    var i := 0;
    while i < |items|
      invariant 0 <= i <= |items|
      invariant ItemsOk(items[..i])
      invariant fullline == line + ItemsSurface(items[..i])
      invariant stderr == log + ItemsWarnings(items[..i])
    {
      ghost var lineBefore, logBefore := fullline, stderr;
      ok, fullline, stderr := AppendItem(fullline, stderr, items[i]);
      if !ok {
        return false, fullline, stderr;
      }
      ItemAppended(line, log, items, i, lineBefore, logBefore, fullline, stderr);
      i := i + 1;
    }
    assert items[..i] == items;
    return true, fullline, stderr;
  }

  /** The words of one phrase, in order. */
  method AppendWords(line: string, log: seq<string>, words: seq<seq<Item>>)
    returns (ok: bool, fullline: string, stderr: seq<string>)
    ensures ok == WordsOk(words)
    ensures ok ==> fullline == line + WordsSurface(words)
    ensures ok ==> stderr == log + WordsWarnings(words)
  {
    fullline, stderr := line, log;
    var w := 0;
    while w < |words|
      invariant 0 <= w <= |words|
      invariant forall k :: 0 <= k < w ==> ItemsOk(words[k])
      invariant fullline == line + WordsSurface(words[..w])
      invariant stderr == log + WordsWarnings(words[..w])
    {
      assert WordsOk(words[..w]);
      ghost var lineBefore, logBefore := fullline, stderr;
      ok, fullline, stderr := AppendItems(fullline, stderr, words[w]);
      if !ok {
        return false, fullline, stderr;
      }
      SurfaceStep(line, words, w, lineBefore, fullline);
      WarningsStep(log, words, w, logBefore, stderr);
      w := w + 1;
    }
    assert words[..w] == words;
    return true, fullline, stderr;
  }

  /** Appending one more item keeps the line and the log equal to the prefix's. */
  lemma ItemAppended(line: string, log: seq<string>, items: seq<Item>, i: nat,
                     line0: string, log0: seq<string>, line1: string, log1: seq<string>)
    requires i < |items| && ItemsOk(items[..i]) && !Fails(items[i])
    requires line0 == line + ItemsSurface(items[..i]) && line1 == line0 + Piece(items[i])
    requires log0 == log + ItemsWarnings(items[..i]) && log1 == log0 + Warning(items[i])
    ensures ItemsOk(items[..i + 1])
    ensures line1 == line + ItemsSurface(items[..i + 1])
    ensures log1 == log + ItemsWarnings(items[..i + 1])
  {
    ItemsStep(items, i);
    AppendAssoc(line, ItemsSurface(items[..i]), Piece(items[i]), line0, line1);
    AppendAssoc(log, ItemsWarnings(items[..i]), Warning(items[i]), log0, log1);
  }

  /** Appending one more word's text keeps the line equal to the prefix's surface. */
  lemma SurfaceStep(line: string, words: seq<seq<Item>>, w: nat, line0: string, line1: string)
    requires w < |words| && WordsOk(words[..w]) && ItemsOk(words[w])
    requires line0 == line + WordsSurface(words[..w])
    requires line1 == line0 + ItemsSurface(words[w])
    ensures WordsOk(words[..w + 1])
    ensures line1 == line + WordsSurface(words[..w + 1])
  {
    WordsStep(words, w);
    AppendAssoc(line, WordsSurface(words[..w]), ItemsSurface(words[w]), line0, line1);
  }

  /** Appending one more word's diagnostics keeps the log equal to the prefix's. */
  lemma WarningsStep(log: seq<string>, words: seq<seq<Item>>, w: nat, log0: seq<string>, log1: seq<string>)
    requires w < |words|
    requires log0 == log + WordsWarnings(words[..w])
    requires log1 == log0 + ItemsWarnings(words[w])
    ensures log1 == log + WordsWarnings(words[..w + 1])
  {
    assert words[..w + 1][..w] == words[..w];
    AppendAssoc(log, WordsWarnings(words[..w]), ItemsWarnings(words[w]), log0, log1);
  }

  /**
   * The post-processing after a phrase's words: a replace pass per left-side mark, one per
   * no-space mark, then one leading space removed. Reading the first character of an empty
   * line fails.
   */
  method PostProcess(line: string) returns (r: Result<string>)
    ensures r == CleanLine(line)
  {
    var fullline := MoveMarks(line, LeftSideMarks);
    fullline := JoinMarks(fullline, NoSpaceMarks);
    if fullline == [] {
      return Err(EmptyLine);
    }
    if fullline[0] == ' ' {
      fullline := fullline[1..];
    }
    return Ok(fullline);
  }

  /** The left-side passes, one mark at a time. */
  method MoveMarks(line: string, marks: seq<string>) returns (fullline: string)
    requires forall k :: 0 <= k < |marks| ==> marks[k] != []
    ensures fullline == MoveLeftMarks(line, marks)
  {
    fullline := line;
    for k := 0 to |marks|
      invariant MoveLeftMarks(fullline, marks[k..]) == MoveLeftMarks(line, marks)
    {
      var punc := marks[k];
      assert marks[k..][1..] == marks[k + 1..];
      fullline := ReplaceAll(fullline, punc + " ", " " + punc);
    }
  }

  /** The no-space passes, one mark at a time. */
  method JoinMarks(line: string, marks: seq<string>) returns (fullline: string)
    requires forall k :: 0 <= k < |marks| ==> marks[k] != []
    ensures fullline == JoinNoSpaceMarks(line, marks)
  {
    fullline := line;
    for k := 0 to |marks|
      invariant JoinNoSpaceMarks(fullline, marks[k..]) == JoinNoSpaceMarks(line, marks)
    {
      var punc := marks[k];
      assert marks[k..][1..] == marks[k + 1..];
      fullline := ReplaceAll(fullline, punc + " ", punc);
    }
  }

  /** One morph: its fields are read, the gloss takes the text's boundary hyphens, a row is added. */
  method AppendMorph(morphs: seq<string>, cfs: seq<string>, glosses: seq<string>, items: seq<Item>)
    returns (linemorphs: seq<string>, linecfs: seq<string>, lineglosses: seq<string>)
    requires |morphs| == |cfs| == |glosses|
    ensures |linemorphs| == |linecfs| == |lineglosses|
    ensures Zip(linemorphs, linecfs, lineglosses) == Zip(morphs, cfs, glosses) + [MorphRow(items)]
  {
    var txt, cf, gls := ReadMorph(items);
    gls := PropagateHyphens(txt, gls);
    ZipAppend(morphs, cfs, glosses, txt, cf, gls);
    linemorphs, linecfs, lineglosses := morphs + [txt], cfs + [cf], glosses + [gls];
  }

  /** The conditional edits that give the gloss the morpheme text's boundary hyphens. */
  method PropagateHyphens(txt: string, gls0: string) returns (gls: string)
    ensures gls == MirrorHyphens(txt, gls0)
  {
    gls := gls0;
    if |txt| > 0 && |gls| > 0 {
      if txt[0] == '-' && gls[0] != '-' {
        gls := "-" + gls;
      }
      if txt[|txt| - 1] == '-' && gls[|gls| - 1] != '-' {
        gls := gls + "-";
      }
    }
  }

  /** Appending one entry to each tier appends one row. */
  lemma ZipAppend(a: seq<string>, b: seq<string>, c: seq<string>, x: string, y: string, z: string)
    requires |a| == |b| == |c|
    ensures Zip(a + [x], b + [y], c + [z]) == Zip(a, b, c) + [Row(x, y, z)]
  {
  }

  /** One `morphemes` group: a row per morph, then the separator row. */
  method AppendGroup(morphs: seq<string>, cfs: seq<string>, glosses: seq<string>, group: seq<Morph>)
    returns (linemorphs: seq<string>, linecfs: seq<string>, lineglosses: seq<string>)
    requires |morphs| == |cfs| == |glosses|
    ensures |linemorphs| == |linecfs| == |lineglosses|
    ensures Zip(linemorphs, linecfs, lineglosses) == Zip(morphs, cfs, glosses) + GroupRows(group)
  {
    linemorphs, linecfs, lineglosses := morphs, cfs, glosses;
    var i := 0;
    while i < |group|
      invariant 0 <= i <= |group|
      invariant |linemorphs| == |linecfs| == |lineglosses|
      invariant Zip(linemorphs, linecfs, lineglosses) == Zip(morphs, cfs, glosses) + MorphRows(group[..i])
    {
      assert MorphRows(group[..i + 1]) == MorphRows(group[..i]) + [MorphRow(group[i])];
      linemorphs, linecfs, lineglosses := AppendMorph(linemorphs, linecfs, lineglosses, group[i]);
      i := i + 1;
    }
    assert group[..i] == group;
    linemorphs, linecfs, lineglosses := linemorphs + [" "], linecfs + [" "], lineglosses + [" "];
  }

  /** The translation lookup after a group: the first `gls` item of the phrase, quoted. */
  method TakeTranslation(current: string, items: seq<Item>) returns (translation: string)
    ensures translation == NextTranslation(current, items)
  {
    translation := current;
    var i := 0;
    while i < |items|
      invariant 0 <= i <= |items|
      invariant forall j :: 0 <= j < i ==> items[j].kind != Some("gls")
    {
      if items[i].kind == Some("gls") {
        var t := items[i].text.GetOr("");
        translation := EncloseSingle(t);
        return;
      }
      i := i + 1;
    }
  }

  /** The first half of a phrase: its words appended to the line, then the post-processing. */
  method PhraseLine(line: string, log: seq<string>, ph: Phrase) returns (r: Result<string>, stderr: seq<string>)
    ensures r == NextLine(line, ph)
    ensures r.Ok? ==> stderr == log + WordsWarnings(ph.words)
  {
    var ok, fullline;
    ok, fullline, stderr := AppendWords(line, log, ph.words);
    if !ok {
      return Err(WordWithoutText), stderr;
    }
    r := PostProcess(fullline);
  }

  /**
   * The second half of a phrase: for every group of the paragraph, the group's rows and
   * then the translation lookup in the phrase's items.
   */
  method PhraseGroups(b: Buffers, items: seq<Item>, groups: seq<seq<Morph>>) returns (r: Buffers)
    requires b.Aligned()
    ensures r.Aligned() && r.Rows() == b.Rows() + GroupsRows(groups)
    ensures r.translation == if groups == [] then b.translation else NextTranslation(b.translation, items)
    ensures r.fullline == b.fullline && r.stderr == b.stderr
  {
    var linemorphs, linecfs, lineglosses, translation := b.linemorphs, b.linecfs, b.lineglosses, b.translation;
    ghost var before := b.Rows();
    var g := 0;
    while g < |groups|
      invariant 0 <= g <= |groups|
      invariant |linemorphs| == |linecfs| == |lineglosses|
      invariant Zip(linemorphs, linecfs, lineglosses) == before + GroupsRows(groups[..g])
      invariant translation == if g == 0 then b.translation else NextTranslation(b.translation, items)
    {
      ghost var rows0 := Zip(linemorphs, linecfs, lineglosses);
      linemorphs, linecfs, lineglosses := AppendGroup(linemorphs, linecfs, lineglosses, groups[g]);
      GroupsStep(before, groups, g, rows0, Zip(linemorphs, linecfs, lineglosses));
      translation := TakeTranslation(translation, items);
      NextTranslationIdempotent(b.translation, items);
      g := g + 1;
    }
    assert groups[..g] == groups;
    r := Buffers(b.fullline, linemorphs, linecfs, lineglosses, translation, b.stderr);
  }

  /** One more group's rows extend the rows of the groups before it. */
  lemma GroupsStep(before: seq<Row>, groups: seq<seq<Morph>>, g: nat, rows0: seq<Row>, rows1: seq<Row>)
    requires g < |groups|
    requires rows0 == before + GroupsRows(groups[..g])
    requires rows1 == rows0 + GroupRows(groups[g])
    ensures rows1 == before + GroupsRows(groups[..g + 1])
  {
    assert groups[..g + 1][..g] == groups[..g];
    assert (before + GroupsRows(groups[..g])) + GroupRows(groups[g])
      == before + (GroupsRows(groups[..g]) + GroupRows(groups[g]));
  }

  /** One phrase of the paragraph loop. */
  method AddPhrase(b: Buffers, ph: Phrase, groups: seq<seq<Morph>>) returns (r: Result<Buffers>)
    requires b.Aligned()
    ensures r.Ok? <==> NextLine(b.fullline, ph).Ok?
    ensures r.Err? ==> NextLine(b.fullline, ph) == Err(r.failure)
    ensures r.Ok? ==> r.value.Aligned() && r.value.fullline == NextLine(b.fullline, ph).value
    ensures r.Ok? ==> r.value.Rows() == b.Rows() + GroupsRows(groups)
    ensures r.Ok? ==> r.value.translation == if groups == [] then b.translation else NextTranslation(b.translation, ph.items)
    ensures r.Ok? ==> r.value.stderr == b.stderr + WordsWarnings(ph.words)
  {
    var line, stderr := PhraseLine(b.fullline, b.stderr, ph);
    if line.Err? {
      return Err(line.failure);
    }
    var next := PhraseGroups(b.(fullline := line.value, stderr := stderr), ph.items, groups);
    return Ok(next);
  }

  /**
   * One paragraph: its phrases are resolved, every phrase is added to fresh buffers, and the
   * block is rendered from them. Returns the phrases left bound for the next paragraph.
   */
  method ProcessParagraph(p: ParagraphInput, stale: Binding<seq<Phrase>>, exLabel: string, fourline: bool)
    returns (r: Result<Written>, phrases: Binding<seq<Phrase>>)
    ensures phrases == ResolvePhrases(p.block, stale)
    ensures r == ParagraphOutput(p, stale, exLabel, fourline)
  {
    var b := Fresh;
    phrases := stale;
    if p.block.Some? {
      phrases := Bound(p.block.value.wordChildren + p.block.value.phraseChildren);
    }
    if phrases.Unbound? {
      return Err(NoPhrases), phrases;
    }
    var ps := phrases.value;
    var i := 0;
    while i < |ps|
      invariant 0 <= i <= |ps|
      invariant b.Aligned()
      invariant LineAfter(ps[..i]) == Ok(b.fullline)
      invariant b.Rows() == RowsAfter(ps[..i], p.groups)
      invariant b.translation == TranslationAfter(ps[..i], p.groups)
      invariant b.stderr == WarningsAfter(ps[..i])
    {
      PhraseStep(ps, i, b.fullline, p.groups);
      var next := AddPhrase(b, ps[i], p.groups);
      if next.Err? {
        FailurePersists(ps, i + 1);
        return Err(next.failure), phrases;
      }
      b := next.value;
      i := i + 1;
    }
    assert ps[..i] == ps;
    ZipSplit(b.linemorphs, b.linecfs, b.lineglosses);
    var block := RenderBlock(exLabel, fourline, b.fullline, b.linemorphs, b.linecfs, b.lineglosses, b.translation);
    r := Ok(Written(block, b.stderr));
  }
}
