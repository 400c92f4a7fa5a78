/**
 * The whole conversion: every `interlinear-text` of the export becomes one `.tex` file headed
 * by its title, holding one `exe` block per paragraph, and the master index `__inputs.tex`
 * gets one `\input` line per text.
 */
module Document {
  import opened Types
  import opened Titles
  import opened Paragraphs
  import opened Strings

  /** An `interlinear-text`: its direct title items and its paragraphs, in document order. */
  datatype Text = Text(items: seq<TitleItem>, paragraphs: seq<ParagraphInput>)

  /**
   * A file written for one text: its name without the `.tex` extension, the sanitised title
   * that name was made from (the name is the title, or the title with `2` appended), and its
   * content.
   */
  datatype TexFile = TexFile(base: string, title: string, content: string)

  /** The master index, written into the same output directory as the texts. */
  const MasterFileName: string := "__inputs.tex"

  /**
   * What the script carries from one text to the next: the files written so far, the master
   * index, the standard-error log, the names present in the output directory, and the two
   * variables a later text may read without setting them, `rawtitle` and `phrases`.
   */
  datatype Run = Run(files: seq<TexFile>, index: string, stderr: seq<string>, existing: set<string>,
                     rawtitle: Binding<Option<string>>, phrases: Binding<seq<Phrase>>)

  /** The paragraph blocks of one text so far, their diagnostics, and the `phrases` left bound. */
  datatype Body = Body(text: string, stderr: seq<string>, phrases: Binding<seq<Phrase>>)

  /** The paragraphs of one text, in order; the first failing paragraph ends the run. */
  function BodyAfter(ps: seq<ParagraphInput>, stale: Binding<seq<Phrase>>, exLabel: string, fourline: bool): Result<Body>
  {
    if ps == [] then Ok(Body("", [], stale))
    else match BodyAfter(ps[..|ps| - 1], stale, exLabel, fourline)
      case Err(f) => Err(f)
      case Ok(body) =>
        var p := ps[|ps| - 1];
        match ParagraphOutput(p, body.phrases, exLabel, fourline)
        case Err(f) => Err(f)
        case Ok(w) => Ok(Body(body.text + w.block, body.stderr + w.stderr, ResolvePhrases(p.block, body.phrases)))
  }

  /** The first line of a text's file: the title, stripped of `_` and `#`, as a `\texttitle`. */
  function Heading(raw: string): (r: string)
    ensures |r| == |HeadingTitle(raw)| + 13
    ensures r[..11] == "\\texttitle{" && r[11..|r| - 2] == HeadingTitle(raw) && r[|r| - 2..] == "}\n"
    ensures forall i :: 11 <= i < |r| - 2 ==> r[i] != '_' && r[i] != '#'
  {
    "\\texttitle{" + HeadingTitle(raw) + "}\n"
  }

  /**
   * One text: its title is chosen (or carried over), sanitised, and given a free file name;
   * the file holds the heading and then the paragraph blocks, labelled with the file title.
   * A name whose suffixed form is taken as well is where the script would loop for ever.
   * With `fixIndex` false the index line is the script's, which inputs the unsuffixed title;
   * with `fixIndex` true it is the corrected one, which inputs the file actually written.
   */
  function TextOutput(t: Text, run: Run, fourline: bool, fixIndex: bool): Result<Run>
  {
    match ChosenTitle(t.items, run.rawtitle)
    case Unbound => Err(NoTitle)
    case Bound(None) => Err(TitleWithoutText)
    case Bound(Some(raw)) =>
      var title := FileTitle(raw);
      if title + ".tex" in run.existing && title + "2" + ".tex" in run.existing then Err(CollisionLoop)
      else
        var titleascii := FileName(title, run.existing);
        match BodyAfter(t.paragraphs, run.phrases, title, fourline)
        case Err(f) => Err(f)
        case Ok(body) =>
          var entry := if fixIndex then IndexEntry(title, run.existing) else IndexEntryAsWritten(title, run.existing);
          Ok(Run(run.files + [TexFile(titleascii, title, Heading(raw) + body.text)],
                 run.index + entry,
                 run.stderr + body.stderr,
                 run.existing + {titleascii + ".tex"},
                 Bound(Some(raw)), body.phrases))
  }

  /** Before the first text: only the index header is written, and nothing is bound yet. */
  function Start(existing: set<string>): Run
  {
    Run([], IndexHeader, [], existing + {MasterFileName}, Unbound, Unbound)
  }

  /** The texts of the export, in order, starting from an output directory holding `existing`. */
  function DocumentAfter(texts: seq<Text>, fourline: bool, existing: set<string>, fixIndex: bool): Result<Run>
  {
    if texts == [] then Ok(Start(existing))
    else match DocumentAfter(texts[..|texts| - 1], fourline, existing, fixIndex)
      case Err(f) => Err(f)
      case Ok(run) => TextOutput(texts[|texts| - 1], run, fourline, fixIndex)
  }

  /** The paragraph loop of one text. */
  method ConvertParagraphs(ps: seq<ParagraphInput>, stale: Binding<seq<Phrase>>, exLabel: string, fourline: bool)
    returns (r: Result<Body>)
    ensures r == BodyAfter(ps, stale, exLabel, fourline)
  {
    var text, log, phrases := "", [], stale;
    var i := 0;
    while i < |ps|
      invariant 0 <= i <= |ps|
      invariant BodyAfter(ps[..i], stale, exLabel, fourline) == Ok(Body(text, log, phrases))
    {
      var w, bound := ProcessParagraph(ps[i], phrases, exLabel, fourline);
      BodyStep(ps, i, stale, exLabel, fourline, Body(text, log, phrases), w, bound);
      if w.Err? {
        return Err(w.failure);
      }
      text, log, phrases := text + w.value.block, log + w.value.stderr, bound;
      i := i + 1;
    }
    assert ps[..i] == ps;
    r := Ok(Body(text, log, phrases));
  }

  /** One more paragraph: its block and diagnostics are appended, or its failure ends the text. */
  lemma BodyStep(ps: seq<ParagraphInput>, i: nat, stale: Binding<seq<Phrase>>, exLabel: string, fourline: bool,
                 body: Body, w: Result<Written>, bound: Binding<seq<Phrase>>)
    requires i < |ps| && BodyAfter(ps[..i], stale, exLabel, fourline) == Ok(body)
    requires w == ParagraphOutput(ps[i], body.phrases, exLabel, fourline)
    requires bound == ResolvePhrases(ps[i].block, body.phrases)
    ensures w.Err? ==> BodyAfter(ps, stale, exLabel, fourline) == Err(w.failure)
    ensures w.Ok? ==> BodyAfter(ps[..i + 1], stale, exLabel, fourline) == Ok(Body(body.text + w.value.block, body.stderr + w.value.stderr, bound))
  {
    assert ps[..i + 1][..i] == ps[..i];
    if w.Err? {
      BodyFailurePersists(ps, i + 1, stale, exLabel, fourline);
    }
  }

  /** A failing paragraph fails its text with that failure. */
  lemma {:induction false} BodyFailurePersists(ps: seq<ParagraphInput>, i: nat, stale: Binding<seq<Phrase>>, exLabel: string, fourline: bool)
    requires i <= |ps| && BodyAfter(ps[..i], stale, exLabel, fourline).Err?
    ensures BodyAfter(ps, stale, exLabel, fourline) == BodyAfter(ps[..i], stale, exLabel, fourline)
    decreases |ps|
  {
    if i < |ps| {
      var init := ps[..|ps| - 1];
      assert init[..i] == ps[..i];
      BodyFailurePersists(init, i, stale, exLabel, fourline);
    } else {
      assert ps[..i] == ps;
    }
  }

  /** The body of the text loop: title, file name, heading, index entry, then the paragraphs. */
  method ConvertText(t: Text, run: Run, fourline: bool, fixIndex: bool) returns (r: Result<Run>)
    ensures r == TextOutput(t, run, fourline, fixIndex)
  {
    var rawtitle := SelectTitle(t.items, run.rawtitle);
    if rawtitle.Unbound? {
      return Err(NoTitle);
    }
    if rawtitle.value.None? {
      return Err(TitleWithoutText);
    }
    var raw := rawtitle.value.value;
    var title := FileTitle(raw);
    var textitle := HeadingTitle(raw);
    if title + ".tex" in run.existing && title + "2" + ".tex" in run.existing {
      return Err(CollisionLoop);
    }
    var titleascii := ResolveCollision(title, run.existing);
    var content := "\\texttitle{" + textitle + "}\n";
    var index := run.index + if fixIndex then IndexEntry(title, run.existing) else IndexEntryAsWritten(title, run.existing);
    var body := ConvertParagraphs(t.paragraphs, run.phrases, title, fourline);
    if body.Err? {
      return Err(body.failure);
    }
    content := content + body.value.text;
    r := Ok(Run(run.files + [TexFile(titleascii, title, content)], index, run.stderr + body.value.stderr,
                run.existing + {titleascii + ".tex"}, rawtitle, body.value.phrases));
  }

  /** The whole script after the input is parsed: the index header, then every text in order. */
  method ConvertDocument(texts: seq<Text>, fourline: bool, existing: set<string>, fixIndex: bool) returns (r: Result<Run>)
    ensures r == DocumentAfter(texts, fourline, existing, fixIndex)
  {
    var run := Start(existing);
    var i := 0;
    while i < |texts|
      invariant 0 <= i <= |texts|
      invariant DocumentAfter(texts[..i], fourline, existing, fixIndex) == Ok(run)
    {
      var next := ConvertText(texts[i], run, fourline, fixIndex);
      DocumentStep(texts, i, fourline, existing, fixIndex, run, next);
      if next.Err? {
        return Err(next.failure);
      }
      run := next.value;
      i := i + 1;
    }
    assert texts[..i] == texts;
    r := Ok(run);
  }

  /** One more text: the run goes on from its outcome, or its failure ends the run. */
  lemma DocumentStep(texts: seq<Text>, i: nat, fourline: bool, existing: set<string>, fixIndex: bool, run: Run, next: Result<Run>)
    requires i < |texts| && DocumentAfter(texts[..i], fourline, existing, fixIndex) == Ok(run)
    requires next == TextOutput(texts[i], run, fourline, fixIndex)
    ensures next.Err? ==> DocumentAfter(texts, fourline, existing, fixIndex) == next
    ensures next.Ok? ==> DocumentAfter(texts[..i + 1], fourline, existing, fixIndex) == next
  {
    assert texts[..i + 1][..i] == texts[..i];
    if next.Err? {
      DocumentFailurePersists(texts, i + 1, fourline, existing, fixIndex);
    }
  }

  /** A failing text ends the whole run with that failure. */
  lemma {:induction false} DocumentFailurePersists(texts: seq<Text>, i: nat, fourline: bool, existing: set<string>, fixIndex: bool)
    requires i <= |texts| && DocumentAfter(texts[..i], fourline, existing, fixIndex).Err?
    ensures DocumentAfter(texts, fourline, existing, fixIndex) == DocumentAfter(texts[..i], fourline, existing, fixIndex)
    decreases |texts|
  {
    if i < |texts| {
      var init := texts[..|texts| - 1];
      assert init[..i] == texts[..i];
      DocumentFailurePersists(init, i, fourline, existing, fixIndex);
    } else {
      assert texts[..i] == texts;
    }
  }

  /** The names of the files written so far. */
  function Names(files: seq<TexFile>): set<string>
  {
    set i | 0 <= i < |files| :: files[i].base + ".tex"
  }

  /** The `\input` lines naming the files written so far, in order. */
  function IndexOf(files: seq<TexFile>): string
  {
    if files == [] then "" else IndexOf(files[..|files| - 1]) + InputLine(files[|files| - 1].base)
  }

  /** The `\input` lines naming the titles the files were made from, in order. */
  function TitleIndexOf(files: seq<TexFile>): string
  {
    if files == [] then "" else TitleIndexOf(files[..|files| - 1]) + InputLine(files[|files| - 1].title)
  }

  /** A file that got the suffixed name because its title was taken. */
  predicate Renamed(f: TexFile)
  {
    f.base != f.title
  }

  /**
   * The state of the output directory after some texts: it holds what was there before, the
   * master index and the files written; no file overwrote an earlier one or a file that was
   * there before; every file is named after its title, suffixed or not; and the index inputs
   * every file written, in order (corrected), or every title, in order (as written).
   */
  predicate Consistent(run: Run, existing: set<string>, fixIndex: bool)
  {
    && run.existing == existing + {MasterFileName} + Names(run.files)
    && (forall i :: 0 <= i < |run.files| ==> run.files[i].base + ".tex" !in existing + {MasterFileName})
    && (forall i, j :: 0 <= i < j < |run.files| ==> run.files[i].base != run.files[j].base)
    && (forall i :: 0 <= i < |run.files| ==>
          run.files[i].base == run.files[i].title || run.files[i].base == run.files[i].title + "2")
    && run.index == IndexHeader + (if fixIndex then IndexOf(run.files) else TitleIndexOf(run.files))
  }

  /** One text keeps the directory consistent, adds one file and keeps the earlier ones. */
  lemma TextConsistent(t: Text, run: Run, fourline: bool, existing: set<string>, fixIndex: bool)
    requires Consistent(run, existing, fixIndex)
    ensures TextOutput(t, run, fourline, fixIndex).Ok? ==>
      var next := TextOutput(t, run, fourline, fixIndex).value;
      Consistent(next, existing, fixIndex) && |next.files| == |run.files| + 1 && next.files[..|run.files|] == run.files
  {
    if TextOutput(t, run, fourline, fixIndex).Ok? {
      var next := TextOutput(t, run, fourline, fixIndex).value;
      var f := next.files[|run.files|];
      AddFileConsistent(run, existing, fixIndex, f, next);
    }
  }

  /** Writing one file under a free name, and adding its index line, keeps consistency. */
  lemma AddFileConsistent(run: Run, existing: set<string>, fixIndex: bool, f: TexFile, next: Run)
    requires Consistent(run, existing, fixIndex)
    requires f.base + ".tex" !in run.existing
    requires f.base == f.title || f.base == f.title + "2"
    requires next.files == run.files + [f] && next.existing == run.existing + {f.base + ".tex"}
    requires next.index == run.index + InputLine(if fixIndex then f.base else f.title)
    ensures Consistent(next, existing, fixIndex) && next.files[..|run.files|] == run.files
  {
    var n := |run.files|;
    assert next.files[..n] == run.files;
    NamesAppend(run.files, f);
    FreshNameDistinct(run.files, f);
    FilesAppend(run.files, f, next.files, existing + {MasterFileName});
    var line := InputLine(if fixIndex then f.base else f.title);
    var before := if fixIndex then IndexOf(run.files) else TitleIndexOf(run.files);
    AppendAssoc(IndexHeader, before, line, run.index, next.index);
  }

  /** The per-file clauses of consistency carry over to one more file that meets them. */
  lemma FilesAppend(files: seq<TexFile>, f: TexFile, next: seq<TexFile>, taken: set<string>)
    requires next == files + [f]
    requires forall i :: 0 <= i < |files| ==> files[i].base + ".tex" !in taken
    requires forall i, j :: 0 <= i < j < |files| ==> files[i].base != files[j].base
    requires forall i :: 0 <= i < |files| ==> files[i].base == files[i].title || files[i].base == files[i].title + "2"
    requires forall i :: 0 <= i < |files| ==> files[i].base != f.base
    requires f.base + ".tex" !in taken
    requires f.base == f.title || f.base == f.title + "2"
    ensures forall i :: 0 <= i < |next| ==> next[i].base + ".tex" !in taken
    ensures forall i, j :: 0 <= i < j < |next| ==> next[i].base != next[j].base
    ensures forall i :: 0 <= i < |next| ==> next[i].base == next[i].title || next[i].base == next[i].title + "2"
  {
    forall i | 0 <= i < |next| ensures next[i] == if i < |files| then files[i] else f {
    }
  }

  /** A file written under a name not yet taken differs from every file written before it. */
  lemma FreshNameDistinct(files: seq<TexFile>, f: TexFile)
    requires f.base + ".tex" !in Names(files)
    ensures forall i :: 0 <= i < |files| ==> files[i].base != f.base
  {
    forall i | 0 <= i < |files| ensures files[i].base != f.base {
      assert files[i].base + ".tex" in Names(files);
    }
  }

  lemma NamesAppend(files: seq<TexFile>, f: TexFile)
    ensures Names(files + [f]) == Names(files) + {f.base + ".tex"}
  {
    var next := files + [f];
    forall x | x in Names(next) ensures x in Names(files) + {f.base + ".tex"} {
      var i :| 0 <= i < |next| && x == next[i].base + ".tex";
      if i < |files| {
        assert files[i] == next[i];
      }
    }
    forall x | x in Names(files) ensures x in Names(next) {
      var i :| 0 <= i < |files| && x == files[i].base + ".tex";
      assert next[i] == files[i];
    }
    assert next[|files|] == f;
  }

  /**
   * A run that gets through all texts has written one file per text, each under a name that
   * was free, none twice. With the corrected index line the master index inputs exactly those
   * files in order; with the line as written it inputs their titles in order.
   */
  lemma {:induction false} DocumentConsistent(texts: seq<Text>, fourline: bool, existing: set<string>, fixIndex: bool)
    ensures DocumentAfter(texts, fourline, existing, fixIndex).Ok? ==>
      var run := DocumentAfter(texts, fourline, existing, fixIndex).value;
      Consistent(run, existing, fixIndex) && |run.files| == |texts|
    decreases |texts|
  {
    if texts != [] && DocumentAfter(texts, fourline, existing, fixIndex).Ok? {
      var init := texts[..|texts| - 1];
      DocumentConsistent(init, fourline, existing, fixIndex);
      TextConsistent(texts[|texts| - 1], DocumentAfter(init, fourline, existing, fixIndex).value, fourline, existing, fixIndex);
    }
  }

  /**
   * The index of titles is never longer than the index of files, and is as long exactly when
   * no file was renamed, in which case the two are the same.
   */
  lemma {:induction false} IndexLengths(files: seq<TexFile>)
    requires forall i :: 0 <= i < |files| ==> files[i].base == files[i].title || files[i].base == files[i].title + "2"
    ensures |TitleIndexOf(files)| <= |IndexOf(files)|
    ensures |TitleIndexOf(files)| == |IndexOf(files)| <==> forall i :: 0 <= i < |files| ==> !Renamed(files[i])
    ensures (forall i :: 0 <= i < |files| ==> !Renamed(files[i])) ==> TitleIndexOf(files) == IndexOf(files)
    decreases |files|
  {
    if files != [] {
      var init, f := files[..|files| - 1], files[|files| - 1];
      IndexLengths(init);
      assert forall i :: 0 <= i < |init| ==> init[i] == files[i];
      if forall i :: 0 <= i < |init| ==> !Renamed(init[i]) {
        if !Renamed(f) {
          assert forall i :: 0 <= i < |files| ==> !Renamed(files[i]) by {
            forall i | 0 <= i < |files| ensures !Renamed(files[i]) {
              if i < |init| { assert !Renamed(init[i]); }
            }
          }
        }
      } else {
        var k :| 0 <= k < |init| && Renamed(init[k]);
        assert Renamed(files[k]);
      }
    }
  }

  /**
   * The script's own run: its master index inputs exactly the files written, in order, if and
   * only if no text had to be renamed. Once a title is taken, the renamed file is left out of
   * the index for good.
   */
  lemma AsWrittenIndexMissesRenamed(texts: seq<Text>, fourline: bool, existing: set<string>)
    ensures DocumentAfter(texts, fourline, existing, false).Ok? ==>
      var run := DocumentAfter(texts, fourline, existing, false).value;
      (run.index == IndexHeader + IndexOf(run.files) <==> forall i :: 0 <= i < |run.files| ==> !Renamed(run.files[i]))
  {
    DocumentConsistent(texts, fourline, existing, false);
    if DocumentAfter(texts, fourline, existing, false).Ok? {
      var run := DocumentAfter(texts, fourline, existing, false).value;
      IndexLengths(run.files);
      if run.index == IndexHeader + IndexOf(run.files) {
        assert |IndexHeader + TitleIndexOf(run.files)| == |IndexHeader + IndexOf(run.files)|;
      }
    }
  }
}
