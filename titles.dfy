/**
 * The title of one interlinear text: which title item is used, the file-name and heading
 * versions made from it, the renaming on a name clash, and the master-index entry.
 */
module Titles {
  import opened Types
  import opened Strings

  /** A direct `item` child of an `interlinear-text`: `type` and `lang` attributes and text. */
  datatype TitleItem = TitleItem(kind: Option<string>, lang: Option<string>, text: Option<string>)

  /** Language code of the preferred title (set up for the language of the corpus). */
  const TitleLang: string := "iqu"

  /** Characters Windows rejects in file names (the backslash included) ... */
  const BadWin: seq<char> := ":\"%/<>^|\\?*"
  /** ... and characters LaTeX mishandles in a file name. */
  const BadTex: seq<char> := "()# "
  const IllegalChars: seq<char> := BadWin + BadTex

  /** Characters removed from the title used as a LaTeX heading. */
  const BadTitle: seq<char> := "_#"

  predicate IsTitle(it: TitleItem)
  {
    it.kind == Some("title")
  }

  predicate IsPreferred(it: TitleItem)
  {
    IsTitle(it) && it.lang == Some(TitleLang)
  }

  /** Index of the first title item in the preferred language. */
  function FirstPreferred(items: seq<TitleItem>): (r: Option<nat>)
    ensures r.Some? ==> r.value < |items| && IsPreferred(items[r.value])
    ensures r.Some? ==> forall j :: 0 <= j < r.value ==> !IsPreferred(items[j])
    ensures r.None? ==> forall j :: 0 <= j < |items| ==> !IsPreferred(items[j])
  {
    if items == [] then None
    else if IsPreferred(items[0]) then Some(0)
    else match FirstPreferred(items[1..])
      case None => None
      case Some(k) => Some(k + 1)
  }

  /** Index of the last title item. */
  function LastTitle(items: seq<TitleItem>): (r: Option<nat>)
    ensures r.Some? ==> r.value < |items| && IsTitle(items[r.value])
    ensures r.Some? ==> forall j :: r.value < j < |items| ==> !IsTitle(items[j])
    ensures r.None? ==> forall j :: 0 <= j < |items| ==> !IsTitle(items[j])
  {
    if items == [] then None
    else if IsTitle(items[|items| - 1]) then Some(|items| - 1)
    else LastTitle(items[..|items| - 1])
  }

  /**
   * The raw title of a text: the first title in the preferred language; failing that the
   * last title item; and for a text without title items, whatever an earlier text left.
   */
  function ChosenTitle(items: seq<TitleItem>, prev: Binding<Option<string>>): Binding<Option<string>>
  {
    match FirstPreferred(items)
    case Some(i) => Bound(items[i].text)
    case None =>
      match LastTitle(items)
      case Some(i) => Bound(items[i].text)
      case None => prev
  }

  /** The title scan: every title item overwrites `rawtitle`; one in the preferred language ends the scan. */
  method SelectTitle(items: seq<TitleItem>, prev: Binding<Option<string>>) returns (rawtitle: Binding<Option<string>>)
    ensures rawtitle == ChosenTitle(items, prev)
  {
    rawtitle := prev;
    var i := 0;
    while i < |items|
      invariant 0 <= i <= |items|
      invariant forall j :: 0 <= j < i ==> !IsPreferred(items[j])
      invariant rawtitle == match LastTitle(items[..i])
        case Some(k) => Bound(items[k].text)
        case None => prev
    {
      assert items[..i + 1][..i] == items[..i];
      if IsTitle(items[i]) {
        rawtitle := Bound(items[i].text);
        if items[i].lang == Some(TitleLang) {
          return;
        }
      }
      i := i + 1;
    }
    assert items[..i] == items;
  }

  /** The title used for file names and labels: every illegal character becomes `_`. */
  function FileTitle(raw: string): (title: string)
    ensures |title| == |raw|
    ensures forall i :: 0 <= i < |raw| ==> title[i] == if raw[i] in IllegalChars then '_' else raw[i]
    ensures forall i :: 0 <= i < |title| ==> title[i] !in IllegalChars
  {
    ReplaceEachIsReplaced(raw, IllegalChars, "_");
    ReplacedPointwise(raw, IllegalChars, '_');
    ReplaceEach(raw, IllegalChars, "_")
  }

  /** The title used as the LaTeX heading: `_` and `#` are deleted, everything else kept in order. */
  function HeadingTitle(raw: string): (textitle: string)
    ensures textitle == Replaced(raw, BadTitle, "")
    ensures forall i :: 0 <= i < |textitle| ==> textitle[i] != '_' && textitle[i] != '#'
    ensures forall c :: c != '_' && c != '#' ==> multiset(textitle)[c] == multiset(raw)[c]
  {
    ReplaceEachIsReplaced(raw, BadTitle, "");
    ReplacedDeletes(raw, BadTitle);
    ReplaceEach(raw, BadTitle, "")
  }

  /** The file the renaming loop lands on, when it lands at all. */
  function FileName(title: string, existing: set<string>): (titleascii: string)
    requires title + ".tex" in existing ==> title + "2" + ".tex" !in existing
    ensures titleascii + ".tex" !in existing
    ensures titleascii == title || titleascii == title + "2"
    ensures titleascii == title <==> title + ".tex" !in existing
  {
    if title + ".tex" in existing then title + "2" else title
  }

  /**
   * The renaming loop: while a file of that name exists the name becomes `title + "2"`. It
   * ends only if that second name is free, which is what is required here.
   */
  method ResolveCollision(title: string, existing: set<string>) returns (titleascii: string)
    requires title + ".tex" in existing ==> title + "2" + ".tex" !in existing
    ensures titleascii == FileName(title, existing)
  {
    titleascii := title;
    while titleascii + ".tex" in existing
      invariant titleascii == title || (titleascii == title + "2" && title + ".tex" in existing)
      decreases if titleascii == title then 1 else 0
    {
      titleascii := title + "2";
    }
  }

  /** First line of the master index: the `\texttitle` command. */
  const IndexHeader: string := "\\newcommand{\\texttitle}[1]{\\chapter{#1}\\setcounter{equation}{0}}\n"

  /** The `\input` line for a file name; the name can be read back from it. */
  function InputLine(name: string): (r: string)
    ensures |r| == |name| + 9 && r[7..|r| - 2] == name
  {
    "\\input{" + name + "}\n"
  }

  /**
   * The master-index entry as the script writes it: it names the unsuffixed title, so it
   * inputs the file written for the text exactly when that file was not renamed.
   */
  function IndexEntryAsWritten(title: string, existing: set<string>): (r: string)
    requires title + ".tex" in existing ==> title + "2" + ".tex" !in existing
    ensures r == InputLine(title)
    ensures r == InputLine(FileName(title, existing)) <==> title + ".tex" !in existing
  {
    InputLine(title)
  }

  /**
   * The master-index entry naming the file actually written for the text; it agrees with the
   * entry as written exactly when the title was free.
   */
  function IndexEntry(title: string, existing: set<string>): (r: string)
    requires title + ".tex" in existing ==> title + "2" + ".tex" !in existing
    ensures r == InputLine(FileName(title, existing))
    ensures r == IndexEntryAsWritten(title, existing) <==> title + ".tex" !in existing
  {
    InputLine(FileName(title, existing))
  }

  /**
   * Two texts titled "Story": the second is written to `Story2.tex`, yet the entry the script
   * writes for it inputs `Story` again, so the second text never reaches the book.
   */
  lemma AsWrittenIndexSkipsRenamedFile()
    ensures FileName("Story", {}) == "Story"
    ensures FileName("Story", {"Story.tex"}) == "Story2"
    ensures IndexEntryAsWritten("Story", {"Story.tex"}) == IndexEntryAsWritten("Story", {})
    ensures IndexEntry("Story", {"Story.tex"}) != IndexEntry("Story", {})
  {
    assert "Story" + ".tex" == "Story.tex";
    assert |"Story" + "2" + ".tex"| != |"Story.tex"|;
  }
}
