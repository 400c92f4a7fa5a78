/**
 * The LaTeX text written for one paragraph: a gb4e `exe` block with the surface line, the
 * morpheme, citation-form and gloss tiers (four-line mode) and the free translation.
 */
module Render {
  import opened Strings

  /** `hash_escape`: every `#` becomes `\#`. */
  function HashEscape(s: string): (r: string)
    ensures r == Replaced(s, "#", "\\#")
    ensures |r| == |s| + Count(s, '#')
  {
    ReplaceAllOneChar(s, '#', "\\#");
    ReplacedLength(s, '#', "\\#");
    ReplaceAll(s, "#", "\\#")
  }

  /** Undoes the escape: `\#` becomes `#` again. */
  function Unescape(r: string): string
  {
    ReplaceAll(r, "\\#", "#")
  }

  lemma HashEscapeAppend(a: string, b: string)
    ensures HashEscape(a + b) == HashEscape(a) + HashEscape(b)
  {
    ReplacedAppend(a, b, "#", "\\#");
  }

  /** Escaping leaves everything but `#` alone, so `\#` read back from the left gives the text. */
  lemma {:induction false} UnescapeHashEscape(s: string)
    ensures Unescape(HashEscape(s)) == s
    decreases |s|
  {
    if s != [] {
      var t := s[1..];
      UnescapeHashEscape(t);
      assert s == [s[0]] + t;
      HashEscapeAppend([s[0]], t);
      var e := HashEscape(t);
      assert e == [] || e[0] != '#' by {
        if t != [] {
          assert e == (if t[0] == '#' then "\\#" else [t[0]]) + Replaced(t[1..], "#", "\\#");
        }
      }
      if s[0] == '#' {
        assert HashEscape(s) == "\\#" + e;
        assert ("\\#" + e)[..2] == "\\#" && ("\\#" + e)[2..] == e;
      } else {
        assert HashEscape(s) == [s[0]] + e;
        assert ([s[0]] + e)[1..] == e;
        if |[s[0]] + e| >= 2 {
          assert ([s[0]] + e)[..2] != "\\#" by {
            assert ([s[0]] + e)[..2][1] == e[0];
          }
        }
      }
    }
  }

  /** `enclose_single`: an empty translation stays empty, any other is put between ` and '. */
  function EncloseSingle(x: string): (r: string)
    ensures x == "" ==> r == ""
    ensures x != "" ==> |r| == |x| + 2 && r[0] == '`' && r[|r| - 1] == '\'' && r[1..|r| - 1] == x
  {
    if |x| == 0 then x else "`" + x + "'"
  }

  /** An empty gloss is written as the empty group `{}`; every gloss is escaped. */
  function GlossCell(g: string): (r: string)
    ensures r != []
    ensures g == "" ==> r == "{}"
    ensures g != "" ==> r == HashEscape(g)
  {
    ReplacedNoop("{}", "#", "\\#");
    HashEscape(if g == "" then "{}" else g)
  }

  /** The escaped cells of a morpheme or citation-form tier, written with no separator. */
  function TierCells(cells: seq<string>): string
  {
    if cells == [] then [] else TierCells(cells[..|cells| - 1]) + HashEscape(cells[|cells| - 1])
  }

  function GlossCells(cells: seq<string>): string
  {
    if cells == [] then [] else GlossCells(cells[..|cells| - 1]) + GlossCell(cells[|cells| - 1])
  }

  /** Writing the cells one by one is escaping their concatenation. */
  lemma {:induction false} TierCellsConcat(cells: seq<string>)
    ensures TierCells(cells) == HashEscape(Concat(cells))
    decreases |cells|
  {
    if cells != [] {
      TierCellsConcat(cells[..|cells| - 1]);
      HashEscapeAppend(Concat(cells[..|cells| - 1]), cells[|cells| - 1]);
    }
  }

  /** The gloss tier is the escaped concatenation with `{}` standing in for each empty gloss. */
  lemma {:induction false} GlossCellsConcat(cells: seq<string>)
    ensures GlossCells(cells) == HashEscape(Concat(Placeheld(cells)))
    decreases |cells|
  {
    if cells != [] {
      var init := cells[..|cells| - 1];
      GlossCellsConcat(init);
      assert Placeheld(cells)[..|cells| - 1] == Placeheld(init);
      HashEscapeAppend(Concat(Placeheld(init)), Placeheld(cells)[|cells| - 1]);
    }
  }

  /** The glosses with each empty one replaced by `{}`. */
  function Placeheld(cells: seq<string>): (r: seq<string>)
    ensures |r| == |cells|
    ensures forall i :: 0 <= i < |cells| ==> r[i] == if cells[i] == "" then "{}" else cells[i]
  {
    seq(|cells|, i requires 0 <= i < |cells| => if cells[i] == "" then "{}" else cells[i])
  }

  /** End of a gb4e line: two backslashes and a newline. */
  const LineEnd: string := "\\\\\n"

  /** Opening of a block: the `exe` environment and the label. */
  function BlockHead(exLabel: string): string
  {
    "\\begin{exe}\n" + "\\label{ex:" + exLabel + "} \\ex\n"
  }

  /** Between head and tail: the `\glll` switch, the surface line and, in four-line mode, the tiers. */
  function BlockLines(fourline: bool, fullline: string,
                      linemorphs: seq<string>, linecfs: seq<string>, lineglosses: seq<string>): string
  {
    (if fourline then "\\glll \n" else "")
    + HashEscape(fullline) + LineEnd
    + (if fourline
       then TierCells(linemorphs) + LineEnd + TierCells(linecfs) + LineEnd + GlossCells(lineglosses) + LineEnd
       else "")
  }

  /** Closing of a block: the escaped translation and the end of the environment. */
  function BlockTail(translation: string): string
  {
    "\\glt " + HashEscape(translation) + "\n" + "\\glend\n\\end{exe}\n\n"
  }

  /**
   * The block for one paragraph. The label is not escaped; the surface line, the tiers and
   * the translation are. Every block opens the environment under its label and closes it
   * after the translation.
   */
  function RenderBlock(exLabel: string, fourline: bool, fullline: string,
                       linemorphs: seq<string>, linecfs: seq<string>, lineglosses: seq<string>,
                       translation: string): (r: string)
    ensures |r| >= |BlockHead(exLabel)| + |BlockTail(translation)|
    ensures r[..|BlockHead(exLabel)|] == BlockHead(exLabel)
    ensures r[|r| - |BlockTail(translation)|..] == BlockTail(translation)
  {
    BlockHead(exLabel) + BlockLines(fourline, fullline, linemorphs, linecfs, lineglosses) + BlockTail(translation)
  }

  /**
   * Without the four-line option only the surface line and the translation are written, so
   * the tiers do not matter.
   */
  lemma TwoLineIgnoresTiers(exLabel: string, fullline: string, linemorphs: seq<string>, linecfs: seq<string>,
                            lineglosses: seq<string>, translation: string)
    ensures RenderBlock(exLabel, false, fullline, linemorphs, linecfs, lineglosses, translation)
         == BlockHead(exLabel) + (HashEscape(fullline) + LineEnd) + BlockTail(translation)
    ensures RenderBlock(exLabel, false, fullline, linemorphs, linecfs, lineglosses, translation)
         == RenderBlock(exLabel, false, fullline, [], [], [], translation)
  {
    assert BlockLines(false, fullline, linemorphs, linecfs, lineglosses) == HashEscape(fullline) + LineEnd;
  }

  /**
   * With the four-line option the three tier lines are the escaped concatenations of the
   * cells, with `{}` standing in for each empty gloss.
   */
  lemma FourLineTiers(exLabel: string, fullline: string, linemorphs: seq<string>, linecfs: seq<string>,
                      lineglosses: seq<string>, translation: string)
    ensures RenderBlock(exLabel, true, fullline, linemorphs, linecfs, lineglosses, translation)
         == BlockHead(exLabel)
            + ("\\glll \n" + HashEscape(fullline) + LineEnd
               + (HashEscape(Concat(linemorphs)) + LineEnd + HashEscape(Concat(linecfs)) + LineEnd
                  + HashEscape(Concat(Placeheld(lineglosses))) + LineEnd))
            + BlockTail(translation)
  {
    TierCellsConcat(linemorphs);
    TierCellsConcat(linecfs);
    GlossCellsConcat(lineglosses);
  }
}
