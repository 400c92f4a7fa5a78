/**
 * The morpheme, citation-form and gloss tiers: one row per `morph` element, read from its
 * items, and one separator row after each `morphemes` group.
 */
module Tiers {
  import opened Types
  import opened Strings
  import opened Gloss
  import opened Surface

  /** The items of one `morph` element, in document order. */
  type Morph = seq<Item>

  /** One position of the three tiers: morpheme text, citation form and gloss. */
  datatype Row = Row(txt: string, cf: string, gls: string)

  /** The row appended after every `morphemes` group. */
  const Separator: Row := Row(" ", " ", " ")

  /** Index of the last item of type `kind`: later items of the same type overwrite earlier ones. */
  function LastOfKind(items: seq<Item>, kind: string): (r: Option<nat>)
    ensures r.Some? ==> r.value < |items| && items[r.value].kind == Some(kind)
    ensures r.Some? ==> forall j :: r.value < j < |items| ==> items[j].kind != Some(kind)
    ensures r.None? ==> forall j :: 0 <= j < |items| ==> items[j].kind != Some(kind)
  {
    if items == [] then None
    else if items[|items| - 1].kind == Some(kind) then Some(|items| - 1)
    else LastOfKind(items[..|items| - 1], kind)
  }

  /** A field of a morph: the killspace'd text of its last item of that type, or "" if none. */
  function Field(items: seq<Item>, kind: string): string
  {
    match LastOfKind(items, kind)
    case None => ""
    case Some(i) => KillSpace(items[i].text)
  }

  /**
   * Reads the three fields of one morph by scanning its items; a gloss goes through killspace
   * and then toSmallCaps.
   */
  method ReadMorph(items: seq<Item>) returns (txt: string, cf: string, gls: string)
    ensures txt == Field(items, "txt") && cf == Field(items, "cf")
    ensures gls == SmallCaps(Field(items, "gls"))
  {
    txt, cf, gls := "", "", "";
    var i := 0;
    while i < |items|
      invariant 0 <= i <= |items|
      invariant txt == Field(items[..i], "txt") && cf == Field(items[..i], "cf")
      invariant gls == SmallCaps(Field(items[..i], "gls"))
    {
      var item := items[i];
      FieldStep(items, i, "txt");
      FieldStep(items, i, "cf");
      FieldStep(items, i, "gls");
      if item.kind.Some? {
        if item.kind.value == "txt" {
          txt := KillSpace(item.text);
        }
        if item.kind.value == "cf" {
          cf := KillSpace(item.text);
        }
        if item.kind.value == "gls" {
          gls := KillSpace(item.text);
          gls := ToSmallCaps(gls);
        }
      }
      i := i + 1;
    }
    assert items[..i] == items;
  }

  /** Reading one more item changes a field only when the item has that type. */
  lemma FieldStep(items: seq<Item>, i: nat, kind: string)
    requires i < |items|
    ensures Field(items[..i + 1], kind) ==
      if items[i].kind == Some(kind) then KillSpace(items[i].text) else Field(items[..i], kind)
  {
    assert items[..i + 1][..i] == items[..i];
  }

  /** The row for one morph: its fields, with the text's boundary hyphens mirrored on the gloss. */
  function MorphRow(items: seq<Item>): Row
  {
    var txt := Field(items, "txt");
    Row(txt, Field(items, "cf"), MirrorHyphens(txt, SmallCaps(Field(items, "gls"))))
  }

  /** The rows one `morphemes` group contributes: one per morph, then the separator. */
  function GroupRows(group: seq<Morph>): seq<Row>
  {
    MorphRows(group) + [Separator]
  }

  /** One row per morph, in order. */
  function MorphRows(morphs: seq<Morph>): (r: seq<Row>)
    ensures |r| == |morphs| && forall i :: 0 <= i < |morphs| ==> r[i] == MorphRow(morphs[i])
  {
    seq(|morphs|, i requires 0 <= i < |morphs| => MorphRow(morphs[i]))
  }

  /** The rows of all `morphemes` groups of a paragraph, in order. */
  function GroupsRows(groups: seq<seq<Morph>>): seq<Row>
  {
    if groups == [] then [] else GroupsRows(groups[..|groups| - 1]) + GroupRows(groups[|groups| - 1])
  }

  predicate RowMirrored(r: Row)
  {
    Mirrored(r.txt, r.gls)
  }

  /**
   * A morph row: a missing field is "", the text and citation form carry no blank, the gloss
   * carries no blank and no capital, and the gloss mirrors the text's boundary hyphens.
   */
  lemma MorphRowFacts(items: seq<Item>)
    ensures var r := MorphRow(items);
      (LastOfKind(items, "txt").None? ==> r.txt == "") &&
      (LastOfKind(items, "cf").None? ==> r.cf == "") &&
      (LastOfKind(items, "gls").None? ==> r.gls == "") &&
      (forall i :: 0 <= i < |r.txt| ==> !IsBlank(r.txt[i])) &&
      (forall i :: 0 <= i < |r.cf| ==> !IsBlank(r.cf[i])) &&
      (forall i :: 0 <= i < |r.gls| ==> !IsBlank(r.gls[i]) && !IsUpper(r.gls[i])) &&
      RowMirrored(r)
  {
    var txt := Field(items, "txt");
    var g := Field(items, "gls");
    SmallCapsFacts(g);
    CapsFromNoBlank(g, false);
    var sg := SmallCaps(g);
    HyphenAdds(txt, sg);
  }

  /** Mirroring adds only hyphens, so a gloss free of blanks and capitals stays so. */
  lemma HyphenAdds(txt: string, g: string)
    requires forall i :: 0 <= i < |g| ==> !IsBlank(g[i]) && !IsUpper(g[i])
    ensures var r := MirrorHyphens(txt, g); forall i :: 0 <= i < |r| ==> !IsBlank(r[i]) && !IsUpper(r[i])
  {
    var r := MirrorHyphens(txt, g);
    if r == "-" + g {
      assert forall i :: 1 <= i < |r| ==> r[i] == g[i - 1];
    } else if r == g + "-" {
      assert forall i :: 0 <= i < |g| ==> r[i] == g[i];
    } else if r == "-" + g + "-" {
      assert forall i :: 1 <= i < |r| - 1 ==> r[i] == g[i - 1];
    }
  }

  /** A group adds one row per morph, in order, and then exactly one separator. */
  lemma GroupRowsShape(group: seq<Morph>)
    ensures |GroupRows(group)| == |group| + 1
    ensures forall i :: 0 <= i < |group| ==> GroupRows(group)[i] == MorphRow(group[i])
    ensures GroupRows(group)[|group|] == Separator
  {
  }

  /** Every row the groups produce, separators included, mirrors the boundary hyphens. */
  lemma {:induction false} GroupsRowsMirrored(groups: seq<seq<Morph>>)
    ensures forall i :: 0 <= i < |GroupsRows(groups)| ==> RowMirrored(GroupsRows(groups)[i])
    decreases |groups|
  {
    if groups != [] {
      GroupsRowsMirrored(groups[..|groups| - 1]);
      var g := groups[|groups| - 1];
      forall k | 0 <= k < |g| ensures RowMirrored(GroupRows(g)[k]) {
        MorphRowFacts(g[k]);
      }
    }
  }

  /** The number of rows is the number of morphs plus one separator per group. */
  function MorphCount(groups: seq<seq<Morph>>): nat
  {
    if groups == [] then 0 else MorphCount(groups[..|groups| - 1]) + |groups[|groups| - 1]|
  }

  lemma {:induction false} GroupsRowsLength(groups: seq<seq<Morph>>)
    ensures |GroupsRows(groups)| == MorphCount(groups) + |groups|
    decreases |groups|
  {
    if groups != [] {
      GroupsRowsLength(groups[..|groups| - 1]);
    }
  }
}
