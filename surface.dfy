/**
 * The surface line of a paragraph: the word and punctuation items of each phrase strung
 * together, then the replace passes for marks that attach to the following word or to
 * nothing, and the removal of one leading space.
 */
module Surface {
  import opened Types
  import opened Strings

  /** An `item` element: its `type` attribute, if any, and its text, if any. */
  datatype Item = Item(kind: Option<string>, text: Option<string>)

  /** The diagnostic written to standard error for a punctuation item without text. */
  const EmptyPunctuation: string := "Empty punctuation found\n"

  predicate IsWordItem(it: Item)
  {
    it.kind == Some("txt") || it.kind == Some("cf")
  }

  /** An item the script cannot append: a word or citation form without text. */
  predicate Fails(it: Item)
  {
    IsWordItem(it) && it.text.None?
  }

  /**
   * What one item adds to the surface line: a word or citation form with one leading space,
   * punctuation bare (nothing for a missing text or a lone backslash), other items nothing.
   */
  function Piece(it: Item): (r: string)
    requires !Fails(it)
    ensures IsWordItem(it) ==> r == " " + it.text.value
    ensures it.kind == Some("punct") && it.text.Some? && it.text.value != "\\" ==> r == it.text.value
    ensures it.kind == Some("punct") && (it.text.None? || it.text.value == "\\") ==> r == ""
    ensures !IsWordItem(it) && it.kind != Some("punct") ==> r == ""
  {
    if IsWordItem(it) then " " + it.text.value
    else if it.kind == Some("punct") then
      var t := it.text.GetOr("");
      if t == "\\" then "" else t
    else ""
  }

  /** The diagnostics one item writes. */
  function Warning(it: Item): seq<string>
  {
    if it.kind == Some("punct") && it.text.None? then [EmptyPunctuation] else []
  }

  predicate ItemsOk(items: seq<Item>)
  {
    forall i :: 0 <= i < |items| ==> !Fails(items[i])
  }

  /** What the items of one `word` element add to the line, in order. */
  function ItemsSurface(items: seq<Item>): string
    requires ItemsOk(items)
  {
    if items == [] then [] else ItemsSurface(items[..|items| - 1]) + Piece(items[|items| - 1])
  }

  function ItemsWarnings(items: seq<Item>): seq<string>
  {
    if items == [] then [] else ItemsWarnings(items[..|items| - 1]) + Warning(items[|items| - 1])
  }

  /** Reading one more item of a word. */
  lemma ItemsStep(items: seq<Item>, i: nat)
    requires i < |items| && ItemsOk(items[..i]) && !Fails(items[i])
    ensures ItemsOk(items[..i + 1])
    ensures ItemsSurface(items[..i + 1]) == ItemsSurface(items[..i]) + Piece(items[i])
    ensures ItemsWarnings(items[..i + 1]) == ItemsWarnings(items[..i]) + Warning(items[i])
  {
    assert items[..i + 1][..i] == items[..i];
  }

  predicate WordsOk(words: seq<seq<Item>>)
  {
    forall w :: 0 <= w < |words| ==> ItemsOk(words[w])
  }

  /** What the `word` elements of one phrase add to the line, in order. */
  function WordsSurface(words: seq<seq<Item>>): string
    requires WordsOk(words)
  {
    if words == [] then [] else WordsSurface(words[..|words| - 1]) + ItemsSurface(words[|words| - 1])
  }

  function WordsWarnings(words: seq<seq<Item>>): seq<string>
  {
    if words == [] then [] else WordsWarnings(words[..|words| - 1]) + ItemsWarnings(words[|words| - 1])
  }

  /** Reading one more word of a phrase. */
  lemma WordsStep(words: seq<seq<Item>>, w: nat)
    requires w < |words| && WordsOk(words[..w]) && ItemsOk(words[w])
    ensures WordsOk(words[..w + 1])
    ensures WordsSurface(words[..w + 1]) == WordsSurface(words[..w]) + ItemsSurface(words[w])
    ensures WordsWarnings(words[..w + 1]) == WordsWarnings(words[..w]) + ItemsWarnings(words[w])
  {
    assert words[..w + 1][..w] == words[..w];
  }

  // ---------------------------------------------------------------------------
  // Post-processing
  // ---------------------------------------------------------------------------

  /**
   * Marks that belong to the following word. The two curly quotes are the three-character
   * strings U+00E2 U+0080 U+0098 and U+00E2 U+0080 U+009C, as the source's literals denote.
   */
  const LeftSideMarks: seq<string> :=
    ["`", "\U{e2}\U{80}\U{98}", "(", "[", "{", "\U{e2}\U{80}\U{9c}"]

  /** Marks followed by no space: the hyphen and the three-character dash strings. */
  const NoSpaceMarks: seq<string> := ["-", "\U{e2}\U{80}\U{94}", "\U{e2}\U{80}\U{93}"]

  /** One replace pass per mark, in order: a mark followed by a space becomes the space and then the mark. */
  function MoveLeftMarks(s: string, marks: seq<string>): (r: string)
    requires forall k :: 0 <= k < |marks| ==> marks[k] != []
    ensures multiset(r) == multiset(s) && |r| == |s|
    decreases |marks|
  {
    if marks == [] then s
    else
      var m := marks[0];
      ReplaceAllMultiset(s, m + " ", " " + m);
      MoveLeftMarks(ReplaceAll(s, m + " ", " " + m), marks[1..])
  }

  /** One replace pass per mark, in order: the space after a mark is removed. */
  function JoinNoSpaceMarks(s: string, marks: seq<string>): (r: string)
    requires forall k :: 0 <= k < |marks| ==> marks[k] != []
    ensures |r| <= |s|
    ensures r == [] <==> s == []
    decreases |marks|
  {
    if marks == [] then s
    else
      var m := marks[0];
      ReplaceAllDropsSpaces(s, m);
      JoinNoSpaceMarks(ReplaceAll(s, m + " ", m), marks[1..])
  }

  /** Each pass drops only spaces. */
  lemma {:induction false} JoinNoSpaceMarksCounts(s: string, marks: seq<string>)
    requires forall k :: 0 <= k < |marks| ==> marks[k] != []
    ensures forall c :: c != ' ' ==> multiset(JoinNoSpaceMarks(s, marks))[c] == multiset(s)[c]
    decreases |marks|
  {
    if marks != [] {
      var m := marks[0];
      ReplaceAllDropsSpaces(s, m);
      JoinNoSpaceMarksCounts(ReplaceAll(s, m + " ", m), marks[1..]);
    }
  }

  /**
   * Post-processing of the line built so far: the two groups of replace passes, then one
   * leading space removed. Reading the first character of an empty line is an error.
   */
  function CleanLine(s: string): (r: Result<string>)
    ensures r.Err? <==> s == []
    ensures r.Err? ==> r.failure == EmptyLine
  {
    var t := JoinNoSpaceMarks(MoveLeftMarks(s, LeftSideMarks), NoSpaceMarks);
    if t == [] then Err(EmptyLine)
    else if t[0] == ' ' then Ok(t[1..])
    else Ok(t)
  }

  /** Post-processing only drops spaces: the line never grows and keeps every other character. */
  lemma CleanLineDropsOnlySpaces(s: string)
    requires s != []
    ensures CleanLine(s).Ok?
    ensures |CleanLine(s).value| <= |s|
    ensures forall c :: c != ' ' ==> multiset(CleanLine(s).value)[c] == multiset(s)[c]
  {
    var t := JoinNoSpaceMarks(MoveLeftMarks(s, LeftSideMarks), NoSpaceMarks);
    MarksKeepCounts(s);
    if t[0] == ' ' {
      DropSpaceCounts(t);
    }
  }

  lemma MarksKeepCounts(s: string)
    ensures var t := JoinNoSpaceMarks(MoveLeftMarks(s, LeftSideMarks), NoSpaceMarks);
      |t| <= |s| && forall c :: c != ' ' ==> multiset(t)[c] == multiset(s)[c]
  {
    JoinNoSpaceMarksCounts(MoveLeftMarks(s, LeftSideMarks), NoSpaceMarks);
  }

  lemma DropSpaceCounts(t: string)
    requires t != [] && t[0] == ' '
    ensures forall c :: c != ' ' ==> multiset(t[1..])[c] == multiset(t)[c]
  {
    assert t == [t[0]] + t[1..];
  }

  /** Only the first of several leading spaces is removed; a line without one keeps its start. */
  lemma CleanLineStripsOneSpace(s: string)
    requires s != []
    ensures var t := JoinNoSpaceMarks(MoveLeftMarks(s, LeftSideMarks), NoSpaceMarks);
      t != [] && CleanLine(s).Ok? &&
      var r := CleanLine(s).value;
      |r| == |t| - (if t[0] == ' ' then 1 else 0) && r == t[|t| - |r|..] &&
      (t[0] != ' ' ==> r == t) &&
      (|t| >= 2 && t[0] == ' ' && t[1] == ' ' ==> r != [] && r[0] == ' ')
  {
  }

  // ---------------------------------------------------------------------------
  // A phrase of plain words
  // ---------------------------------------------------------------------------

  /** Characters that begin some mark: with none of them, the replace passes change nothing. */
  predicate Plain(s: string)
  {
    forall i :: 0 <= i < |s| ==>
      s[i] != '`' && s[i] != '\U{e2}' && s[i] != '(' && s[i] != '[' && s[i] != '{' && s[i] != '-'
  }

  lemma {:induction false} MoveLeftMarksPlain(s: string, marks: seq<string>)
    requires forall k :: 0 <= k < |marks| ==> marks[k] != [] && !Plain([marks[k][0]])
    requires Plain(s)
    ensures MoveLeftMarks(s, marks) == s
    decreases |marks|
  {
    if marks != [] {
      var m := marks[0];
      ReplaceAllAbsent(s, m + " ", " " + m);
      MoveLeftMarksPlain(s, marks[1..]);
    }
  }

  lemma {:induction false} JoinNoSpaceMarksPlain(s: string, marks: seq<string>)
    requires forall k :: 0 <= k < |marks| ==> marks[k] != [] && !Plain([marks[k][0]])
    requires Plain(s)
    ensures JoinNoSpaceMarks(s, marks) == s
    decreases |marks|
  {
    if marks != [] {
      var m := marks[0];
      ReplaceAllAbsent(s, m + " ", m);
      JoinNoSpaceMarksPlain(s, marks[1..]);
    }
  }

  /** Word items with the given texts. */
  function TxtItems(ws: seq<string>): (r: seq<Item>)
    ensures |r| == |ws| && ItemsOk(r)
    ensures forall i :: 0 <= i < |ws| ==> r[i] == Item(Some("txt"), Some(ws[i]))
  {
    seq(|ws|, i requires 0 <= i < |ws| => Item(Some("txt"), Some(ws[i])))
  }

  /** Each word gets one leading space. */
  lemma {:induction false} TxtItemsSurface(ws: seq<string>)
    requires ws != []
    ensures ItemsSurface(TxtItems(ws)) == " " + Join(ws, " ")
    decreases |ws|
  {
    var items := TxtItems(ws);
    var n := |ws|;
    assert Piece(items[n - 1]) == " " + ws[n - 1];
    if n > 1 {
      assert items[..n - 1] == TxtItems(ws[..n - 1]);
      TxtItemsSurface(ws[..n - 1]);
      RegroupPairs(" ", Join(ws[..n - 1], " "), " ", ws[n - 1]);
    } else {
      assert items[..0] == [];
    }
  }

  lemma {:induction false} JoinPlain(ws: seq<string>)
    requires forall i :: 0 <= i < |ws| ==> Plain(ws[i])
    ensures Plain(Join(ws, " "))
    decreases |ws|
  {
    if |ws| > 1 {
      JoinPlain(ws[..|ws| - 1]);
    }
  }

  lemma MarksBeginWithNonPlain()
    ensures forall k :: 0 <= k < |LeftSideMarks| ==> LeftSideMarks[k] != [] && !Plain([LeftSideMarks[k][0]])
    ensures forall k :: 0 <= k < |NoSpaceMarks| ==> NoSpaceMarks[k] != [] && !Plain([NoSpaceMarks[k][0]])
  {
    assert forall k :: 0 <= k < |LeftSideMarks| ==> LeftSideMarks[k] != [] && !Plain([LeftSideMarks[k][0]]) by {
      assert LeftSideMarks[1][0] == '\U{e2}' && LeftSideMarks[5][0] == '\U{e2}';
    }
    assert NoSpaceMarks[1][0] == '\U{e2}' && NoSpaceMarks[2][0] == '\U{e2}';
  }

  /** A plain line starting with a space loses exactly that space. */
  lemma CleanPlainLine(s: string)
    requires s != [] && s[0] == ' ' && Plain(s)
    ensures CleanLine(s) == Ok(s[1..])
  {
    MarksBeginWithNonPlain();
    MoveLeftMarksPlain(s, LeftSideMarks);
    JoinNoSpaceMarksPlain(s, NoSpaceMarks);
  }

  lemma OneWordElement(ws: seq<string>)
    requires ws != []
    ensures WordsOk([TxtItems(ws)])
    ensures WordsSurface([TxtItems(ws)]) == " " + Join(ws, " ")
  {
    var words := [TxtItems(ws)];
    assert words[..0] == [];
    TxtItemsSurface(ws);
  }

  lemma SpacePlain(s: string)
    requires Plain(s)
    ensures Plain(" " + s) && (" " + s)[1..] == s
  {
    var t := " " + s;
    forall i | 0 <= i < |t| ensures t[i] != '`' && t[i] != '\U{e2}' && t[i] != '(' && t[i] != '[' && t[i] != '{' && t[i] != '-' {
      if i > 0 { assert t[i] == s[i - 1]; }
    }
  }

  /**
   * The first phrase of a paragraph, made of one `word` element whose items are plain words,
   * gives the words separated by single spaces.
   */
  lemma PlainWordsLine(ws: seq<string>)
    requires ws != []
    requires forall i :: 0 <= i < |ws| ==> Plain(ws[i])
    ensures WordsOk([TxtItems(ws)])
    ensures CleanLine(WordsSurface([TxtItems(ws)])) == Ok(Join(ws, " "))
  {
    OneWordElement(ws);
    JoinLine(ws);
  }

  lemma JoinLine(ws: seq<string>)
    requires forall i :: 0 <= i < |ws| ==> Plain(ws[i])
    ensures CleanLine(" " + Join(ws, " ")) == Ok(Join(ws, " "))
  {
    var j := Join(ws, " ");
    JoinPlain(ws);
    SpacePlain(j);
    CleanPlainLine(" " + j);
  }

  // ---------------------------------------------------------------------------
  // What the replace passes do to a mark between plain words
  // ---------------------------------------------------------------------------

  /** Passes whose marks begin with characters absent from the line change nothing. */
  lemma {:induction false} MoveLeftMarksAbsent(s: string, marks: seq<string>)
    requires forall k :: 0 <= k < |marks| ==> marks[k] != []
    requires forall k, i :: 0 <= k < |marks| && 0 <= i < |s| ==> s[i] != marks[k][0]
    ensures MoveLeftMarks(s, marks) == s
    decreases |marks|
  {
    if marks != [] {
      var m := marks[0];
      ReplaceAllAbsent(s, m + " ", " " + m);
      MoveLeftMarksAbsent(s, marks[1..]);
    }
  }

  lemma {:induction false} JoinNoSpaceMarksAbsent(s: string, marks: seq<string>)
    requires forall k :: 0 <= k < |marks| ==> marks[k] != []
    requires forall k, i :: 0 <= k < |marks| && 0 <= i < |s| ==> s[i] != marks[k][0]
    ensures JoinNoSpaceMarks(s, marks) == s
    decreases |marks|
  {
    if marks != [] {
      var m := marks[0];
      ReplaceAllAbsent(s, m + " ", m);
      JoinNoSpaceMarksAbsent(s, marks[1..]);
    }
  }

  /** Between plain words, the only characters a mark can begin with are the one mark `m`. */
  lemma PlainAround(a: string, m: char, b: string, c: char, sep: string)
    requires Plain(a) && Plain(b) && !Plain([c]) && c != m
    requires forall i :: 0 <= i < |sep| ==> sep[i] == ' ' || sep[i] == m
    ensures forall i :: 0 <= i < |a + sep + b| ==> (a + sep + b)[i] != c
  {
    var s := a + sep + b;
    forall i | 0 <= i < |s| ensures s[i] != c {
      if i < |a| {
        assert s[i] == a[i];
      } else if i < |a| + |sep| {
        assert s[i] == sep[i - |a|];
      } else {
        assert s[i] == b[i - |a| - |sep|];
      }
    }
  }

  /** The three separators the passes leave around a mark consist of spaces and the mark. */
  lemma MarkSeparators(m: char)
    ensures forall i :: 0 <= i < |[m, ' ']| ==> [m, ' '][i] == ' ' || [m, ' '][i] == m
    ensures forall i :: 0 <= i < |[' ', m]| ==> [' ', m][i] == ' ' || [' ', m][i] == m
    ensures forall i :: 0 <= i < |[m]| ==> [m][i] == ' ' || [m][i] == m
  {
  }

  /**
   * The left-side passes on plain words around one mark `m` followed by a space: if `m` is
   * one of the marks (and the only one beginning with `m`), the space moves before it;
   * otherwise the line is unchanged.
   */
  lemma {:induction false} MoveOneMark(a: string, m: char, b: string, marks: seq<string>)
    requires forall k :: 0 <= k < |marks| ==> marks[k] != [] && !Plain([marks[k][0]])
    requires forall k :: 0 <= k < |marks| && marks[k][0] == m ==> marks[k] == [m]
    requires forall j, k :: 0 <= j < k < |marks| ==> marks[j][0] != m || marks[k][0] != m
    requires Plain(a) && Plain(b)
    ensures MoveLeftMarks(a + [m, ' '] + b, marks) == if [m] in marks then a + [' ', m] + b else a + [m, ' '] + b
    decreases |marks|
  {
    if marks != [] {
      if marks[0][0] == m {
        MoveMarkHere(a, m, b, marks);
      } else {
        MoveOneMark(a, m, b, marks[1..]);
        MoveMarkPast(a, m, b, marks);
      }
    }
  }

  /** The pass for `m` itself moves the space; the later passes find nothing. */
  lemma MoveMarkHere(a: string, m: char, b: string, marks: seq<string>)
    requires forall k :: 0 <= k < |marks| ==> marks[k] != [] && !Plain([marks[k][0]])
    requires forall k :: 0 <= k < |marks| && marks[k][0] == m ==> marks[k] == [m]
    requires forall j, k :: 0 <= j < k < |marks| ==> marks[j][0] != m || marks[k][0] != m
    requires Plain(a) && Plain(b)
    requires marks != [] && marks[0][0] == m
    ensures MoveLeftMarks(a + [m, ' '] + b, marks) == a + [' ', m] + b && [m] in marks
  {
    MarkSeparators(m);
    assert marks[0] + " " == [m, ' '] && " " + marks[0] == [' ', m];
    ReplaceAllOnce(a, [m, ' '], b, [' ', m]);
    var t := a + [' ', m] + b;
    forall k | 0 <= k < |marks[1..]| ensures forall i :: 0 <= i < |t| ==> t[i] != marks[1..][k][0] {
      assert marks[1..][k] == marks[k + 1];
      PlainAround(a, m, b, marks[k + 1][0], [' ', m]);
    }
    MoveLeftMarksAbsent(t, marks[1..]);
  }

  /** A pass for another mark finds nothing, so the outcome is that of the later passes. */
  lemma MoveMarkPast(a: string, m: char, b: string, marks: seq<string>)
    requires forall k :: 0 <= k < |marks| ==> marks[k] != [] && !Plain([marks[k][0]])
    requires forall k :: 0 <= k < |marks| && marks[k][0] == m ==> marks[k] == [m]
    requires forall j, k :: 0 <= j < k < |marks| ==> marks[j][0] != m || marks[k][0] != m
    requires Plain(a) && Plain(b)
    requires marks != [] && marks[0][0] != m
    requires MoveLeftMarks(a + [m, ' '] + b, marks[1..]) == if [m] in marks[1..] then a + [' ', m] + b else a + [m, ' '] + b
    ensures MoveLeftMarks(a + [m, ' '] + b, marks) == if [m] in marks then a + [' ', m] + b else a + [m, ' '] + b
  {
    MarkSeparators(m);
    PlainAround(a, m, b, marks[0][0], [m, ' ']);
    ReplaceAllAbsent(a + [m, ' '] + b, marks[0] + " ", " " + marks[0]);
    assert [m] in marks <==> [m] in marks[1..] by {
      assert marks == [marks[0]] + marks[1..];
      assert marks[0] != [m];
    }
  }

  /**
   * The no-space passes on plain words around one mark `m` followed by a space: if `m` is one
   * of the marks (and the only one beginning with `m`), the space is dropped; otherwise the
   * line is unchanged.
   */
  lemma {:induction false} JoinOneMark(a: string, m: char, b: string, marks: seq<string>)
    requires forall k :: 0 <= k < |marks| ==> marks[k] != [] && !Plain([marks[k][0]])
    requires forall k :: 0 <= k < |marks| && marks[k][0] == m ==> marks[k] == [m]
    requires forall j, k :: 0 <= j < k < |marks| ==> marks[j][0] != m || marks[k][0] != m
    requires Plain(a) && Plain(b)
    ensures JoinNoSpaceMarks(a + [m, ' '] + b, marks) == if [m] in marks then a + [m] + b else a + [m, ' '] + b
    decreases |marks|
  {
    if marks != [] {
      if marks[0][0] == m {
        JoinMarkHere(a, m, b, marks);
      } else {
        JoinOneMark(a, m, b, marks[1..]);
        JoinMarkPast(a, m, b, marks);
      }
    }
  }

  /** The pass for `m` itself moves the space; the later passes find nothing. */
  lemma JoinMarkHere(a: string, m: char, b: string, marks: seq<string>)
    requires forall k :: 0 <= k < |marks| ==> marks[k] != [] && !Plain([marks[k][0]])
    requires forall k :: 0 <= k < |marks| && marks[k][0] == m ==> marks[k] == [m]
    requires forall j, k :: 0 <= j < k < |marks| ==> marks[j][0] != m || marks[k][0] != m
    requires Plain(a) && Plain(b)
    requires marks != [] && marks[0][0] == m
    ensures JoinNoSpaceMarks(a + [m, ' '] + b, marks) == a + [m] + b && [m] in marks
  {
    MarkSeparators(m);
    assert marks[0] + " " == [m, ' '];
    ReplaceAllOnce(a, [m, ' '], b, [m]);
    var t := a + [m] + b;
    forall k | 0 <= k < |marks[1..]| ensures forall i :: 0 <= i < |t| ==> t[i] != marks[1..][k][0] {
      assert marks[1..][k] == marks[k + 1];
      PlainAround(a, m, b, marks[k + 1][0], [m]);
    }
    JoinNoSpaceMarksAbsent(t, marks[1..]);
  }

  /** A pass for another mark finds nothing, so the outcome is that of the later passes. */
  lemma JoinMarkPast(a: string, m: char, b: string, marks: seq<string>)
    requires forall k :: 0 <= k < |marks| ==> marks[k] != [] && !Plain([marks[k][0]])
    requires forall k :: 0 <= k < |marks| && marks[k][0] == m ==> marks[k] == [m]
    requires forall j, k :: 0 <= j < k < |marks| ==> marks[j][0] != m || marks[k][0] != m
    requires Plain(a) && Plain(b)
    requires marks != [] && marks[0][0] != m
    requires JoinNoSpaceMarks(a + [m, ' '] + b, marks[1..]) == if [m] in marks[1..] then a + [m] + b else a + [m, ' '] + b
    ensures JoinNoSpaceMarks(a + [m, ' '] + b, marks) == if [m] in marks then a + [m] + b else a + [m, ' '] + b
  {
    MarkSeparators(m);
    PlainAround(a, m, b, marks[0][0], [m, ' ']);
    ReplaceAllAbsent(a + [m, ' '] + b, marks[0] + " ", marks[0]);
    assert [m] in marks <==> [m] in marks[1..] by {
      assert marks == [marks[0]] + marks[1..];
      assert marks[0] != [m];
    }
  }

  /** The one-character left-side marks: backquote, parenthesis, bracket and brace. */
  predicate AsciiLeftMark(m: char)
  {
    m == '`' || m == '(' || m == '[' || m == '{'
  }

  /** A one-character left-side mark followed by a space swaps with the space. */
  lemma LeftMarkMoves(a: string, m: char, b: string)
    requires AsciiLeftMark(m) && Plain(a) && Plain(b)
    ensures MoveLeftMarks(a + [m, ' '] + b, LeftSideMarks) == a + [' ', m] + b
  {
    MarksBeginWithNonPlain();
    assert LeftSideMarks[1][0] == '\U{e2}' && LeftSideMarks[5][0] == '\U{e2}';
    assert [m] in LeftSideMarks by {
      if m == '`' { assert LeftSideMarks[0] == [m]; }
      else if m == '(' { assert LeftSideMarks[2] == [m]; }
      else if m == '[' { assert LeftSideMarks[3] == [m]; }
      else { assert LeftSideMarks[4] == [m]; }
    }
    MoveOneMark(a, m, b, LeftSideMarks);
  }

  /** The no-space passes leave a left-side mark that has moved onto the following word alone. */
  lemma LeftMarkStays(a: string, m: char, b: string)
    requires AsciiLeftMark(m) && Plain(a) && Plain(b)
    ensures JoinNoSpaceMarks(a + [' ', m] + b, NoSpaceMarks) == a + [' ', m] + b
  {
    MarkSeparators(m);
    MarksBeginWithNonPlain();
    var t := a + [' ', m] + b;
    assert NoSpaceMarks[0] == "-" && NoSpaceMarks[1][0] == '\U{e2}' && NoSpaceMarks[2][0] == '\U{e2}';
    forall k | 0 <= k < |NoSpaceMarks| ensures forall i :: 0 <= i < |t| ==> t[i] != NoSpaceMarks[k][0] {
      PlainAround(a, m, b, NoSpaceMarks[k][0], [' ', m]);
    }
    JoinNoSpaceMarksAbsent(t, NoSpaceMarks);
  }

  /** The left-side passes leave plain words around a hyphen alone. */
  lemma HyphenStays(a: string, b: string)
    requires Plain(a) && Plain(b)
    ensures MoveLeftMarks(a + ['-', ' '] + b, LeftSideMarks) == a + ['-', ' '] + b
  {
    MarksBeginWithNonPlain();
    assert LeftSideMarks[1][0] == '\U{e2}' && LeftSideMarks[5][0] == '\U{e2}';
    assert forall k :: 0 <= k < |LeftSideMarks| ==> LeftSideMarks[k][0] != '-';
    MoveOneMark(a, '-', b, LeftSideMarks);
  }

  /** A hyphen followed by a space loses the space. */
  lemma HyphenJoins(a: string, b: string)
    requires Plain(a) && Plain(b)
    ensures JoinNoSpaceMarks(a + ['-', ' '] + b, NoSpaceMarks) == a + ['-'] + b
  {
    MarksBeginWithNonPlain();
    assert NoSpaceMarks[0] == ['-'] && NoSpaceMarks[1][0] == '\U{e2}' && NoSpaceMarks[2][0] == '\U{e2}';
    JoinOneMark(a, '-', b, NoSpaceMarks);
  }

  /**
   * A word, a left-side mark and a further word, as the items build them (" x(" then " y"):
   * after post-processing the mark is attached to the following word ("x (y").
   */
  lemma LeftMarkLine(a: string, m: char, b: string)
    requires AsciiLeftMark(m) && Plain(a) && Plain(b)
    ensures CleanLine(" " + a + [m, ' '] + b) == Ok(a + [' ', m] + b)
  {
    var a1 := " " + a;
    SpacePlain(a);
    LeftMarkMoves(a1, m, b);
    LeftMarkStays(a1, m, b);
    var t := a1 + [' ', m] + b;
    DropHead(" ", a, [' ', m], b);
  }

  /**
   * A word, a hyphen and a further word, as the items build them (" x-" then " y"): after
   * post-processing the two are joined by the hyphen alone ("x-y").
   */
  lemma HyphenLine(a: string, b: string)
    requires Plain(a) && Plain(b)
    ensures CleanLine(" " + a + ['-', ' '] + b) == Ok(a + ['-'] + b)
  {
    var a1 := " " + a;
    SpacePlain(a);
    HyphenStays(a1, b);
    HyphenJoins(a1, b);
    var t := a1 + ['-'] + b;
    DropHead(" ", a, ['-'], b);
  }
}
