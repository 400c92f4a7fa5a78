/**
 * Python's `str.replace` and the per-character rewrites the converter builds from it.
 */
module Strings {

  /**
   * `s.replace(pat, rep)`: scanning left to right, every occurrence of `pat` that does not
   * overlap an earlier replaced one is replaced by `rep`.
   */
  function ReplaceAll(s: string, pat: string, rep: string): string
    requires pat != []
    decreases |s|
  {
    if |s| < |pat| then s
    else if s[..|pat|] == pat then rep + ReplaceAll(s[|pat|..], pat, rep)
    else [s[0]] + ReplaceAll(s[1..], pat, rep)
  }

  /** `for c in cs: s = s.replace(c, rep)`: one replace pass per character of `cs`, in order. */
  function ReplaceEach(s: string, cs: seq<char>, rep: string): string
    decreases |cs|
  {
    if cs == [] then s else ReplaceEach(ReplaceAll(s, [cs[0]], rep), cs[1..], rep)
  }

  /** Reference: each character of `s` that is in `cs` becomes `rep`, all others stay, in order. */
  function Replaced(s: string, cs: seq<char>, rep: string): string
  {
    if s == [] then [] else (if s[0] in cs then rep else [s[0]]) + Replaced(s[1..], cs, rep)
  }

  /** Concatenation of a list of strings with no separator (`''.join(xs)`). */
  function Concat(xs: seq<string>): string
  {
    if xs == [] then [] else Concat(xs[..|xs| - 1]) + xs[|xs| - 1]
  }

  /** `sep.join(xs)`. */
  function Join(xs: seq<string>, sep: string): string
  {
    if xs == [] then []
    else if |xs| == 1 then xs[0]
    else Join(xs[..|xs| - 1], sep) + sep + xs[|xs| - 1]
  }

  /** Number of occurrences of `c` in `s`. */
  function Count(s: string, c: char): nat
  {
    if s == [] then 0 else (if s[0] == c then 1 else 0) + Count(s[1..], c)
  }

  // ---------------------------------------------------------------------------
  // Lemmas about ReplaceAll
  // ---------------------------------------------------------------------------

  /** Replacing a one-character pattern is the per-character rewrite. */
  lemma {:induction false} ReplaceAllOneChar(s: string, c: char, rep: string)
    ensures ReplaceAll(s, [c], rep) == Replaced(s, [c], rep)
    decreases |s|
  {
    if s != [] {
      assert (s[..1] == [c]) == (s[0] in [c]);
      ReplaceAllOneChar(s[1..], c, rep);
    }
  }

  /** A pattern whose first character never occurs leaves the string unchanged. */
  lemma {:induction false} ReplaceAllAbsent(s: string, pat: string, rep: string)
    requires pat != []
    requires forall i :: 0 <= i < |s| ==> s[i] != pat[0]
    ensures ReplaceAll(s, pat, rep) == s
    decreases |s|
  {
    if |s| >= |pat| {
      assert s[..|pat|][0] == s[0];
      ReplaceAllAbsent(s[1..], pat, rep);
      assert [s[0]] + s[1..] == s;
    }
  }

  /**
   * An occurrence of the pattern between two strings that never contain its first character
   * is the one occurrence replaced; the text around it is kept.
   */
  lemma {:induction false} ReplaceAllOnce(a: string, pat: string, b: string, rep: string)
    requires pat != []
    requires forall i :: 0 <= i < |a| ==> a[i] != pat[0]
    requires forall i :: 0 <= i < |b| ==> b[i] != pat[0]
    ensures ReplaceAll(a + pat + b, pat, rep) == a + rep + b
    decreases |a|
  {
    var s := a + pat + b;
    if a == [] {
      assert s == pat + b;
      assert s[..|pat|] == pat && s[|pat|..] == b;
      ReplaceAllAbsent(b, pat, rep);
    } else {
      assert s[0] == a[0];
      assert s[..|pat|][0] != pat[0];
      assert s[1..] == a[1..] + pat + b;
      ReplaceAllOnce(a[1..], pat, b, rep);
      assert [a[0]] + (a[1..] + rep + b) == a + rep + b;
    }
  }

  /** A replacement that is a rearrangement of its pattern keeps every character count. */
  lemma {:induction false} ReplaceAllMultiset(s: string, pat: string, rep: string)
    requires pat != [] && multiset(pat) == multiset(rep)
    ensures multiset(ReplaceAll(s, pat, rep)) == multiset(s)
    ensures |ReplaceAll(s, pat, rep)| == |s|
    decreases |s|
  {
    if |s| < |pat| {
    } else if s[..|pat|] == pat {
      ReplaceAllMultiset(s[|pat|..], pat, rep);
      assert s == s[..|pat|] + s[|pat|..];
      assert |multiset(rep)| == |rep|;
    } else {
      ReplaceAllMultiset(s[1..], pat, rep);
      assert s == [s[0]] + s[1..];
    }
    assert |multiset(ReplaceAll(s, pat, rep))| == |ReplaceAll(s, pat, rep)|;
  }

  /**
   * Replacing `m + " "` by `m` deletes spaces and nothing else: every other character keeps
   * its count, and the string does not grow.
   */
  lemma {:induction false} ReplaceAllDropsSpaces(s: string, m: string)
    requires m != []
    ensures var r := ReplaceAll(s, m + " ", m);
      |r| <= |s| && forall c :: c != ' ' ==> multiset(r)[c] == multiset(s)[c]
    decreases |s|
  {
    var pat := m + " ";
    if |s| < |pat| {
    } else if s[..|pat|] == pat {
      var rest := s[|pat|..];
      ReplaceAllDropsSpaces(rest, m);
      assert s == m + " " + rest;
      SpaceDropped(m, rest, ReplaceAll(rest, pat, m));
    } else {
      ReplaceAllDropsSpaces(s[1..], m);
      assert s == [s[0]] + s[1..];
      SpaceDropped([s[0]], s[1..], ReplaceAll(s[1..], pat, m));
    }
  }

  /** Putting the same head before a line and before its space-dropped version keeps that relation. */
  lemma SpaceDropped(head: string, rest: string, r: string)
    requires |r| <= |rest| && forall c :: c != ' ' ==> multiset(r)[c] == multiset(rest)[c]
    ensures |head + r| <= |head + " " + rest| && |head + r| <= |head + rest|
    ensures forall c :: c != ' ' ==> multiset(head + r)[c] == multiset(head + " " + rest)[c]
    ensures forall c :: c != ' ' ==> multiset(head + r)[c] == multiset(head + rest)[c]
  {
  }

  // ---------------------------------------------------------------------------
  // Lemmas about Replaced and ReplaceEach
  // ---------------------------------------------------------------------------

  lemma {:induction false} ReplacedAppend(a: string, b: string, cs: seq<char>, rep: string)
    ensures Replaced(a + b, cs, rep) == Replaced(a, cs, rep) + Replaced(b, cs, rep)
    decreases |a|
  {
    if a == [] {
      assert a + b == b;
    } else {
      assert (a + b)[0] == a[0] && (a + b)[1..] == a[1..] + b;
      ReplacedAppend(a[1..], b, cs, rep);
    }
  }

  /** A string none of whose characters is in `cs` is left unchanged. */
  lemma {:induction false} ReplacedNoop(s: string, cs: seq<char>, rep: string)
    requires forall i :: 0 <= i < |s| ==> s[i] !in cs
    ensures Replaced(s, cs, rep) == s
    decreases |s|
  {
    if s != [] {
      ReplacedNoop(s[1..], cs, rep);
      assert [s[0]] + s[1..] == s;
    }
  }

  /** Replacing `c` and then the characters of `cs` is replacing `[c] + cs`, when `rep` avoids `cs`. */
  lemma {:induction false} ReplacedCompose(s: string, c: char, cs: seq<char>, rep: string)
    requires forall i :: 0 <= i < |rep| ==> rep[i] !in cs
    ensures Replaced(Replaced(s, [c], rep), cs, rep) == Replaced(s, [c] + cs, rep)
    decreases |s|
  {
    if s != [] {
      var head := if s[0] in [c] then rep else [s[0]];
      ReplacedAppend(head, Replaced(s[1..], [c], rep), cs, rep);
      ReplacedCompose(s[1..], c, cs, rep);
      if s[0] == c {
        ReplacedNoop(rep, cs, rep);
      } else {
        assert [s[0]][1..] == [];
      }
    }
  }

  /** The replace loop over `cs` is the per-character rewrite, when `rep` avoids `cs`. */
  lemma {:induction false} ReplaceEachIsReplaced(s: string, cs: seq<char>, rep: string)
    requires forall i :: 0 <= i < |rep| ==> rep[i] !in cs
    ensures ReplaceEach(s, cs, rep) == Replaced(s, cs, rep)
    decreases |cs|
  {
    if cs == [] {
      ReplacedNoop(s, cs, rep);
    } else {
      ReplaceAllOneChar(s, cs[0], rep);
      ReplaceEachIsReplaced(Replaced(s, [cs[0]], rep), cs[1..], rep);
      ReplacedCompose(s, cs[0], cs[1..], rep);
      assert [cs[0]] + cs[1..] == cs;
    }
  }

  /** With a one-character replacement the rewrite is position by position. */
  lemma {:induction false} ReplacedPointwise(s: string, cs: seq<char>, x: char)
    ensures |Replaced(s, cs, [x])| == |s|
    ensures forall i :: 0 <= i < |s| ==> Replaced(s, cs, [x])[i] == if s[i] in cs then x else s[i]
    decreases |s|
  {
    if s != [] {
      ReplacedPointwise(s[1..], cs, x);
    }
  }

  /** With an empty replacement the rewrite deletes exactly the characters of `cs`. */
  lemma {:induction false} ReplacedDeletes(s: string, cs: seq<char>)
    ensures forall i :: 0 <= i < |Replaced(s, cs, [])| ==> Replaced(s, cs, [])[i] !in cs
    ensures forall c :: c !in cs ==> multiset(Replaced(s, cs, []))[c] == multiset(s)[c]
    decreases |s|
  {
    if s != [] {
      ReplacedDeletes(s[1..], cs);
      assert s == [s[0]] + s[1..];
    }
  }

  /** Replacing every `c` by a string of length `k + 1` adds `k` characters per occurrence. */
  lemma {:induction false} ReplacedLength(s: string, c: char, rep: string)
    requires rep != []
    ensures |Replaced(s, [c], rep)| == |s| + Count(s, c) * (|rep| - 1)
    decreases |s|
  {
    if s != [] {
      ReplacedLength(s[1..], c, rep);
    }
  }

  lemma {:induction false} ConcatAppend(xs: seq<string>, ys: seq<string>)
    ensures Concat(xs + ys) == Concat(xs) + Concat(ys)
    decreases |ys|
  {
    if ys == [] {
      assert xs + ys == xs;
    } else {
      var init, last := ys[..|ys| - 1], ys[|ys| - 1];
      assert (xs + ys)[..|xs + ys| - 1] == xs + init;
      ConcatAppend(xs, init);
      AppendAssoc(Concat(xs), Concat(init), last, Concat(xs + init), Concat(xs + init) + last);
    }
  }

  // ---------------------------------------------------------------------------
  // Regrouping concatenations. Each is a fact about `+` alone, stated once with its own
  // parameters so that proofs about the converter's strings need not re-derive it next to
  // the recursive string functions.
  // ---------------------------------------------------------------------------

  /** Appending to a line built as a prefix plus a part is appending to the part. */
  lemma AppendAssoc<T>(a: seq<T>, b: seq<T>, c: seq<T>, ab: seq<T>, abc: seq<T>)
    requires ab == a + b && abc == ab + c
    ensures abc == a + (b + c)
  {
    assert (a + b) + c == a + (b + c);
  }

  /** Regrouping a concatenation, stated once so that callers need not re-derive it. */
  lemma Regroup<T>(a: seq<T>, b: seq<T>, c: seq<T>, d: seq<T>)
    ensures a + (b + c + d) == (a + b) + c + d
  {
  }

  /** `Regroup` behind a common prefix `e`. */
  lemma RegroupAfter<T>(e: seq<T>, a: seq<T>, b: seq<T>, c: seq<T>, d: seq<T>)
    ensures e + a + (b + c + d) == e + (a + b) + c + d
  {
  }

  /** An empty prefix disappears and the tail is flattened. */
  lemma RegroupEmpty<T>(a: seq<T>, b: seq<T>, c: seq<T>)
    ensures [] + a + (b + c) == a + b + c
  {
  }

  /** A sequence is its prefix followed by the rest. */
  lemma TakeDrop<T>(s: seq<T>, n: nat)
    requires n <= |s|
    ensures s[..n] + s[n..] == s
  {
  }

  /** Two pairs joined are the first element followed by the other three. */
  lemma RegroupPairs<T>(a: seq<T>, b: seq<T>, c: seq<T>, d: seq<T>)
    ensures (a + b) + (c + d) == a + (b + c + d)
  {
  }

  /** Dropping a one-element head from a concatenation. */
  lemma DropHead<T>(h: seq<T>, a: seq<T>, b: seq<T>, c: seq<T>)
    requires |h| == 1
    ensures (h + a + b + c)[1..] == a + b + c
  {
    assert (h + a + b + c)[1..] == a + (b + c);
  }
}
