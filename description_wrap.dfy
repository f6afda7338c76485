/**
 * The description block of a generated source file: the description is cut into
 * paragraphs at blank lines, each paragraph's whitespace is normalised, its words
 * are filled greedily into indented lines, and paragraphs are separated by one
 * empty line.
 */
module DescriptionWrap {
  import opened Seqs
  import opened Ascii

  /** The length of a line holding the words `g` after `indent` spaces. */
  function Width(g: seq<string>, indent: nat): nat
  {
    indent + |Join(g, " ")|
  }

  /** The longest a line of two or more words may be. The wrapper's running counter
      starts at the indent and adds one per word on the first line of a paragraph,
      but restarts at the exact width after a wrap, so the first line of a paragraph
      gets one character less than the lines after it. */
  function Limit(lineIndex: nat, maxLen: int): int
  {
    if lineIndex == 0 then maxLen - 1 else maxLen
  }

  /** One step of the greedy fill: the word goes onto the last line unless that would
      take the line past its limit, in which case it starts a new line. */
  function Step(gs: seq<seq<string>>, w: string, indent: nat, maxLen: int): seq<seq<string>>
  {
    if gs == [] then [[w]]
    else if Width(gs[|gs| - 1] + [w], indent) > Limit(|gs| - 1, maxLen) then gs + [[w]]
    else gs[..|gs| - 1] + [gs[|gs| - 1] + [w]]
  }

  /** Greedy fill of one paragraph's words into lines, a word at a time. */
  function Fill(ws: seq<string>, indent: nat, maxLen: int): seq<seq<string>>
    decreases |ws|
  {
    if ws == [] then [] else Step(Fill(ws[..|ws| - 1], indent, maxLen), ws[|ws| - 1], indent, maxLen)
  }

  ghost predicate NonEmptyLines(gs: seq<seq<string>>)
  {
    forall i :: 0 <= i < |gs| ==> gs[i] != []
  }

  ghost predicate WithinLimits(gs: seq<seq<string>>, indent: nat, maxLen: int)
  {
    forall i :: 0 <= i < |gs| && |gs[i]| >= 2 ==> Width(gs[i], indent) <= Limit(i, maxLen)
  }

  ghost predicate FullLines(gs: seq<seq<string>>, indent: nat, maxLen: int)
    requires NonEmptyLines(gs)
  {
    forall i :: 0 <= i < |gs| - 1 ==> Width(gs[i] + [gs[i + 1][0]], indent) > Limit(i, maxLen)
  }

  /** `gs` lays out the words `ws` greedily: the lines hold the words in order, no line is
      empty, a line of two or more words is within its limit, and every line but the last
      is full, in that the first word of the next line would have taken it past its limit. */
  ghost predicate IsGreedyLayout(gs: seq<seq<string>>, ws: seq<string>, indent: nat, maxLen: int)
  {
    Flatten(gs) == ws && NonEmptyLines(gs) && WithinLimits(gs, indent, maxLen) && FullLines(gs, indent, maxLen)
  }

  lemma FlattenSingle<T>(g: seq<T>)
    ensures Flatten([g]) == g
  {
    assert [g][1..] == [];
  }

  /** A step that starts a new line keeps the layout greedy. */
  lemma StepNewLine(gs: seq<seq<string>>, ws: seq<string>, w: string, indent: nat, maxLen: int)
    requires IsGreedyLayout(gs, ws, indent, maxLen) && gs != []
    requires Width(gs[|gs| - 1] + [w], indent) > Limit(|gs| - 1, maxLen)
    ensures IsGreedyLayout(gs + [[w]], ws + [w], indent, maxLen)
  {
    var r := gs + [[w]];
    FlattenAppend(gs, [[w]]);
    FlattenSingle([w]);
    assert NonEmptyLines(r);
    assert WithinLimits(r, indent, maxLen) by {
      forall i | 0 <= i < |r| && |r[i]| >= 2 ensures Width(r[i], indent) <= Limit(i, maxLen) {
        assert r[i] == gs[i];
      }
    }
    forall i | 0 <= i < |r| - 1 ensures Width(r[i] + [r[i + 1][0]], indent) > Limit(i, maxLen) {
      assert r[i] == gs[i];
      if i < |gs| - 1 {
        assert r[i + 1] == gs[i + 1];
      }
    }
  }

  /** A step that extends the last line keeps the layout greedy. */
  lemma StepSameLine(gs: seq<seq<string>>, ws: seq<string>, w: string, indent: nat, maxLen: int)
    requires IsGreedyLayout(gs, ws, indent, maxLen) && gs != []
    requires Width(gs[|gs| - 1] + [w], indent) <= Limit(|gs| - 1, maxLen)
    ensures IsGreedyLayout(gs[..|gs| - 1] + [gs[|gs| - 1] + [w]], ws + [w], indent, maxLen)
  {
    var n := |gs| - 1;
    var last := gs[n];
    var r := gs[..n] + [last + [w]];
    assert gs == gs[..n] + [last];
    FlattenAppend(gs[..n], [last]);
    FlattenSingle(last);
    FlattenAppend(gs[..n], [last + [w]]);
    FlattenSingle(last + [w]);
    assert NonEmptyLines(r) by {
      forall i | 0 <= i < |r| ensures r[i] != [] {
        if i < n { assert r[i] == gs[i]; }
      }
    }
    assert WithinLimits(r, indent, maxLen) by {
      forall i | 0 <= i < |r| && |r[i]| >= 2 ensures Width(r[i], indent) <= Limit(i, maxLen) {
        if i < n { assert r[i] == gs[i]; }
      }
    }
    forall i | 0 <= i < |r| - 1 ensures Width(r[i] + [r[i + 1][0]], indent) > Limit(i, maxLen) {
      assert r[i] == gs[i];
      assert r[i + 1][0] == gs[i + 1][0];
    }
  }

  /** The fill loses, reorders and adds no word, keeps every line within its limit, and wraps only when it must. */
  lemma {:induction false} FillIsGreedy(ws: seq<string>, indent: nat, maxLen: int)
    ensures IsGreedyLayout(Fill(ws, indent, maxLen), ws, indent, maxLen)
    decreases |ws|
  {
    if ws != [] {
      var prefix, w := ws[..|ws| - 1], ws[|ws| - 1];
      assert ws == prefix + [w];
      FillIsGreedy(prefix, indent, maxLen);
      var gs := Fill(prefix, indent, maxLen);
      if gs == [] {
        assert prefix == Flatten(gs) == [];
        FlattenSingle([w]);
      } else if Width(gs[|gs| - 1] + [w], indent) > Limit(|gs| - 1, maxLen) {
        StepNewLine(gs, prefix, w, indent, maxLen);
      } else {
        StepSameLine(gs, prefix, w, indent, maxLen);
      }
    }
  }

  /** Adding a word to a non-empty line lengthens it by the word and one space. */
  lemma WidthSnoc(g: seq<string>, w: string, indent: nat)
    requires g != []
    ensures Width(g + [w], indent) == Width(g, indent) + 1 + |w|
  {
    JoinSpaceSnoc(g, w);
  }

  /** Removing a last line of one word leaves a greedy layout of the other words. */
  lemma DropLastLine(gs: seq<seq<string>>, ws: seq<string>, indent: nat, maxLen: int)
    requires IsGreedyLayout(gs, ws, indent, maxLen) && gs != [] && |gs[|gs| - 1]| == 1
    ensures ws != [] && gs[|gs| - 1] == [ws[|ws| - 1]]
    ensures IsGreedyLayout(gs[..|gs| - 1], ws[..|ws| - 1], indent, maxLen)
  {
    var n := |gs| - 1;
    assert gs == gs[..n] + [gs[n]];
    FlattenAppend(gs[..n], [gs[n]]);
    FlattenSingle(gs[n]);
    assert ws == Flatten(gs[..n]) + gs[n];
    assert ws[..|ws| - 1] == Flatten(gs[..n]);
    var r := gs[..n];
    assert NonEmptyLines(r);
    assert WithinLimits(r, indent, maxLen);
    forall i | 0 <= i < |r| - 1 ensures Width(r[i] + [r[i + 1][0]], indent) > Limit(i, maxLen) {
      assert r[i] == gs[i] && r[i + 1] == gs[i + 1];
    }
  }

  /** The words of a layout are those of all but its last line followed by its last line. */
  lemma FlattenSnoc<T>(gs: seq<seq<T>>)
    requires gs != []
    ensures Flatten(gs) == Flatten(gs[..|gs| - 1]) + gs[|gs| - 1]
  {
    var n := |gs| - 1;
    assert gs == gs[..n] + [gs[n]];
    FlattenAppend(gs[..n], [gs[n]]);
    FlattenSingle(gs[n]);
  }

  /** Removing the last word `w` from a last line `shorter + [w]` of two or more words
      leaves a greedy layout of the other words. */
  lemma DropLastWord(gs: seq<seq<string>>, ws: seq<string>, shorter: seq<string>, w: string, indent: nat, maxLen: int)
    requires IsGreedyLayout(gs + [shorter + [w]], ws + [w], indent, maxLen) && shorter != []
    ensures IsGreedyLayout(gs + [shorter], ws, indent, maxLen)
  {
    var full := gs + [shorter + [w]];
    var r := gs + [shorter];
    var n := |gs|;
    assert Flatten(r) == ws by {
      FlattenSnoc(full);
      assert full[..n] == gs;
      assert Flatten(gs) + shorter + [w] == ws + [w];
      assert (Flatten(gs) + shorter + [w])[..|ws|] == Flatten(gs) + shorter;
      FlattenSnoc(r);
      assert r[..n] == gs;
    }
    assert NonEmptyLines(r) by {
      forall i | 0 <= i < |r| ensures r[i] != [] {
        if i < n { assert r[i] == full[i]; }
      }
    }
    assert WithinLimits(r, indent, maxLen) by {
      forall i | 0 <= i < |r| && |r[i]| >= 2 ensures Width(r[i], indent) <= Limit(i, maxLen) {
        if i < n {
          assert r[i] == full[i];
        } else {
          WidthSnoc(shorter, w, indent);
          assert full[n] == shorter + [w];
        }
      }
    }
    assert FullLines(r, indent, maxLen) by {
      forall i | 0 <= i < |r| - 1 ensures Width(r[i] + [r[i + 1][0]], indent) > Limit(i, maxLen) {
        assert r[i] == full[i];
        assert r[i + 1][0] == full[i + 1][0];
      }
    }
  }

  /** The greedy layout is the only one: any layout with the four properties of
      `IsGreedyLayout` is the one the fill produces. */
  lemma {:induction false} GreedyLayoutUnique(gs: seq<seq<string>>, ws: seq<string>, indent: nat, maxLen: int)
    requires IsGreedyLayout(gs, ws, indent, maxLen)
    ensures gs == Fill(ws, indent, maxLen)
    decreases |ws|, 1
  {
    if gs == [] {
      assert ws == Flatten(gs) == [];
    } else if |gs[|gs| - 1]| == 1 {
      UniqueEndingInOneWord(gs, ws, indent, maxLen);
    } else {
      UniqueEndingInLongLine(gs, ws, indent, maxLen);
    }
  }

  lemma {:induction false} UniqueEndingInOneWord(gs: seq<seq<string>>, ws: seq<string>, indent: nat, maxLen: int)
    requires IsGreedyLayout(gs, ws, indent, maxLen) && gs != [] && |gs[|gs| - 1]| == 1
    ensures gs == Fill(ws, indent, maxLen)
    decreases |ws|, 0
  {
    var n := |gs| - 1;
    DropLastLine(gs, ws, indent, maxLen);
    var prefix, w := ws[..|ws| - 1], ws[|ws| - 1];
    GreedyLayoutUnique(gs[..n], prefix, indent, maxLen);
    assert gs == gs[..n] + [[w]];
    if n > 0 {
      assert Width(gs[n - 1] + [w], indent) > Limit(n - 1, maxLen) by {
        assert gs[n][0] == w;
      }
      assert gs[..n][n - 1] == gs[n - 1];
    }
  }

  /** The fill of `ws + [w]` when the fill of `ws` is `gs` and `w` fits on its last line. */
  lemma FillSameLine(ws: seq<string>, w: string, gs: seq<seq<string>>, indent: nat, maxLen: int)
    requires gs == Fill(ws, indent, maxLen) && gs != []
    requires Width(gs[|gs| - 1] + [w], indent) <= Limit(|gs| - 1, maxLen)
    ensures Fill(ws + [w], indent, maxLen) == gs[..|gs| - 1] + [gs[|gs| - 1] + [w]]
  {
    assert (ws + [w])[..|ws|] == ws;
  }

  lemma {:induction false} UniqueEndingInLongLine(gs: seq<seq<string>>, ws: seq<string>, indent: nat, maxLen: int)
    requires IsGreedyLayout(gs, ws, indent, maxLen) && gs != [] && |gs[|gs| - 1]| >= 2
    ensures gs == Fill(ws, indent, maxLen)
    decreases |ws|, 0
  {
    var n := |gs| - 1;
    var last := gs[n];
    FlattenSnoc(gs);
    var prefix, w := ws[..|ws| - 1], ws[|ws| - 1];
    var shorter := last[..|last| - 1];
    assert last == shorter + [w];
    assert gs == gs[..n] + [shorter + [w]];
    assert ws == prefix + [w];
    assert Width(last, indent) <= Limit(n, maxLen);
    DropLastWord(gs[..n], prefix, shorter, w, indent, maxLen);
    var r := gs[..n] + [shorter];
    GreedyLayoutUnique(r, prefix, indent, maxLen);
    assert r[|r| - 1] + [w] == last;
    FillSameLine(prefix, w, r, indent, maxLen);
    assert r[..|r| - 1] == gs[..n];
  }

  /** One output line: the indent, then the words separated by single spaces. */
  function Render(g: seq<string>, indent: nat): string
  {
    Spaces(indent) + Join(g, " ")
  }

  function RenderAll(gs: seq<seq<string>>, indent: nat): (lines: seq<string>)
    ensures |lines| == |gs| && forall i :: 0 <= i < |gs| ==> lines[i] == Render(gs[i], indent)
  {
    seq(|gs|, i requires 0 <= i < |gs| => Render(gs[i], indent))
  }

  /** The output lines of one paragraph with the words `ws`. */
  function ParagraphLines(ws: seq<string>, indent: nat, maxLen: int): seq<string>
  {
    RenderAll(Fill(ws, indent, maxLen), indent)
  }

  /** Each stripped piece that is not blank, in order. */
  function StrippedNonBlank(ps: seq<string>): (r: seq<string>)
    ensures forall i :: 0 <= i < |r| ==> r[i] != [] && !IsSpace(r[i][0])
  {
    if ps == [] then []
    else
      (if Strip(ps[0]) != [] then [Strip(ps[0])] else []) + StrippedNonBlank(ps[1..])
  }

  /** The paragraphs of a description: the pieces between occurrences of two line feeds,
      stripped, with the blank ones left out. */
  function Paragraphs(d: string): seq<string>
  {
    StrippedNonBlank(Split(d, "\n\n"))
  }

  /** Stripping pieces that are already stripped and non-empty keeps them all. */
  lemma {:induction false} StrippedNonBlankFixed(ps: seq<string>)
    requires forall i :: 0 <= i < |ps| ==> ps[i] != [] && Strip(ps[i]) == ps[i]
    ensures StrippedNonBlank(ps) == ps
  {
    if ps != [] {
      StrippedNonBlankFixed(ps[1..]);
      assert ps == [ps[0]] + ps[1..];
    }
  }

  /** The shape of a paragraph: non-empty, already stripped, and without a blank-line separator. */
  ghost predicate IsParagraph(p: string)
  {
    p != [] && Strip(p) == p && !Contains(p, "\n\n")
  }

  /** Stripping a piece without a blank-line separator gives a paragraph, unless it is blank. */
  lemma StripIsParagraph(q: string)
    requires !Contains(q, "\n\n") && Strip(q) != []
    ensures IsParagraph(Strip(q))
  {
    StripFixed(Strip(q));
    StripSlice(q);
    SliceFree(q, "\n\n", StripStart(q), |Strip(q)|);
  }

  /** Each kept piece is a paragraph when no piece holds a blank-line separator. */
  lemma {:induction false} StrippedNonBlankShape(ps: seq<string>)
    requires forall k :: 0 <= k < |ps| ==> !Contains(ps[k], "\n\n")
    ensures forall p :: p in StrippedNonBlank(ps) ==> IsParagraph(p)
  {
    if ps != [] {
      var q := Strip(ps[0]);
      StrippedNonBlankShape(ps[1..]);
      if q != [] {
        StripIsParagraph(ps[0]);
      }
      var head: seq<string> := if q != [] then [q] else [];
      assert StrippedNonBlank(ps) == head + StrippedNonBlank(ps[1..]);
    }
  }

  /** Every paragraph is non-empty, already stripped, and holds no blank-line separator. */
  lemma ParagraphShape(d: string)
    ensures forall p :: p in Paragraphs(d) ==> IsParagraph(p)
  {
    SplitPiecesFree(d, "\n\n");
    StrippedNonBlankShape(Split(d, "\n\n"));
  }

  /** A text without paragraphs of its own: the empty description's single piece is blank. */
  lemma ParagraphsOfEmpty()
    ensures Paragraphs("") == []
  {
    assert Find("", "\n\n").None?;
    StripFixed("");
  }

  /** A paragraph does not end with a line feed. */
  lemma ParagraphLastChar(p: string)
    requires IsParagraph(p)
    ensures !Contains(p, ['\n', '\n']) && p[|p| - 1] != '\n'
  {
    assert !IsSpace(Strip(p)[|p| - 1]);
    assert "\n\n" == ['\n', '\n'];
  }

  /** Splitting paragraphs joined by blank-line separators at those separators gives them back. */
  lemma SplitParagraphs(ps: seq<string>)
    requires |ps| >= 1 && forall i :: 0 <= i < |ps| ==> IsParagraph(ps[i])
    ensures Split(Join(ps, ['\n', '\n']), ['\n', '\n']) == ps
  {
    forall i | 0 <= i < |ps|
      ensures !Contains(ps[i], ['\n', '\n']) && (ps[i] == [] || ps[i][|ps[i]| - 1] != '\n')
    {
      ParagraphLastChar(ps[i]);
    }
    SplitJoinDouble(ps, '\n');
  }

  /** Round trip: paragraphs joined by blank-line separators are cut back into exactly those
      paragraphs. */
  lemma ParagraphsOfJoin(ps: seq<string>)
    requires forall i :: 0 <= i < |ps| ==> IsParagraph(ps[i])
    ensures Paragraphs(Join(ps, "\n\n")) == ps
  {
    if ps == [] {
      ParagraphsOfEmpty();
    } else {
      SplitParagraphs(ps);
      assert "\n\n" == ['\n', '\n'];
      StrippedNonBlankFixed(ps);
    }
  }

  /** One piece gives its strip, or nothing when it is blank. */
  lemma StrippedNonBlankSingle(q: string)
    ensures StrippedNonBlank([q]) == if Strip(q) == [] then [] else [Strip(q)]
  {
    assert [q][1..] == [];
  }

  /** The first piece is stripped and filtered on its own. */
  lemma StrippedNonBlankCons(p: string, ps: seq<string>)
    ensures StrippedNonBlank([p] + ps) == StrippedNonBlank([p]) + StrippedNonBlank(ps)
  {
    assert ([p] + ps)[0] == p;
    assert ([p] + ps)[1..] == ps;
    StrippedNonBlankSingle(p);
  }

  /** The pieces are stripped and filtered one by one, in order. */
  lemma {:induction false} StrippedNonBlankAppend(a: seq<string>, b: seq<string>)
    ensures StrippedNonBlank(a + b) == StrippedNonBlank(a) + StrippedNonBlank(b)
  {
    if a == [] {
      assert a + b == b;
    } else {
      var p, t := a[0], a[1..];
      AppendAt(a, 1, b);
      assert a[..1] == [p];
      StrippedNonBlankCons(p, t);
      StrippedNonBlankCons(p, t + b);
      StrippedNonBlankAppend(t, b);
      Assoc(StrippedNonBlank([p]), StrippedNonBlank(t), StrippedNonBlank(b));
    }
  }

  /** Cutting pieces joined by blank-line separators: the paragraphs are the pieces, each
      stripped, with the blank ones left out, in order. A piece may hold whitespace at either
      end and single line feeds, as long as it holds no blank-line separator and does not end
      with a line feed. */
  lemma ParagraphsOfPieces(qs: seq<string>)
    requires forall i :: 0 <= i < |qs| ==> !Contains(qs[i], "\n\n") && (qs[i] == [] || qs[i][|qs[i]| - 1] != '\n')
    ensures Paragraphs(Join(qs, "\n\n")) == StrippedNonBlank(qs)
  {
    if qs == [] {
      ParagraphsOfEmpty();
    } else {
      PiecesSplitBack(qs);
      assert "\n\n" == ['\n', '\n'];
    }
  }

  /** Splitting such pieces joined by blank-line separators at those separators gives them back. */
  lemma PiecesSplitBack(qs: seq<string>)
    requires |qs| >= 1
    requires forall i :: 0 <= i < |qs| ==> !Contains(qs[i], "\n\n") && (qs[i] == [] || qs[i][|qs[i]| - 1] != '\n')
    ensures Split(Join(qs, ['\n', '\n']), ['\n', '\n']) == qs
  {
    assert "\n\n" == ['\n', '\n'];
    SplitJoinDouble(qs, '\n');
  }

  /** The lines of each paragraph, paragraph by paragraph. */
  function Blocks(ps: seq<string>, indent: nat, maxLen: int): (bs: seq<seq<string>>)
    ensures |bs| == |ps| && forall i :: 0 <= i < |ps| ==> bs[i] == ParagraphLines(Words(ps[i]), indent, maxLen)
  {
    seq(|ps|, i requires 0 <= i < |ps| => ParagraphLines(Words(ps[i]), indent, maxLen))
  }

  /** All output lines: the paragraphs' lines with one empty line between consecutive paragraphs. */
  function DescriptionLines(d: string, indent: nat, maxLen: int): seq<string>
  {
    Join(Blocks(Paragraphs(d), indent, maxLen), [""])
  }

  /** The formatted block: `N/A` after the indent for an empty description, else the lines joined by line feeds. */
  function DescriptionText(d: string, indent: nat, maxLen: int): string
  {
    if d == [] then Spaces(indent) + "N/A" else Join(DescriptionLines(d, indent, maxLen), "\n")
  }

  /** The wrapper's state after the words `done`: the lines emitted so far follow `lines`
      and are the greedy fill of `done` but for its last line, which is still being
      built in `cur`; the running counter `len` is that line's width, plus one on the
      first line of the paragraph. */
  ghost predicate WrapState(done: seq<string>, indent: nat, maxLen: int, lines: seq<string>,
                            out: seq<string>, cur: seq<string>, len: int)
  {
    if done == [] then cur == [] && len == indent && out == lines
    else
      var gs := Fill(done, indent, maxLen);
      && gs != [] && cur == gs[|gs| - 1]
      && out == lines + RenderAll(gs[..|gs| - 1], indent)
      && len == Width(cur, indent) + (if |gs| == 1 then 1 else 0)
  }

  /** When the counter says the word does not fit, emitting the line and starting a new
      one with the word is the greedy fill's own step. */
  lemma WrapStepWraps(done: seq<string>, w: string, indent: nat, maxLen: int, lines: seq<string>,
                      out: seq<string>, cur: seq<string>, len: int)
    requires WrapState(done, indent, maxLen, lines, out, cur, len)
    requires len + |w| + 1 > maxLen && cur != []
    ensures WrapState(done + [w], indent, maxLen, lines, out + [Render(cur, indent)], [w], indent + |w|)
  {
    var gs := Fill(done, indent, maxLen);
    WidthSnoc(cur, w, indent);
    assert (done + [w])[..|done|] == done;
    var next := gs + [[w]];
    assert Fill(done + [w], indent, maxLen) == next;
    assert next[..|next| - 1] == gs;
    assert gs == gs[..|gs| - 1] + [cur];
    assert RenderAll(gs, indent) == RenderAll(gs[..|gs| - 1], indent) + [Render(cur, indent)];
    assert Join([w], " ") == w;
  }

  /** When the word fits, or no line is open, adding it to the open line is the greedy
      fill's own step. */
  lemma WrapStepExtends(done: seq<string>, w: string, indent: nat, maxLen: int, lines: seq<string>,
                        out: seq<string>, cur: seq<string>, len: int)
    requires WrapState(done, indent, maxLen, lines, out, cur, len)
    requires !(len + |w| + 1 > maxLen && cur != [])
    ensures WrapState(done + [w], indent, maxLen, lines, out, cur + [w], len + |w| + 1)
  {
    if done == [] {
      assert done + [w] == [w];
      assert Join([w], " ") == w;
      assert [] + [w] == [w];
    } else {
      var gs := Fill(done, indent, maxLen);
      WidthSnoc(cur, w, indent);
      FillSameLine(done, w, gs, indent, maxLen);
      var next := gs[..|gs| - 1] + [cur + [w]];
      assert next[..|next| - 1] == gs[..|gs| - 1];
    }
  }

  /** Once every word is placed, emitting the open line completes the paragraph's lines. */
  lemma WrapFinish(words: seq<string>, indent: nat, maxLen: int, lines: seq<string>,
                   out: seq<string>, cur: seq<string>, len: int)
    requires WrapState(words, indent, maxLen, lines, out, cur, len)
    ensures cur == [] ==> words == [] && out == lines + ParagraphLines(words, indent, maxLen)
    ensures cur != [] ==> out + [Render(cur, indent)] == lines + ParagraphLines(words, indent, maxLen)
  {
    if words != [] {
      var gs := Fill(words, indent, maxLen);
      assert gs == gs[..|gs| - 1] + [cur];
      assert RenderAll(gs, indent) == RenderAll(gs[..|gs| - 1], indent) + [Render(cur, indent)];
    }
  }

  /** Fills one paragraph's words into lines and appends them to `lines`. */
  method WrapParagraph(words: seq<string>, indent: nat, maxLen: int, lines: seq<string>) returns (out: seq<string>)
    ensures out == lines + ParagraphLines(words, indent, maxLen)
  {
    out := lines;
    var currentLine: seq<string> := [];
    var currentLength: int := indent;
    for j := 0 to |words|
      invariant WrapState(words[..j], indent, maxLen, lines, out, currentLine, currentLength)
    {
      var word := words[j];
      var wordLength := |word| + 1;
      assert words[..j + 1] == words[..j] + [word];
      if currentLength + wordLength > maxLen && currentLine != [] {
        WrapStepWraps(words[..j], word, indent, maxLen, lines, out, currentLine, currentLength);
        out := out + [Spaces(indent) + Join(currentLine, " ")];
        currentLine := [word];
        currentLength := indent + |word|;
      } else {
        WrapStepExtends(words[..j], word, indent, maxLen, lines, out, currentLine, currentLength);
        currentLine := currentLine + [word];
        currentLength := currentLength + wordLength;
      }
    }
    assert words[..|words|] == words;
    WrapFinish(words, indent, maxLen, lines, out, currentLine, currentLength);
    if currentLine != [] {
      out := out + [Spaces(indent) + Join(currentLine, " ")];
    }
  }

  /** The lines of the first `k + 1` paragraphs: those of the first `k`, a separating
      empty line when `k > 0`, and the lines of paragraph `k`. */
  lemma DescriptionLinesSnoc(ps: seq<string>, k: nat, indent: nat, maxLen: int)
    requires k < |ps|
    ensures Join(Blocks(ps[..k + 1], indent, maxLen), [""])
         == Join(Blocks(ps[..k], indent, maxLen), [""]) + (if k > 0 then [""] else [])
            + ParagraphLines(Words(ps[k]), indent, maxLen)
  {
    var block := ParagraphLines(Words(ps[k]), indent, maxLen);
    assert Blocks(ps[..k + 1], indent, maxLen) == Blocks(ps[..k], indent, maxLen) + [block];
    if k > 0 {
      JoinSnoc(Blocks(ps[..k], indent, maxLen), block, [""]);
    } else {
      assert Blocks(ps[..k], indent, maxLen) == [];
      assert [] + [block] == [block];
    }
  }

  /** Formats a description as the indented body of a YAML block scalar. */
  method FormatMultilineDescription(description: string, indent: nat, maxLen: int) returns (text: string)
    ensures text == DescriptionText(description, indent, maxLen)
  {
    if description == [] {
      return Spaces(indent) + "N/A";
    }
    var paragraphs := Paragraphs(description);
    var lines: seq<string> := [];
    for idx := 0 to |paragraphs|
      invariant lines == Join(Blocks(paragraphs[..idx], indent, maxLen), [""])
                         + (if 0 < idx < |paragraphs| then [""] else [])
    {
      var paragraph := Join(Words(paragraphs[idx]), " ");
      var words := Words(paragraph);
      WordsOfJoin(Words(paragraphs[idx]));
      lines := WrapParagraph(words, indent, maxLen, lines);
      DescriptionLinesSnoc(paragraphs, idx, indent, maxLen);
      if idx < |paragraphs| - 1 {
        lines := lines + [""];
      }
    }
    assert paragraphs[..|paragraphs|] == paragraphs;
    assert lines == DescriptionLines(description, indent, maxLen);
    text := Join(lines, "\n");
  }

  predicate AllWords(ws: seq<string>)
  {
    forall i :: 0 <= i < |ws| ==> IsWord(ws[i])
  }

  /** The words of each line, as `str.split` reads them back. */
  function LineWords(lines: seq<string>): (wss: seq<seq<string>>)
    ensures |wss| == |lines| && forall k :: 0 <= k < |lines| ==> wss[k] == Words(lines[k])
  {
    seq(|lines|, k requires 0 <= k < |lines| => Words(lines[k]))
  }

  /** A rendered line is the indent, then a non-space character, holds no line feed, is as long
      as its width, and splits back into exactly its words. */
  lemma RenderSpec(g: seq<string>, indent: nat)
    requires g != [] && AllWords(g)
    ensures var line := Render(g, indent);
      && |line| == Width(g, indent) && indent < |line|
      && line[..indent] == Spaces(indent) && !IsSpace(line[indent])
      && '\n' !in line
      && Words(line) == g
  {
    var line := Render(g, indent);
    var text := Join(g, " ");
    WordsSkipSpaces(indent, text);
    WordsOfJoin(g);
    assert text == g[0] || text == g[0] + " " + Join(g[1..], " ");
    assert line[indent] == text[0] == g[0][0];
    JoinAll(g, " ", c => c != '\n');
    assert forall k :: indent <= k < |line| ==> line[k] == text[k - indent];
  }

  /** The lines of one paragraph: each is the indent followed by a non-space character and
      holds no line feed; a line of two or more words is within its limit, and so at most
      `maxLen` long; and the words of the lines, read in order, are the paragraph's words. */
  lemma ParagraphLayout(ws: seq<string>, indent: nat, maxLen: int)
    requires AllWords(ws)
    ensures var lines := ParagraphLines(ws, indent, maxLen);
      && (ws != [] <==> lines != [])
      && Flatten(LineWords(lines)) == ws
      && forall k :: 0 <= k < |lines| ==>
           && indent < |lines[k]| && lines[k][..indent] == Spaces(indent) && !IsSpace(lines[k][indent])
           && '\n' !in lines[k]
           && (|Words(lines[k])| >= 2 ==> |lines[k]| <= Limit(k, maxLen) <= maxLen)
  {
    var gs := Fill(ws, indent, maxLen);
    var lines := ParagraphLines(ws, indent, maxLen);
    FillIsGreedy(ws, indent, maxLen);
    forall k | 0 <= k < |gs|
      ensures var line := Render(gs[k], indent);
        && |line| == Width(gs[k], indent) && indent < |line|
        && line[..indent] == Spaces(indent) && !IsSpace(line[indent])
        && '\n' !in line && Words(line) == gs[k]
    {
      forall j | 0 <= j < |gs[k]| ensures IsWord(gs[k][j]) {
        FlattenMember(gs, k, j);
      }
      RenderSpec(gs[k], indent);
    }
    assert LineWords(lines) == gs;
    if ws != [] {
      assert gs != [];
    }
  }

  /** The whole description block. Its line-feed-separated lines are `DescriptionLines`; cut at
      the empty lines, these are exactly the paragraphs' blocks, so consecutive paragraphs are
      separated by one empty line and none follows the last; a description with no non-blank
      paragraph gives an empty block, and an empty one gives `N/A` after the indent. */
  lemma DescriptionLayout(d: string, indent: nat, maxLen: int)
    ensures d == [] ==> DescriptionText(d, indent, maxLen) == Spaces(indent) + "N/A"
    ensures d != [] && Paragraphs(d) == [] ==> DescriptionText(d, indent, maxLen) == ""
    ensures d != [] && Paragraphs(d) != [] ==>
      && Split(DescriptionText(d, indent, maxLen), "\n") == DescriptionLines(d, indent, maxLen)
      && Split(DescriptionLines(d, indent, maxLen), [""]) == Blocks(Paragraphs(d), indent, maxLen)
  {
    var ps := Paragraphs(d);
    var bs := Blocks(ps, indent, maxLen);
    if d != [] && ps != [] {
      forall i | 0 <= i < |ps|
        ensures bs[i] != []
        ensures forall j :: 0 <= j < |bs[i]| ==> bs[i][j] != "" && '\n' !in bs[i][j]
      {
        ParagraphLayout(Words(ps[i]), indent, maxLen);
      }
      SplitJoin(bs, "");
      var lines := Join(bs, [""]);
      JoinAll(bs, [""], (line: string) => '\n' !in line);
      SplitJoin(lines, '\n');
    }
  }

  lemma LineWordsAppend(a: seq<string>, b: seq<string>)
    ensures LineWords(a + b) == LineWords(a) + LineWords(b)
  {
    forall k | 0 <= k < |a + b| ensures LineWords(a + b)[k] == (LineWords(a) + LineWords(b))[k] {
      if k < |a| {
        assert (a + b)[k] == a[k];
      } else {
        assert (a + b)[k] == b[k - |a|];
      }
    }
  }

  /** The words of pieces joined by whitespace are the words of the pieces, in order. */
  lemma {:induction false} WordsOfSpacedJoin(ps: seq<string>, sep: string)
    requires sep != [] && forall k :: 0 <= k < |sep| ==> IsSpace(sep[k])
    ensures Words(Join(ps, sep)) == Flatten(LineWords(ps))
  {
    if |ps| == 1 {
      assert LineWords(ps) == [Words(ps[0])];
    } else if |ps| > 1 {
      var rest := Join(ps[1..], sep);
      WordsOfSpacedJoin(ps[1..], sep);
      assert Join(ps, sep) == ps[0] + (sep + rest);
      WordsAppend(ps[0], sep + rest);
      WordsAfterSpaces(sep, rest);
      assert ps == [ps[0]] + ps[1..];
      LineWordsAppend([ps[0]], ps[1..]);
    }
  }

  /** The words of a piece in front come first. */
  lemma LineWordsCons(p: string, ps: seq<string>)
    ensures Flatten(LineWords([p] + ps)) == Words(p) + Flatten(LineWords(ps))
  {
    LineWordsAppend([p], ps);
    assert LineWords([p]) == [Words(p)];
  }

  /** The words of two runs of lines are the words of the first, then those of the second. */
  lemma FlattenWordsAppend(a: seq<string>, b: seq<string>)
    ensures Flatten(LineWords(a + b)) == Flatten(LineWords(a)) + Flatten(LineWords(b))
  {
    LineWordsAppend(a, b);
    FlattenAppend(LineWords(a), LineWords(b));
  }

  /** The words of a single line. */
  lemma SingleLineWords(x: string)
    ensures Flatten(LineWords([x])) == Words(x)
  {
    assert LineWords([x]) == [Words(x)];
  }

  /** Stripping the pieces and leaving out the blank ones loses no word and reorders none. */
  lemma {:induction false} StrippedNonBlankWords(ps: seq<string>)
    ensures Flatten(LineWords(StrippedNonBlank(ps))) == Flatten(LineWords(ps))
  {
    if ps != [] {
      var head, rest := StrippedNonBlank([ps[0]]), StrippedNonBlank(ps[1..]);
      assert ps == [ps[0]] + ps[1..];
      StrippedNonBlankCons(ps[0], ps[1..]);
      StrippedNonBlankWords(ps[1..]);
      StrippedPieceWords(ps[0]);
      FlattenWordsAppend(head, rest);
      LineWordsCons(ps[0], ps[1..]);
    }
  }

  /** The kept form of one piece has the piece's words. */
  lemma StrippedPieceWords(q: string)
    ensures Flatten(LineWords(StrippedNonBlank([q]))) == Words(q)
  {
    StrippedNonBlankSingle(q);
    WordsOfStrip(q);
    if Strip(q) != [] {
      SingleLineWords(Strip(q));
    }
  }

  /** The paragraphs hold every word of the description, in order: cutting at blank lines
      and stripping drop only whitespace. */
  lemma ParagraphWords(d: string)
    ensures Flatten(LineWords(Paragraphs(d))) == Words(d)
  {
    var pieces := Split(d, "\n\n");
    StrippedNonBlankWords(pieces);
    WordsOfSpacedJoin(pieces, "\n\n");
    JoinSplit(d, "\n\n");
  }

  /** The words of blocks joined by empty lines are the words of the blocks, in order. */
  lemma {:induction false} WordsOfBlocks(bs: seq<seq<string>>)
    ensures Flatten(LineWords(Join(bs, [""])))
      == Flatten(seq(|bs|, i requires 0 <= i < |bs| => Flatten(LineWords(bs[i]))))
  {
    var fs := seq(|bs|, i requires 0 <= i < |bs| => Flatten(LineWords(bs[i])));
    if |bs| == 1 {
      assert fs == [Flatten(LineWords(bs[0]))];
    } else if |bs| > 1 {
      var rest := Join(bs[1..], [""]);
      WordsOfBlocks(bs[1..]);
      assert fs[1..] == seq(|bs[1..]|, i requires 0 <= i < |bs[1..]| => Flatten(LineWords(bs[1..][i])));
      LineWordsAppend(bs[0] + [""], rest);
      LineWordsAppend(bs[0], [""]);
      assert LineWords([""]) == [[]];
      FlattenAppend(LineWords(bs[0]) + [[]], LineWords(rest));
      FlattenAppend(LineWords(bs[0]), [[]]);
    }
  }

  /** The formatted block of a non-empty description holds exactly the description's words,
      in order: wrapping, indenting and separating paragraphs only move whitespace. */
  lemma DescriptionWords(d: string, indent: nat, maxLen: int)
    requires d != []
    ensures Words(DescriptionText(d, indent, maxLen)) == Words(d)
  {
    var ps := Paragraphs(d);
    var bs := Blocks(ps, indent, maxLen);
    forall i | 0 <= i < |ps| ensures Flatten(LineWords(bs[i])) == Words(ps[i]) {
      ParagraphLayout(Words(ps[i]), indent, maxLen);
    }
    assert seq(|bs|, i requires 0 <= i < |bs| => Flatten(LineWords(bs[i]))) == LineWords(ps);
    WordsOfBlocks(bs);
    ParagraphWords(d);
    WordsOfSpacedJoin(DescriptionLines(d, indent, maxLen), "\n");
  }
}
