/** Comment extraction (`sql_unit/annotations.py`): the tagged SQL block
    comments of a template, concatenated, with blank lines dropped, the common
    indentation removed and trailing whitespace trimmed. */
module Annotations {

  import opened Wrappers
  import opened Strings
  import opened Values

  /** The tag that marks a block as annotations. */
  const Tag: string := "# sql-unit"

  /** The tag that switches a block off; it contains `Tag`. */
  const DisabledTag: string := "# sql-unit.disabled"

  /** The markers that open and close a SQL block comment. */
  const Open: string := "/" + "*"
  const Close: string := "*" + "/"

  /** The bodies of the block comments, in the order the scan meets them.
      The closing marker is searched from just after the opening one; the
      scan stops at the first opening marker that has no closing marker. */
  function Blocks(t: string): seq<string>
    decreases |t|
  {
    match Find(t, Open, 0)
    case None => []
    case Some(i) =>
      match Find(t, Close, i + 2)
      case None => []
      case Some(j) => [t[i + 2..j]] + Blocks(t[j + 2..])
  }

  /** A block is kept when it holds the tag and not the disabled tag. */
  predicate Accepted(c: string) {
    Contains(c, Tag) && !Contains(c, DisabledTag)
  }

  /** What a kept block adds: its body with every tag removed, then a
      newline. */
  function Contribution(c: string): string {
    Replace(c, Tag, "") + "\n"
  }

  /** The concatenated contributions of the kept blocks. It is empty exactly
      when no block is kept. */
  function Gather(blocks: seq<string>): (r: string)
    ensures r == "" <==> forall i :: 0 <= i < |blocks| ==> !Accepted(blocks[i])
    decreases |blocks|
  {
    if |blocks| == 0 then ""
    else
      var rest := Gather(blocks[1..]);
      assert forall i :: 1 <= i < |blocks| ==> blocks[i] == blocks[1..][i - 1];
      (if Accepted(blocks[0]) then Contribution(blocks[0]) else "") + rest
  }

  /** `comment_doc` after the scan loop. */
  function CommentDoc(t: string): string {
    Gather(Blocks(t))
  }

  /** The lines that have a non-whitespace character, in order. */
  function NonBlank(lines: seq<string>): (r: seq<string>)
    ensures |r| <= |lines|
    ensures forall i :: 0 <= i < |r| ==> HasText(r[i]) && r[i] in lines
    ensures forall i :: 0 <= i < |lines| && HasText(lines[i]) ==> lines[i] in r
    decreases |lines|
  {
    if |lines| == 0 then []
    else
      var rest := NonBlank(lines[1..]);
      assert forall i :: 1 <= i < |lines| ==> lines[i] == lines[1..][i - 1];
      if HasText(lines[0]) then [lines[0]] + rest else rest
  }

  /** A single line is kept exactly when it has text. */
  lemma NonBlankOne(line: string)
    ensures NonBlank([line]) == if HasText(line) then [line] else []
  {
    assert [line][1..] == [];
  }

  /** The filter works line by line: filtering joined runs of lines joins
      the filtered runs, so the kept lines stay in their order. */
  lemma {:induction false} NonBlankAppend(a: seq<string>, b: seq<string>)
    ensures NonBlank(a + b) == NonBlank(a) + NonBlank(b)
    decreases |a|
  {
    if |a| == 0 {
      assert a + b == b;
    } else {
      assert (a + b)[0] == a[0];
      assert (a + b)[1..] == a[1..] + b;
      NonBlankAppend(a[1..], b);
    }
  }

  /** The smallest indentation among `lines`. */
  function MinIndent(lines: seq<string>): (m: nat)
    requires |lines| > 0
    ensures forall i :: 0 <= i < |lines| ==> m <= Indent(lines[i])
    ensures exists i :: 0 <= i < |lines| && Indent(lines[i]) == m
    decreases |lines|
  {
    if |lines| == 1 then Indent(lines[0])
    else
      var rest := MinIndent(lines[1..]);
      assert forall i :: 1 <= i < |lines| ==> lines[i] == lines[1..][i - 1];
      if Indent(lines[0]) <= rest then Indent(lines[0]) else rest
  }

  /** `line[m:]` for every line. */
  function Dedent(lines: seq<string>, m: nat): (r: seq<string>)
    requires forall i :: 0 <= i < |lines| ==> m <= |lines[i]|
    ensures |r| == |lines|
    ensures forall i :: 0 <= i < |lines| ==> r[i] == lines[i][m..]
    decreases |lines|
  {
    if |lines| == 0 then [] else [lines[0][m..]] + Dedent(lines[1..], m)
  }

  /** `line.rstrip()` for every line. */
  function RStripAll(lines: seq<string>): (r: seq<string>)
    ensures |r| == |lines|
    ensures forall i :: 0 <= i < |lines| ==> r[i] == RStrip(lines[i])
    decreases |lines|
  {
    if |lines| == 0 then [] else [RStrip(lines[0])] + RStripAll(lines[1..])
  }

  /** Normalising the comment document: drop the blank lines, remove the
      common indentation, trim trailing whitespace. Its output lines
      are the non-blank input lines, each with exactly the common
      indentation removed and trailing whitespace trimmed; every output line
      has text, none ends in whitespace, one starts at column 0, and the
      indentation of each line relative to the others is kept. */
  function Normalize(doc: string): (r: string)
    ensures var ne, out := NonBlank(SplitLines(doc)), SplitLines(r);
      && |out| == |ne|
      && r == Join(out, "\n")
      && (forall i :: 0 <= i < |out| ==> CleanLine(out[i]))
      && (|ne| > 0 ==> exists i :: 0 <= i < |out| && Indent(out[i]) == 0)
      && (|ne| > 0 ==> forall i :: 0 <= i < |out| ==>
            out[i] == RStrip(ne[i][MinIndent(ne)..]) && Indent(out[i]) == Indent(ne[i]) - MinIndent(ne))
  {
    var ne := NonBlank(SplitLines(doc));
    if |ne| == 0 then
      assert SplitLines("") == [];
      ""
    else
      Reindent(ne)
  }

  /** `out` is `ne` with the common indentation removed and trailing
      whitespace trimmed: line for line, each an output line, with the
      relative indentation kept and one line at column 0. */
  predicate Reindented(ne: seq<string>, out: seq<string>)
    requires |ne| > 0
    requires forall i :: 0 <= i < |ne| ==> MinIndent(ne) <= |ne[i]|
  {
    && |out| == |ne|
    && (forall i :: 0 <= i < |out| ==> CleanLine(out[i]))
    && (exists i :: 0 <= i < |out| && Indent(out[i]) == 0)
    && (forall i :: 0 <= i < |out| ==>
          out[i] == RStrip(ne[i][MinIndent(ne)..]) && Indent(out[i]) == Indent(ne[i]) - MinIndent(ne))
  }

  /** Re-indenting the non-blank lines: strip the common indentation, join,
      split again and trim each line. */
  function Reindent(ne: seq<string>): (r: string)
    requires |ne| > 0
    requires forall i :: 0 <= i < |ne| ==> HasText(ne[i]) && '\n' !in ne[i]
    ensures forall i :: 0 <= i < |ne| ==> MinIndent(ne) <= |ne[i]|
    ensures Reindented(ne, SplitLines(r)) && r == Join(SplitLines(r), "\n")
  {
    var m := MinIndent(ne);
    IndentWithinText(ne);
    var shifted := Dedent(ne, m);
    var out := RStripAll(shifted);
    assert SplitLines(Join(shifted, "\n")) == shifted by {
      DedentedLines(ne, m, shifted);
      SplitLinesJoin(shifted);
    }
    assert Reindented(ne, out) && forall i :: 0 <= i < |out| ==> out[i] != [] && '\n' !in out[i] by {
      DedentedLines(ne, m, shifted);
      TrimmedLines(ne, m, shifted, out);
      DedentThenTrim(ne, m, shifted, out);
    }
    var r := Join(out, "\n");
    assert SplitLines(r) == out by {
      SplitLinesJoin(out);
    }
    assert Join(RStripAll(SplitLines(Join(shifted, "\n"))), "\n") == r;
    r
  }

  /** Each output line is its input line, dedented and then trimmed. */
  lemma DedentThenTrim(ne: seq<string>, m: nat, shifted: seq<string>, out: seq<string>)
    requires forall i :: 0 <= i < |ne| ==> m <= |ne[i]|
    requires shifted == Dedent(ne, m) && out == RStripAll(shifted)
    ensures |out| == |ne|
    ensures forall i :: 0 <= i < |out| ==> out[i] == RStrip(ne[i][m..])
  {
    forall i | 0 <= i < |out| ensures out[i] == RStrip(ne[i][m..]) {
      assert shifted[i] == ne[i][m..];
    }
  }

  /** The indentation of a line with text is shorter than the line. */
  lemma IndentWithinText(lines: seq<string>)
    requires forall i :: 0 <= i < |lines| ==> HasText(lines[i])
    ensures forall i :: 0 <= i < |lines| ==> Indent(lines[i]) < |lines[i]|
  {
    forall i | 0 <= i < |lines| ensures Indent(lines[i]) < |lines[i]| {
      var k :| 0 <= k < |lines[i]| && !IsSpace(lines[i][k]);
    }
  }

  /** Dropping `m` characters of leading whitespace lowers the indentation by
      `m` and keeps the text. */
  lemma IndentDrop(s: string, m: nat)
    requires HasText(s) && m <= Indent(s)
    ensures HasText(s[m..]) && Indent(s[m..]) == Indent(s) - m
  {
    var t := s[m..];
    var k :| 0 <= k < |s| && !IsSpace(s[k]);
    assert k >= Indent(s);
    assert !IsSpace(t[k - m]);
    IndentUnique(t, Indent(s) - m);
  }

  /** Trimming trailing whitespace keeps the indentation and the text. */
  lemma IndentRStrip(s: string)
    requires HasText(s)
    ensures HasText(RStrip(s)) && Indent(RStrip(s)) == Indent(s)
  {
    var r := RStrip(s);
    var k :| 0 <= k < |s| && !IsSpace(s[k]);
    assert k < |r|;
    IndentPrefix(s, r);
  }

  /** A prefix that reaches past the indentation has the same indentation. */
  lemma IndentPrefix(s: string, r: string)
    requires |r| <= |s| && r == s[..|r|] && Indent(s) < |r|
    ensures Indent(r) == Indent(s)
  {
    IndentUnique(r, Indent(s));
  }

  /** Trimming a line that ends in a non-space changes nothing. */
  lemma RStripFixed(s: string)
    requires s == [] || !IsSpace(s[|s| - 1])
    ensures RStrip(s) == s
  {
  }

  /** The dedented lines are non-empty, newline-free and have text. */
  lemma DedentedLines(ne: seq<string>, m: nat, shifted: seq<string>)
    requires |ne| > 0 && m == MinIndent(ne)
    requires forall i :: 0 <= i < |ne| ==> HasText(ne[i]) && '\n' !in ne[i]
    requires forall i :: 0 <= i < |ne| ==> m <= |ne[i]|
    requires shifted == Dedent(ne, m)
    ensures forall i :: 0 <= i < |shifted| ==> shifted[i] != [] && '\n' !in shifted[i]
    ensures forall i :: 0 <= i < |shifted| ==>
      HasText(shifted[i]) && Indent(shifted[i]) == Indent(ne[i]) - m
  {
    forall i | 0 <= i < |shifted|
      ensures shifted[i] != [] && '\n' !in shifted[i]
      ensures HasText(shifted[i]) && Indent(shifted[i]) == Indent(ne[i]) - m
    {
      IndentDrop(ne[i], m);
      assert forall c :: c in shifted[i] ==> c in ne[i];
    }
  }

  /** An output line: non-empty, without newlines, with text, and not
      ending in whitespace. */
  predicate CleanLine(y: string) {
    y != [] && '\n' !in y && HasText(y) && !IsSpace(y[|y| - 1])
  }

  /** Trimming one line with text keeps its text, its indentation and its
      freedom from newlines, and leaves it ending in a non-space. */
  lemma TrimmedLine(x: string)
    requires '\n' !in x && HasText(x)
    ensures CleanLine(RStrip(x)) && Indent(RStrip(x)) == Indent(x)
  {
    IndentRStrip(x);
    var y := RStrip(x);
    assert |y| == TextEnd(x) > 0;
    assert !IsSpace(y[|y| - 1]) by {
      assert y[|y| - 1] == x[TextEnd(x) - 1];
    }
    assert forall c :: c in y ==> c in x;
  }

  /** The trimmed lines are output lines and keep their indentation; one of
      them starts at column 0. */
  lemma TrimmedLines(ne: seq<string>, m: nat, shifted: seq<string>, out: seq<string>)
    requires |shifted| == |ne|
    requires exists j :: 0 <= j < |ne| && Indent(ne[j]) == m
    requires forall i :: 0 <= i < |shifted| ==> '\n' !in shifted[i] && HasText(shifted[i])
    requires forall i :: 0 <= i < |shifted| ==> Indent(shifted[i]) == Indent(ne[i]) - m
    requires out == RStripAll(shifted)
    ensures forall i :: 0 <= i < |out| ==> CleanLine(out[i])
    ensures forall i :: 0 <= i < |out| ==> Indent(out[i]) == Indent(ne[i]) - m
    ensures exists i :: 0 <= i < |out| && Indent(out[i]) == 0
  {
    forall i | 0 <= i < |out|
      ensures CleanLine(out[i]) && Indent(out[i]) == Indent(ne[i]) - m
    {
      assert out[i] == RStrip(shifted[i]);
      TrimmedLine(shifted[i]);
    }
    var j :| 0 <= j < |ne| && Indent(ne[j]) == m;
    assert Indent(out[j]) == 0;
  }

  /** `get_comments`: the normalised text of the kept blocks, or `""` when
      there is none. Its lines are the non-blank lines of the comment
      document, one for one and in order, each with the common indentation
      removed and trailing whitespace trimmed; no output line is blank or
      ends in whitespace, and when there is output one line starts at
      column 0. */
  function GetComments(t: string): (r: string)
    ensures var ne, out := NonBlank(SplitLines(CommentDoc(t))), SplitLines(r);
      && |out| == |ne|
      && r == Join(out, "\n")
      && (|ne| > 0 ==> forall i :: 0 <= i < |out| ==> out[i] == RStrip(ne[i][MinIndent(ne)..]))
    ensures (forall i :: 0 <= i < |Blocks(t)| ==> !Accepted(Blocks(t)[i])) ==> r == ""
    ensures forall i :: 0 <= i < |SplitLines(r)| ==> CleanLine(SplitLines(r)[i])
    ensures r != "" ==> exists i :: 0 <= i < |SplitLines(r)| && Indent(SplitLines(r)[i]) == 0
  {
    var doc := CommentDoc(t);
    if doc == "" then
      assert SplitLines("") == [];
      ""
    else
      var r := Normalize(doc);
      var ne, out := NonBlank(SplitLines(doc)), SplitLines(r);
      assert r != "" ==> |ne| > 0 by {
        if |ne| == 0 {
          assert out == [];
          assert Join([], "\n") == "";
        }
      }
      r
  }

  /** Normalising normalised text changes nothing. */
  lemma NormalizeIdempotent(doc: string)
    ensures Normalize(Normalize(doc)) == Normalize(doc)
  {
    var r := Normalize(doc);
    var out := SplitLines(r);
    var ne := NonBlank(SplitLines(doc));
    if |ne| == 0 {
      assert r == Join([], "\n") == "";
      assert SplitLines("") == [];
    } else {
      NonBlankAll(out);
      assert NonBlank(out) == out;
      var j :| 0 <= j < |out| && Indent(out[j]) == 0;
      var m := MinIndent(out);
      assert m == 0;
      DedentZero(out);
      forall i | 0 <= i < |out| ensures out[i] != [] && '\n' !in out[i] {
      }
      SplitLinesJoin(out);
      RStripAllFixed(out);
    }
  }

  /** Removing no indentation changes nothing. */
  lemma {:induction false} DedentZero(lines: seq<string>)
    ensures Dedent(lines, 0) == lines
    decreases |lines|
  {
    if |lines| > 0 {
      DedentZero(lines[1..]);
      assert lines[0][0..] == lines[0];
      assert [lines[0]] + lines[1..] == lines;
    }
  }

  /** Trimming output lines changes nothing. */
  lemma {:induction false} RStripAllFixed(lines: seq<string>)
    requires forall i :: 0 <= i < |lines| ==> CleanLine(lines[i])
    ensures RStripAll(lines) == lines
    decreases |lines|
  {
    if |lines| > 0 {
      assert CleanLine(lines[0]);
      RStripFixed(lines[0]);
      assert forall i :: 1 <= i < |lines| ==> lines[1..][i - 1] == lines[i];
      RStripAllFixed(lines[1..]);
      assert [lines[0]] + lines[1..] == lines;
    }
  }

  /** Lines that all have text pass the filter unchanged. */
  lemma {:induction false} NonBlankAll(lines: seq<string>)
    requires forall i :: 0 <= i < |lines| ==> HasText(lines[i])
    ensures NonBlank(lines) == lines
    decreases |lines|
  {
    if |lines| > 0 {
      NonBlankAll(lines[1..]);
      assert [lines[0]] + lines[1..] == lines;
    }
  }

  /** Text without an opening marker holds no block. */
  lemma BlocksNone(p: string)
    requires !Contains(p, Open)
    ensures Blocks(p) == []
  {
    FindFromStart(p, Open);
  }

  /** A two-character marker is matched character by character. */
  lemma OccursAtPair(s: string, q: string, k: nat)
    requires |q| == 2
    ensures OccursAt(s, q, k) <==> k + 2 <= |s| && s[k] == q[0] && s[k + 1] == q[1]
  {
    if k + 2 <= |s| && s[k] == q[0] && s[k + 1] == q[1] {
      assert s[k..k + 2] == q;
    }
  }

  /** The middle and the end of a three-part text. */
  lemma Parts(x: string, y: string, z: string)
    ensures (x + y + z)[|x|..|x| + |y|] == y && (x + y + z)[|x| + |y|..] == z
  {
  }

  /** The first opening marker of `p + Open + u` is the one after `p`, when
      `p` has none of its own. */
  lemma FirstOpen(p: string, u: string)
    requires !Contains(p, Open)
    ensures Find(p + Open + u, Open, 0) == Some(|p|)
  {
    var t := p + Open + u;
    var a := |p|;
    OccursAtPair(t, Open, a);
    forall k | 0 <= k < a ensures !OccursAt(t, Open, k) {
      OccursAtPair(t, Open, k);
      if k + 1 < a {
        OccursAtPair(p, Open, k);
        assert t[k] == p[k] && t[k + 1] == p[k + 1];
      } else {
        assert t[k + 1] == Open[0];
      }
    }
    FindFirst(t, Open, 0, a);
  }

  /** A block comment with body `c` after text `p` that opens none is the
      first block, and the scan goes on after its closing marker. */
  lemma BlocksCons(p: string, c: string, rest: string)
    requires !Contains(p, Open) && !Contains(c, Close)
    ensures Blocks(p + Open + c + Close + rest) == [c] + Blocks(rest)
  {
    var t := p + Open + c + Close + rest;
    var a, j := |p|, |p| + 2 + |c|;
    assert t == p + Open + (c + Close + rest);
    FirstOpen(p, c + Close + rest);
    FirstClose(p, c, rest);
    assert t == (p + Open) + c + (Close + rest);
    Parts(p + Open, c, Close + rest);
    Parts(p + Open + c, Close, rest);
  }

  /** The closing marker the scan finds for that block is the one right
      after its body. */
  lemma FirstClose(p: string, c: string, rest: string)
    requires !Contains(c, Close)
    ensures Find(p + Open + c + Close + rest, Close, |p| + 2) == Some(|p| + 2 + |c|)
  {
    var t := p + Open + c + Close + rest;
    var a, j := |p|, |p| + 2 + |c|;
    OccursAtPair(t, Close, j);
    forall k | a + 2 <= k < j ensures !OccursAt(t, Close, k) {
      OccursAtPair(t, Close, k);
      if k + 1 < j {
        OccursAtPair(c, Close, k - a - 2);
        assert t[k] == c[k - a - 2] && t[k + 1] == c[k - a - 1];
      } else {
        assert t[k + 1] == Close[0];
      }
    }
    FindFirst(t, Close, a + 2, j);
  }

  /** `Find` returns the first occurrence at or after `from`. */
  lemma {:induction false} FindFirst(s: string, p: string, from: nat, j: nat)
    requires from <= j && OccursAt(s, p, j)
    requires forall k :: from <= k < j ==> !OccursAt(s, p, k)
    ensures Find(s, p, from) == Some(j)
    decreases j - from
  {
    if from < j {
      FindFirst(s, p, from + 1, j);
    }
  }

  /** An opening marker without a closing marker ends the scan: nothing after
      it is looked at. */
  lemma BlocksUnterminated(p: string, u: string)
    requires !Contains(p, Open) && !Contains(u, Close)
    ensures Blocks(p + Open + u) == []
  {
    var t := p + Open + u;
    var a := |p|;
    FirstOpen(p, u);
    forall k | a + 2 <= k ensures !OccursAt(t, Close, k) {
      OccursAtPair(t, Close, k);
      OccursAtPair(u, Close, k - a - 2);
      if k + 2 <= |t| {
        assert t[k] == u[k - a - 2] && t[k + 1] == u[k - a - 1];
      }
    }
  }

  /** A block holding the disabled tag adds nothing, although it also holds
      the tag itself. */
  lemma DisabledBlockIgnored(p: string, c: string, rest: string)
    requires !Contains(p, Open) && !Contains(c, Close) && Contains(c, DisabledTag)
    ensures Contains(c, Tag)
    ensures CommentDoc(p + Open + c + Close + rest) == CommentDoc(rest)
  {
    BlocksCons(p, c, rest);
    var i :| 0 <= i <= |c| && OccursAt(c, DisabledTag, i);
    assert c[i..i + |Tag|] == c[i..i + |DisabledTag|][..|Tag|];
    assert OccursAt(c, Tag, i);
    assert ([c] + Blocks(rest))[1..] == Blocks(rest);
  }

  /** A kept block adds its tag-free body and a newline ahead of what the
      rest of the text adds. */
  lemma TaggedBlockKept(p: string, c: string, rest: string)
    requires !Contains(p, Open) && !Contains(c, Close) && Accepted(c)
    ensures CommentDoc(p + Open + c + Close + rest) == Replace(c, Tag, "") + "\n" + CommentDoc(rest)
  {
    BlocksCons(p, c, rest);
    assert ([c] + Blocks(rest))[1..] == Blocks(rest);
  }

  /** Two kept blocks separated by SQL text contribute in order, whatever
      text surrounds them, as in a template with two annotation comments. */
  lemma TwoTaggedBlocks(p: string, c1: string, q: string, c2: string, rest: string)
    requires !Contains(p, Open) && !Contains(q, Open)
    requires !Contains(c1, Close) && !Contains(c2, Close) && Accepted(c1) && Accepted(c2)
    ensures CommentDoc(p + Open + c1 + Close + q + Open + c2 + Close + rest)
      == Replace(c1, Tag, "") + "\n" + Replace(c2, Tag, "") + "\n" + CommentDoc(rest)
  {
    var tail := q + Open + c2 + Close + rest;
    assert p + Open + c1 + Close + q + Open + c2 + Close + rest == p + Open + c1 + Close + tail;
    TaggedBlockKept(p, c1, tail);
    TaggedBlockKept(q, c2, rest);
  }

  /** `get_comments_obj`: the loaded annotation document; an empty mapping
      when there are no annotations or they fail to load. */
  function CommentsObj(t: string, load: Loader): (r: Value)
    ensures GetComments(t) == "" ==> r == Map([])
    ensures GetComments(t) != "" && load(GetComments(t)).None? ==> r == Map([])
    ensures GetComments(t) != "" && load(GetComments(t)).Some? ==> r == load(GetComments(t)).value
  {
    var comments := GetComments(t);
    if comments == "" then Map([])
    else
      match load(comments)
      case None => Map([])
      case Some(v) => v
  }
}
