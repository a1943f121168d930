/** The Python `str` operations the pipeline relies on: whitespace
    stripping, substring search, `split`/`join`, `replace`, `splitlines`
    and the decimal rendering of integers. */
module Strings {

  import opened Wrappers

  /** Python's `str.isspace()` on one character: the Unicode White_Space
      characters plus the separators U+001C..U+001F. */
  predicate IsSpace(c: char) {
    || c == ' '
    || ('\t' <= c <= '\r')
    || ('\U{1C}' <= c <= '\U{1F}')
    || c == '\U{85}' || c == '\U{A0}' || c == '\U{1680}'
    || ('\U{2000}' <= c <= '\U{200A}')
    || c == '\U{2028}' || c == '\U{2029}' || c == '\U{202F}'
    || c == '\U{205F}' || c == '\U{3000}'
  }

  /** True when `s.strip()` is non-empty: `s` has a non-whitespace character. */
  predicate HasText(s: string) {
    exists i | 0 <= i < |s| :: !IsSpace(s[i])
  }

  /** Width of the leading whitespace, `len(s) - len(s.lstrip())`: the first
      position at or after `from` that holds no whitespace. */
  function Indent(s: string, from: nat := 0): (n: nat)
    requires from <= |s|
    ensures from <= n <= |s|
    ensures forall i :: from <= i < n ==> IsSpace(s[i])
    ensures n == |s| || !IsSpace(s[n])
    decreases |s| - from
  {
    if from < |s| && IsSpace(s[from]) then Indent(s, from + 1) else from
  }

  /** Length of `s.rstrip()`: the end of the text before position `upto`,
      after which only whitespace follows. */
  function TextEnd(s: string, upto: nat := |s|): (n: nat)
    requires upto <= |s|
    ensures n <= upto
    ensures forall i :: n <= i < upto ==> IsSpace(s[i])
    ensures n == 0 || !IsSpace(s[n - 1])
    decreases upto
  {
    if upto > 0 && IsSpace(s[upto - 1]) then TextEnd(s, upto - 1) else upto
  }

  /** `s.lstrip()`: the suffix left after dropping leading whitespace. */
  function LStrip(s: string): string {
    s[Indent(s)..]
  }

  /** `s.rstrip()`: the prefix left after dropping trailing whitespace. */
  function RStrip(s: string): string {
    s[..TextEnd(s)]
  }

  /** `s.strip()`: `s` without its leading and its trailing whitespace. */
  function Strip(s: string): string {
    RStrip(LStrip(s))
  }

  /** The leading whitespace ends at the first non-space. */
  lemma IndentUnique(s: string, n: nat)
    requires n <= |s|
    requires forall i :: 0 <= i < n ==> IsSpace(s[i])
    requires n == |s| || !IsSpace(s[n])
    ensures Indent(s) == n
  {
  }

  /** The trailing whitespace starts after the last non-space. */
  lemma TextEndUnique(s: string, n: nat)
    requires n <= |s|
    requires forall i :: n <= i < |s| ==> IsSpace(s[i])
    requires n == 0 || !IsSpace(s[n - 1])
    ensures TextEnd(s) == n
  {
  }

  /** A string has text exactly when its leading whitespace stops short of
      its end, and then the text lies between the two whitespace runs. */
  lemma HasTextBounds(s: string)
    ensures HasText(s) <==> Indent(s) < |s|
    ensures HasText(s) <==> TextEnd(s) > 0
    ensures HasText(s) ==> Indent(s) < TextEnd(s)
  {
    if HasText(s) {
      var k :| 0 <= k < |s| && !IsSpace(s[k]);
      assert Indent(s) <= k < TextEnd(s);
    }
    if Indent(s) < |s| {
      assert !IsSpace(s[Indent(s)]);
    }
    if TextEnd(s) > 0 {
      assert !IsSpace(s[TextEnd(s) - 1]);
    }
  }

  /** Dropping part of the leading whitespace moves the text end by as
      much. */
  lemma TextEndDrop(s: string, a: nat)
    requires a <= Indent(s) && a <= TextEnd(s)
    ensures TextEnd(s[a..]) == TextEnd(s) - a
  {
    var t := s[a..];
    var n := TextEnd(s) - a;
    assert forall i :: n <= i < |t| ==> IsSpace(t[i]) by {
      forall i | n <= i < |t| ensures IsSpace(t[i]) {
        assert t[i] == s[i + a];
      }
    }
    assert n == 0 || !IsSpace(t[n - 1]) by {
      if n > 0 {
        assert t[n - 1] == s[TextEnd(s) - 1];
      }
    }
    TextEndUnique(t, n);
  }

  /** The stripped text is the slice of `s` between its leading and its
      trailing whitespace, and empty when `s` has no text. */
  lemma StripSlice(s: string)
    ensures HasText(s) ==> Indent(s) < TextEnd(s) && Strip(s) == s[Indent(s)..TextEnd(s)]
    ensures !HasText(s) ==> Strip(s) == []
  {
    HasTextBounds(s);
    var a := Indent(s);
    if HasText(s) {
      var l := LStrip(s);
      TextEndDrop(s, a);
      assert Strip(s) == s[a..TextEnd(s)] by {
        assert Strip(s) == l[..TextEnd(l)];
      }
    } else {
      assert LStrip(s) == [];
    }
  }

  /** The stripped text starts and ends with a non-space, and is empty
      exactly when `s` has no text. */
  lemma StripEnds(s: string)
    ensures Strip(s) == [] <==> !HasText(s)
    ensures Strip(s) != [] ==> !IsSpace(Strip(s)[0]) && !IsSpace(Strip(s)[|Strip(s)| - 1])
  {
    StripSlice(s);
    HasTextBounds(s);
  }

  /** The pattern `p` occurs in `s` at index `i`. */
  predicate OccursAt(s: string, p: string, i: nat) {
    i + |p| <= |s| && s[i..i + |p|] == p
  }

  /** Stripping a stripped string changes nothing. */
  lemma StripIdempotent(s: string)
    ensures Strip(Strip(s)) == Strip(s)
  {
    var t := Strip(s);
    StripEnds(s);
    if t == [] {
      assert LStrip(t) == [];
    } else {
      IndentUnique(t, 0);
      assert LStrip(t) == t;
      TextEndUnique(t, |t|);
    }
  }

  /** `s.endswith(t)`. */
  predicate EndsWith(s: string, t: string) {
    |t| <= |s| && s[|s| - |t|..] == t
  }

  /** A concatenation ends with its second part. */
  lemma EndsWithConcat(s: string, t: string)
    ensures EndsWith(s + t, t)
  {
    assert (s + t)[|s|..] == t;
  }

  /** Python's `p in s`. */
  predicate Contains(s: string, p: string) {
    exists i | 0 <= i <= |s| :: OccursAt(s, p, i)
  }

  /** A text without the first character of `p` does not contain `p`. */
  lemma NotContains(s: string, p: string)
    requires |p| > 0 && p[0] !in s
    ensures !Contains(s, p)
  {
    forall i | 0 <= i <= |s| ensures !OccursAt(s, p, i) {
      if i + |p| <= |s| {
        assert s[i..i + |p|][0] == s[i];
      }
    }
  }

  /** Python's `s.find(p, from)`: the first occurrence at or after `from`,
      `None` standing for -1. */
  function Find(s: string, p: string, from: nat): (r: Option<nat>)
    ensures r.Some? ==> from <= r.value && OccursAt(s, p, r.value)
    ensures r.Some? ==> forall j :: from <= j < r.value ==> !OccursAt(s, p, j)
    ensures r.None? ==> forall j :: from <= j ==> !OccursAt(s, p, j)
    decreases |s| - from
  {
    if from + |p| > |s| then None
    else if OccursAt(s, p, from) then Some(from)
    else Find(s, p, from + 1)
  }

  /** `p in s` is what `s.find(p) != -1` tests. */
  lemma FindFromStart(s: string, p: string)
    ensures Contains(s, p) <==> Find(s, p, 0).Some?
  {
    var r := Find(s, p, 0);
    if r.Some? {
      assert OccursAt(s, p, r.value);
    }
  }

  /** Python's `sep.join(parts)`. */
  function Join(parts: seq<string>, sep: string): string
    decreases |parts|
  {
    if |parts| == 0 then ""
    else if |parts| == 1 then parts[0]
    else parts[0] + sep + Join(parts[1..], sep)
  }

  /** A joined text ends with the last part. */
  lemma {:induction false} JoinEndsWithLast(parts: seq<string>, sep: string)
    requires |parts| > 0
    ensures EndsWith(Join(parts, sep), parts[|parts| - 1])
    decreases |parts|
  {
    if |parts| > 1 {
      var rest := Join(parts[1..], sep);
      JoinEndsWithLast(parts[1..], sep);
      var whole := parts[0] + sep + rest;
      var last := parts[|parts| - 1];
      assert whole[|whole| - |rest|..] == rest;
      assert whole[|whole| - |last|..] == rest[|rest| - |last|..];
    }
  }

  /** Joining a sequence whose first element is `a + x`. */
  lemma JoinHead(a: string, x: string, rest: seq<string>, sep: string)
    ensures Join([a + x] + rest, sep) == a + Join([x] + rest, sep)
  {
    assert ([a + x] + rest)[1..] == rest;
    assert ([x] + rest)[1..] == rest;
  }

  /** A piece whose first character is `c` followed by a prefix `t` of
      `rest` holds `sep` only where `c + rest` starts with `sep` or `t`
      holds it. */
  lemma PieceFree(c: char, t: string, rest: string, sep: string)
    requires |sep| > 0 && t <= rest && !Contains(t, sep)
    requires !OccursAt([c] + rest, sep, 0)
    ensures !Contains([c] + t, sep)
  {
    var piece := [c] + t;
    forall k | 0 <= k <= |piece| ensures !OccursAt(piece, sep, k) {
      if k == 0 {
        assert piece <= [c] + rest;
      } else if OccursAt(piece, sep, k) {
        assert t[k - 1..k - 1 + |sep|] == piece[k..k + |sep|];
        assert OccursAt(t, sep, k - 1);
      }
    }
  }

  /** Python's `s.split(sep)`: cut `s` at every non-overlapping occurrence of
      `sep`, found left to right. The pieces hold no `sep` and join back to
      `s`. */
  function Split(s: string, sep: string): (r: seq<string>)
    requires |sep| > 0
    ensures |r| > 0 && r[0] <= s
    ensures Join(r, sep) == s
    ensures forall i :: 0 <= i < |r| ==> !Contains(r[i], sep)
    decreases |s|
  {
    if |s| < |sep| then
      assert forall k :: !OccursAt(s, sep, k);
      [s]
    else if s[..|sep|] == sep then
      var rest := Split(s[|sep|..], sep);
      assert !Contains("", sep);
      assert ([""] + rest)[1..] == rest;
      [""] + rest
    else
      var rest := Split(s[1..], sep);
      var r := [[s[0]] + rest[0]] + rest[1..];
      assert !OccursAt(s, sep, 0);
      assert [s[0]] + s[1..] == s;
      PieceFree(s[0], rest[0], s[1..], sep);
      JoinHead([s[0]], rest[0], rest[1..], sep);
      assert [rest[0]] + rest[1..] == rest;
      assert forall i :: 1 <= i < |r| ==> r[i] == rest[i];
      r
  }

  /** Python's `s.replace(pat, rep)`: every occurrence of `pat` found by
      `Split` is replaced by `rep`. */
  function Replace(s: string, pat: string, rep: string): string
    requires |pat| > 0
  {
    Join(Split(s, pat), rep)
  }

  /** A newline-free string. */
  lemma NoNewline(s: string)
    requires !Contains(s, "\n")
    ensures '\n' !in s
  {
    if '\n' in s {
      var i :| 0 <= i < |s| && s[i] == '\n';
      assert OccursAt(s, "\n", i);
    }
  }

  /** `s.splitlines()`, with `\n` as the only line boundary: the pieces
      between newlines, without the empty piece after a final newline. */
  function SplitLines(s: string): (r: seq<string>)
    ensures forall i :: 0 <= i < |r| ==> '\n' !in r[i]
    ensures s == [] <==> r == []
  {
    var parts := Split(s, "\n");
    forall i | 0 <= i < |parts| ensures '\n' !in parts[i] {
      NoNewline(parts[i]);
    }
    if parts[|parts| - 1] == "" then parts[..|parts| - 1] else parts
  }

  /** Splitting a newline-free string yields it alone. */
  lemma {:induction false} SplitSingle(x: string, c: char)
    requires c !in x
    ensures Split(x, [c]) == [x]
    decreases |x|
  {
    if |x| >= 1 {
      assert x[0] in x;
      assert x[..1] == [x[0]];
      SplitSingle(x[1..], c);
      assert [x[0]] + x[1..] == x;
    }
  }

  /** Splitting `x + c + rest` at `c`, with `c` absent from `x`, cuts after `x`. */
  lemma {:induction false} SplitCons(x: string, c: char, rest: string)
    requires c !in x
    ensures Split(x + [c] + rest, [c]) == [x] + Split(rest, [c])
    decreases |x|
  {
    var s := x + [c] + rest;
    if |x| == 0 {
      assert s[..1] == [c];
      assert s[1..] == rest;
    } else {
      assert x[0] in x;
      assert s[..1] == [x[0]];
      assert s[1..] == x[1..] + [c] + rest;
      SplitCons(x[1..], c, rest);
      assert [x[0]] + x[1..] == x;
    }
  }

  /** Splitting undoes joining when no part holds the separator. */
  lemma {:induction false} SplitJoin(parts: seq<string>, c: char)
    requires |parts| > 0
    requires forall i :: 0 <= i < |parts| ==> c !in parts[i]
    ensures Split(Join(parts, [c]), [c]) == parts
    decreases |parts|
  {
    if |parts| == 1 {
      SplitSingle(parts[0], c);
    } else {
      SplitJoin(parts[1..], c);
      SplitCons(parts[0], c, Join(parts[1..], [c]));
      assert [parts[0]] + parts[1..] == parts;
    }
  }

  /** `"\n".join(lines).splitlines() == lines` for non-empty lines without
      newlines. */
  lemma SplitLinesJoin(lines: seq<string>)
    requires forall i :: 0 <= i < |lines| ==> lines[i] != [] && '\n' !in lines[i]
    ensures SplitLines(Join(lines, "\n")) == lines
  {
    if |lines| == 0 {
      assert Split("", "\n") == [""];
    } else {
      SplitJoin(lines, '\n');
    }
  }

  /** Characters `0`..`9`. */
  predicate IsDigit(c: char) {
    '0' <= c <= '9'
  }

  /** The character of the decimal digit `d`. */
  function DigitChar(d: nat): (c: char)
    requires d < 10
    ensures IsDigit(c) && c as int - '0' as int == d
  {
    ('0' as int + d) as char
  }

  /** Decimal text of a natural number, without leading zeros. */
  function NatToString(n: nat): (r: string)
    ensures |r| > 0 && forall i :: 0 <= i < |r| ==> IsDigit(r[i])
    ensures r[0] == '0' ==> n == 0
    decreases n
  {
    if n < 10 then [DigitChar(n)] else NatToString(n / 10) + [DigitChar(n % 10)]
  }

  /** Python's `str(i)` on an integer: decimal text with a leading `-` when
      negative. */
  function IntToString(i: int): (r: string)
    ensures |r| > 0
    ensures i < 0 <==> r[0] == '-'
  {
    if i < 0 then "-" + NatToString(-i) else NatToString(i)
  }

  /** The value of a string of decimal digits (the inverse reading). */
  function DigitsValue(s: string): nat
    requires forall i :: 0 <= i < |s| ==> IsDigit(s[i])
    decreases |s|
  {
    if |s| == 0 then 0
    else
      assert IsDigit(s[|s| - 1]);
      DigitsValue(s[..|s| - 1]) * 10 + (s[|s| - 1] as int - '0' as int)
  }

  /** Reading the rendered digits gives the number back. */
  lemma {:induction false} NatToStringRoundTrip(n: nat)
    ensures DigitsValue(NatToString(n)) == n
    decreases n
  {
    if n >= 10 {
      NatToStringRoundTrip(n / 10);
      var s := NatToString(n);
      assert s[..|s| - 1] == NatToString(n / 10);
    }
  }
}
