/** The two annotation-key shapes (`sql_unit/model.py`, the two compiled
    patterns): a declaration `sql-unit.<kind> "<identifier>"` and a test
    input `given "<name>"`. Both are anchored at the start, and their `$`
    also accepts one newline that ends the key. */
module Identifiers {

  import opened Wrappers

  /** `[A-Za-z0-9_.-]`. */
  predicate IsIdChar(c: char) {
    || ('A' <= c <= 'Z')
    || ('a' <= c <= 'z')
    || ('0' <= c <= '9')
    || c == '_' || c == '.' || c == '-'
  }

  /** `[A-Za-z0-9_.-]+`. */
  predicate IsIdentifier(s: string) {
    |s| > 0 && forall i :: 0 <= i < |s| ==> IsIdChar(s[i])
  }

  /** What `.+?` can match: at least one character and no newline. */
  predicate IsKind(s: string) {
    |s| > 0 && '\n' !in s
  }

  const KeyPrefix: string := "sql-unit."
  const GivenPrefix: string := "given \""

  /** The declaration key for `kind` and `id`. */
  function FormatKey(kind: string, id: string): string {
    KeyPrefix + kind + " \"" + id + "\""
  }

  /** The test-input key for mock `name`. */
  function FormatGiven(name: string): string {
    GivenPrefix + name + "\""
  }

  /** The part of a key that must match before `$`: `$` matches at the end
      and also just before a final newline. */
  function DropFinalNewline(s: string): (r: string)
    ensures s == r || s == r + "\n"
  {
    if |s| > 0 && s[|s| - 1] == '\n' then s[..|s| - 1] else s
  }

  /** Index of the last `"` in `s`. */
  function LastQuote(s: string, upto: nat := |s|): (r: Option<nat>)
    requires upto <= |s|
    ensures r.Some? ==> r.value < upto && s[r.value] == '"'
    ensures r.Some? ==> forall j :: r.value < j < upto ==> s[j] != '"'
    ensures r.None? ==> forall j :: 0 <= j < upto ==> s[j] != '"'
    decreases upto
  {
    if upto == 0 then None
    else if s[upto - 1] == '"' then Some(upto - 1)
    else LastQuote(s, upto - 1)
  }

  /** Matching a declaration key: `Some((kind, identifier))` when the whole
      key matches. A matched key is exactly the printed form of what it
      matched, possibly followed by one newline. */
  function ParseKey(key: string): (r: Option<(string, string)>)
    ensures r.Some? ==> IsKind(r.value.0) && IsIdentifier(r.value.1)
    ensures r.Some? ==> (key == FormatKey(r.value.0, r.value.1) || key == FormatKey(r.value.0, r.value.1) + "\n")
  {
    ParseKeyBody(DropFinalNewline(key))
  }

  /** The match of a key without its final newline. An identifier holds no
      `"`, so the opening quote is the last one before the closing quote and
      the split is unique. */
  function ParseKeyBody(body: string): (r: Option<(string, string)>)
    ensures r.Some? ==> IsKind(r.value.0) && IsIdentifier(r.value.1)
    ensures r.Some? ==> body == FormatKey(r.value.0, r.value.1)
  {
    if |body| < |KeyPrefix| + 1 || body[..|KeyPrefix|] != KeyPrefix || body[|body| - 1] != '"' then None
    else
      var inner := body[|KeyPrefix|..|body| - 1];
      match LastQuote(inner)
      case None => None
      case Some(q) =>
        if q >= 1 && inner[q - 1] == ' ' && IsKind(inner[..q - 1]) && IsIdentifier(inner[q + 1..]) then
          var kind, id := inner[..q - 1], inner[q + 1..];
          assert inner == kind + " \"" + id;
          assert body == KeyPrefix + inner + "\"";
          Some((kind, id))
        else None
  }

  /** Printing then matching a declaration key gives back its parts, with or
      without a final newline. */
  lemma ParseFormatKey(kind: string, id: string)
    requires IsKind(kind) && IsIdentifier(id)
    ensures ParseKey(FormatKey(kind, id)) == Some((kind, id))
    ensures ParseKey(FormatKey(kind, id) + "\n") == Some((kind, id))
  {
    var body := FormatKey(kind, id);
    assert DropFinalNewline(body + "\n") == body;
    ParseFormatKeyBody(kind, id);
  }

  /** The body case of `ParseFormatKey`. */
  lemma ParseFormatKeyBody(kind: string, id: string)
    requires IsKind(kind) && IsIdentifier(id)
    ensures ParseKeyBody(FormatKey(kind, id)) == Some((kind, id))
  {
    var body := FormatKey(kind, id);
    assert body[..|KeyPrefix|] == KeyPrefix;
    var inner := body[|KeyPrefix|..|body| - 1];
    assert inner == kind + " \"" + id;
    var q := |kind| + 1;
    assert forall j :: q < j < |inner| ==> inner[j] == id[j - q - 1];
    LastQuoteAfter(inner, q);
    assert inner[..q - 1] == kind;
    assert inner[q + 1..] == id;
  }

  /** The last quote of `s` is at `q` when no quote follows it. */
  lemma {:induction false} LastQuoteAfter(s: string, q: nat, upto: nat := |s|)
    requires q < upto <= |s| && s[q] == '"'
    requires forall j :: q < j < |s| ==> s[j] != '"'
    ensures LastQuote(s, upto) == Some(q)
    decreases upto
  {
    if upto - 1 != q {
      LastQuoteAfter(s, q, upto - 1);
    }
  }

  /** Matching a test-input key: `Some(name)` when the whole key matches. A
      matched key is exactly `given "<name>"`, possibly followed by one
      newline. */
  function ParseGiven(key: string): (r: Option<string>)
    ensures r.Some? ==> IsIdentifier(r.value)
    ensures r.Some? ==> key == FormatGiven(r.value) || key == FormatGiven(r.value) + "\n"
  {
    var body := DropFinalNewline(key);
    if |body| >= |GivenPrefix| + 1 && body[..|GivenPrefix|] == GivenPrefix && body[|body| - 1] == '"'
       && IsIdentifier(body[|GivenPrefix|..|body| - 1])
    then
      var name := body[|GivenPrefix|..|body| - 1];
      assert body == GivenPrefix + name + "\"";
      Some(name)
    else None
  }

  /** Printing then matching a test-input key gives back the name. */
  lemma ParseFormatGiven(name: string)
    requires IsIdentifier(name)
    ensures ParseGiven(FormatGiven(name)) == Some(name)
    ensures ParseGiven(FormatGiven(name) + "\n") == Some(name)
  {
    var body := FormatGiven(name);
    assert DropFinalNewline(body + "\n") == body;
    assert body[..|GivenPrefix|] == GivenPrefix;
    assert body[|GivenPrefix|..|body| - 1] == name;
  }

  /** A test-input key is never a bare identifier: it holds a space and an
      identifier does not. */
  lemma GivenKeyIsNotName(key: string, name: string)
    requires ParseGiven(key).Some? && IsIdentifier(name)
    ensures key != name
  {
    assert key[5] == ' ';
    assert !IsIdChar(' ');
  }
}
