/**
 * The field pattern the decoder looks for in a response string,
 *
 *     "KEY"\s*:\s*"BODY"     with BODY matching  (?:[^"\\]|\\.)*
 *
 * for KEY `response_text` or `response_code` (grok-code-fast-card.js,
 * lines 623, 646 and 647; with the `s` flag `.` and `[\s\S]` both match any
 * character). It is written here as a scanner, `FieldAt`. The body's tokens
 * are a character that is neither a quote nor a backslash, or a backslash
 * with any character after it; the token run is determined by the text, so
 * the pattern matches exactly when that run stops at a quote.
 * `FieldAtIsPattern` proves the scanner equal to the pattern `PatternAt`.
 */
module FieldPattern {
  import opened Wrappers
  import opened Js
  import Escapes

  const TextKey: string := "response_text"
  const CodeKey: string := "response_code"

  /** A string the body pattern `(?:[^"\\]|\\.)*` matches in full. */
  ghost predicate IsBody(v: string)
  {
    if v == [] then true
    else if v[0] == '\\' then |v| >= 2 && IsBody(v[2..])
    else v[0] != '"' && IsBody(v[1..])
  }

  /** The end of the body starting at `p`: the quote where its token run stops, if it stops at one. */
  function BodyEnd(s: string, p: nat): (r: Option<nat>)
    requires p <= |s|
    ensures r.Some? ==> p <= r.value < |s| && s[r.value] == '"' && IsBody(s[p..r.value])
    decreases |s| - p
  {
    if p == |s| then None
    else if s[p] == '"' then Some(p)
    else if s[p] == '\\' then
      (if p + 1 < |s| then
         var r := BodyEnd(s, p + 2);
         (if r.Some? then assert s[p..r.value][2..] == s[p + 2..r.value]; r else r)
       else None)
    else
      var r := BodyEnd(s, p + 1);
      if r.Some? then assert s[p..r.value][1..] == s[p + 1..r.value]; r else r
  }

  /** A body followed by a quote is always found, ending at that quote. */
  lemma {:induction false} BodyEndFinds(s: string, p: nat, v: string)
    requires p + |v| < |s| && s[p..p + |v|] == v && IsBody(v) && s[p + |v|] == '"'
    ensures BodyEnd(s, p) == Some(p + |v|)
    decreases |v|
  {
    if v == [] {
    } else if v[0] == '\\' {
      assert s[p + 2..p + |v|] == v[2..];
      BodyEndFinds(s, p + 2, v[2..]);
    } else {
      assert s[p] == v[0];
      assert s[p + 1..p + |v|] == v[1..];
      BodyEndFinds(s, p + 1, v[1..]);
    }
  }

  /** One match of the pattern: where it ends (just past the closing quote) and its body. */
  datatype FieldMatch = FieldMatch(end: nat, value: string)

  /** The pattern for `key`, tried at position `i` only. */
  function FieldAt(s: string, i: nat, key: string): (r: Option<FieldMatch>)
    requires i <= |s|
    ensures r.Some? ==> i < r.value.end <= |s| && IsBody(r.value.value)
    ensures r.Some? ==> i + |key| + 2 <= |s| && s[i..i + |key| + 2] == "\"" + key + "\""
  {
    var lit := "\"" + key + "\"";
    if i + |lit| <= |s| && s[i..i + |lit|] == lit then
      var j := LeadingSpaces(s, i + |lit|);
      if j < |s| && s[j] == ':' then
        var k := LeadingSpaces(s, j + 1);
        if k < |s| && s[k] == '"' then
          match BodyEnd(s, k + 1)
          case Some(e) => Some(FieldMatch(e + 1, s[k + 1..e]))
          case None => None
        else None
      else None
    else None
  }

  /**
   * The regular expression itself, at position `i`: the quoted key, white
   * space, the colon at `c`, white space, the opening quote at `k`, a body,
   * and the closing quote at `e`.
   */
  ghost predicate PatternAt(s: string, i: nat, key: string, c: nat, k: nat, e: nat)
  {
    var lit := "\"" + key + "\"";
    && i + |lit| <= c < k < e < |s|
    && s[i..i + |lit|] == lit
    && (forall j :: i + |lit| <= j < c ==> IsJsSpace(s[j]))
    && s[c] == ':'
    && (forall j :: c + 1 <= j < k ==> IsJsSpace(s[j]))
    && s[k] == '"'
    && IsBody(s[k + 1..e])
    && s[e] == '"'
  }

  /** `\s*` stops at the first character that is not white space. */
  lemma LeadingSpacesStopsAt(s: string, p: nat, q: nat)
    requires p <= q < |s| && (forall j :: p <= j < q ==> IsJsSpace(s[j])) && !IsJsSpace(s[q])
    ensures LeadingSpaces(s, p) == q
  {
  }

  /** A match of the pattern at `i` is what the scanner reports there. */
  lemma FieldAtFromPattern(s: string, i: nat, key: string, c: nat, k: nat, e: nat)
    requires PatternAt(s, i, key, c, k, e)
    ensures FieldAt(s, i, key) == Some(FieldMatch(e + 1, s[k + 1..e]))
  {
    var lit := "\"" + key + "\"";
    LeadingSpacesStopsAt(s, i + |lit|, c);
    LeadingSpacesStopsAt(s, c + 1, k);
    BodyEndFinds(s, k + 1, s[k + 1..e]);
  }

  /** What the scanner reports at `i` is a match of the pattern there. */
  lemma PatternFromFieldAt(s: string, i: nat, key: string) returns (c: nat, k: nat, e: nat)
    requires i <= |s| && FieldAt(s, i, key).Some?
    ensures PatternAt(s, i, key, c, k, e)
  {
    var lit := "\"" + key + "\"";
    c := LeadingSpaces(s, i + |lit|);
    k := LeadingSpaces(s, c + 1);
    e := BodyEnd(s, k + 1).value;
  }

  /**
   * The scanner is the regular expression: it matches at `i` exactly when
   * the pattern does, and then with the pattern's body and end. The colon
   * and the quotes are not white space and a body is one token run, so the
   * positions `c`, `k` and `e` are determined and the regex engine's
   * backtracking finds no other match.
   */
  lemma FieldAtIsPattern(s: string, i: nat, key: string)
    requires i <= |s|
    ensures FieldAt(s, i, key).Some? <==> exists c: nat, k: nat, e: nat :: PatternAt(s, i, key, c, k, e)
    ensures forall c: nat, k: nat, e: nat :: PatternAt(s, i, key, c, k, e) ==>
      FieldAt(s, i, key) == Some(FieldMatch(e + 1, s[k + 1..e]))
  {
    if FieldAt(s, i, key).Some? {
      var c, k, e := PatternFromFieldAt(s, i, key);
    }
    forall c: nat, k: nat, e: nat | PatternAt(s, i, key, c, k, e)
      ensures FieldAt(s, i, key) == Some(FieldMatch(e + 1, s[k + 1..e]))
    {
      FieldAtFromPattern(s, i, key, c, k, e);
    }
  }

  /** A match of the pattern somewhere in the string, as `String.prototype.match` reports it. */
  datatype Located = Located(start: nat, m: FieldMatch)

  /**
   * The leftmost match of the pattern for `key` at or after `from`
   * (`dataString.match(pattern)` without the `g` flag, lines 649-650).
   */
  function FindField(s: string, key: string, from: nat): (r: Option<Located>)
    requires from <= |s|
    ensures r.Some? ==> from <= r.value.start < |s| && FieldAt(s, r.value.start, key) == Some(r.value.m)
    ensures r.Some? ==> forall j :: from <= j < r.value.start ==> FieldAt(s, j, key).None?
    ensures r.None? ==> forall j :: from <= j <= |s| ==> FieldAt(s, j, key).None?
    decreases |s| - from
  {
    if from == |s| then None
    else if FieldAt(s, from, key).Some? then Some(Located(from, FieldAt(s, from, key).value))
    else FindField(s, key, from + 1)
  }

  /** The alternation `(response_text|response_code)` at position `i`: which key matched, and how. */
  function EitherFieldAt(s: string, i: nat): (r: Option<(string, FieldMatch)>)
    requires i <= |s|
    ensures r.None? <==> FieldAt(s, i, TextKey).None? && FieldAt(s, i, CodeKey).None?
    ensures r.Some? ==> (r.value.0 == TextKey || r.value.0 == CodeKey) && FieldAt(s, i, r.value.0) == Some(r.value.1)
  {
    if FieldAt(s, i, TextKey).Some? then Some((TextKey, FieldAt(s, i, TextKey).value))
    else if FieldAt(s, i, CodeKey).Some? then Some((CodeKey, FieldAt(s, i, CodeKey).value))
    else None
  }

  /** The replacement text of line 629 for one match: `"KEY":"BODY"`. */
  function Rewrite(key: string, body: string): string
  {
    "\"" + key + "\":\"" + body + "\""
  }

  /**
   * The global replacement of line 623 from position `i` on: each match of
   * either field is rewritten as `"KEY":"ESCAPED"` (the spaces around the
   * colon dropped), with the body passed through the repair escaper that
   * `esc` selects, and the scan resumes after the match; text between
   * matches is copied.
   */
  function RepairFrom(esc: Escapes.Escaping, s: string, i: nat): (r: string)
    requires i <= |s|
    ensures (forall j :: i <= j <= |s| ==> EitherFieldAt(s, j).None?) ==> r == s[i..]
    decreases |s| - i
  {
    if i == |s| then []
    else
      match EitherFieldAt(s, i)
      case Some((key, m)) =>
        Rewrite(key, Escapes.RepairWith(esc, m.value)) + RepairFrom(esc, s, m.end)
      case None =>
        var rest := RepairFrom(esc, s, i + 1);
        assert (forall j :: i <= j <= |s| ==> EitherFieldAt(s, j).None?) ==> [s[i]] + rest == s[i..];
        [s[i]] + rest
  }

  /** The string after the repair pass of lines 623-630. */
  function RepairFields(esc: Escapes.Escaping, s: string): string
  {
    RepairFrom(esc, s, 0)
  }

  /** Where no field starts, the repair pass copies one character and moves on. */
  lemma RepairFromSkip(esc: Escapes.Escaping, s: string, i: nat)
    requires i < |s| && EitherFieldAt(s, i).None?
    ensures RepairFrom(esc, s, i) == [s[i]] + RepairFrom(esc, s, i + 1)
  {
  }

  /** Where a field starts, the repair pass writes its replacement and resumes after the match. */
  lemma RepairFromMatch(esc: Escapes.Escaping, s: string, i: nat, key: string, m: FieldMatch)
    requires i < |s| && EitherFieldAt(s, i) == Some((key, m))
    ensures m.end <= |s|
    ensures RepairFrom(esc, s, i) == Rewrite(key, Escapes.RepairWith(esc, m.value)) + RepairFrom(esc, s, m.end)
  {
  }

  lemma AppendAssoc(a: string, b: string, c: string)
    ensures a + (b + c) == (a + b) + c
  {
  }

  lemma SliceCons(s: string, i: nat, j: nat)
    requires i < j <= |s|
    ensures s[i..j] == [s[i]] + s[i + 1..j]
  {
  }

  /** No match of either field starts at a position in `[i, j)`. */
  ghost predicate NoFieldIn(s: string, i: nat, j: nat)
    requires j <= |s|
    decreases j - i
  {
    i >= j || (EitherFieldAt(s, i).None? && NoFieldIn(s, i + 1, j))
  }

  /** Text in which no field starts is copied by the repair pass as it is. */
  lemma {:induction false} RepairFromCopies(esc: Escapes.Escaping, s: string, i: nat, j: nat)
    requires i <= j <= |s| && NoFieldIn(s, i, j)
    ensures RepairFrom(esc, s, i) == s[i..j] + RepairFrom(esc, s, j)
    decreases j - i
  {
    if i < j {
      RepairFromSkip(esc, s, i);
      RepairFromCopies(esc, s, i + 1, j);
      SliceCons(s, i, j);
      AppendAssoc([s[i]], s[i + 1..j], RepairFrom(esc, s, j));
    }
  }

  /** At the end of the string the repair pass writes nothing more. */
  lemma RepairFromEnd(esc: Escapes.Escaping, s: string)
    ensures RepairFrom(esc, s, |s|) == []
  {
  }

  lemma AppendEmpty(a: string)
    ensures a + [] == a
  {
  }

  /** From a position after which no field starts, the repair pass copies the rest of the string. */
  lemma RepairCopiesTail(esc: Escapes.Escaping, s: string, e: nat)
    requires e <= |s| && NoFieldIn(s, e, |s|)
    ensures RepairFrom(esc, s, e) == s[e..]
  {
    RepairFromCopies(esc, s, e, |s|);
    RepairFromEnd(esc, s);
    AppendEmpty(s[e..|s|]);
    assert s[e..|s|] == s[e..];
  }

  /** Up to the first position where a field starts, the repair pass copies the string. */
  lemma RepairCopiesPrefix(esc: Escapes.Escaping, s: string, i: nat)
    requires i <= |s| && NoFieldIn(s, 0, i)
    ensures RepairFields(esc, s) == s[..i] + RepairFrom(esc, s, i)
  {
    RepairFromCopies(esc, s, 0, i);
    assert s[0..i] == s[..i];
  }

  /**
   * A string holding one field match: the repair pass rewrites exactly that
   * match, as the quoted key, a colon and the repaired body in quotes, and
   * copies the text before and after it.
   */
  lemma RepairOneField(esc: Escapes.Escaping, s: string, i: nat, key: string, m: FieldMatch)
    requires i < |s| && EitherFieldAt(s, i) == Some((key, m))
    requires NoFieldIn(s, 0, i) && m.end <= |s| && NoFieldIn(s, m.end, |s|)
    ensures RepairFields(esc, s) == s[..i] + Rewrite(key, Escapes.RepairWith(esc, m.value)) + s[m.end..]
  {
    var w := Rewrite(key, Escapes.RepairWith(esc, m.value));
    RepairFromMatch(esc, s, i, key, m);
    RepairCopiesTail(esc, s, m.end);
    RepairCopiesPrefix(esc, s, i);
    AppendAssoc(s[..i], w, s[m.end..]);
  }

  /** A string in which neither field pattern matches passes through the repair pass unchanged. */
  lemma RepairWithoutFields(esc: Escapes.Escaping, s: string)
    requires FindField(s, TextKey, 0).None? && FindField(s, CodeKey, 0).None?
    ensures RepairFields(esc, s) == s
  {
    assert s[0..] == s;
  }
}
