/**
 * The two small string transformers of the response decoder:
 *
 *  - the repair escaper, applied to the value of a `response_text` /
 *    `response_code` field before the second `JSON.parse` attempt
 *    (grok-code-fast-card.js, lines 623-629), and
 *  - the unescaper applied to a field value pulled out by pattern
 *    extraction (lines 668-676).
 *
 * Each comes twice: as the source writes it (a chain of regular-expression
 * replacements, here a character scanner per replacement) and as a single
 * left-to-right token scanner that does what the chain is meant to do.  The
 * decoder is defined for either pair (`Escaping`); the card runs the pair as
 * written. The lemmas at the end of each part show where the two differ and
 * where they agree.
 */
module Escapes {

  const Backslash: char := '\\'
  const Quote: char := '"'
  const LF: char := '\n'
  const CR: char := '\r'
  const TAB: char := '\t'

  /** A character that may follow a backslash in a JSON string: one of `"\/bfnrtu`. */
  predicate IsEscapeChar(c: char) {
    c == '"' || c == '\\' || c == '/' || c == 'b' || c == 'f' || c == 'n' || c == 'r' || c == 't' || c == 'u'
  }

  /** The three control characters the repair escaper deals with. */
  predicate IsRawControl(c: char) {
    c == LF || c == CR || c == TAB
  }

  /** The letter that names a raw control character in its escaped form. */
  function ControlName(c: char): (r: char)
    requires IsRawControl(c)
    ensures r == 'n' || r == 'r' || r == 't'
  {
    if c == LF then 'n' else if c == CR then 'r' else 't'
  }

  // ---------------------------------------------------------------------
  // Repair escaper, as written: four chained global replacements.
  // `afterBackslash` tells whether the character before `s` in the string
  // being scanned is a backslash: it is what the lookbehind `(?<!\\)` tests,
  // always on the input of that replacement.
  // ---------------------------------------------------------------------

  /** `/(?<!\\)\\(?!["\\/bfnrtu])/g` replaced by two backslashes. */
  function DoubleLoneBackslashes(afterBackslash: bool, s: string): (r: string)
    ensures Backslash !in s ==> r == s
    decreases s
  {
    if s == [] then []
    else
      (if s[0] == Backslash && !afterBackslash && (|s| == 1 || !IsEscapeChar(s[1]))
       then [Backslash, Backslash] else [s[0]])
      + DoubleLoneBackslashes(s[0] == Backslash, s[1..])
  }

  /** `/(?<!\\)c/g` replaced by a backslash followed by `name`. */
  function EscapeUnlessEscaped(afterBackslash: bool, s: string, c: char, name: char): (r: string)
    ensures c !in s ==> r == s
    decreases s
  {
    if s == [] then []
    else
      (if s[0] == c && !afterBackslash then [Backslash, name] else [s[0]])
      + EscapeUnlessEscaped(s[0] == Backslash, s[1..], c, name)
  }

  /** The escaper of lines 624-628, applied to one field value. */
  function RepairEscapeAsWritten(v: string): string
  {
    var s1 := DoubleLoneBackslashes(false, v);
    var s2 := EscapeUnlessEscaped(false, s1, LF, 'n');
    var s3 := EscapeUnlessEscaped(false, s2, CR, 'r');
    EscapeUnlessEscaped(false, s3, TAB, 't')
  }

  // ---------------------------------------------------------------------
  // Repair escaper, corrected: one token scanner.
  // ---------------------------------------------------------------------

  /**
   * A backslash that starts a valid escape is kept with the character it
   * escapes; any other backslash is doubled; a raw newline, carriage return
   * or tab becomes its two-character escape; everything else is kept.
   */
  function RepairEscape(v: string): string
  {
    if v == [] then []
    else if v[0] == Backslash && |v| >= 2 && IsEscapeChar(v[1]) then v[..2] + RepairEscape(v[2..])
    else if v[0] == Backslash then [Backslash, Backslash] + RepairEscape(v[1..])
    else if IsRawControl(v[0]) then [Backslash, ControlName(v[0])] + RepairEscape(v[1..])
    else [v[0]] + RepairEscape(v[1..])
  }

  /**
   * The body of a JSON string literal as far as the repair cares: every
   * backslash starts a valid escape, and no raw newline, carriage return or
   * tab occurs.
   */
  ghost predicate WellEscaped(s: string)
  {
    if s == [] then true
    else if s[0] == Backslash then |s| >= 2 && IsEscapeChar(s[1]) && WellEscaped(s[2..])
    else !IsRawControl(s[0]) && WellEscaped(s[1..])
  }

  /** The corrected escaper always produces a well-escaped string body. */
  lemma {:induction false} RepairEscapeWellEscaped(v: string)
    ensures WellEscaped(RepairEscape(v))
  {
    if v == [] {
    } else {
      var r := RepairEscape(v);
      if v[0] == Backslash && |v| >= 2 && IsEscapeChar(v[1]) {
        RepairEscapeWellEscaped(v[2..]);
        assert r[2..] == RepairEscape(v[2..]);
      } else if v[0] == Backslash {
        RepairEscapeWellEscaped(v[1..]);
        assert r[2..] == RepairEscape(v[1..]);
      } else if IsRawControl(v[0]) {
        RepairEscapeWellEscaped(v[1..]);
        assert r[2..] == RepairEscape(v[1..]);
      } else {
        RepairEscapeWellEscaped(v[1..]);
        assert r[1..] == RepairEscape(v[1..]);
      }
    }
  }

  /** A well-escaped body holds no raw newline, carriage return or tab. */
  lemma {:induction false} WellEscapedHasNoRawControl(s: string)
    requires WellEscaped(s)
    ensures forall k :: 0 <= k < |s| ==> !IsRawControl(s[k])
  {
    if s == [] {
    } else if s[0] == Backslash {
      WellEscapedHasNoRawControl(s[2..]);
      assert forall k :: 2 <= k < |s| ==> s[k] == s[2..][k - 2];
    } else {
      WellEscapedHasNoRawControl(s[1..]);
      assert forall k :: 1 <= k < |s| ==> s[k] == s[1..][k - 1];
    }
  }

  /** Hence the corrected repair never leaves a raw control character. */
  lemma RepairEscapeNoRawControl(v: string)
    ensures forall k :: 0 <= k < |RepairEscape(v)| ==> !IsRawControl(RepairEscape(v)[k])
  {
    RepairEscapeWellEscaped(v);
    WellEscapedHasNoRawControl(RepairEscape(v));
  }

  /**
   * The source's escaper does leave one: a backslash followed by a raw
   * newline has its backslash doubled by the first replacement, and the
   * second replacement's lookbehind then sees a backslash before the newline
   * and leaves it raw.
   */
  lemma RepairEscapeAsWrittenLeavesRawNewline()
    ensures RepairEscapeAsWritten([Backslash, LF]) == [Backslash, Backslash, LF]
    ensures RepairEscape([Backslash, LF]) == [Backslash, Backslash, Backslash, 'n']
  {
    var v := [Backslash, LF];
    assert v[1..] == [LF] && [LF][1..] == [];
    assert DoubleLoneBackslashes(true, [LF]) == [LF];
    var s1 := [Backslash, Backslash, LF];
    assert DoubleLoneBackslashes(false, v) == s1;
    assert s1[1..] == [Backslash, LF];
    forall c, name | IsRawControl(c)
      ensures EscapeUnlessEscaped(false, s1, c, name) == s1
    {
      assert EscapeUnlessEscaped(true, [LF], c, name) == [LF];
      assert EscapeUnlessEscaped(true, [Backslash, LF], c, name) == [Backslash, LF];
    }
    assert RepairEscape([LF]) == [Backslash, 'n'];
  }

  // The two escapers agree on a value without backslashes.

  /** One control character replaced by its escape, with no lookbehind. */
  function EscapeControl(s: string, c: char, name: char): (r: string)
  {
    if s == [] then [] else (if s[0] == c then [Backslash, name] else [s[0]]) + EscapeControl(s[1..], c, name)
  }

  /** Every backslash is followed by one of the letters `n`, `r`, `t`. */
  ghost predicate OnlyControlEscapes(s: string)
  {
    if s == [] then true
    else if s[0] == Backslash then |s| >= 2 && (s[1] == 'n' || s[1] == 'r' || s[1] == 't') && OnlyControlEscapes(s[2..])
    else OnlyControlEscapes(s[1..])
  }

  /** While every backslash only escapes a letter, the lookbehind never fires. */
  lemma {:induction false} LookbehindIdle(afterBackslash: bool, s: string, c: char, name: char)
    requires OnlyControlEscapes(s) && !afterBackslash && IsRawControl(c)
    ensures EscapeUnlessEscaped(afterBackslash, s, c, name) == EscapeControl(s, c, name)
  {
    if s == [] {
    } else if s[0] == Backslash {
      var t := s[2..];
      assert s[1..][1..] == t;
      LookbehindIdle(false, t, c, name);
    } else {
      LookbehindIdle(false, s[1..], c, name);
    }
  }

  lemma {:induction false} EscapeControlConcat(a: string, b: string, c: char, name: char)
    ensures EscapeControl(a + b, c, name) == EscapeControl(a, c, name) + EscapeControl(b, c, name)
  {
    if a == [] {
      assert a + b == b;
    } else {
      assert (a + b)[0] == a[0];
      assert (a + b)[1..] == a[1..] + b;
      EscapeControlConcat(a[1..], b, c, name);
    }
  }

  lemma EscapeControlSingle(x: char, c: char, name: char)
    ensures EscapeControl([x], c, name) == if x == c then [Backslash, name] else [x]
  {
    assert [x][1..] == [];
  }

  lemma ShapeCons(x: char, t: string)
    requires x != Backslash && OnlyControlEscapes(t)
    ensures OnlyControlEscapes([x] + t)
  {
    assert ([x] + t)[1..] == t;
  }

  lemma ShapeEscapeCons(l: char, t: string)
    requires (l == 'n' || l == 'r' || l == 't') && OnlyControlEscapes(t)
    ensures OnlyControlEscapes([Backslash, l] + t)
  {
    assert ([Backslash, l] + t)[2..] == t;
  }

  /** Escaping one more control character keeps the letters-only shape. */
  lemma {:induction false} EscapeControlKeepsShape(s: string, c: char, name: char)
    requires OnlyControlEscapes(s) && IsRawControl(c) && (name == 'n' || name == 'r' || name == 't')
    ensures OnlyControlEscapes(EscapeControl(s, c, name))
  {
    if s == [] {
    } else if s[0] == Backslash {
      var t := s[2..];
      assert s == [Backslash, s[1]] + t;
      EscapeControlKeepsShape(t, c, name);
      EscapeControlConcat([Backslash, s[1]], t, c, name);
      EscapeControlConcat([Backslash], [s[1]], c, name);
      EscapeControlSingle(Backslash, c, name);
      EscapeControlSingle(s[1], c, name);
      ShapeEscapeCons(s[1], EscapeControl(t, c, name));
    } else {
      var t := s[1..];
      assert s == [s[0]] + t;
      EscapeControlKeepsShape(t, c, name);
      EscapeControlConcat([s[0]], t, c, name);
      EscapeControlSingle(s[0], c, name);
      if s[0] == c {
        ShapeEscapeCons(name, EscapeControl(t, c, name));
      } else {
        ShapeCons(s[0], EscapeControl(t, c, name));
      }
    }
  }

  lemma {:induction false} NoBackslashShape(s: string)
    requires Backslash !in s
    ensures OnlyControlEscapes(s)
  {
    if s != [] {
      assert s[0] == s[0];
      NoBackslashShape(s[1..]);
    }
  }

  /** The three control escapes, chained as the source chains them, with no lookbehind. */
  function ControlChain(v: string): string
  {
    EscapeControl(EscapeControl(EscapeControl(v, LF, 'n'), CR, 'r'), TAB, 't')
  }

  lemma ControlChainConcat(a: string, b: string)
    ensures ControlChain(a + b) == ControlChain(a) + ControlChain(b)
  {
    EscapeControlConcat(a, b, LF, 'n');
    EscapeControlConcat(EscapeControl(a, LF, 'n'), EscapeControl(b, LF, 'n'), CR, 'r');
    var a2 := EscapeControl(EscapeControl(a, LF, 'n'), CR, 'r');
    var b2 := EscapeControl(EscapeControl(b, LF, 'n'), CR, 'r');
    EscapeControlConcat(a2, b2, TAB, 't');
  }

  lemma ControlChainSingle(x: char)
    requires x != Backslash
    ensures ControlChain([x]) == if IsRawControl(x) then [Backslash, ControlName(x)] else [x]
  {
    EscapeControlSingle(x, LF, 'n');
    if x == LF {
      EscapeControlConcat([Backslash], ['n'], CR, 'r');
      EscapeControlSingle(Backslash, CR, 'r');
      EscapeControlSingle('n', CR, 'r');
      EscapeControlConcat([Backslash], ['n'], TAB, 't');
      EscapeControlSingle(Backslash, TAB, 't');
      EscapeControlSingle('n', TAB, 't');
    } else {
      EscapeControlSingle(x, CR, 'r');
      if x == CR {
        EscapeControlConcat([Backslash], ['r'], TAB, 't');
        EscapeControlSingle(Backslash, TAB, 't');
        EscapeControlSingle('r', TAB, 't');
      } else {
        EscapeControlSingle(x, TAB, 't');
      }
    }
  }

  /** Chaining the three control escapes on a backslash-free value is the corrected escaper. */
  lemma {:induction false} ControlChainIsRepair(v: string)
    requires Backslash !in v
    ensures ControlChain(v) == RepairEscape(v)
  {
    if v != [] {
      assert v[0] in v;
      assert v == [v[0]] + v[1..];
      ControlChainIsRepair(v[1..]);
      ControlChainConcat([v[0]], v[1..]);
      ControlChainSingle(v[0]);
    }
  }

  /**
   * On a field value without backslashes the source's escaper and the
   * corrected one produce the same string: the finding above needs a
   * backslash in the value.
   */
  lemma RepairEscapesAgreeWithoutBackslash(v: string)
    requires Backslash !in v
    ensures RepairEscapeAsWritten(v) == RepairEscape(v)
  {
    NoBackslashShape(v);
    LookbehindIdle(false, v, LF, 'n');
    var s2 := EscapeControl(v, LF, 'n');
    EscapeControlKeepsShape(v, LF, 'n');
    LookbehindIdle(false, s2, CR, 'r');
    var s3 := EscapeControl(s2, CR, 'r');
    EscapeControlKeepsShape(s2, CR, 'r');
    LookbehindIdle(false, s3, TAB, 't');
    ControlChainIsRepair(v);
  }

  /** The unescaper reads a character other than a backslash as itself. */
  lemma UnescapeCons(c: char, rest: string)
    requires c != Backslash
    ensures Unescape([c] + rest) == [c] + Unescape(rest)
  {
    assert ([c] + rest)[1..] == rest;
  }

  /** The unescaper reads a backslash pair as one token. */
  lemma UnescapePair(c: char, rest: string)
    ensures Unescape([Backslash, c] + rest) == Unescape([Backslash, c]) + Unescape(rest)
  {
    var e := [Backslash, c] + rest;
    assert e[..2] == [Backslash, c] && e[2..] == rest;
    assert [Backslash, c][2..] == [];
  }

  /** A backslash pair that is not a valid escape is read as its two characters. */
  lemma UnescapeInvalidPair(v: string)
    requires |v| >= 2 && v[0] == Backslash && !IsEscapeChar(v[1])
    ensures Unescape(v) == v[..2] + Unescape(v[2..])
  {
    assert !IsDecodedEscape(v[1]);
  }

  /** A character that is not a backslash is read as itself. */
  lemma UnescapeAfterFirst(v: string)
    requires |v| >= 2 && v[1] != Backslash
    ensures Unescape(v[1..]) == [v[1]] + Unescape(v[2..])
  {
    assert v[1..][0] == v[1] && v[1..][1..] == v[2..];
  }

  /** The first two characters of a string, put before `x`, one at a time. */
  lemma SplitPrefixPair(v: string, x: string)
    requires |v| >= 2
    ensures v[..2] + x == [v[0]] + ([v[1]] + x)
  {
  }

  /** A backslash that no valid escape follows is read as itself. */
  lemma UnescapeLoneBackslash(v: string)
    requires v != [] && v[0] == Backslash && !(|v| >= 2 && IsEscapeChar(v[1]))
    ensures Unescape(v) == [Backslash] + Unescape(v[1..])
  {
    if |v| == 1 {
      assert v == [Backslash] && v[1..] == [];
    } else {
      UnescapeInvalidPair(v);
      UnescapeAfterFirst(v);
      SplitPrefixPair(v, Unescape(v[2..]));
    }
  }

  /**
   * What the repair is for: read back by the corrected unescaper, a repaired
   * value says what the value said, its raw control characters included.
   */
  lemma {:induction false} RepairThenUnescape(v: string)
    ensures Unescape(RepairEscape(v)) == Unescape(v)
  {
    if v != [] {
      if v[0] == Backslash && |v| >= 2 && IsEscapeChar(v[1]) {
        RepairThenUnescape(v[2..]);
        assert v == [Backslash, v[1]] + v[2..];
        UnescapePair(v[1], RepairEscape(v[2..]));
        UnescapePair(v[1], v[2..]);
      } else if v[0] == Backslash {
        RepairThenUnescape(v[1..]);
        UnescapeEscapeChar(Backslash, RepairEscape(v[1..]));
        UnescapeLoneBackslash(v);
      } else if IsRawControl(v[0]) {
        RepairThenUnescape(v[1..]);
        UnescapeEscapeChar(v[0], RepairEscape(v[1..]));
        assert v == [v[0]] + v[1..];
        UnescapeCons(v[0], v[1..]);
      } else {
        RepairThenUnescape(v[1..]);
        UnescapeCons(v[0], RepairEscape(v[1..]));
        assert v == [v[0]] + v[1..];
        UnescapeCons(v[0], v[1..]);
      }
    }
  }

  // ---------------------------------------------------------------------
  // Unescaper, as written: five chained global replacements of a
  // two-character sequence `\c`, each scanned left to right without overlap.
  // ---------------------------------------------------------------------

  /** `/\\c/g` replaced by `out`. */
  function ReplaceEscape(s: string, c: char, out: char): (r: string)
    ensures Backslash !in s ==> r == s
  {
    if |s| < 2 then s
    else if s[0] == Backslash && s[1] == c then [out] + ReplaceEscape(s[2..], c, out)
    else [s[0]] + ReplaceEscape(s[1..], c, out)
  }

  /** The unescaper of lines 668-676. */
  function UnescapeAsWritten(s: string): (r: string)
    ensures s == "" ==> r == ""
  {
    if s == "" then ""
    else
      var s1 := ReplaceEscape(s, 'n', LF);
      var s2 := ReplaceEscape(s1, 'r', CR);
      var s3 := ReplaceEscape(s2, 't', TAB);
      var s4 := ReplaceEscape(s3, '"', Quote);
      ReplaceEscape(s4, Backslash, Backslash)
  }

  /** A string without a backslash comes out of the source's unescaper unchanged. */
  lemma UnescapeAsWrittenNoBackslash(s: string)
    requires Backslash !in s
    ensures UnescapeAsWritten(s) == s
  {
  }

  // ---------------------------------------------------------------------
  // Unescaper, corrected: one token scanner, and the encoder it inverts.
  // ---------------------------------------------------------------------

  /** The character that `\c` stands for, for the five escapes the card decodes. */
  predicate IsDecodedEscape(c: char) {
    c == 'n' || c == 'r' || c == 't' || c == '"' || c == '\\'
  }

  function DecodedChar(c: char): char
    requires IsDecodedEscape(c)
  {
    if c == 'n' then LF else if c == 'r' then CR else if c == 't' then TAB else c
  }

  /**
   * Reads `s` as escape tokens: `\n`, `\r`, `\t`, `\"` and `\\` become the
   * character they stand for; another backslash pair is kept as it is; any
   * other character is kept.
   */
  function Unescape(s: string): (r: string)
    ensures Backslash !in s ==> r == s
  {
    if s == [] then []
    else if s[0] == Backslash && |s| >= 2 && IsDecodedEscape(s[1]) then [DecodedChar(s[1])] + Unescape(s[2..])
    else if s[0] == Backslash && |s| >= 2 then s[..2] + Unescape(s[2..])
    else [s[0]] + Unescape(s[1..])
  }

  /** The JSON escaping of one character, for the five characters above. */
  function EscapeChar(c: char): (r: string)
    ensures 1 <= |r| <= 2
  {
    if c == Backslash then [Backslash, Backslash]
    else if c == Quote then [Backslash, Quote]
    else if IsRawControl(c) then [Backslash, ControlName(c)]
    else [c]
  }

  /** The JSON string-body encoding of `x` (what `JSON.stringify` puts between the quotes, for these characters). */
  function EscapeJson(x: string): (r: string)
    ensures Quote in x ==> Backslash in r
  {
    if x == [] then [] else EscapeChar(x[0]) + EscapeJson(x[1..])
  }

  /** One encoded character, read back, is that character. */
  lemma UnescapeEscapeChar(c: char, rest: string)
    ensures Unescape(EscapeChar(c) + rest) == [c] + Unescape(rest)
  {
    var p := EscapeChar(c);
    var e := p + rest;
    if |p| == 2 {
      assert e[0] == Backslash && e[1] == p[1] && e[2..] == rest;
      assert IsDecodedEscape(p[1]) && DecodedChar(p[1]) == c;
    } else {
      assert p == [c] && e[0] == c && e[1..] == rest;
    }
  }

  /** The corrected unescaper inverts the encoding: every string survives the round trip. */
  lemma {:induction false} UnescapeEscapeJson(x: string)
    ensures Unescape(EscapeJson(x)) == x
  {
    if x != [] {
      UnescapeEscapeJson(x[1..]);
      UnescapeEscapeChar(x[0], EscapeJson(x[1..]));
      assert x == [x[0]] + x[1..];
    }
  }

  /**
   * The source's unescaper does not: an escaped backslash followed by `n`
   * (the encoding of a backslash and an `n`) becomes a backslash and a
   * newline, because the `\n` replacement runs before the `\\` one.
   */
  lemma UnescapeAsWrittenBreaksEscapedBackslash()
    ensures EscapeJson([Backslash, 'n']) == [Backslash, Backslash, 'n']
    ensures UnescapeAsWritten([Backslash, Backslash, 'n']) == [Backslash, LF]
    ensures Unescape([Backslash, Backslash, 'n']) == [Backslash, 'n']
  {
    var x := [Backslash, 'n'];
    assert x[1..] == ['n'] && ['n'][1..] == [];
    assert EscapeJson(['n']) == ['n'];
    var s := [Backslash, Backslash, 'n'];
    assert s[1..] == [Backslash, 'n'] && s[1..][2..] == [] && s[2..] == ['n'];
    assert ReplaceEscape([Backslash, 'n'], 'n', LF) == [LF];
    var s1 := ReplaceEscape(s, 'n', LF);
    assert s1 == [Backslash, LF];
    assert s1[1..] == [LF];
    assert ReplaceEscape(s1, 'r', CR) == s1;
    assert ReplaceEscape(s1, 't', TAB) == s1;
    assert ReplaceEscape(s1, '"', Quote) == s1;
    assert ReplaceEscape(s1, Backslash, Backslash) == s1;
    assert Unescape(['n']) == ['n'];
  }

  // ---------------------------------------------------------------------
  // The pair of transformers the decoder runs.
  // ---------------------------------------------------------------------

  /** The source's chains of replacements, or the corrected token scanners. */
  datatype Escaping = AsWritten | Corrected

  /** The repair escaper of the chosen pair. */
  function RepairWith(e: Escaping, v: string): string
  {
    if e == AsWritten then RepairEscapeAsWritten(v) else RepairEscape(v)
  }

  /** The unescaper of the chosen pair. */
  function UnescapeWith(e: Escaping, s: string): string
  {
    if e == AsWritten then UnescapeAsWritten(s) else Unescape(s)
  }
}
