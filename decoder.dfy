/**
 * The response decoder: `_parseResponse` and the stages it falls back
 * through (grok-code-fast-card.js, lines 551-685). It turns whatever the
 * remote assistant returned into a pair `{assistantText, assistantCode}` and
 * never fails; the stage that produced the pair is reported alongside it,
 * since the card shows a warning banner for two of them.
 *
 * `JSON.parse` is not modelled: it is the parameter `parse`, which yields
 * `None` where `JSON.parse` throws. The repair escaper and the unescaper are
 * chosen by `esc`: `Escapes.AsWritten` is the decoder the card runs,
 * `Escapes.Corrected` the one its comments describe.
 */
module Decoder {
  import opened Wrappers
  import opened Js
  import Escapes
  import FieldPattern
  import opened Notices

  /** `{assistantText, assistantCode}`. */
  datatype Reply = Reply(assistantText: Value, assistantCode: Value)

  /** The branch of the decoder that produced the reply. */
  datatype Stage =
    | ObjectFields       // the raw value was already an object
    | InvalidFormat      // neither an object nor a string
    | StrictParse        // strategy 1, lines 607-615
    | RepairedParse      // strategy 2, lines 620-639
    | PatternExtraction  // strategy 3, lines 644-663
    | PlainText          // strategy 4, lines 681-685

  datatype Decoded = Decoded(reply: Reply, stage: Stage)

  /** `JSON.parse`: `None` when it throws. */
  type Parser = string -> Option<Value>

  const ErrorMarker: string := "[Error: Unexpected data format]"

  /**
   * `_extractResponseFields` (lines 569-574): each field, or `''` when it is
   * absent or falsy. Reading a property of `null` (what `JSON.parse('null')`
   * yields) throws, and the stages that call this catch it: `None` here.
   */
  function ExtractFields(v: Value): (r: Option<Reply>)
    ensures r.None? <==> v == Null || v == Undefined
    ensures r.Some? ==> Truthy(r.value.assistantText) || r.value.assistantText == Str("")
    ensures r.Some? ==> Truthy(r.value.assistantCode) || r.value.assistantCode == Str("")
  {
    if v == Null || v == Undefined then None
    else Some(Reply(Or(Member(v, "response_text"), Str("")), Or(Member(v, "response_code"), Str(""))))
  }

  /**
   * `_handleInvalidFormat` (lines 579-582): the error marker as the text and
   * a falsy code, so the editor keeps its code.
   */
  function InvalidFormatReply(): (r: Reply)
    ensures r.assistantText == Str(ErrorMarker) && Truthy(r.assistantText)
    ensures r.assistantCode.Str? && !Truthy(r.assistantCode)
  {
    Reply(Str(ErrorMarker), Str(""))
  }

  /** Strategy 1: strict parse, then field extraction. */
  function StrictStage(s: string, parse: Parser): (r: Option<Reply>)
    ensures r.Some? <==> parse(s).Some? && parse(s).value != Null && parse(s).value != Undefined
  {
    match parse(s)
    case None => None
    case Some(v) => ExtractFields(v)
  }

  /** Strategy 2: the repair pass over both fields, then strict parse of the result. */
  function RepairStage(esc: Escapes.Escaping, s: string, parse: Parser): (r: Option<Reply>)
    ensures var fixed := FieldPattern.RepairFields(esc, s);
      r.Some? <==> parse(fixed).Some? && parse(fixed).value != Null && parse(fixed).value != Undefined
  {
    match parse(FieldPattern.RepairFields(esc, s))
    case None => None
    case Some(v) => ExtractFields(v)
  }

  /** The value of one field for strategy 3: its unescaped body, or `''` when its pattern does not match. */
  function ExtractedField(esc: Escapes.Escaping, s: string, key: string): (r: string)
    ensures FieldPattern.FindField(s, key, 0).None? ==> r == ""
  {
    match FieldPattern.FindField(s, key, 0)
    case Some(loc) => Escapes.UnescapeWith(esc, loc.m.value)
    case None => ""
  }

  /** Strategy 3: each field pulled out by its own pattern; nothing when neither matches. */
  function ExtractionStage(esc: Escapes.Escaping, s: string): (r: Option<Reply>)
    ensures r.None? <==>
      FieldPattern.FindField(s, FieldPattern.TextKey, 0).None? && FieldPattern.FindField(s, FieldPattern.CodeKey, 0).None?
    ensures r.Some? ==> r.value.assistantText.Str? && r.value.assistantCode.Str?
  {
    var text := FieldPattern.FindField(s, FieldPattern.TextKey, 0);
    var code := FieldPattern.FindField(s, FieldPattern.CodeKey, 0);
    if text.None? && code.None? then None
    else Some(Reply(Str(ExtractedField(esc, s, FieldPattern.TextKey)), Str(ExtractedField(esc, s, FieldPattern.CodeKey))))
  }

  /** Strategy 4 (`_fallbackToPlainText`, lines 681-685): the whole string as text, and a falsy code. */
  function PlainTextReply(s: string): (r: Reply)
    ensures r.assistantText == Str(s)
    ensures r.assistantCode.Str? && !Truthy(r.assistantCode)
  {
    Reply(Str(s), Str(""))
  }

  /** `_tryParseWithFallbacks` (lines 587-602): the first strategy that yields a reply. */
  function TryParseWithFallbacks(esc: Escapes.Escaping, s: string, parse: Parser): (r: Decoded)
    ensures r.stage != ObjectFields && r.stage != InvalidFormat
    ensures r.stage == PlainText ==> r.reply == Reply(Str(s), Str(""))
    ensures r.stage == PatternExtraction ==> r.reply.assistantText.Str? && r.reply.assistantCode.Str?
  {
    match StrictStage(s, parse)
    case Some(r) => Decoded(r, StrictParse)
    case None =>
      match RepairStage(esc, s, parse)
      case Some(r) => Decoded(r, RepairedParse)
      case None =>
        match ExtractionStage(esc, s)
        case Some(r) => Decoded(r, PatternExtraction)
        case None => Decoded(PlainTextReply(s), PlainText)
  }

  /** `_parseResponse` (lines 551-564): dispatch on the type of the raw value. */
  function ParseResponse(esc: Escapes.Escaping, raw: Value, parse: Parser): (r: Decoded)
    ensures r.stage == ObjectFields <==> IsObject(raw)
    ensures r.stage == InvalidFormat <==> !IsObject(raw) && !raw.Str?
  {
    if IsObject(raw) then Decoded(ExtractFields(raw).value, ObjectFields)
    else if !raw.Str? then Decoded(InvalidFormatReply(), InvalidFormat)
    else TryParseWithFallbacks(esc, raw.s, parse)
  }

  /**
   * The banner the decoder asks for: a warning for a value of the wrong type
   * (line 580) and for the plain-text fallback (line 683), none otherwise.
   */
  function DecoderNotice(stage: Stage): (n: Option<Notice>)
    ensures n.Some? <==> stage == InvalidFormat || stage == PlainText
    ensures n.Some? ==> n.value.level == Warning && n.value.durationMs == 7500
    ensures stage == InvalidFormat ==> n == Some(Notice("Received unexpected data format from server.", Warning, 7500))
    ensures stage == PlainText ==> n == Some(Notice("Received malformed response. Displaying raw data.", Warning, 7500))
  {
    match stage
    case InvalidFormat => Some(Banner("Received unexpected data format from server.", Warning))
    case PlainText => Some(Banner("Received malformed response. Displaying raw data.", Warning))
    case _ => None
  }

  // ---------------------------------------------------------------------
  // Properties
  // ---------------------------------------------------------------------

  /** An object goes straight to field extraction: a truthy field comes back unchanged, a missing or falsy one as `''`. */
  lemma ObjectInputPassesFields(esc: Escapes.Escaping, raw: Value, parse: Parser)
    requires IsObject(raw)
    ensures ParseResponse(esc, raw, parse).stage == ObjectFields
    ensures var d := ParseResponse(esc, raw, parse);
      && (raw.Obj? && "response_text" in raw.fields && Truthy(raw.fields["response_text"]) ==>
            d.reply.assistantText == raw.fields["response_text"])
      && (!(raw.Obj? && "response_text" in raw.fields && Truthy(raw.fields["response_text"])) ==>
            d.reply.assistantText == Str(""))
      && (raw.Obj? && "response_code" in raw.fields && Truthy(raw.fields["response_code"]) ==>
            d.reply.assistantCode == raw.fields["response_code"])
      && (!(raw.Obj? && "response_code" in raw.fields && Truthy(raw.fields["response_code"])) ==>
            d.reply.assistantCode == Str(""))
  {
  }

  /** A value that is neither an object nor a string decodes as the error marker. */
  lemma InvalidInputGivesMarker(esc: Escapes.Escaping, raw: Value, parse: Parser)
    requires !IsObject(raw) && !raw.Str?
    ensures ParseResponse(esc, raw, parse) == Decoded(Reply(Str("[Error: Unexpected data format]"), Str("")), InvalidFormat)
  {
  }

  /**
   * A string is decoded by the first strategy that succeeds, in the order
   * strict parse, repair, pattern extraction, plain text, and the reply is
   * that strategy's reply; plain text always succeeds.
   */
  lemma StringInputStageOrder(esc: Escapes.Escaping, s: string, parse: Parser)
    ensures var d := ParseResponse(esc, Str(s), parse);
      && (d.stage == StrictParse <==> StrictStage(s, parse).Some?)
      && (d.stage == RepairedParse <==> StrictStage(s, parse).None? && RepairStage(esc, s, parse).Some?)
      && (d.stage == PatternExtraction <==>
            StrictStage(s, parse).None? && RepairStage(esc, s, parse).None? && ExtractionStage(esc, s).Some?)
      && (d.stage == PlainText <==>
            StrictStage(s, parse).None? && RepairStage(esc, s, parse).None? && ExtractionStage(esc, s).None?)
      && (d.stage == StrictParse ==> d.reply == StrictStage(s, parse).value)
      && (d.stage == RepairedParse ==> d.reply == RepairStage(esc, s, parse).value)
      && (d.stage == PatternExtraction ==> d.reply == ExtractionStage(esc, s).value)
      && (d.stage == PlainText ==> d.reply == Reply(Str(s), Str("")))
  {
  }

  /**
   * The strict stage accepts every string that parses to anything but
   * `null` (`JSON.parse` never yields `undefined`): a JSON number, boolean,
   * string or array decodes to `''`, `''`.
   */
  lemma ParsedNonNullIsAccepted(esc: Escapes.Escaping, s: string, parse: Parser)
    requires parse(s).Some? && parse(s).value != Null && parse(s).value != Undefined
    ensures ParseResponse(esc, Str(s), parse).stage == StrictParse
    ensures !parse(s).value.Obj? ==> ParseResponse(esc, Str(s), parse).reply == Reply(Str(""), Str(""))
  {
    var v := parse(s).value;
    var r := StrictStage(s, parse);
    assert r == ExtractFields(v);
    assert r.Some?;
    assert ParseResponse(esc, Str(s), parse) == Decoded(r.value, StrictParse);
    if !v.Obj? {
      assert Member(v, "response_text") == Undefined;
      assert Member(v, "response_code") == Undefined;
    }
  }

  /**
   * A string that does not parse (or parses to `null`) and in which neither
   * field pattern matches is shown as plain text: the repair pass leaves it
   * as it was, so the second parse fails as the first did.
   */
  lemma NoFieldsMeansPlainText(esc: Escapes.Escaping, s: string, parse: Parser)
    requires parse(s).None? || parse(s) == Some(Null)
    requires FieldPattern.FindField(s, FieldPattern.TextKey, 0).None?
    requires FieldPattern.FindField(s, FieldPattern.CodeKey, 0).None?
    ensures ParseResponse(esc, Str(s), parse) == Decoded(Reply(Str(s), Str("")), PlainText)
  {
    FieldPattern.RepairWithoutFields(esc, s);
  }

  /**
   * Strategy 3 on its own: a matched field is its body read by the
   * unescaper `esc` selects (the source's chain of replacements, for
   * `Escapes.AsWritten`), an unmatched one `''`.
   */
  lemma ExtractionFields(esc: Escapes.Escaping, s: string)
    requires ExtractionStage(esc, s).Some?
    ensures var r := ExtractionStage(esc, s).value;
      && (forall loc :: FieldPattern.FindField(s, FieldPattern.TextKey, 0) == Some(loc) ==>
            r.assistantText == Str(Escapes.UnescapeWith(esc, loc.m.value)))
      && (FieldPattern.FindField(s, FieldPattern.TextKey, 0).None? ==> r.assistantText == Str(""))
      && (forall loc :: FieldPattern.FindField(s, FieldPattern.CodeKey, 0) == Some(loc) ==>
            r.assistantCode == Str(Escapes.UnescapeWith(esc, loc.m.value)))
      && (FieldPattern.FindField(s, FieldPattern.CodeKey, 0).None? ==> r.assistantCode == Str(""))
    ensures esc == Escapes.AsWritten ==>
      forall loc :: FieldPattern.FindField(s, FieldPattern.TextKey, 0) == Some(loc) ==>
        ExtractionStage(esc, s).value.assistantText == Str(Escapes.UnescapeAsWritten(loc.m.value))
    ensures esc == Escapes.AsWritten ==>
      forall loc :: FieldPattern.FindField(s, FieldPattern.CodeKey, 0) == Some(loc) ==>
        ExtractionStage(esc, s).value.assistantCode == Str(Escapes.UnescapeAsWritten(loc.m.value))
  {
  }

  /** A reply re-passed as an object (`{response_text, response_code}`). */
  function ReplyObject(r: Reply): Value
  {
    Obj(map["response_text" := r.assistantText, "response_code" := r.assistantCode])
  }

  /** Decoding a decoded pair again, as an object, gives the same pair. */
  lemma DecodeIsIdempotent(esc: Escapes.Escaping, raw: Value, parse: Parser)
    ensures var d := ParseResponse(esc, raw, parse);
      ParseResponse(esc, ReplyObject(d.reply), parse) == Decoded(d.reply, ObjectFields)
  {
  }

  // ---------------------------------------------------------------------
  // A field in the reply string, as the assistant encodes it
  // ---------------------------------------------------------------------

  /** The reply string `"response_text":"BODY"`, with no braces around it. */
  function TextField(body: string): string
  {
    "\"" + FieldPattern.TextKey + "\":\"" + body + "\""
  }

  /** An encoded string is one body token run: its quotes are all escaped. */
  lemma {:induction false} EscapeJsonIsBody(x: string)
    ensures FieldPattern.IsBody(Escapes.EscapeJson(x))
  {
    if x != [] {
      EscapeJsonIsBody(x[1..]);
      var b := Escapes.EscapeJson(x);
      var p := Escapes.EscapeChar(x[0]);
      assert b == p + Escapes.EscapeJson(x[1..]);
      if |p| == 2 {
        assert b[2..] == Escapes.EscapeJson(x[1..]);
      } else {
        assert b[1..] == Escapes.EscapeJson(x[1..]);
      }
    }
  }

  /** The text pattern finds an encoded field at the start, with the encoding as its body. */
  lemma EncodedTextFieldFound(x: string)
    ensures var b := Escapes.EscapeJson(x);
      FieldPattern.FindField(TextField(b), FieldPattern.TextKey, 0) == Some(FieldPattern.Located(0, FieldPattern.FieldMatch(|TextField(b)|, b)))
  {
    var b := Escapes.EscapeJson(x);
    var s := TextField(b);
    EscapeJsonIsBody(x);
    var lit := "\"" + FieldPattern.TextKey + "\"";
    assert |lit| == 15;
    assert s[0..15] == lit;
    assert s[15] == ':' && s[16] == '"';
    assert s[17..17 + |b|] == b;
    assert s[17 + |b|] == '"';
    assert FieldPattern.PatternAt(s, 0, FieldPattern.TextKey, 15, 16, 17 + |b|);
    FieldPattern.FieldAtIsPattern(s, 0, FieldPattern.TextKey);
  }

  /** With the corrected unescaper, extraction gives back the text that was encoded, whatever it is. */
  lemma CorrectedExtractionRecoversText(x: string)
    ensures var r := ExtractionStage(Escapes.Corrected, TextField(Escapes.EscapeJson(x)));
      r.Some? && r.value.assistantText == Str(x)
  {
    EncodedTextFieldFound(x);
    Escapes.UnescapeEscapeJson(x);
  }

  /** The encoding of a backslash followed by `n`, as a text field: `"response_text":"\\n"`. */
  const EscapedBackslashReply: string := TextField(Escapes.EscapeJson([Escapes.Backslash, 'n']))

  /**
   * The decoder as written misreads that reply when `JSON.parse` rejects it
   * (it has no braces): the repair pass leaves it unchanged, extraction
   * finds the text field, and the source's unescaper turns its body into a
   * backslash and a newline. The corrected decoder gives a backslash and
   * `n`, what was encoded.
   */
  lemma EscapedBackslashReplyDecodes(parse: Parser)
    requires parse(EscapedBackslashReply).None?
    ensures ParseResponse(Escapes.AsWritten, Str(EscapedBackslashReply), parse).stage == PatternExtraction
    ensures ParseResponse(Escapes.AsWritten, Str(EscapedBackslashReply), parse).reply.assistantText
      == Str([Escapes.Backslash, Escapes.LF])
    ensures ParseResponse(Escapes.Corrected, Str(EscapedBackslashReply), parse).stage == PatternExtraction
    ensures ParseResponse(Escapes.Corrected, Str(EscapedBackslashReply), parse).reply.assistantText
      == Str([Escapes.Backslash, 'n'])
  {
    EscapedBackslashReplyExtracted(Escapes.AsWritten, parse);
    EscapedBackslashReplyExtracted(Escapes.Corrected, parse);
    Escapes.UnescapeAsWrittenBreaksEscapedBackslash();
  }

  /** Either decoder takes that reply to pattern extraction and reads the body with its own unescaper. */
  lemma EscapedBackslashReplyExtracted(esc: Escapes.Escaping, parse: Parser)
    requires parse(EscapedBackslashReply).None?
    ensures var d := ParseResponse(esc, Str(EscapedBackslashReply), parse);
      && d.stage == PatternExtraction
      && d.reply.assistantText == Str(Escapes.UnescapeWith(esc, [Escapes.Backslash, Escapes.Backslash, 'n']))
  {
    var s := EscapedBackslashReply;
    EscapedBackslashFound();
    RepairKeepsEscapedBackslash(esc);
    assert RepairStage(esc, s, parse).None?;
  }

  /** The text pattern matches the whole reply, with body backslash, backslash, `n`. */
  lemma EscapedBackslashFound()
    ensures var b := [Escapes.Backslash, Escapes.Backslash, 'n'];
      && FieldPattern.FindField(EscapedBackslashReply, FieldPattern.TextKey, 0)
           == Some(FieldPattern.Located(0, FieldPattern.FieldMatch(|EscapedBackslashReply|, b)))
      && FieldPattern.FieldAt(EscapedBackslashReply, 0, FieldPattern.TextKey)
           == Some(FieldPattern.FieldMatch(|EscapedBackslashReply|, b))
  {
    var x := [Escapes.Backslash, 'n'];
    Escapes.UnescapeAsWrittenBreaksEscapedBackslash();
    EncodedTextFieldFound(x);
  }

  /** The repair pass over a reply that is one text field repairs that field's body. */
  lemma RepairOneTextField(esc: Escapes.Escaping, b: string)
    requires FieldPattern.FieldAt(TextField(b), 0, FieldPattern.TextKey)
      == Some(FieldPattern.FieldMatch(|TextField(b)|, b))
    ensures FieldPattern.RepairFields(esc, TextField(b)) == TextField(Escapes.RepairWith(esc, b))
  {
    var s := TextField(b);
    assert FieldPattern.EitherFieldAt(s, 0) == Some((FieldPattern.TextKey, FieldPattern.FieldMatch(|s|, b)));
    assert FieldPattern.RepairFrom(esc, s, |s|) == [];
  }

  /** Either repair escaper keeps backslash, backslash, `n`: its backslash pair is a valid escape. */
  lemma RepairKeepsEscapedBackslashBody(esc: Escapes.Escaping)
    ensures Escapes.RepairWith(esc, [Escapes.Backslash, Escapes.Backslash, 'n']) == [Escapes.Backslash, Escapes.Backslash, 'n']
  {
    var b := [Escapes.Backslash, Escapes.Backslash, 'n'];
    assert b[1..] == [Escapes.Backslash, 'n'] && b[1..][1..] == ['n'] && ['n'][1..] == [];
    assert Escapes.DoubleLoneBackslashes(false, b) == b;
    assert b[..2] == [Escapes.Backslash, Escapes.Backslash] && b[2..] == ['n'];
    assert Escapes.RepairEscape(b) == b;
  }

  /** Either repair pass leaves that reply unchanged. */
  lemma RepairKeepsEscapedBackslash(esc: Escapes.Escaping)
    ensures FieldPattern.RepairFields(esc, EscapedBackslashReply) == EscapedBackslashReply
  {
    EscapedBackslashFound();
    Escapes.UnescapeAsWrittenBreaksEscapedBackslash();
    RepairOneTextField(esc, [Escapes.Backslash, Escapes.Backslash, 'n']);
    RepairKeepsEscapedBackslashBody(esc);
  }
}
