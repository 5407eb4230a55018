/**
 * The session data the card keeps and the rules by which it is written to
 * and read back from the browser's keyed store (grok-code-fast-card.js,
 * lines 759-853): history truncation, attachment stripping, the quota
 * rotation and the defaults applied on load.
 *
 * `JSON.stringify` followed by `JSON.parse` is taken to give back the record
 * that was written, so the store holds records rather than text; an entry
 * that does not parse is `Corrupt`.
 */
module Persistence {
  import opened Wrappers
  import opened Notices

  const MaxHistoryMessages: nat := 100   // MAX_CHAT_HISTORY_MESSAGES
  const RotationSize: nat := 20          // CHAT_HISTORY_ROTATION_SIZE
  const StorageKeyPrefix: string := "grok_code_fast_data"

  /**
   * A file attached to a prompt: `{filename, content}` while pending,
   * `{filename, contentLength}` once stripped for storage.
   */
  datatype Attachment = Attachment(filename: string, content: Option<string>, contentLength: Option<nat>)

  /** An entry of the conversation log. */
  datatype Message =
    | UserMessage(content: string, attachments: seq<Attachment>, userCode: Option<string>, timestamp: string)
    | AssistantMessage(text: string, code: string, timestamp: string)

  /** The durable part of the card's state. */
  datatype Session = Session(
    chatHistory: seq<Message>,
    currentCode: string,
    sendOnEnter: bool,
    isCodeUserModified: bool,
    previousResponseId: Option<string>)

  /** A stored record as `JSON.parse` gives it back: a field is `None` when it is missing or `null`. */
  datatype StoredRecord = StoredRecord(
    chatHistory: Option<seq<Message>>,
    currentCode: Option<string>,
    sendOnEnter: Option<bool>,
    isCodeUserModified: Option<bool>,
    previousResponseId: Option<string>)

  /** What a key of the store holds: a record, or text that `JSON.parse` rejects. */
  datatype StoredValue = Record(record: StoredRecord) | Corrupt

  /** What `localStorage.setItem` did: stored, or threw a quota error (`QuotaExceededError` or code 22), or threw anything else. */
  datatype WriteResult = Written | QuotaExceeded | OtherFailure

  // ---------------------------------------------------------------------
  // Truncation and stripping
  // ---------------------------------------------------------------------

  /** `history.slice(-n)` for `n > 0`: the last `n` messages, or all of them when there are fewer. */
  function Last(h: seq<Message>, n: nat): (r: seq<Message>)
    requires n > 0
    ensures |r| == if |h| < n then |h| else n
    ensures r == h[|h| - |r|..]
  {
    if |h| > n then h[|h| - n..] else h
  }

  /** `{filename, contentLength}`: the length of the content, or 0 when there is none. */
  function StripAttachment(a: Attachment): (r: Attachment)
    ensures r.filename == a.filename && r.content.None?
    ensures r.contentLength == Some(if a.content.Some? then |a.content.value| else 0)
  {
    Attachment(a.filename, None, Some(if a.content.Some? && a.content.value != "" then |a.content.value| else 0))
  }

  /**
   * One message as `_prepareChatHistoryForStorage` maps it: an assistant
   * message is kept; a user message keeps its text, code and time stamp and
   * keeps one attachment per attachment, each with its file name, no content
   * and the length of the content it had.
   */
  function StripMessage(m: Message): (r: Message)
    ensures m.AssistantMessage? ==> r == m
    ensures m.UserMessage? ==> r.UserMessage? && r.content == m.content && r.userCode == m.userCode && r.timestamp == m.timestamp
    ensures m.UserMessage? ==> |r.attachments| == |m.attachments|
    ensures m.UserMessage? ==> forall j :: 0 <= j < |m.attachments| ==>
      && r.attachments[j].filename == m.attachments[j].filename
      && r.attachments[j].content.None?
      && r.attachments[j].contentLength == Some(if m.attachments[j].content.Some? then |m.attachments[j].content.value| else 0)
  {
    if m.UserMessage? && |m.attachments| > 0 then
      m.(attachments := seq(|m.attachments|, j requires 0 <= j < |m.attachments| => StripAttachment(m.attachments[j])))
    else m
  }

  /** `_prepareChatHistoryForStorage` (lines 783-796). */
  function PrepareForStorage(h: seq<Message>): seq<Message>
  {
    seq(|h|, i requires 0 <= i < |h| => StripMessage(h[i]))
  }

  /**
   * Stripping keeps the number and order of messages and changes only user
   * messages that carry attachments, and in those only the attachments, each
   * reduced to its file name and content length.
   */
  lemma PrepareForStorageShape(h: seq<Message>)
    ensures |PrepareForStorage(h)| == |h|
    ensures forall i :: 0 <= i < |h| && !(h[i].UserMessage? && |h[i].attachments| > 0) ==>
      PrepareForStorage(h)[i] == h[i]
    ensures forall i :: 0 <= i < |h| && h[i].UserMessage? && |h[i].attachments| > 0 ==>
      var p := PrepareForStorage(h)[i];
      && p.UserMessage?
      && p.content == h[i].content && p.userCode == h[i].userCode && p.timestamp == h[i].timestamp
      && |p.attachments| == |h[i].attachments|
      && forall j :: 0 <= j < |p.attachments| ==>
           var a := h[i].attachments[j];
           p.attachments[j] == Attachment(a.filename, None, Some(if a.content.Some? then |a.content.value| else 0))
  {
  }

  /**
   * Stripping a message again, as happens on the next save after a load,
   * finds no content and records length 0, whatever length was stored.
   */
  lemma RestrippingLosesLength(a: Attachment)
    requires a.content.Some? && a.content.value != ""
    ensures StripAttachment(a).contentLength == Some(|a.content.value|)
    ensures StripAttachment(StripAttachment(a)).contentLength == Some(0)
  {
  }

  /**
   * Stripping as it is evidently meant: an attachment that is already
   * stripped keeps the length it recorded.
   */
  function StripAttachmentKeepingLength(a: Attachment): (r: Attachment)
    ensures r.filename == a.filename && r.content.None?
    ensures a.content.Some? ==> r.contentLength == Some(|a.content.value|)
    ensures a.content.None? && a.contentLength.Some? ==> r.contentLength == a.contentLength
  {
    if a.content.None? && a.contentLength.Some? then a else StripAttachment(a)
  }

  /** With it, a save after a load records the lengths the first save recorded. */
  lemma RestrippingKeepsLength(a: Attachment)
    requires a.content.Some?
    ensures StripAttachmentKeepingLength(StripAttachmentKeepingLength(a)).contentLength == Some(|a.content.value|)
    ensures StripAttachmentKeepingLength(StripAttachmentKeepingLength(a)) == StripAttachmentKeepingLength(a)
  {
  }

  // ---------------------------------------------------------------------
  // Saving
  // ---------------------------------------------------------------------

  /** `_buildStorageData` (lines 803-811), before `JSON.stringify`. */
  function BuildStorageData(history: seq<Message>, s: Session): (r: StoredRecord)
    ensures r.chatHistory == Some(history) && r.currentCode == Some(s.currentCode)
    ensures r.sendOnEnter == Some(s.sendOnEnter) && r.isCodeUserModified == Some(s.isCodeUserModified)
    ensures r.previousResponseId == s.previousResponseId
  {
    StoredRecord(Some(history), Some(s.currentCode), Some(s.sendOnEnter), Some(s.isCodeUserModified), s.previousResponseId)
  }

  /** The first write: the last 100 messages, stripped (lines 824-830), and the rest of the session. */
  function PrimaryRecord(s: Session): (r: StoredRecord)
    ensures r.chatHistory.Some? && |r.chatHistory.value| == (if |s.chatHistory| < MaxHistoryMessages then |s.chatHistory| else MaxHistoryMessages)
    ensures r.currentCode == Some(s.currentCode) && r.previousResponseId == s.previousResponseId
    ensures r.sendOnEnter == Some(s.sendOnEnter) && r.isCodeUserModified == Some(s.isCodeUserModified)
  {
    var chatToSave := if |s.chatHistory| > MaxHistoryMessages then Last(s.chatHistory, MaxHistoryMessages) else s.chatHistory;
    BuildStorageData(PrepareForStorage(chatToSave), s)
  }

  /** The write after a quota error: the last 20 messages of the full history, stripped (lines 838-841), and the rest of the session. */
  function RotatedRecord(s: Session): (r: StoredRecord)
    ensures r.chatHistory.Some? && |r.chatHistory.value| == (if |s.chatHistory| < RotationSize then |s.chatHistory| else RotationSize)
    ensures r.currentCode == Some(s.currentCode) && r.previousResponseId == s.previousResponseId
    ensures r.sendOnEnter == Some(s.sendOnEnter) && r.isCodeUserModified == Some(s.isCodeUserModified)
  {
    BuildStorageData(PrepareForStorage(Last(s.chatHistory, RotationSize)), s)
  }

  const TrimmedNotice: Notice := Notice("Chat history trimmed to save space.", Warning, 3000)
  const StorageFullNotice: Notice := Banner("Storage full. Consider clearing chat.", Error)
  const SaveFailedNotice: Notice := Banner("Failed to save state to local storage.", Error)

  /** What one save does: the record it leaves in the store, if any, and the banner it shows, if any. */
  datatype SaveOutcome = SaveOutcome(written: Option<StoredRecord>, notice: Option<Notice>)

  /**
   * The decisions of `_saveToStorage` (lines 822-852) given how the store
   * answers each write: the primary write; on a quota error one more write
   * with the rotated history and a warning, or "storage full" if that write
   * fails too; on any other error a "failed to save" banner and no retry.
   */
  function SaveDecision(s: Session, verdict: StoredRecord -> WriteResult): SaveOutcome
  {
    match verdict(PrimaryRecord(s))
    case Written => SaveOutcome(Some(PrimaryRecord(s)), None)
    case OtherFailure => SaveOutcome(None, Some(SaveFailedNotice))
    case QuotaExceeded =>
      if verdict(RotatedRecord(s)) == Written then SaveOutcome(Some(RotatedRecord(s)), Some(TrimmedNotice))
      else SaveOutcome(None, Some(StorageFullNotice))
  }

  /** The history a record holds is the last `min(n, cap)` messages of `h`, stripped, in order. */
  ghost predicate HoldsRecentHistory(r: StoredRecord, h: seq<Message>, cap: nat)
  {
    && r.chatHistory.Some?
    && |r.chatHistory.value| == (if |h| < cap then |h| else cap)
    && forall k :: 0 <= k < |r.chatHistory.value| ==>
         r.chatHistory.value[k] == StripMessage(h[|h| - |r.chatHistory.value| + k])
  }

  /** The primary write holds the most recent 100 messages; the rotated one the most recent 20. */
  lemma RecordsHoldRecentHistory(s: Session)
    ensures HoldsRecentHistory(PrimaryRecord(s), s.chatHistory, 100)
    ensures HoldsRecentHistory(RotatedRecord(s), s.chatHistory, 20)
  {
  }

  /**
   * Whatever the store answers: a record is written exactly when the first
   * write succeeds, or it fails on quota and the rotated write succeeds; a
   * record written on the first try holds the last 100 messages and shows no
   * banner, one written after rotation the last 20 and shows the trimmed
   * warning; the other cases write nothing and show an error.
   */
  lemma SaveDecisionCases(s: Session, verdict: StoredRecord -> WriteResult)
    ensures var o := SaveDecision(s, verdict);
      && (o.written.Some? <==>
            verdict(PrimaryRecord(s)) == Written ||
            (verdict(PrimaryRecord(s)) == QuotaExceeded && verdict(RotatedRecord(s)) == Written))
      && (verdict(PrimaryRecord(s)) == Written ==>
            o.notice.None? && HoldsRecentHistory(o.written.value, s.chatHistory, 100))
      && (verdict(PrimaryRecord(s)) == QuotaExceeded && verdict(RotatedRecord(s)) == Written ==>
            o.notice == Some(Notice("Chat history trimmed to save space.", Warning, 3000))
            && HoldsRecentHistory(o.written.value, s.chatHistory, 20))
      && (verdict(PrimaryRecord(s)) == QuotaExceeded && verdict(RotatedRecord(s)) != Written ==>
            o.notice == Some(Notice("Storage full. Consider clearing chat.", Error, 7500)))
      && (verdict(PrimaryRecord(s)) == OtherFailure ==>
            o.notice == Some(Notice("Failed to save state to local storage.", Error, 7500)))
      && (o.written.Some? ==>
            o.written.value.currentCode == Some(s.currentCode)
            && o.written.value.sendOnEnter == Some(s.sendOnEnter)
            && o.written.value.isCodeUserModified == Some(s.isCodeUserModified)
            && o.written.value.previousResponseId == s.previousResponseId)
  {
    RecordsHoldRecentHistory(s);
  }

  /** The rotated history is the same whether it is cut from the full history or from the 100 saved first. */
  lemma RotationOfTruncated(h: seq<Message>)
    ensures Last(Last(h, MaxHistoryMessages), RotationSize) == Last(h, RotationSize)
  {
  }

  // ---------------------------------------------------------------------
  // Loading
  // ---------------------------------------------------------------------

  /**
   * The fields `_loadFromStorage` (lines 769-773) restores from a record,
   * each with `||`: a missing or falsy field gives `[]`, `''`, `false`,
   * `false` and `null` respectively.
   */
  function LoadedSession(r: StoredRecord): (s: Session)
    ensures r.chatHistory.None? ==> s.chatHistory == []
    ensures r.chatHistory.Some? ==> s.chatHistory == r.chatHistory.value
    ensures s.currentCode == (if r.currentCode.Some? then r.currentCode.value else "")
    ensures s.sendOnEnter <==> r.sendOnEnter == Some(true)
    ensures s.isCodeUserModified <==> r.isCodeUserModified == Some(true)
    ensures s.previousResponseId.Some? <==> r.previousResponseId.Some? && r.previousResponseId.value != ""
    ensures s.previousResponseId.Some? ==> s.previousResponseId == r.previousResponseId
  {
    Session(
      r.chatHistory.GetOr([]),
      if r.currentCode.Some? && r.currentCode.value != "" then r.currentCode.value else "",
      r.sendOnEnter.GetOr(false),
      r.isCodeUserModified.GetOr(false),
      if r.previousResponseId.Some? && r.previousResponseId.value != "" then r.previousResponseId else None)
  }

  /**
   * Saving a session of at most 100 messages and loading it back gives the
   * same session, except that attachments are stripped and an empty response
   * id reads back as `null`.
   */
  lemma SaveThenLoad(s: Session)
    requires |s.chatHistory| <= MaxHistoryMessages
    ensures LoadedSession(PrimaryRecord(s)) ==
      s.(chatHistory := PrepareForStorage(s.chatHistory),
         previousResponseId := if s.previousResponseId == Some("") then None else s.previousResponseId)
  {
  }

  /** The key under which a user's session is stored (line 139). */
  function StorageKey(userId: string): (k: string)
    ensures |k| > |StorageKeyPrefix| && k[..|StorageKeyPrefix|] == StorageKeyPrefix
    ensures k[|StorageKeyPrefix| + 1..] == userId
  {
    StorageKeyPrefix + "_" + userId
  }

  /** Two different users never share a key. */
  lemma StorageKeysDistinct(u1: string, u2: string)
    requires u1 != u2
    ensures StorageKey(u1) != StorageKey(u2)
  {
    assert StorageKey(u1)[|StorageKeyPrefix| + 1..] == u1;
  }
}
