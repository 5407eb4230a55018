/**
 * The card itself (`GrokCodeFastCard`, grok-code-fast-card.js): the state it
 * keeps in its fields and the operations that change it — attaching the
 * browser store for a user, loading and saving the session, sending a prompt
 * to the assistant and recording its reply, picking and removing
 * attachments — together with the layout it reports to its host.
 *
 * The browser's keyed store is the object `KeyedStore`. How the store
 * answers a write is the parameter `verdict`, the remote call is `outcome`,
 * `JSON.parse` is `parse`, and the clock's readings are the timestamps
 * `sentAt` and `repliedAt`. Banners are recorded in `notices`, in the order
 * the card asks for them; the last one is the banner on screen.
 */
module Card {
  import opened Wrappers
  import Js
  import opened Notices
  import opened Persistence
  import Retry
  import Decoder
  import Escapes
  import FileRules

  /** `localStorage`: text stored under string keys, held here already parsed. */
  class KeyedStore {
    var entries: map<string, StoredValue>

    constructor(initial: map<string, StoredValue>)
      ensures entries == initial
    {
      entries := initial;
    }
  }

  // ---------------------------------------------------------------------
  // What a save does to the store and the banners
  // ---------------------------------------------------------------------

  /**
   * The store after one save of session `s` under `key`: the key gets the
   * record that was written, if any; without a key nothing is written.
   */
  function StoreAfterSave(entries: map<string, StoredValue>, key: Option<string>, s: Session,
                          verdict: StoredRecord -> WriteResult): map<string, StoredValue>
  {
    if key.None? then entries
    else
      var o := SaveDecision(s, verdict);
      if o.written.Some? then entries[key.value := Record(o.written.value)] else entries
  }

  /**
   * A save changes at most the entry under its own key, leaves there the
   * record it wrote, and writes nothing without a key.
   */
  lemma StoreAfterSaveChangesOnlyItsKey(entries: map<string, StoredValue>, key: Option<string>, s: Session,
                                        verdict: StoredRecord -> WriteResult)
    ensures key.None? ==> StoreAfterSave(entries, key, s, verdict) == entries
    ensures forall k :: k in entries && (key.None? || k != key.value) ==>
      k in StoreAfterSave(entries, key, s, verdict) && StoreAfterSave(entries, key, s, verdict)[k] == entries[k]
    ensures forall k :: k in StoreAfterSave(entries, key, s, verdict) ==> k in entries || (key.Some? && k == key.value)
    ensures key.Some? && SaveDecision(s, verdict).written.Some? ==>
      var r := StoreAfterSave(entries, key, s, verdict);
      key.value in r && r[key.value] == Record(SaveDecision(s, verdict).written.value)
  {
  }

  /** The banners one save of `s` under `key` shows. */
  function SaveNotices(key: Option<string>, s: Session, verdict: StoredRecord -> WriteResult): seq<Notice>
  {
    if key.None? then []
    else
      var o := SaveDecision(s, verdict);
      if o.notice.Some? then [o.notice.value] else []
  }

  /** A save shows at most one banner: none without a key, none when the first write succeeds. */
  lemma SaveNoticesAtMostOne(key: Option<string>, s: Session, verdict: StoredRecord -> WriteResult)
    ensures |SaveNotices(key, s, verdict)| <= 1
    ensures key.None? || verdict(PrimaryRecord(s)) == Written ==> SaveNotices(key, s, verdict) == []
  {
  }

  // ---------------------------------------------------------------------
  // The request and the reply of one exchange
  // ---------------------------------------------------------------------

  /** The `requestData` object sent as `instructions` (lines 712-716); an absent key is `None`. */
  datatype Request = Request(
    prompt: string,
    userId: Option<string>,
    previousResponseId: Option<string>,
    code: Option<string>,
    attachments: Option<seq<Attachment>>)

  /**
   * Lines 712-716: the prompt always; the user id and the previous response
   * id exactly when they are truthy; the attachments exactly when the list
   * is non-empty; the editor's code exactly when it is non-empty and the
   * user changed it.
   */
  function BuildRequest(prompt: string, userId: Option<string>, previousResponseId: Option<string>,
                        code: string, codeModified: bool, attachments: seq<Attachment>): (r: Request)
    ensures r.prompt == prompt
    ensures r.userId.Some? <==> userId.Some? && userId.value != ""
    ensures r.userId.Some? ==> r.userId == userId
    ensures r.previousResponseId.Some? <==> previousResponseId.Some? && previousResponseId.value != ""
    ensures r.previousResponseId.Some? ==> r.previousResponseId == previousResponseId
    ensures r.code.Some? <==> code != "" && codeModified
    ensures r.code.Some? ==> r.code.value == code
    ensures r.attachments.Some? <==> attachments != []
    ensures r.attachments.Some? ==> r.attachments.value == attachments
  {
    Request(
      prompt,
      if userId.Some? && userId.value != "" then userId else None,
      if previousResponseId.Some? && previousResponseId.value != "" then previousResponseId else None,
      if code != "" && codeModified then Some(code) else None,
      if attachments != [] then Some(attachments) else None)
  }

  /** A decoded field as the card stores it: a string as it is, anything else as `''`. */
  function TextOf(v: Js.Value): (t: string)
    ensures v.Str? ==> t == v.s
  {
    if v.Str? then v.s else ""
  }

  /**
   * The response id the card keeps after a reply (lines 729-731): the
   * payload's `previous_response_id` when the payload is an object carrying
   * a non-empty one, the old id otherwise.
   */
  function NextResponseId(payload: Js.Value, current: Option<string>): (r: Option<string>)
    ensures r != current ==>
      (&& payload.Obj? && r.Some? && r.value != ""
       && "previous_response_id" in payload.fields && payload.fields["previous_response_id"] == Js.Str(r.value))
    ensures (&& payload.Obj? && "previous_response_id" in payload.fields
             && payload.fields["previous_response_id"].Str? && payload.fields["previous_response_id"].s != "")
            ==> r == Some(payload.fields["previous_response_id"].s)
  {
    if payload.Obj? && "previous_response_id" in payload.fields
       && payload.fields["previous_response_id"].Str? && payload.fields["previous_response_id"].s != ""
    then Some(payload.fields["previous_response_id"].s)
    else current
  }

  /** The text of the error line (line 735): the error's message, or its serialized form when the message is empty. */
  function ErrorText(e: Retry.ServiceError): (t: string)
    ensures |t| >= 7 && t[..7] == "Error: "
    ensures e.message != "" ==> t[7..] == e.message
    ensures e.message == "" ==> t[7..] == e.serialized
  {
    "Error: " + (if e.message != "" then e.message else e.serialized)
  }

  /** What an exchange leaves behind besides the user's message. */
  datatype Turn = Turn(reply: Message, code: string, codeModified: bool, responseId: Option<string>, notices: seq<Notice>)

  /**
   * The `try`/`catch` of lines 718-738 once the retry loop has settled: on a
   * success the decoded reply is logged, the code replaced when the reply
   * carries code (and then counted as not modified by the user), and the
   * response id taken over; on a failure an error line is logged and shown,
   * and the code and the id stay as they were.
   */
  function Answer(result: Retry.CallResult, parse: Decoder.Parser, code: string, codeModified: bool,
                  responseId: Option<string>, repliedAt: string): (t: Turn)
    requires !result.NoAttempt?
  {
    match result
    case Returned(payload) =>
      var d := Decoder.ParseResponse(Escapes.AsWritten, payload, parse);
      var text := TextOf(d.reply.assistantText);
      var replyCode := TextOf(d.reply.assistantCode);
      var hasCode := Js.Truthy(d.reply.assistantCode);
      var notice := Decoder.DecoderNotice(d.stage);
      Turn(
        AssistantMessage(text, replyCode, repliedAt),
        if hasCode then replyCode else code,
        if hasCode then false else codeModified,
        NextResponseId(payload, responseId),
        if notice.Some? then [notice.value] else [])
    case Threw(e) =>
      var message := ErrorText(e);
      Turn(AssistantMessage(message, "", repliedAt), code, codeModified, responseId, [Banner(message, Error)])
  }

  /**
   * An exchange logs one assistant message stamped `repliedAt`. A failure
   * logs and shows its error line and keeps the code, the flag and the id; a
   * success shows at most one banner, a warning, changes the code only to
   * the reply's code (clearing the flag), and the id only for an object reply.
   */
  lemma AnswerOutcomes(result: Retry.CallResult, parse: Decoder.Parser, code: string, codeModified: bool,
                       responseId: Option<string>, repliedAt: string)
    requires !result.NoAttempt?
    ensures var t := Answer(result, parse, code, codeModified, responseId, repliedAt);
      t.reply.AssistantMessage? && t.reply.timestamp == repliedAt
    ensures var t := Answer(result, parse, code, codeModified, responseId, repliedAt);
      result.Threw? ==>
        && t.code == code && t.codeModified == codeModified && t.responseId == responseId
        && t.reply.code == "" && t.reply.text == ErrorText(result.error)
        && t.notices == [Banner(t.reply.text, Error)]
    ensures var t := Answer(result, parse, code, codeModified, responseId, repliedAt);
      result.Returned? ==>
        && (t.code != code || t.codeModified != codeModified ==> t.code == t.reply.code && !t.codeModified)
        && (t.responseId != responseId ==> result.response.Obj?)
        && |t.notices| <= 1
        && (forall k :: 0 <= k < |t.notices| ==> t.notices[k].level == Warning)
    ensures var t := Answer(result, parse, code, codeModified, responseId, repliedAt);
      result.Returned? ==>
        var d := Decoder.ParseResponse(Escapes.AsWritten, result.response, parse);
        && t.reply.text == TextOf(d.reply.assistantText) && t.reply.code == TextOf(d.reply.assistantCode)
        && (Js.Truthy(d.reply.assistantCode) ==> t.code == TextOf(d.reply.assistantCode) && !t.codeModified)
        && (!Js.Truthy(d.reply.assistantCode) ==> t.code == code && t.codeModified == codeModified)
        && t.responseId == NextResponseId(result.response, responseId)
        && (t.notices == [] <==> Decoder.DecoderNotice(d.stage).None?)
  {
  }

  /**
   * A reply that is a string neither parsing nor holding a field pattern is
   * logged as it is, with a warning, and leaves the editor's code and the
   * response id alone.
   */
  lemma PlainTextReplyKeepsCode(s: string, parse: Decoder.Parser, code: string, codeModified: bool,
                                responseId: Option<string>, repliedAt: string)
    requires parse(s).None?
    requires NoFieldPattern(s)
    ensures var t := Answer(Retry.Returned(Js.Str(s)), parse, code, codeModified, responseId, repliedAt);
      && t.reply == AssistantMessage(s, "", repliedAt)
      && t.code == code && t.codeModified == codeModified && t.responseId == responseId
      && t.notices == [Notice("Received malformed response. Displaying raw data.", Warning, 7500)]
  {
    Decoder.NoFieldsMeansPlainText(Escapes.AsWritten, s, parse);
  }

  /** Neither field pattern of the decoder occurs in `s`. */
  predicate NoFieldPattern(s: string)
  {
    Decoder.ExtractionStage(Escapes.AsWritten, s).None?
  }

  /**
   * An object reply with a non-empty string `response_code` replaces the
   * editor's code and clears the user-modified flag; its `response_text` is
   * logged.
   */
  lemma ObjectReplyReplacesCode(text: string, newCode: string, parse: Decoder.Parser, code: string,
                                codeModified: bool, responseId: Option<string>, repliedAt: string)
    requires newCode != ""
    ensures var payload := Js.Obj(map["response_text" := Js.Str(text), "response_code" := Js.Str(newCode)]);
      var t := Answer(Retry.Returned(payload), parse, code, codeModified, responseId, repliedAt);
      && t.reply == AssistantMessage(text, newCode, repliedAt)
      && t.code == newCode && !t.codeModified
      && t.responseId == responseId
      && t.notices == []
  {
    var payload := Js.Obj(map["response_text" := Js.Str(text), "response_code" := Js.Str(newCode)]);
    assert "previous_response_id" !in payload.fields;
    Decoder.ObjectInputPassesFields(Escapes.AsWritten, payload, parse);
  }

  /** The session once the user's message is logged: the code goes with it when the user changed it. */
  function Logged(s: Session, prompt: string, attachments: seq<Attachment>, sentAt: string): Session
  {
    var userCode := if s.currentCode != "" && s.isCodeUserModified then Some(s.currentCode) else None;
    s.(chatHistory := s.chatHistory + [UserMessage(prompt, attachments, userCode, sentAt)])
  }

  /**
   * Logging a prompt appends one user message carrying it, its attachments,
   * the time it was sent and, when the user changed it, the editor's code;
   * nothing else changes.
   */
  lemma LoggedAppendsUserMessage(s: Session, prompt: string, attachments: seq<Attachment>, sentAt: string)
    ensures var r := Logged(s, prompt, attachments, sentAt);
      && |r.chatHistory| == |s.chatHistory| + 1 && r.chatHistory[..|s.chatHistory|] == s.chatHistory
      && r.chatHistory[|s.chatHistory|].UserMessage?
      && r.chatHistory[|s.chatHistory|].content == prompt
      && r.chatHistory[|s.chatHistory|].attachments == attachments
      && (r.chatHistory[|s.chatHistory|].userCode.Some? <==> s.currentCode != "" && s.isCodeUserModified)
      && (r.chatHistory[|s.chatHistory|].userCode.Some? ==> r.chatHistory[|s.chatHistory|].userCode.value == s.currentCode)
      && r.chatHistory[|s.chatHistory|].timestamp == sentAt
      && r.(chatHistory := s.chatHistory) == s
  {
  }

  /** The session once a settled exchange is recorded: its reply logged, its code, flag and id taken over. */
  function AfterTurn(s: Session, t: Turn): Session
  {
    Session(s.chatHistory + [t.reply], t.code, s.sendOnEnter, t.codeModified, t.responseId)
  }

  // ---------------------------------------------------------------------
  // Layout
  // ---------------------------------------------------------------------

  datatype GridOptions = GridOptions(columns: int, rows: int)

  /** `Math.ceil(n / 3)`. */
  function CeilThird(n: nat): (c: nat)
    ensures 3 * c >= n && (c == 0 || 3 * (c - 1) < n)
  {
    (n + 2) / 3
  }

  /**
   * `getGridOptions` (lines 1181-1186) for an editor holding `currentCode`
   * and a log of `historyLength` messages: twelve columns; six rows, three
   * more when there is code, and one more per three messages up to five.
   */
  function Grid(currentCode: string, historyLength: nat): (g: GridOptions)
    ensures g.columns == 12
    ensures 6 <= g.rows <= 14
    ensures g.rows == 6 <==> currentCode == "" && historyLength == 0
    ensures g.rows == 14 <==> currentCode != "" && historyLength > 12
  {
    var rows := 6;
    var rows := if currentCode != "" then rows + 3 else rows;
    var c := CeilThird(historyLength);
    var rows := rows + (if c < 5 then c else 5);
    GridOptions(12, if rows > 6 then rows else 6)
  }

  /** A longer log never makes the card shorter. */
  lemma GridRowsMonotone(currentCode: string, n: nat, m: nat)
    requires n <= m
    ensures Grid(currentCode, n).rows <= Grid(currentCode, m).rows
  {
    assert CeilThird(n) <= CeilThird(m);
  }

  // ---------------------------------------------------------------------
  // Pending attachments
  // ---------------------------------------------------------------------

  /** `s.filter((_, i) => i !== index)`: `s` without its element at `index`, when there is one. */
  function Without<T>(s: seq<T>, index: int): (r: seq<T>)
    ensures 0 <= index < |s| ==> r == s[..index] + s[index + 1..]
    ensures !(0 <= index < |s|) ==> r == s
  {
    if s == [] then []
    else if index == 0 then s[1..]
    else [s[0]] + Without(s[1..], index - 1)
  }

  /**
   * The body of `_saveToStorage` (lines 822-852) for session `s` under
   * `key`: the primary write of the last 100 messages; on a quota error one
   * more write of the last 20 with a warning, or an error if that fails too;
   * on any other error an error banner and no retry. It returns the banners
   * it asks for.
   */
  method WriteSession(store: KeyedStore, key: Option<string>, s: Session, verdict: StoredRecord -> WriteResult)
    returns (shown: seq<Notice>)
    modifies store`entries
    ensures store.entries == StoreAfterSave(old(store.entries), key, s, verdict)
    ensures shown == SaveNotices(key, s, verdict)
  {
    if key.None? {
      return [];
    }
    var chatToSave := s.chatHistory;
    if |chatToSave| > MaxHistoryMessages {
      chatToSave := Last(chatToSave, MaxHistoryMessages);
    }
    var dataToStore := BuildStorageData(PrepareForStorage(chatToSave), s);
    match verdict(dataToStore)
    case Written =>
      store.entries := store.entries[key.value := Record(dataToStore)];
      shown := [];
    case QuotaExceeded =>
      var reducedHistory := Last(s.chatHistory, RotationSize);
      var reducedData := BuildStorageData(PrepareForStorage(reducedHistory), s);
      if verdict(reducedData) == Written {
        store.entries := store.entries[key.value := Record(reducedData)];
        shown := [TrimmedNotice];
      } else {
        shown := [StorageFullNotice];
      }
    case OtherFailure =>
      shown := [SaveFailedNotice];
  }

  // ---------------------------------------------------------------------
  // The card
  // ---------------------------------------------------------------------

  class GrokCodeFastCard {
    var chatHistory: seq<Message>
    var currentCode: string
    var sendOnEnter: bool
    var isCodeUserModified: bool
    var previousResponseId: Option<string>
    var pendingAttachments: seq<Attachment>
    var isLoading: bool
    /** `_storageKey`: set once the host passes a user. */
    var storageKey: Option<string>
    /** Whether the host has passed its `hass` object yet. */
    var hassSet: bool
    /** The banners asked for so far, oldest first. */
    var notices: seq<Notice>

    /** The constructor (lines 78-108): everything empty, no user, no key. */
    constructor()
      ensures chatHistory == [] && currentCode == "" && !sendOnEnter && !isCodeUserModified
      ensures previousResponseId.None? && pendingAttachments == [] && !isLoading
      ensures storageKey.None? && !hassSet && notices == []
    {
      chatHistory := [];
      currentCode := "";
      sendOnEnter := false;
      isCodeUserModified := false;
      previousResponseId := None;
      pendingAttachments := [];
      isLoading := false;
      storageKey := None;
      hassSet := false;
      notices := [];
    }

    /** The durable part of the state. */
    function Snapshot(): Session
      reads this
    {
      Session(chatHistory, currentCode, sendOnEnter, isCodeUserModified, previousResponseId)
    }

    /**
     * `_saveToStorage` (lines 816-853). Without a key nothing happens (the
     * source only logs a warning); otherwise the store and the banners
     * change as `SaveDecision` says for the current session.
     */
    method SaveToStorage(store: KeyedStore, verdict: StoredRecord -> WriteResult)
      modifies this`notices, store`entries
      ensures store.entries == StoreAfterSave(old(store.entries), storageKey, Snapshot(), verdict)
      ensures notices == old(notices) + SaveNotices(storageKey, Snapshot(), verdict)
    {
      var shown := WriteSession(store, storageKey, Snapshot(), verdict);
      notices := notices + shown;
    }

    /**
     * `_loadFromStorage` (lines 759-776). Without a key, or with nothing
     * stored under it, nothing changes; a record replaces the session as
     * `LoadedSession` says; an entry that does not parse leaves the session
     * alone and shows a warning.
     */
    method LoadFromStorage(store: KeyedStore)
      modifies this`chatHistory, this`currentCode, this`sendOnEnter, this`isCodeUserModified,
               this`previousResponseId, this`notices
      ensures storageKey.None? || storageKey.value !in store.entries ==>
        Snapshot() == old(Snapshot()) && notices == old(notices)
      ensures storageKey.Some? && storageKey.value in store.entries && store.entries[storageKey.value].Record? ==>
        Snapshot() == LoadedSession(store.entries[storageKey.value].record) && notices == old(notices)
      ensures storageKey.Some? && storageKey.value in store.entries && store.entries[storageKey.value].Corrupt? ==>
        Snapshot() == old(Snapshot()) && notices == old(notices) + [Banner("Failed to load saved state.", Warning)]
    {
      if storageKey.None? || storageKey.value !in store.entries {
        return;
      }
      match store.entries[storageKey.value]
      case Record(data) =>
        chatHistory := data.chatHistory.GetOr([]);
        currentCode := if data.currentCode.Some? && data.currentCode.value != "" then data.currentCode.value else "";
        sendOnEnter := data.sendOnEnter.GetOr(false);
        isCodeUserModified := data.isCodeUserModified.GetOr(false);
        previousResponseId :=
          if data.previousResponseId.Some? && data.previousResponseId.value != "" then data.previousResponseId else None;
      case Corrupt =>
        notices := notices + [Banner("Failed to load saved state.", Warning)];
    }

    /**
     * The `hass` setter (lines 133-142) for a host whose user has id
     * `userId`: on the first call with a non-empty id the storage key is
     * derived from it and the saved session loaded; later calls change
     * nothing the model keeps.
     */
    method SetHass(userId: Option<string>, store: KeyedStore)
      modifies this
      ensures hassSet
      ensures pendingAttachments == old(pendingAttachments) && isLoading == old(isLoading)
      ensures old(hassSet) || userId.None? || userId.value == "" ==>
        storageKey == old(storageKey) && Snapshot() == old(Snapshot()) && notices == old(notices)
      ensures !old(hassSet) && userId.Some? && userId.value != "" ==>
        var key := StorageKey(userId.value);
        && storageKey == Some(key)
        && (key !in store.entries ==> Snapshot() == old(Snapshot()) && notices == old(notices))
        && (key in store.entries && store.entries[key].Record? ==>
              Snapshot() == LoadedSession(store.entries[key].record) && notices == old(notices))
        && (key in store.entries && store.entries[key].Corrupt? ==>
              Snapshot() == old(Snapshot()) && notices == old(notices) + [Banner("Failed to load saved state.", Warning)])
    {
      var wasFirstSet := !hassSet;
      hassSet := true;
      if wasFirstSet && userId.Some? && userId.value != "" {
        storageKey := Some(StorageKey(userId.value));
        LoadFromStorage(store);
      }
    }

    /** `_clearAttachment` (lines 1020-1022). */
    method ClearAttachment(index: int)
      modifies this`pendingAttachments
      ensures pendingAttachments == Without(old(pendingAttachments), index)
    {
      pendingAttachments := Without(pendingAttachments, index);
    }

    /**
     * `_handleFileSelect` (lines 985-1015) for the picked files, `None` when
     * the input has no file list: each accepted file's attachment is added
     * in order, and each refused file shows its banner.
     */
    method HandleFileSelect(files: Option<seq<FileRules.SelectedFile>>)
      modifies this`pendingAttachments, this`notices
      ensures files.None? ==> pendingAttachments == old(pendingAttachments) && notices == old(notices)
      ensures files.Some? ==>
        && pendingAttachments == old(pendingAttachments) + FileRules.Accepted(files.value)
        && notices == old(notices) + FileRules.Rejections(files.value)
    {
      if files.None? {
        return;
      }
      var fs := files.value;
      var added: seq<Attachment> := [];
      var refused: seq<Notice> := [];
      var i := 0;
      while i < |fs|
        invariant 0 <= i <= |fs|
        invariant added == FileRules.Accepted(fs[..i])
        invariant refused == FileRules.Rejections(fs[..i])
        invariant pendingAttachments == old(pendingAttachments) && notices == old(notices)
      {
        var file := fs[i];
        FileRules.AcceptedStep(fs, i);
        FileRules.RejectionsStep(fs, i);
        var verdict := FileRules.Check(file);
        if verdict != FileRules.Accept {
          refused := refused + [FileRules.RejectionNotice(file, verdict)];
        } else {
          added := added + [FileRules.ToAttachment(file)];
        }
        i := i + 1;
      }
      assert fs[..|fs|] == fs;
      pendingAttachments := pendingAttachments + added;
      notices := notices + refused;
    }

    /**
     * The first half of `_sendPrompt` (lines 696-711): the loading flag is
     * set, the user's message with the pending attachments is logged, the
     * attachments are cleared, and the session is saved. It returns the
     * attachments that go with the request.
     */
    method LogPrompt(prompt: string, sentAt: string, store: KeyedStore, verdict: StoredRecord -> WriteResult)
      returns (sent: seq<Attachment>)
      modifies this`chatHistory, this`pendingAttachments, this`isLoading, this`notices, store`entries
      ensures sent == old(pendingAttachments) && pendingAttachments == [] && isLoading
      ensures Snapshot() == Logged(old(Snapshot()), prompt, old(pendingAttachments), sentAt)
      ensures store.entries == StoreAfterSave(old(store.entries), storageKey, Snapshot(), verdict)
      ensures notices == old(notices) + SaveNotices(storageKey, Snapshot(), verdict)
    {
      isLoading := true;
      chatHistory := Logged(Snapshot(), prompt, pendingAttachments, sentAt).chatHistory;
      sent := pendingAttachments;
      pendingAttachments := [];
      SaveToStorage(store, verdict);
    }

    /**
     * The second half of `_sendPrompt` (lines 720-741), once the call has
     * settled with `result`: the reply is decoded and logged (or the error
     * logged and shown), the code and response id updated as `Answer` says,
     * the loading flag cleared and the session saved.
     */
    method RecordReply(result: Retry.CallResult, parse: Decoder.Parser, repliedAt: string,
                       store: KeyedStore, verdict: StoredRecord -> WriteResult)
      requires !result.NoAttempt?
      modifies this`chatHistory, this`currentCode, this`isCodeUserModified, this`previousResponseId,
               this`isLoading, this`notices, store`entries
      ensures !isLoading
      ensures Snapshot() == AfterTurn(old(Snapshot()), Answer(result, parse, old(currentCode), old(isCodeUserModified),
                                                             old(previousResponseId), repliedAt))
      ensures store.entries == StoreAfterSave(old(store.entries), storageKey, Snapshot(), verdict)
      ensures notices == old(notices)
        + Answer(result, parse, old(currentCode), old(isCodeUserModified), old(previousResponseId), repliedAt).notices
        + SaveNotices(storageKey, Snapshot(), verdict)
    {
      var t := Answer(result, parse, currentCode, isCodeUserModified, previousResponseId, repliedAt);
      var next := AfterTurn(Snapshot(), t);
      chatHistory, currentCode, isCodeUserModified, previousResponseId :=
        next.chatHistory, next.currentCode, next.isCodeUserModified, next.previousResponseId;
      assert Snapshot() == next;
      notices := notices + t.notices;
      isLoading := false;
      SaveToStorage(store, verdict);
    }

    /**
     * The remote call of `_sendPrompt` and what follows it (lines 718-741):
     * three attempts with a base delay of 1000 ms, then the settled result
     * recorded as `RecordReply` says.
     */
    method Exchange(outcome: nat -> Retry.Outcome, parse: Decoder.Parser, repliedAt: string,
                    store: KeyedStore, verdict: StoredRecord -> WriteResult)
      modifies this`chatHistory, this`currentCode, this`isCodeUserModified, this`previousResponseId,
               this`isLoading, this`notices, store`entries
      ensures !isLoading
      ensures Snapshot() == AfterTurn(old(Snapshot()), Answer(Retry.Settle(outcome, 3).result, parse, old(currentCode),
                                                             old(isCodeUserModified), old(previousResponseId), repliedAt))
      ensures store.entries == StoreAfterSave(old(store.entries), storageKey, Snapshot(), verdict)
      ensures notices == old(notices)
        + Retry.RetryNotices(Retry.Backoff(1000, Retry.Settle(outcome, 3).attempts - 1))
        + Answer(Retry.Settle(outcome, 3).result, parse, old(currentCode), old(isCodeUserModified),
                 old(previousResponseId), repliedAt).notices
        + SaveNotices(storageKey, Snapshot(), verdict)
    {
      var result, attempts, waits, retryNotices := Retry.CallWithRetry(outcome, 3, 1000);
      notices := notices + retryNotices;
      assert result != Retry.NoAttempt;
      RecordReply(result, parse, repliedAt, store, verdict);
    }

    /**
     * `_sendPrompt` (lines 692-751). An empty prompt (after `trim`) with no
     * pending attachment does nothing. Otherwise the user's message is logged
     * and saved, the request built, the remote call made with three attempts
     * and a base delay of 1000 ms, the reply (or the error) logged, and the
     * session saved again with the loading flag cleared.
     */
    method SendPrompt(input: string, userId: Option<string>, sentAt: string, repliedAt: string,
                      outcome: nat -> Retry.Outcome, parse: Decoder.Parser,
                      store: KeyedStore, verdict: StoredRecord -> WriteResult)
      returns (request: Option<Request>)
      requires hassSet
      modifies this`chatHistory, this`currentCode, this`isCodeUserModified, this`previousResponseId,
               this`pendingAttachments, this`isLoading, this`notices, store`entries
      ensures Js.Trim(input) == "" && old(pendingAttachments) == [] ==>
        && request.None?
        && Snapshot() == old(Snapshot()) && pendingAttachments == old(pendingAttachments)
        && isLoading == old(isLoading) && notices == old(notices) && store.entries == old(store.entries)
      ensures Js.Trim(input) != "" || old(pendingAttachments) != [] ==>
        request == Some(BuildRequest(Js.Trim(input), userId, old(previousResponseId), old(currentCode),
                                     old(isCodeUserModified), old(pendingAttachments)))
      ensures Js.Trim(input) != "" || old(pendingAttachments) != [] ==>
        pendingAttachments == [] && !isLoading
      ensures Js.Trim(input) != "" || old(pendingAttachments) != [] ==>
        Snapshot() == AfterTurn(Logged(old(Snapshot()), Js.Trim(input), old(pendingAttachments), sentAt),
                                Answer(Retry.Settle(outcome, 3).result, parse, old(currentCode),
                                       old(isCodeUserModified), old(previousResponseId), repliedAt))
      ensures Js.Trim(input) != "" || old(pendingAttachments) != [] ==>
        store.entries == StoreAfterSave(
          StoreAfterSave(old(store.entries), storageKey, Logged(old(Snapshot()), Js.Trim(input), old(pendingAttachments), sentAt), verdict),
          storageKey, Snapshot(), verdict)
      ensures Js.Trim(input) != "" || old(pendingAttachments) != [] ==>
        notices == old(notices)
          + SaveNotices(storageKey, Logged(old(Snapshot()), Js.Trim(input), old(pendingAttachments), sentAt), verdict)
          + Retry.RetryNotices(Retry.Backoff(1000, Retry.Settle(outcome, 3).attempts - 1))
          + Answer(Retry.Settle(outcome, 3).result, parse, old(currentCode), old(isCodeUserModified),
                   old(previousResponseId), repliedAt).notices
          + SaveNotices(storageKey, Snapshot(), verdict)
    {
      var prompt := Js.Trim(input);
      if prompt == "" && |pendingAttachments| == 0 {
        return None;
      }
      var sent := LogPrompt(prompt, sentAt, store, verdict);
      request := Some(BuildRequest(prompt, userId, previousResponseId, currentCode, isCodeUserModified, sent));
      Exchange(outcome, parse, repliedAt, store, verdict);
    }
  }
}
