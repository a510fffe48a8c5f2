/**
 * The local bookkeeping of the chat-model client: the per-user conversation
 * histories, the cleanup of a model reply that should hold an exercise as
 * JSON, the defaulting of the exercise's fields, and the built-in exercises
 * used when no usable reply is available. The network calls themselves are
 * not modelled; their outcome is a parameter.
 */
module ChatClient {
  import opened Wrappers
  import opened Text

  // ---------------------------------------------------------------------------
  // Conversation histories
  // ---------------------------------------------------------------------------

  /** One chat message, as the `{"role": ..., "content": ...}` dictionaries the client keeps. */
  datatype Message = Message(role: string, content: string)

  /** The system message every conversation starts with. */
  const DeveloperPrompt: Message := Message("system",
    "Ты — профессиональный репетитор английского языка для русскоговорящих студентов. "
    + "Пиши дружелюбно и по делу.\n\n"
    + "ВАЖНО (Telegram HTML):\n"
    + "- Используй только теги <b>, <i>, <code> (без Markdown).\n"
    + "- Не используй ссылки и другие HTML-теги.\n"
    + "- Давай примеры и короткие правила.")

  const NotConfiguredReply: string := "⚠️ GigaChat не настроен. Добавьте GIGACHAT_CLIENT_ID и GIGACHAT_CLIENT_SECRET в .env"
  const NoAnswerReply: string := "⚠️ Не удалось получить ответ от GigaChat. Попробуйте позже."

  /** A history longer than this is cut before the next question is added. */
  const HistoryLimit: nat := 10
  /** How many of the latest messages survive a cut, besides the system message. */
  const KeptAfterCut: nat := 9

  /** A Python list of messages: a mutable object that several names can share. */
  class MessageList {
    var items: seq<Message>

    constructor (init: seq<Message>)
      ensures items == init
    {
      items := init;
    }

    /** `list.append`. */
    method Append(m: Message)
      modifies this
      ensures items == old(items) + [m]
    {
      items := items + [m];
    }
  }

  /** The history cut `ask_question` makes: the first message and the last nine, once there are more than ten. */
  function Truncate(h: seq<Message>): (r: seq<Message>)
    ensures |h| <= HistoryLimit ==> r == h
    ensures |h| > HistoryLimit ==> |r| == KeptAfterCut + 1 && r[0] == h[0] && r[1..] == h[|h| - KeptAfterCut..]
  {
    if |h| > HistoryLimit then [h[0]] + h[|h| - KeptAfterCut..] else h
  }

  /** A reply counts when the API gave one and it is not empty. */
  predicate Answered(reply: Option<string>)
  {
    reply.Some? && reply.value != ""
  }

  /**
   * The stored history after `ask_question` with credentials: on an answer the
   * cut history plus the question and the answer; without one, the question
   * stays in the stored list when no cut was made (the list was appended to in
   * place) and the stored list is untouched when a cut made a new list.
   */
  function HistoryAfterAsk(h: seq<Message>, question: string, reply: Option<string>): seq<Message>
  {
    if Answered(reply) then Truncate(h) + [Message("user", question), Message("assistant", reply.value)]
    else if |h| > HistoryLimit then h
    else h + [Message("user", question)]
  }

  /** A history as the client keeps it: the system message first and at most twelve messages. */
  predicate WellFormed(h: seq<Message>)
  {
    1 <= |h| <= HistoryLimit + 2 && h[0] == DeveloperPrompt
  }

  /** Asking keeps a history well formed: the system message stays first and the length stays at most twelve. */
  lemma AskKeepsWellFormed(h: seq<Message>, question: string, reply: Option<string>)
    requires WellFormed(h)
    ensures WellFormed(HistoryAfterAsk(h, question, reply))
  {
  }

  /** After an answer the history ends with the question and the answer, and holds at most twelve messages. */
  lemma AnsweredEndsWithExchange(h: seq<Message>, question: string, reply: Option<string>)
    requires h != [] && Answered(reply)
    ensures var r := HistoryAfterAsk(h, question, reply);
            && |r| >= 3 && r[0] == h[0]
            && r[|r| - 2] == Message("user", question) && r[|r| - 1] == Message("assistant", reply.value)
            && |r| <= HistoryLimit + 2
  {
  }

  /**
   * A failed question on a short history followed by an answered retry leaves
   * the question in the history twice.
   */
  lemma RetryRepeatsQuestion(h: seq<Message>, question: string, answer: string)
    requires |h| < HistoryLimit && answer != ""
    ensures HistoryAfterAsk(HistoryAfterAsk(h, question, None), question, Some(answer))
            == h + [Message("user", question), Message("user", question), Message("assistant", answer)]
  {
    var once := HistoryAfterAsk(h, question, None);
    assert once == h + [Message("user", question)];
    assert |once| <= HistoryLimit;
  }

  /** A failed question on a cut-sized history leaves the stored history as it was. */
  lemma FailureAfterCutChangesNothing(h: seq<Message>, question: string, reply: Option<string>)
    requires |h| > HistoryLimit && !Answered(reply)
    ensures HistoryAfterAsk(h, question, reply) == h
  {
  }

  /** A second update of one key overrides the first.
      Kept apart so that the two-step proofs of AskWith below need only this one map fact. */
  lemma UpdateTwice<K, V>(m: map<K, V>, k: K, a: V, b: V)
    ensures m[k := a][k := b] == m[k := b]
  {
  }

  /** Two appends add the two messages in order.
      Kept apart so that the proof of AskWith does not reason about sequence concatenation. */
  lemma AppendTwo(h: seq<Message>, once: seq<Message>, twice: seq<Message>, m1: Message, m2: Message)
    requires once == h + [m1] && twice == once + [m2]
    ensures twice == h + [m1, m2]
  {
  }

  // ---------------------------------------------------------------------------
  // The client
  // ---------------------------------------------------------------------------

  class Client {
    const clientId: Option<string>
    const clientSecret: Option<string>
    /** `conversation_history`: user id to that user's message list. */
    var conversationHistory: map<int, MessageList>

    /** Both credentials are set and non-empty. */
    predicate HasCredentials()
    {
      clientId.Some? && clientId.value != "" && clientSecret.Some? && clientSecret.value != ""
    }

    /** Every user has a list of their own, and each list is a well-formed history. */
    ghost predicate Valid()
      reads this, conversationHistory.Values
    {
      && (forall u1, u2 :: u1 in conversationHistory && u2 in conversationHistory && u1 != u2
            ==> conversationHistory[u1] != conversationHistory[u2])
      && (forall u :: u in conversationHistory ==> WellFormed(conversationHistory[u].items))
    }

    /** The stored histories as values. */
    function Conversations(): (m: map<int, seq<Message>>)
      reads this, conversationHistory.Values
      ensures m.Keys == conversationHistory.Keys
      ensures forall u :: u in m ==> m[u] == conversationHistory[u].items
    {
      map u | u in conversationHistory :: conversationHistory[u].items
    }

    /** The history a user's next question starts from: the stored one, or just the system message. */
    function HistoryOf(userId: int): (h: seq<Message>)
      reads this, conversationHistory.Values
      ensures userId in conversationHistory ==> h == conversationHistory[userId].items
      ensures userId !in conversationHistory ==> h == [DeveloperPrompt]
    {
      if userId in conversationHistory then conversationHistory[userId].items else [DeveloperPrompt]
    }

    /** The credentials come from the environment; the histories start empty. */
    constructor (clientId: Option<string>, clientSecret: Option<string>)
      ensures this.clientId == clientId && this.clientSecret == clientSecret
      ensures conversationHistory == map[]
      ensures Valid()
    {
      this.clientId := clientId;
      this.clientSecret := clientSecret;
      conversationHistory := map[];
    }

    /**
     * `_get_conversation`: the user's stored list; a user without one gets a
     * new list holding the system message, which is stored.
     */
    method GetConversation(userId: int) returns (conv: MessageList)
      requires Valid()
      modifies this
      ensures Valid()
      ensures userId in conversationHistory && conv == conversationHistory[userId]
      ensures userId in old(conversationHistory) ==> conversationHistory == old(conversationHistory)
      ensures userId !in old(conversationHistory) ==>
                fresh(conv) && conversationHistory == old(conversationHistory)[userId := conv]
      ensures conv.items == old(HistoryOf(userId))
      ensures Conversations() == old(Conversations())[userId := old(HistoryOf(userId))]
    {
      if userId !in conversationHistory {
        var created := new MessageList([DeveloperPrompt]);
        conversationHistory := conversationHistory[userId := created];
      }
      conv := conversationHistory[userId];
    }

    /** `clear_conversation`: a known user's history is replaced by a new list with the system message. */
    method ClearConversation(userId: int) returns (cleared: bool)
      requires Valid()
      modifies this
      ensures Valid()
      ensures cleared <==> userId in old(conversationHistory)
      ensures cleared ==> userId in conversationHistory && fresh(conversationHistory[userId])
                          && Conversations() == old(Conversations())[userId := [DeveloperPrompt]]
      ensures !cleared ==> conversationHistory == old(conversationHistory)
    {
      if userId in conversationHistory {
        var reset := new MessageList([DeveloperPrompt]);
        conversationHistory := conversationHistory[userId := reset];
        return true;
      }
      return false;
    }

    /**
     * `list.append` on a list that is either `userId`'s stored list (when
     * `stored`) or a list no user has: only in the first case does the stored
     * history change.
     */
    method AppendTo(userId: int, conv: MessageList, stored: bool, m: Message)
      requires Valid()
      requires stored ==> userId in conversationHistory && conv == conversationHistory[userId]
                          && WellFormed(conv.items + [m])
      requires !stored ==> forall u :: u in conversationHistory ==> conversationHistory[u] != conv
      modifies conv
      ensures Valid()
      ensures conv.items == old(conv.items) + [m]
      ensures stored ==> Conversations() == old(Conversations())[userId := conv.items]
      ensures !stored ==> Conversations() == old(Conversations())
    {
      ghost var before := Conversations();
      conv.Append(m);
      ghost var expected := if stored then before[userId := conv.items] else before;
      forall u | u in conversationHistory
        ensures conversationHistory[u].items == expected[u]
      {
        if u != userId || !stored {
          assert conversationHistory[u] != conv;
        }
      }
      assert Conversations() == expected;
    }

    /** `conversation_history[user_id] = conv` for a well-formed list no other user has. */
    method Store(userId: int, conv: MessageList)
      requires Valid() && WellFormed(conv.items)
      requires forall u :: u in conversationHistory && u != userId ==> conversationHistory[u] != conv
      modifies this
      ensures Valid()
      ensures conversationHistory == old(conversationHistory)[userId := conv]
      ensures Conversations() == old(Conversations())[userId := conv.items]
    {
      conversationHistory := conversationHistory[userId := conv];
    }

    /**
     * `ask_question` with the API's reply given as `reply` (`None` when the call
     * failed). Without credentials nothing is touched. Otherwise the list is
     * fetched, cut into a new list when it is too long, and the question is
     * appended to whichever list that is; on an answer the answer is appended
     * too and that list is stored.
     */
    method AskQuestion(userId: int, question: string, reply: Option<string>) returns (answer: string)
      requires Valid()
      modifies this, conversationHistory.Values
      ensures Valid()
      ensures !HasCredentials() ==> answer == NotConfiguredReply && Conversations() == old(Conversations())
      ensures HasCredentials() ==>
                && answer == (if Answered(reply) then reply.value else NoAnswerReply)
                && Conversations() == old(Conversations())[userId := HistoryAfterAsk(old(HistoryOf(userId)), question, reply)]
    {
      if !HasCredentials() {
        return NotConfiguredReply;
      }
      ghost var initial := Conversations();
      ghost var start := HistoryOf(userId);
      var conversation := GetConversation(userId);
      ghost var fetched := Conversations();
      assert fetched == initial[userId := start];
      var cut := |conversation.items| > HistoryLimit;
      if cut {
        conversation := new MessageList([conversation.items[0]] + conversation.items[|conversation.items| - KeptAfterCut..]);
      }
      answer := AskWith(userId, conversation, cut, question, reply);
      UpdateTwice(initial, userId, start, HistoryAfterAsk(start, question, reply));
    }

    /**
     * The rest of `ask_question` once the list to extend is chosen: the stored
     * list itself, or (after a cut) a new list holding its cut copy.
     */
    method AskWith(userId: int, conversation: MessageList, cut: bool, question: string, reply: Option<string>)
      returns (answer: string)
      requires Valid() && userId in conversationHistory
      requires cut <==> |conversationHistory[userId].items| > HistoryLimit
      requires !cut ==> conversation == conversationHistory[userId]
      requires cut ==> forall u :: u in conversationHistory ==> conversationHistory[u] != conversation
      requires conversation.items == Truncate(conversationHistory[userId].items)
      modifies this, conversation
      ensures Valid()
      ensures answer == (if Answered(reply) then reply.value else NoAnswerReply)
      ensures Conversations() == old(Conversations())[userId := HistoryAfterAsk(old(conversationHistory[userId].items), question, reply)]
    {
      ghost var start := conversationHistory[userId].items;
      ghost var after := HistoryAfterAsk(start, question, reply);
      ghost var fetched := Conversations();
      AskKeepsWellFormed(start, question, reply);
      ghost var kept := conversation.items;
      var asking := Message("user", question);
      AppendTo(userId, conversation, !cut, asking);
      ghost var askedItems := conversation.items;
      if Answered(reply) {
        var answering := Message("assistant", reply.value);
        AppendTo(userId, conversation, !cut, answering);
        ghost var answeredItems := conversation.items;
        AppendTwo(kept, askedItems, answeredItems, asking, answering);
        Store(userId, conversation);
        if !cut {
          UpdateTwice(fetched, userId, askedItems, answeredItems);
        }
        answer := reply.value;
      } else {
        if cut {
          UpdateTwice(fetched, userId, start, after);
        }
        answer := NoAnswerReply;
      }
    }

    /**
     * `generate_exercise_structured` without the network: `reply` is the API's
     * reply and `parse` stands for `json.loads` (`None` when the text is not a
     * JSON object).
     */
    method GenerateExercise(topic: string, level: string, exerciseType: string,
                            reply: Option<string>, parse: string -> Option<map<string, Json>>)
      returns (ex: map<string, Json>)
      ensures !HasCredentials() || !Answered(reply) ==> ex == Fallback(topic, level, exerciseType)
      ensures HasCredentials() && Answered(reply) && parse(Unfenced(reply.value)).None? ==> ex == Fallback(topic, level, exerciseType)
      ensures HasCredentials() && Answered(reply) && parse(Unfenced(reply.value)).Some? ==> Defaulted(parse(Unfenced(reply.value)).value, ex)
      ensures Complete(ex)
    {
      if !HasCredentials() || !Answered(reply) {
        return Fallback(topic, level, exerciseType);
      }
      var response := StripFences(reply.value);
      match parse(response)
      case None =>
        ex := Fallback(topic, level, exerciseType);
      case Some(parsed) =>
        ex := FillDefaults(parsed);
        DefaultedIsComplete(parsed, ex);
    }
  }

  // ---------------------------------------------------------------------------
  // Exercises from the model
  // ---------------------------------------------------------------------------

  /** A parsed JSON value. */
  datatype Json = Null | Bool(b: bool) | Number(x: real) | Str(s: string) | Arr(items: seq<Json>) | Obj(fields: map<string, Json>)

  /** The Markdown code fence, and the fence that opens a JSON block. */
  const Fence: string := "```"
  const JsonFence: string := "```json"

  /** `s` without the prefix `p` when it has it. */
  function DropPrefix(s: string, p: string): string
  {
    if StartsWith(s, p) then s[|p|..] else s
  }

  /** `s` without the suffix `p` when it has it. */
  function DropSuffix(s: string, p: string): string
  {
    if EndsWith(s, p) then s[..|s| - |p|] else s
  }

  /**
   * The cleanup applied to the reply before parsing: trim, drop a leading
   * JSON fence, then a leading fence, then a trailing fence, and trim again.
   */
  function Unfenced(response: string): string
  {
    Strip(DropSuffix(DropPrefix(DropPrefix(Strip(response), JsonFence), Fence), Fence))
  }

  /** The cleanup as the client does it, by successive reassignments of the reply. */
  method StripFences(response: string) returns (r: string)
    ensures r == Unfenced(response)
  {
    r := Strip(response);
    if StartsWith(r, JsonFence) {
      r := r[|JsonFence|..];
    }
    assert r == DropPrefix(Strip(response), JsonFence);
    ghost var afterJson := r;
    if StartsWith(r, Fence) {
      r := r[|Fence|..];
    }
    assert r == DropPrefix(afterJson, Fence);
    ghost var afterOpen := r;
    if EndsWith(r, Fence) {
      r := r[..|r| - |Fence|];
    }
    assert r == DropSuffix(afterOpen, Fence);
    r := Strip(r);
  }

  /** The cleaned reply never starts or ends with whitespace. */
  lemma UnfencedTrimmed(response: string)
    ensures var r := Unfenced(response); r == [] || (!IsSpace(r[0]) && !IsSpace(r[|r| - 1]))
  {
    StripTrimmed(DropSuffix(DropPrefix(DropPrefix(Strip(response), JsonFence), Fence), Fence), Unfenced(response));
  }

  /** Whatever opens with a JSON fence opens with a fence. */
  lemma JsonFenceIsFence(s: string)
    requires StartsWith(s, JsonFence)
    ensures StartsWith(s, Fence)
  {
    assert s[..|Fence|] == s[..|JsonFence|][..|Fence|];
  }

  /** A reply that neither opens nor closes with a fence is only trimmed. */
  lemma UnfencedPlain(response: string)
    requires !StartsWith(Strip(response), Fence) && !EndsWith(Strip(response), Fence)
    ensures Unfenced(response) == Strip(response)
  {
    var s0 := Strip(response);
    if StartsWith(s0, JsonFence) {
      JsonFenceIsFence(s0);
    }
    var i, j := StripSlice(response);
    StripUnchanged(s0);
  }

  /** A block opening with a JSON fence loses exactly that fence when the body starts on a new line. */
  lemma JsonBlockOpens(s: string, body: string)
    requires body != [] && body[0] == '\n' && s == JsonFence + body + Fence
    ensures DropPrefix(DropPrefix(s, JsonFence), Fence) == body + Fence
  {
    assert s == JsonFence + (body + Fence);
    assert s[..|JsonFence|] == JsonFence;
    assert s[|JsonFence|..] == body + Fence;
    assert (body + Fence)[0] == '\n';
  }

  /** A block opening with a bare fence loses exactly that fence when the body starts on a new line. */
  lemma PlainBlockOpens(s: string, body: string)
    requires body != [] && body[0] == '\n' && s == Fence + body + Fence
    ensures DropPrefix(DropPrefix(s, JsonFence), Fence) == body + Fence
  {
    assert s == Fence + (body + Fence);
    assert s[3] == '\n';
    assert !StartsWith(s, JsonFence) by {
      assert JsonFence[3] == 'j';
    }
    assert s[..|Fence|] == Fence;
    assert s[|Fence|..] == body + Fence;
  }

  /** A closing fence is dropped. */
  lemma BlockCloses(body: string)
    ensures DropSuffix(body + Fence, Fence) == body
  {
    var s := body + Fence;
    assert s[|s| - |Fence|..] == Fence;
    assert s[..|s| - |Fence|] == body;
  }

  /** A fenced block is already trimmed. */
  lemma BlockTrimmed(opening: string, body: string, s: string)
    requires opening == Fence || opening == JsonFence
    requires s == opening + body + Fence
    ensures Strip(s) == s
  {
    assert s[0] == opening[0] == '`';
    assert s[|s| - 1] == Fence[2] == '`';
    StripUnchanged(s);
  }

  /** `Unfenced` step by step: trim, drop the openings, drop the closing, trim. */
  lemma UnfencedSteps(response: string, trimmed: string, unfenced: string, body: string)
    requires trimmed == Strip(response)
    requires unfenced == DropPrefix(DropPrefix(trimmed, JsonFence), Fence)
    requires body == DropSuffix(unfenced, Fence)
    ensures Unfenced(response) == Strip(body)
  {
  }

  /** A "```json" block whose body starts on a new line cleans up to its trimmed body. */
  lemma UnfencedJsonBody(body: string, s: string)
    requires body != [] && body[0] == '\n'
    requires s == JsonFence + body + Fence
    ensures Unfenced(s) == Strip(body)
  {
    BlockTrimmed(JsonFence, body, s);
    JsonBlockOpens(s, body);
    BlockCloses(body);
    UnfencedSteps(s, s, body + Fence, body);
  }

  /** A bare "```" block whose body starts on a new line cleans up to its trimmed body. */
  lemma UnfencedPlainBody(body: string, s: string)
    requires body != [] && body[0] == '\n'
    requires s == Fence + body + Fence
    ensures Unfenced(s) == Strip(body)
  {
    BlockTrimmed(Fence, body, s);
    PlainBlockOpens(s, body);
    BlockCloses(body);
    UnfencedSteps(s, s, body + Fence, body);
  }

  /** A text on its own lines trims to the text trimmed. */
  lemma LinesTrimmed(json: string, body: string)
    requires body == "\n" + json + "\n"
    ensures Strip(body) == Strip(json)
  {
    StripPadded("\n", json, "\n");
  }

  /** A JSON text on its own lines inside a "```json" block comes back trimmed. */
  lemma UnfencedJsonBlock(json: string)
    ensures Unfenced(JsonFence + "\n" + json + "\n" + Fence) == Strip(json)
  {
    var body := "\n" + json + "\n";
    var s := JsonFence + "\n" + json + "\n" + Fence;
    assert s == JsonFence + body + Fence;
    UnfencedJsonBody(body, s);
    LinesTrimmed(json, body);
  }

  /** A JSON text on its own lines inside a bare "```" block comes back trimmed. */
  lemma UnfencedPlainBlock(json: string)
    ensures Unfenced(Fence + "\n" + json + "\n" + Fence) == Strip(json)
  {
    var body := "\n" + json + "\n";
    var s := Fence + "\n" + json + "\n" + Fence;
    assert s == Fence + body + Fence;
    UnfencedPlainBody(body, s);
    LinesTrimmed(json, body);
  }

  /** The fields every exercise must have. */
  const RequiredFields: seq<string> := ["title", "instruction", "question", "correct_answer"]

  /** An exercise with every required field, a `tips` list and an `explanation`. */
  predicate Complete(ex: map<string, Json>)
  {
    && (forall k :: 0 <= k < |RequiredFields| ==> RequiredFields[k] in ex)
    && "tips" in ex && ex["tips"].Arr?
    && "explanation" in ex
  }

  /**
   * `r` is `ex` with the defaults filled in: a missing required field becomes
   * "Missing <field>", `tips` becomes `[]` unless it is a list, a missing
   * `explanation` becomes "", and nothing else changes.
   */
  ghost predicate Defaulted(ex: map<string, Json>, r: map<string, Json>)
  {
    && (forall k :: 0 <= k < |RequiredFields| ==>
          var f := RequiredFields[k];
          f in r && r[f] == (if f in ex then ex[f] else Str("Missing " + f)))
    && "tips" in r && r["tips"] == (if "tips" in ex && ex["tips"].Arr? then ex["tips"] else Arr([]))
    && "explanation" in r && r["explanation"] == (if "explanation" in ex then ex["explanation"] else Str(""))
    && (forall f :: f in ex && f != "tips" ==> f in r && r[f] == ex[f])
    && (forall f :: f in r ==> f in ex || f in RequiredFields || f == "tips" || f == "explanation")
  }

  /** The field defaulting, done in place on the parsed object. */
  method FillDefaults(parsed: map<string, Json>) returns (ex: map<string, Json>)
    ensures Defaulted(parsed, ex)
  {
    ex := parsed;
    for i := 0 to |RequiredFields|
      invariant forall k :: 0 <= k < i ==>
                  var f := RequiredFields[k];
                  f in ex && ex[f] == (if f in parsed then parsed[f] else Str("Missing " + f))
      invariant forall f :: f in parsed ==> f in ex && ex[f] == parsed[f]
      invariant forall f :: f in ex ==> f in parsed || f in RequiredFields[..i]
    {
      var field := RequiredFields[i];
      if field !in ex {
        ex := ex[field := Str("Missing " + field)];
      }
    }
    assert RequiredFields[..|RequiredFields|] == RequiredFields;
    ghost var filled := ex;
    if "tips" !in ex || !ex["tips"].Arr? {
      ex := ex["tips" := Arr([])];
    }
    ghost var tipped := ex;
    if "explanation" !in ex {
      ex := ex["explanation" := Str("")];
    }
    FilledIsDefaulted(parsed, filled, tipped, ex);
  }

  /** The state after the loop over the required fields, then the `tips` and `explanation` steps, is the defaulted exercise. */
  lemma FilledIsDefaulted(parsed: map<string, Json>, filled: map<string, Json>,
                          tipped: map<string, Json>, r: map<string, Json>)
    requires forall k :: 0 <= k < |RequiredFields| ==>
               var f := RequiredFields[k];
               f in filled && filled[f] == (if f in parsed then parsed[f] else Str("Missing " + f))
    requires forall f :: f in parsed ==> f in filled && filled[f] == parsed[f]
    requires forall f :: f in filled ==> f in parsed || f in RequiredFields
    requires tipped == if "tips" !in filled || !filled["tips"].Arr? then filled["tips" := Arr([])] else filled
    requires r == if "explanation" !in tipped then tipped["explanation" := Str("")] else tipped
    ensures Defaulted(parsed, r)
  {
    assert "tips" !in RequiredFields && "explanation" !in RequiredFields;
  }

  /** Defaulting always yields a complete exercise. */
  lemma DefaultedIsComplete(ex: map<string, Json>, r: map<string, Json>)
    requires Defaulted(ex, r)
    ensures Complete(r)
  {
  }

  /** The defaults are determined: two defaulted versions of one exercise are equal. */
  lemma DefaultedUnique(ex: map<string, Json>, r1: map<string, Json>, r2: map<string, Json>)
    requires Defaulted(ex, r1) && Defaulted(ex, r2)
    ensures r1 == r2
  {
    assert r1.Keys == r2.Keys by {
      forall f | f in r1
        ensures f in r2
      {
        if f !in ex && f in RequiredFields {
          var k :| 0 <= k < |RequiredFields| && RequiredFields[k] == f;
        }
      }
      forall f | f in r2
        ensures f in r1
      {
        if f !in ex && f in RequiredFields {
          var k :| 0 <= k < |RequiredFields| && RequiredFields[k] == f;
        }
      }
    }
    forall f | f in r1
      ensures r1[f] == r2[f]
    {
      if f in RequiredFields {
        var k :| 0 <= k < |RequiredFields| && RequiredFields[k] == f;
      }
    }
  }

  /** A complete exercise is left exactly as it is. */
  lemma CompleteIsFixed(ex: map<string, Json>)
    requires Complete(ex)
    ensures Defaulted(ex, ex)
  {
  }

  /** The built-in translation exercise. */
  const TranslateFallback: map<string, Json> :=
    map["title" := Str("Перевод RU→EN"),
        "instruction" := Str("Переведи на английский. Ответ одной строкой."),
        "question" := Str("Я изучаю английский каждый день, потому что хочу говорить свободно."),
        "correct_answer" := Str("I study English every day because I want to speak fluently."),
        "explanation" := Str("Present Simple для регулярных действий; because вводит причину."),
        "tips" := Arr([Str("Проверь порядок слов: S + V + ..."), Str("Проверь орфографию")])]

  /** The built-in vocabulary exercise. */
  const VocabFallback: map<string, Json> :=
    map["title" := Str("Словарь"),
        "instruction" := Str("Выбери правильный вариант. Ответ — буква A/B/C."),
        "question" := Str("Choose the correct word:\nI ____ a cup of tea every morning.\nA) do\nB) drink\nC) play"),
        "correct_answer" := Str("B"),
        "explanation" := Str("С напитками используем <code>drink</code>."),
        "tips" := Arr([Str("Сначала определи часть речи"), Str("Вспомни устойчивые сочетания")])]

  /** The built-in grammar exercise. */
  const GrammarFallback: map<string, Json> :=
    map["title" := Str("Грамматика"),
        "instruction" := Str("Заполни пропуск. Ответ одной строкой."),
        "question" := Str("She ____ to school every day. (go)"),
        "correct_answer" := Str("goes"),
        "explanation" := Str("В Present Simple с he/she/it добавляем -s/-es."),
        "tips" := Arr([Str("he/she/it → +s/-es"), Str("Проверь орфографию (go → goes)")])]

  /**
   * `_fallback_exercise`: the built-in exercise for a type (translation,
   * vocabulary, or grammar for any other type). Each is complete, and its
   * expected answer is the English sentence, the letter B, or "goes".
   */
  function Fallback(topic: string, level: string, exerciseType: string): (r: map<string, Json>)
    ensures && Complete(r) && "correct_answer" in r
            && (exerciseType == "translate" ==>
                  r["correct_answer"] == Str("I study English every day because I want to speak fluently."))
            && (exerciseType == "vocab" ==> r["correct_answer"] == Str("B"))
            && (exerciseType != "translate" && exerciseType != "vocab" ==> r["correct_answer"] == Str("goes"))
  {
    if exerciseType == "translate" then
      TranslateFallbackComplete();
      TranslateFallback
    else if exerciseType == "vocab" then
      VocabFallbackComplete();
      VocabFallback
    else
      GrammarFallbackComplete();
      GrammarFallback
  }

  lemma TranslateFallbackComplete()
    ensures Complete(TranslateFallback)
    ensures TranslateFallback["correct_answer"] == Str("I study English every day because I want to speak fluently.")
  {
  }

  lemma VocabFallbackComplete()
    ensures Complete(VocabFallback) && VocabFallback["correct_answer"] == Str("B")
  {
  }

  lemma GrammarFallbackComplete()
    ensures Complete(GrammarFallback) && GrammarFallback["correct_answer"] == Str("goes")
  {
  }

  /** Topic and level do not affect the built-in exercise. */
  lemma FallbackIgnoresTopicAndLevel(t1: string, l1: string, t2: string, l2: string, exerciseType: string)
    ensures Fallback(t1, l1, exerciseType) == Fallback(t2, l2, exerciseType)
  {
  }
}
