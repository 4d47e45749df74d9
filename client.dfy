/** The chat client around the renderer (script.js:16-17, 54, 58-80, 89-110,
    229-271): the state the handlers change, the request `callQwen` sends
    and the text an answer bubble finally shows. */
module Client {
  import opened Wrappers
  import opened Chars
  import opened Json
  import opened Fences
  import opened Renderer

  /** The system prompt of every request (script.js:230). */
  const BasePrompt: string := "Ты ShamanAi — умный помощник на базе шамана. Отвечай на русском. Используй ТОЛЬКО формат $...$ для формул. НЕ окружай формулы скобками или кавычками."
  /** Appended in graph mode (script.js:233). */
  const GraphSuffix: string := GraphLead + (Tick + "json") + (" ... " + Tick + ".")
  const GraphLead: string := " Пользователь просит график. Верни ТОЛЬКО JSON для Plotly.js в блоке "
  /** Appended in draw mode (script.js:235). */
  const DrawSuffix: string := DrawLead + (Tick + "svg") + (" ... " + Tick + " с чёрными линиями.")
  const DrawLead: string := " Пользователь хочет рисунок. Верни ТОЛЬКО корректный SVG в блоке "

  /** The request's model and temperature (script.js:258-262). */
  const Model: string := "qwen/qwen-vl-plus"
  const Temperature: real := 0.7

  /** The text shown when the answer carries no content (script.js:270). */
  const NoAnswer: string := "Нет ответа."
  /** The text of the user bubble that shows an attached picture (script.js:94). */
  const ImageCaption: string := "[Изображение]"
  /** The text of the bubble that waits for the answer (script.js:103). */
  const Thinking: string := "shaman думает..."

  /** script.js:230-236: the base prompt, plus the chart instruction in graph
      mode or the drawing instruction in draw mode. */
  function SystemPrompt(mode: string): string {
    if mode == "graph" then BasePrompt + GraphSuffix
    else if mode == "draw" then BasePrompt + DrawSuffix
    else BasePrompt
  }

  /** The prompt always starts with the base prompt, the three kinds of mode
      give three different prompts, and the graph and draw instructions ask
      for exactly the fenced blocks the renderer extracts. */
  lemma SystemPromptShape(mode: string)
    ensures SystemPrompt(mode)[..|BasePrompt|] == BasePrompt
    ensures mode != "graph" && mode != "draw" <==> SystemPrompt(mode) == BasePrompt
    ensures SystemPrompt("graph") != SystemPrompt("draw")
    ensures Find(SystemPrompt("graph"), Tick + "json", 0).Some?
    ensures Find(SystemPrompt("draw"), Tick + "svg", 0).Some?
  {
    assert |SystemPrompt("graph")| == |BasePrompt| + 85 && |SystemPrompt("draw")| == |BasePrompt| + 98;
    GraphPromptAsksForChart();
    DrawPromptAsksForDrawing();
  }

  lemma GraphPromptAsksForChart()
    ensures Find(SystemPrompt("graph"), Tick + "json", 0).Some?
  {
    StartsAtJoin(BasePrompt, GraphLead, Tick + "json", " ... " + Tick + ".");
    FindFinds(SystemPrompt("graph"), Tick + "json", |BasePrompt| + |GraphLead|);
  }

  lemma DrawPromptAsksForDrawing()
    ensures Find(SystemPrompt("draw"), Tick + "svg", 0).Some?
  {
    StartsAtJoin(BasePrompt, DrawLead, Tick + "svg", " ... " + Tick + " с чёрными линиями.");
    FindFinds(SystemPrompt("draw"), Tick + "svg", |BasePrompt| + |DrawLead|);
  }

  /** `c` occurs in `a + (b + c + d)` right after `a + b`. */
  lemma StartsAtJoin(a: string, b: string, c: string, d: string)
    ensures StartsAt(a + (b + c + d), |a| + |b|, c)
  {
    assert a + (b + c + d) == (a + b) + c + d;
    assert ((a + b) + c + d)[|a + b|..|a + b| + |c|] == c;
  }

  /** `Find` reports an occurrence whenever there is one. */
  lemma FindFinds(s: string, pat: string, i: nat)
    requires StartsAt(s, i, pat)
    ensures Find(s, pat, 0).Some? && Find(s, pat, 0).value <= i
  {
  }

  /** `currentImageBase64` counts as present when it is a non-empty string. */
  predicate HasImage(image: Option<string>) {
    image.Some? && image.value != ""
  }

  function DataUri(base64: string): string {
    "data:image/jpeg;base64," + base64
  }

  /** One entry of the user message's `content` array. */
  datatype ContentPart = TextContent(text: string) | ImageContent(url: string)

  datatype Message = SystemMessage(content: string) | UserMessage(parts: seq<ContentPart>)

  /** The body `callQwen` posts (script.js:257-261). */
  datatype Request = Request(model: string, messages: seq<Message>, temperature: real)

  /** The user content: a text part for a non-empty prompt, then an image
      part for a present image (script.js:238-246). */
  function UserContent(prompt: string, image: Option<string>): (r: seq<ContentPart>)
    ensures |r| <= 2
    ensures (exists k :: 0 <= k < |r| && r[k].TextContent?) <==> prompt != ""
    ensures (exists k :: 0 <= k < |r| && r[k].ImageContent?) <==> HasImage(image)
    ensures forall k :: 0 <= k < |r| && r[k].TextContent? ==> r[k].text == prompt && k == 0
    ensures forall k :: 0 <= k < |r| && r[k].ImageContent? ==> r[k].url == DataUri(image.value) && k == |r| - 1
  {
    var r := (if prompt != "" then [TextContent(prompt)] else [])
      + (if HasImage(image) then [ImageContent(DataUri(image.value))] else []);
    assert prompt != "" ==> r[0].TextContent?;
    assert HasImage(image) ==> r[|r| - 1].ImageContent?;
    r
  }

  /** The request for one turn. */
  function RequestFor(mode: string, prompt: string, image: Option<string>): Request {
    Request(Model, [SystemMessage(SystemPrompt(mode)), UserMessage(UserContent(prompt, image))], Temperature)
  }

  /** An absent or empty image adds nothing to the request. */
  lemma RequestWithoutImage(mode: string, prompt: string, image: Option<string>)
    requires !HasImage(image)
    ensures RequestFor(mode, prompt, image) == RequestFor(mode, prompt, None)
  {
    assert UserContent(prompt, image) == UserContent(prompt, None);
  }

  /** script.js:229-249 and 257-261: `messages` and `userContent` built by
      `push`. */
  method ComposeRequest(mode: string, prompt: string, image: Option<string>) returns (req: Request)
    ensures req == RequestFor(mode, prompt, image)
  {
    var systemPrompt := BasePrompt;
    if mode == "graph" {
      systemPrompt := systemPrompt + GraphSuffix;
    } else if mode == "draw" {
      systemPrompt := systemPrompt + DrawSuffix;
    }
    var messages := [SystemMessage(systemPrompt)];
    var userContent := [];
    if prompt != "" {
      userContent := userContent + [TextContent(prompt)];
    }
    if image.Some? && image.value != "" {
      userContent := userContent + [ImageContent(DataUri(image.value))];
    }
    assert userContent == UserContent(prompt, image);
    messages := messages + [UserMessage(userContent)];
    req := Request(Model, messages, Temperature);
  }

  /** `content` sits at `choices[0].message.content` in the parsed answer:
      `choices[0]` is an array's first element or an object's "0" property,
      and every step on the way is an object holding the next name. */
  ghost predicate AnswerAt(data: JsonValue, content: JsonValue) {
    && data.JObject? && "choices" in data.fields
    && var choices := data.fields["choices"];
       || (choices.JArray? && choices.elems != [] && MessageContent(choices.elems[0], content))
       || (choices.JObject? && "0" in choices.fields && MessageContent(choices.fields["0"], content))
  }

  /** `choice.message.content` is `content`. */
  ghost predicate MessageContent(choice: JsonValue, content: JsonValue) {
    && choice.JObject? && "message" in choice.fields
    && var message := choice.fields["message"];
       message.JObject? && "content" in message.fields && message.fields["content"] == content
  }

  /** `data.choices?.[0]?.message?.content || "Нет ответа."` (script.js:270).
      `None` when `data` is `null`: reading `data.choices` throws. */
  function ReplyValue(data: JsonValue): (r: Option<JsonValue>)
    ensures r.None? <==> data.JNull?
    ensures forall c :: AnswerAt(data, c) ==> r == Some(if Truthy(c) then c else JString(NoAnswer))
    ensures !data.JNull? && (forall c :: !AnswerAt(data, c)) ==> r == Some(JString(NoAnswer))
    ensures r.Some? ==> Truthy(r.value)
  {
    if data.JNull? then None
    else
      var content := OptField(OptField(OptIndex0(Field(data, "choices")), "message"), "content");
      assert content.Some? ==> AnswerAt(data, content.value);
      assert forall c :: AnswerAt(data, c) ==> content == Some(c);
      Some(Or(content, JString(NoAnswer)))
  }

  /** Each way the path to the content can break gives "Нет ответа.": an
      answer that is not an object or has no `choices`, a `choices` that is
      `null`, a boolean, a number or empty, a first choice without a
      `message` object, a message without `content`. */
  lemma ReplyFallback(data: JsonValue)
    ensures !data.JNull? && !data.JObject? ==> ReplyValue(data) == Some(JString(NoAnswer))
    ensures data.JObject? && "choices" !in data.fields ==> ReplyValue(data) == Some(JString(NoAnswer))
    ensures data.JObject? && "choices" in data.fields ==>
      var choices := data.fields["choices"];
      && (choices.JNull? || choices.JBool? || choices.JNumber? || choices == JArray([]) ==>
            ReplyValue(data) == Some(JString(NoAnswer)))
      && (choices.JArray? && choices.elems != [] && !MessageObject(choices.elems[0]) ==>
            ReplyValue(data) == Some(JString(NoAnswer)))
      && (choices.JArray? && choices.elems != [] && MessageObject(choices.elems[0]) &&
          "content" !in choices.elems[0].fields["message"].fields ==>
            ReplyValue(data) == Some(JString(NoAnswer)))
  {
    if data.JObject? && "choices" in data.fields {
      var choices := data.fields["choices"];
      if choices.JArray? && choices.elems != [] {
        forall c | AnswerAt(data, c)
          ensures MessageContent(choices.elems[0], c)
        {
        }
      }
    }
  }

  /** `choice.message` is an object. */
  predicate MessageObject(choice: JsonValue) {
    choice.JObject? && "message" in choice.fields && choice.fields["message"].JObject?
  }

  /** How the request ended: the parsed answer, a response whose status is
      not OK (script.js:264-267), or an exception with its message (the
      network, or `response.json()` on a body that is not JSON). */
  datatype Outcome = Answered(data: JsonValue) | NotOk(status: nat) | Threw(message: string)

  /** The text the answer bubble is finally rendered from (script.js:105-109).
      The engine's messages for the two `TypeError`s that can occur are
      parameters: `nullError` for reading `choices` of `null` inside
      `callQwen`, `matchError` for calling `rawContent.match` when the content
      is not a string (the first `updateMessage` throws, and the `catch`
      renders the error over it). */
  function ShownText(outcome: Outcome, nullError: string, matchError: string): (r: string)
    ensures outcome.NotOk? ==> r == "Ошибка: Ошибка API: " + NatToString(outcome.status)
    ensures outcome.Threw? ==> r == "Ошибка: " + outcome.message
    ensures outcome.Answered? && outcome.data.JNull? ==> r == "Ошибка: " + nullError
    ensures outcome.Answered? && ReplyValue(outcome.data).Some? && ReplyValue(outcome.data).value.JString? ==>
              r == ReplyValue(outcome.data).value.s && r != ""
    ensures outcome.Answered? && ReplyValue(outcome.data).Some? && !ReplyValue(outcome.data).value.JString? ==>
              r == "Ошибка: " + matchError
  {
    match outcome
    case NotOk(status) => "Ошибка: " + ("Ошибка API: " + NatToString(status))
    case Threw(message) => "Ошибка: " + message
    case Answered(data) =>
      match ReplyValue(data)
      case None => "Ошибка: " + nullError
      case Some(v) => if v.JString? then v.s else "Ошибка: " + matchError
  }

  /** `split(',')[1]` on the `data:` URL the file reader produces
      (script.js:64): the text between the first comma and the next one, or
      `None` (`undefined`) when there is no comma. */
  function SecondField(url: string): (r: Option<string>)
    ensures r.None? <==> ',' !in url
    ensures forall i :: FirstCommaAt(url, i) ==> r.Some? && FieldAfter(url, i, r.value)
    ensures r.Some? ==> ',' !in r.value
  {
    match Find(url, ",", 0)
    case None => NoComma(url); None
    case Some(i) =>
      var v := UpToComma(url[i + 1..]);
      FieldAfterFirstComma(url, i, v);
      Some(v)
  }

  /** The first comma of `url` is at `i`. */
  ghost predicate FirstCommaAt(url: string, i: int) {
    0 <= i < |url| && url[i] == ',' && forall q :: 0 <= q < i ==> url[q] != ','
  }

  /** `v` follows the comma at `i` and runs up to the next comma or the end. */
  ghost predicate FieldAfter(url: string, i: int, v: string) {
    0 <= i && i + 1 + |v| <= |url| && v == url[i + 1..i + 1 + |v|]
    && (i + 1 + |v| == |url| || url[i + 1 + |v|] == ',')
  }

  /** `t` up to its first comma, or all of `t` when it has none. */
  function UpToComma(t: string): (r: string)
    ensures |r| <= |t| && r == t[..|r|] && ',' !in r
    ensures |r| == |t| || t[|r|] == ','
  {
    match Find(t, ",", 0)
    case None => NoComma(t); t
    case Some(j) => NoCommaBefore(t, j); FirstComma(t, j); t[..j]
  }

  /** The field after the comma `Find` reports is the field after the first
      comma, wherever that is stated. */
  lemma FieldAfterFirstComma(url: string, i: nat, v: string)
    requires Find(url, ",", 0) == Some(i) && v == UpToComma(url[i + 1..])
    ensures ',' in url && ',' !in v
    ensures forall k :: FirstCommaAt(url, k) ==> FieldAfter(url, k, v)
  {
    CommaFound(url, i);
    FieldAfterComma(url, i, v);
    forall k | FirstCommaAt(url, k)
      ensures FieldAfter(url, k, v)
    {
      FirstCommaUnique(url, i, k);
    }
  }

  /** Where `Find` reports `","` there is a comma. */
  lemma CommaFound(url: string, i: nat)
    requires Find(url, ",", 0) == Some(i)
    ensures i < |url| && url[i] == ','
  {
    assert url[i] == url[i..i + 1][0];
  }

  lemma FieldAfterComma(url: string, i: nat, v: string)
    requires i < |url| && v == UpToComma(url[i + 1..])
    ensures FieldAfter(url, i, v)
  {
    SuffixPrefix(url, i + 1, |v|);
  }

  lemma FirstCommaUnique(url: string, i: nat, k: int)
    requires Find(url, ",", 0) == Some(i) && FirstCommaAt(url, k)
    ensures k == i
  {
    FirstComma(url, i);
    assert i <= k;
    assert !(i < k) by { assert url[i] == ','; }
  }

  /** A prefix of a suffix is a slice, and the character after it is the
      one after the slice. */
  lemma SuffixPrefix(s: string, a: nat, n: nat)
    requires a + n <= |s|
    ensures s[a..][..n] == s[a..a + n]
    ensures a + n < |s| ==> s[a..][n] == s[a + n]
  {
  }

  /** Where `Find` reports `","` is a comma, and it is the first one. */
  lemma FirstComma(t: string, i: nat)
    requires Find(t, ",", 0) == Some(i)
    ensures i < |t| && t[i] == ','
    ensures forall q :: 0 <= q < |t| && t[q] == ',' ==> i <= q
  {
    CommaAt(t);
  }

  /** A one-character `","` occurs exactly where a comma is. */
  lemma CommaAt(t: string)
    ensures forall q: nat :: StartsAt(t, q, ",") <==> q < |t| && t[q] == ','
  {
    forall q: nat
      ensures StartsAt(t, q, ",") <==> q < |t| && t[q] == ','
    {
      if q < |t| {
        assert t[q..q + 1] == [t[q]];
      }
    }
  }

  lemma NoComma(t: string)
    requires Find(t, ",", 0).None?
    ensures ',' !in t
  {
    forall k | 0 <= k < |t|
      ensures t[k] != ','
    {
      assert !StartsAt(t, k, ",");
      assert t[k..k + 1] == [t[k]];
    }
  }

  lemma NoCommaBefore(t: string, j: nat)
    requires Find(t, ",", 0) == Some(j)
    ensures ',' !in t[..j]
  {
    forall k | 0 <= k < j
      ensures t[..j][k] != ','
    {
      assert !StartsAt(t, k, ",");
      assert t[k..k + 1] == [t[k]];
    }
  }

  /** One bubble of the conversation. */
  datatype Bubble =
    | UserBubble(imageSrc: Option<string>, text: string)
    | Waiting(text: string)
    | AnswerBubble(regions: seq<Region>)

  /** The module-level state of script.js (`currentMode`,
      `currentImageBase64`), the text box and the chat container. */
  class ChatClient {
    var mode: string
    var image: Option<string>
    var input: string
    var log: seq<Bubble>

    /** script.js:16-17: chat mode, no image, an empty conversation. */
    constructor ()
      ensures mode == "chat" && image == None && input == "" && log == []
    {
      mode := "chat";
      image := None;
      input := "";
      log := [];
    }

    /** A click on a navigation item (script.js:51-56). */
    method SelectMode(m: string)
      modifies this
      ensures mode == m
      ensures image == old(image) && input == old(input) && log == old(log)
    {
      mode := m;
    }

    /** The file reader's `onload` (script.js:63-67). */
    method LoadImage(dataUrl: string)
      modifies this
      ensures image == SecondField(dataUrl)
      ensures mode == old(mode) && input == old(input) && log == old(log)
    {
      image := SecondField(dataUrl);
    }

    /** `clearImage` (script.js:74-78). */
    method ClearImage()
      modifies this
      ensures image == None
      ensures mode == old(mode) && input == old(input) && log == old(log)
    {
      image := None;
    }

    /** The bubbles a turn appends before the request goes out
        (script.js:94-103). */
    static function TurnBubbles(text: string, image: Option<string>): (r: seq<Bubble>)
      ensures |r| == (if HasImage(image) then 1 else 0) + (if text != "" then 1 else 0) + 1
      ensures r[|r| - 1] == Waiting(Thinking)
      ensures HasImage(image) ==> r[0] == UserBubble(Some(DataUri(image.value)), ImageCaption)
      ensures UserBubble(None, text) in r <==> text != ""
      ensures text != "" ==> r[|r| - 2] == UserBubble(None, text)
      ensures forall k :: 0 <= k < |r| && r[k].UserBubble? && r[k].imageSrc.Some? ==> HasImage(image) && k == 0
    {
      (if HasImage(image) then [UserBubble(Some(DataUri(image.value)), ImageCaption)] else [])
      + (if text != "" then [UserBubble(None, text)] else [])
      + [Waiting(Thinking)]
    }

    /** `sendMessage` up to the request (script.js:89-106), as written: the
        image is cleared at line 101, before line 106 reads it, so the
        request never carries it. Returns the request and the index of the
        waiting bubble, or `None` for an empty turn. */
    method SendMessage() returns (sent: Option<(Request, nat)>)
      modifies this
      ensures var text := Trim(old(input));
        if text == "" && !HasImage(old(image)) then
          sent.None? && mode == old(mode) && image == old(image) && input == old(input) && log == old(log)
        else
          && sent == Some((RequestFor(old(mode), text, None), |log| - 1))
          && log == old(log) + TurnBubbles(text, old(image))
          && mode == old(mode) && input == ""
          && image == (if HasImage(old(image)) then None else old(image))
    {
      var text := Trim(input);
      if text == "" && !HasImage(image) {
        return None;
      }
      ghost var before := log;
      if HasImage(image) {
        log := log + [UserBubble(Some(DataUri(image.value)), ImageCaption)];
      }
      if text != "" {
        log := log + [UserBubble(None, text)];
      }
      input := "";
      if HasImage(image) {
        ClearImage();
      }
      log := log + [Waiting(Thinking)];
      TurnLog(before, text, old(image), log);
      var req := ComposeRequest(mode, text, image);
      RequestWithoutImage(mode, text, image);
      sent := Some((req, |log| - 1));
    }

    /** `sendMessage` with the image read before it is cleared: the request
        carries the picture the user attached. */
    method SendMessageKeepingImage() returns (sent: Option<(Request, nat)>)
      modifies this
      ensures var text := Trim(old(input));
        if text == "" && !HasImage(old(image)) then
          sent.None? && mode == old(mode) && image == old(image) && input == old(input) && log == old(log)
        else
          && sent == Some((RequestFor(old(mode), text, old(image)), |log| - 1))
          && log == old(log) + TurnBubbles(text, old(image))
          && mode == old(mode) && input == ""
          && image == (if HasImage(old(image)) then None else old(image))
    {
      var text := Trim(input);
      if text == "" && !HasImage(image) {
        return None;
      }
      var attached := image;
      ghost var before := log;
      if HasImage(image) {
        log := log + [UserBubble(Some(DataUri(image.value)), ImageCaption)];
      }
      if text != "" {
        log := log + [UserBubble(None, text)];
      }
      input := "";
      if HasImage(image) {
        ClearImage();
      }
      log := log + [Waiting(Thinking)];
      TurnLog(before, text, old(image), log);
      var req := ComposeRequest(mode, text, attached);
      sent := Some((req, |log| - 1));
    }

    /** The end of `sendMessage` (script.js:105-109): the bubble at `waiting`
        is rendered from the answer, in the mode current at that moment;
        nothing happens when there is no such bubble (script.js:138). */
    method ReceiveReply(waiting: nat, outcome: Outcome, parse: Parser, nullError: string, matchError: string)
      modifies this
      ensures waiting < |old(log)| ==>
        log == old(log)[waiting := AnswerBubble(Render(ShownText(outcome, nullError, matchError), old(mode), parse))]
      ensures waiting >= |old(log)| ==> log == old(log)
      ensures mode == old(mode) && image == old(image) && input == old(input)
    {
      if waiting < |log| {
        var regions := UpdateMessage(ShownText(outcome, nullError, matchError), mode, parse);
        log := log[waiting := AnswerBubble(regions)];
      }
    }
  }

  /** The conversation after the appends of script.js:94-103 is the old
      one followed by the turn's bubbles. */
  lemma TurnLog(before: seq<Bubble>, text: string, image: Option<string>, log: seq<Bubble>)
    requires log == before
      + (if HasImage(image) then [UserBubble(Some(DataUri(image.value)), ImageCaption)] else [])
      + (if text != "" then [UserBubble(None, text)] else [])
      + [Waiting(Thinking)]
    ensures log == before + ChatClient.TurnBubbles(text, image)
  {
  }

  /** As written, a turn sends `RequestFor(mode, text, None)`: it never
      carries a picture, it differs from the request with the attached
      picture whenever there is one, and a picture-only turn sends a user
      message with no content at all. */
  lemma ImageNeverSent(mode: string, text: string, image: Option<string>)
    ensures var u := RequestFor(mode, text, None).messages[1].parts;
      forall k :: 0 <= k < |u| ==> !u[k].ImageContent?
    ensures HasImage(image) ==> RequestFor(mode, text, None) != RequestFor(mode, text, image)
    ensures RequestFor(mode, "", None).messages[1] == UserMessage([])
  {
    if HasImage(image) {
      var u := RequestFor(mode, text, image).messages[1].parts;
      assert u[|u| - 1].ImageContent?;
    }
  }

  /** With the image read first, the request carries the picture exactly
      when one was attached, after the text. */
  lemma ImageSentWhenAttached(mode: string, text: string, image: Option<string>)
    ensures var u := RequestFor(mode, text, image).messages[1].parts;
      && (HasImage(image) ==> |u| >= 1 && u[|u| - 1] == ImageContent(DataUri(image.value)))
      && (HasImage(image) && text == "" ==> u == [ImageContent(DataUri(image.value))])
      && (!HasImage(image) ==> forall k :: 0 <= k < |u| ==> !u[k].ImageContent?)
  {
  }
}
