/** The context block and the user prompt that `POST /api/rag` builds from the
    messages and pages the backend retrieved for a query (server/index.js).
    The retrieved matches are given in the order the backend returned them;
    `new Date(ts).toLocaleString()` depends on the locale and is the parameter
    `localize`. */
module Rag {
  import opened JsStrings

  /** The fields of a retrieved `Message` record that the context uses. */
  datatype MessageMatch = MessageMatch(content: string, url: Option<string>, timestamp: string)

  /** The fields of a retrieved `Page` record that the context uses. A page
      stored without a url or a title comes back with that property `null`. */
  datatype PageMatch = PageMatch(url: Option<string>, title: Option<string>, content: string, timestamp: string)

  const MessageTag: string := "[Message from "
  const PageTag: string := "[Page from "

  /** A property interpolated into a template literal: `null` prints as
      `"null"`. */
  function Shown(value: Option<string>): (r: string)
    ensures value.Some? ==> r == value.value
    ensures value.None? ==> r == "null"
  {
    if value.Some? then value.value else "null"
  }

  /** The context line of one message: the message tag, a head naming the time
      and the url (see `MessageLineUrl`), then the message's content. */
  function MessageLine(m: MessageMatch, localize: string -> string): (r: string)
    ensures StartsWith(r, MessageTag)
    ensures |r| >= |m.content| && r[|r| - |m.content|..] == m.content
  {
    var head := localize(m.timestamp) + " at " + OrElse(m.url, "unknown") + "]: ";
    assert (MessageTag + (head + m.content))[..|MessageTag|] == MessageTag;
    MessageTag + (head + m.content)
  }

  /** The context entry of one page: the page tag, a head naming the time and
      the url, its title, a newline, its content (see `PageLineUrl`). It never
      starts with the message tag. */
  function PageLine(p: PageMatch, localize: string -> string): (r: string)
    ensures StartsWith(r, PageTag) && !StartsWith(r, MessageTag)
    ensures |r| > |p.content| && r[|r| - |p.content| - 1..] == "\n" + p.content
  {
    var head := localize(p.timestamp) + " at " + OrElse(p.url, "unknown") + "]: " + Shown(p.title);
    var r := PageTag + (head + ("\n" + p.content));
    assert r[..|PageTag|] == PageTag;
    assert r[1] == 'P' != MessageTag[1];
    r
  }

  /** Between the message tag and the content: the localized timestamp,
      ` at `, the url when it is present and non-empty and `unknown`
      otherwise, then `]: `. */
  lemma MessageLineUrl(m: MessageMatch, localize: string -> string)
    ensures m.url == None || m.url == Some("") ==>
      MessageLine(m, localize) == MessageTag + localize(m.timestamp) + " at " + "unknown" + "]: " + m.content
    ensures m.url.Some? && m.url.value != "" ==>
      MessageLine(m, localize) == MessageTag + localize(m.timestamp) + " at " + m.url.value + "]: " + m.content
  {
  }

  /** Between the page tag and the newline before the content: the same head
      as a message's, then the title as `Shown` prints it. */
  lemma PageLineUrl(p: PageMatch, localize: string -> string)
    ensures p.url == None || p.url == Some("") ==>
      PageLine(p, localize) == PageTag + localize(p.timestamp) + " at " + "unknown" + "]: " + Shown(p.title) + "\n" + p.content
    ensures p.url.Some? && p.url.value != "" ==>
      PageLine(p, localize) == PageTag + localize(p.timestamp) + " at " + p.url.value + "]: " + Shown(p.title) + "\n" + p.content
  {
    var head := localize(p.timestamp) + " at " + OrElse(p.url, "unknown") + "]: " + Shown(p.title);
    assert PageLine(p, localize) == PageTag + head + "\n" + p.content;
  }

  function MessageLines(messages: seq<MessageMatch>, localize: string -> string): (lines: seq<string>)
    ensures |lines| == |messages|
    ensures forall i :: 0 <= i < |messages| ==> lines[i] == MessageLine(messages[i], localize)
  {
    if messages == [] then [] else [MessageLine(messages[0], localize)] + MessageLines(messages[1..], localize)
  }

  function PageLines(pages: seq<PageMatch>, localize: string -> string): (lines: seq<string>)
    ensures |lines| == |pages|
    ensures forall i :: 0 <= i < |pages| ==> lines[i] == PageLine(pages[i], localize)
  {
    if pages == [] then [] else [PageLine(pages[0], localize)] + PageLines(pages[1..], localize)
  }

  /** `[...messages.map(...), ...pages.map(...)]`: the message entries, in
      retrieval order, then the page entries, in retrieval order. */
  function ContextLines(messages: seq<MessageMatch>, pages: seq<PageMatch>, localize: string -> string): (lines: seq<string>)
    ensures |lines| == |messages| + |pages|
    ensures forall i :: 0 <= i < |messages| ==> lines[i] == MessageLine(messages[i], localize)
    ensures forall j :: 0 <= j < |pages| ==> lines[|messages| + j] == PageLine(pages[j], localize)
  {
    LinesInOrder(messages, pages, localize);
    MessageLines(messages, localize) + PageLines(pages, localize)
  }

  lemma LinesInOrder(messages: seq<MessageMatch>, pages: seq<PageMatch>, localize: string -> string)
    ensures var lines := MessageLines(messages, localize) + PageLines(pages, localize);
      |lines| == |messages| + |pages|
      && (forall i :: 0 <= i < |messages| ==> lines[i] == MessageLine(messages[i], localize))
      && (forall j :: 0 <= j < |pages| ==> lines[|messages| + j] == PageLine(pages[j], localize))
  {
    var a, b := MessageLines(messages, localize), PageLines(pages, localize);
    forall j | 0 <= j < |pages|
      ensures (a + b)[|messages| + j] == PageLine(pages[j], localize)
    {
      assert (a + b)[|a| + j] == b[j];
    }
  }

  /** The context block: the entries joined with newlines. It is empty exactly
      when nothing was retrieved, and it opens with a message entry when any
      message was retrieved, with a page entry otherwise. */
  function Context(messages: seq<MessageMatch>, pages: seq<PageMatch>, localize: string -> string): (r: string)
    ensures r == [] <==> messages == [] && pages == []
    ensures messages != [] ==> StartsWith(r, MessageTag)
    ensures messages == [] && pages != [] ==> StartsWith(r, PageTag)
  {
    JoinedOpening(messages, pages, localize);
    Join(ContextLines(messages, pages, localize), '\n')
  }

  lemma JoinedOpening(messages: seq<MessageMatch>, pages: seq<PageMatch>, localize: string -> string)
    ensures var r := Join(ContextLines(messages, pages, localize), '\n');
      (r == [] <==> messages == [] && pages == [])
      && (messages != [] ==> StartsWith(r, MessageTag))
      && (messages == [] && pages != [] ==> StartsWith(r, PageTag))
  {
    var lines := ContextLines(messages, pages, localize);
    var r := Join(lines, '\n');
    if messages != [] {
      StartsWithTrans(r, lines[0], MessageTag);
    } else if pages != [] {
      StartsWithTrans(r, lines[0], PageTag);
    }
  }

  const PromptHead: string := "Based on my browsing history, please answer this question: \""
  const PromptMiddle: string := "\"\n\nContext from my history:\n"

  /** The user message sent to the completion service: the query sits right
      after the fixed head and is closed by a double quote, and the context
      is everything after the fixed middle. */
  function UserPrompt(query: string, context: string): (p: string)
    ensures |p| == |PromptHead| + |query| + |PromptMiddle| + |context|
    ensures p[|PromptHead|..|PromptHead| + |query|] == query
    ensures p[..|PromptHead|] == PromptHead
    ensures p[|PromptHead| + |query|] == '"'
    ensures p[|PromptHead| + |query|..|PromptHead| + |query| + |PromptMiddle|] == PromptMiddle
    ensures p[|PromptHead| + |query| + |PromptMiddle|..] == context
  {
    var p := PromptHead + query + (PromptMiddle + context);
    assert p[|PromptHead| + |query|] == PromptMiddle[0];
    p
  }

  /** What `POST /api/rag` sends as the user message for the retrieved matches:
      there is no short-cut for empty results. */
  function RagPrompt(query: string, messages: seq<MessageMatch>, pages: seq<PageMatch>, localize: string -> string): (prompt: string)
    ensures |prompt| >= |PromptHead| + |query| + |PromptMiddle|
    ensures prompt[..|PromptHead| + |query| + |PromptMiddle|] == PromptHead + query + PromptMiddle
    ensures prompt[|PromptHead| + |query| + |PromptMiddle|..] == Context(messages, pages, localize)
  {
    UserPrompt(query, Context(messages, pages, localize))
  }

  /** No message entry comes after a page entry: an entry is a message entry
      exactly when it is among the first `|messages|`. */
  lemma MessagesBeforePages(messages: seq<MessageMatch>, pages: seq<PageMatch>, localize: string -> string)
    ensures var lines := ContextLines(messages, pages, localize);
      forall i :: 0 <= i < |lines| ==> (StartsWith(lines[i], MessageTag) <==> i < |messages|)
    ensures var lines := ContextLines(messages, pages, localize);
      forall i, j :: 0 <= i < j < |lines| && StartsWith(lines[j], MessageTag) ==> StartsWith(lines[i], MessageTag)
  {
    var lines := ContextLines(messages, pages, localize);
    forall i | 0 <= i < |lines|
      ensures StartsWith(lines[i], MessageTag) <==> i < |messages|
    {
      if i >= |messages| {
        assert lines[i] == PageLine(pages[i - |messages|], localize);
      }
    }
  }

  /** Nothing retrieved gives the empty context, and the prompt is still built. */
  lemma EmptyRetrieval(query: string, localize: string -> string)
    ensures Context([], [], localize) == ""
    ensures RagPrompt(query, [], [], localize) == PromptHead + query + PromptMiddle
  {
    assert ContextLines([], [], localize) == [];
  }

  /** A page without a title shows `null` where the title goes. */
  lemma UntitledPageShowsNull(p: PageMatch, localize: string -> string)
    requires p.title.None?
    ensures PageLine(p, localize)
         == PageTag + localize(p.timestamp) + " at " + OrElse(p.url, "unknown") + "]: null\n" + p.content
  {
    var h := localize(p.timestamp) + " at " + OrElse(p.url, "unknown");
    assert Shown(p.title) == "null";
    assert "]: " + "null" + "\n" == "]: null\n";
    assert PageLine(p, localize) == PageTag + (h + "]: " + "null") + ("\n" + p.content);
  }

  lemma OnlyMessages(messages: seq<MessageMatch>, localize: string -> string)
    ensures ContextLines(messages, [], localize) == MessageLines(messages, localize)
  {
    assert PageLines([], localize) == [];
  }

  lemma OnlyPages(pages: seq<PageMatch>, localize: string -> string)
    ensures ContextLines([], pages, localize) == PageLines(pages, localize)
  {
    assert MessageLines([], localize) == [];
  }

  /** The context is the message block, a newline, then the page block. */
  lemma ContextByKind(messages: seq<MessageMatch>, pages: seq<PageMatch>, localize: string -> string)
    requires messages != [] && pages != []
    ensures Context(messages, pages, localize)
         == Context(messages, [], localize) + "\n" + Context([], pages, localize)
  {
    JoinAppend(MessageLines(messages, localize), PageLines(pages, localize), '\n');
    OnlyMessages(messages, localize);
    OnlyPages(pages, localize);
  }

  /** A message whose shown fields hold no newline gives a one-line entry. */
  predicate SingleLine(m: MessageMatch, localize: string -> string) {
    '\n' !in localize(m.timestamp) && '\n' !in OrElse(m.url, "unknown") && '\n' !in m.content
  }

  lemma MessageLineSingle(m: MessageMatch, localize: string -> string)
    requires SingleLine(m, localize)
    ensures '\n' !in MessageLine(m, localize)
  {
    assert '\n' !in MessageTag && '\n' !in " at " && '\n' !in "]: ";
    var head := localize(m.timestamp) + " at " + OrElse(m.url, "unknown") + "]: ";
    assert MessageLine(m, localize) == MessageTag + (head + m.content);
  }

  /** When no message field holds a newline, splitting the message block on
      newlines gives back one line per message, in retrieval order. */
  lemma MessageBlockLines(messages: seq<MessageMatch>, localize: string -> string)
    requires messages != []
    requires forall i :: 0 <= i < |messages| ==> SingleLine(messages[i], localize)
    ensures SplitOn(Context(messages, [], localize), '\n') == MessageLines(messages, localize)
  {
    var lines := MessageLines(messages, localize);
    forall i | 0 <= i < |lines| ensures '\n' !in lines[i] {
      MessageLineSingle(messages[i], localize);
    }
    OnlyMessages(messages, localize);
    SplitJoin(lines, '\n');
  }

  /** A query without a double quote is read back unambiguously from the
      prompt, and so is the context. */
  lemma PromptDeterminesQueryAndContext(q1: string, c1: string, q2: string, c2: string)
    requires '"' !in q1 && '"' !in q2
    requires UserPrompt(q1, c1) == UserPrompt(q2, c2)
    ensures q1 == q2 && c1 == c2
  {
  }
}
