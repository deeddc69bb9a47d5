/**
 The flight chatbot's streaming callback handler. Tokens accumulate in
 `full_text`; nothing is shown until `Final Answer:` has appeared, after which
 the text following the marker is shown and grows with each token. Agent
 actions and tool outputs are collected in `debug_text`. The output container
 is modelled as the log of the strings rendered into it.
 */
module StreamHandler {
  import opened Text

  const Marker: string := "Final Answer:"

  /** The handler's fields, plus the log of what was rendered into the container. */
  datatype Handler = Handler(fullText: string, displayText: string, started: bool,
                             debugText: string, rendered: seq<string>)

  const Fresh: Handler := Handler("", "", false, "", [])

  /** `on_llm_new_token`. */
  function OnToken(h: Handler, token: string): Handler {
    var full := h.fullText + token;
    var found := Find(full, Marker);
    var started := h.started || found.Some?;
    var display :=
      if h.started then h.displayText + token
      else if found.Some? then full[found.value + |Marker|..]
      else h.displayText;
    Handler(full, display, started, h.debugText,
            if started then h.rendered + [display] else h.rendered)
  }

  /** `on_llm_end`: the display is flushed again once the answer has started. */
  function OnLlmEnd(h: Handler): Handler {
    if h.started then h.(rendered := h.rendered + [h.displayText]) else h
  }

  function ActionEntry(tool: string, toolInput: string): string {
    "**Agent Action:** " + tool + "\n**Input:** " + toolInput + "\n" + "\n\n---\n\n"
  }

  function ToolEntry(output: string): string {
    "**Tool Output:** " + output + "\n\n---\n\n"
  }

  /** `on_agent_action`. */
  function OnAgentAction(h: Handler, tool: string, toolInput: string): Handler {
    h.(debugText := h.debugText + ActionEntry(tool, toolInput))
  }

  /** `on_tool_end`. */
  function OnToolEnd(h: Handler, output: string): Handler {
    h.(debugText := h.debugText + ToolEntry(output))
  }

  /** The callbacks the agent makes, in the order it makes them. */
  datatype Event = Token(text: string) | LlmEnd | AgentAction(tool: string, toolInput: string) | ToolEnd(output: string)

  function Apply(h: Handler, e: Event): Handler {
    match e
    case Token(t) => OnToken(h, t)
    case LlmEnd => OnLlmEnd(h)
    case AgentAction(tool, input) => OnAgentAction(h, tool, input)
    case ToolEnd(output) => OnToolEnd(h, output)
  }

  /** The handler after the events, one after the other. */
  function Run(h: Handler, events: seq<Event>): Handler
    decreases |events|
  {
    if events == [] then h else Run(Apply(h, events[0]), events[1..])
  }

  // Reference definitions, stated over the event list alone.

  /** The text an event adds to `full_text`. */
  function TokenOf(e: Event): string {
    if e.Token? then e.text else ""
  }

  /** The text an event adds to `debug_text`. */
  function EntryOf(e: Event): string {
    match e
    case AgentAction(tool, input) => ActionEntry(tool, input)
    case ToolEnd(output) => ToolEntry(output)
    case _ => ""
  }

  /** All tokens received, concatenated. */
  function Tokens(events: seq<Event>): string {
    if events == [] then "" else TokenOf(events[0]) + Tokens(events[1..])
  }

  /** The debug entries of the agent actions and tool outputs, in arrival order. */
  function Debug(events: seq<Event>): string {
    if events == [] then "" else EntryOf(events[0]) + Debug(events[1..])
  }

  /** What follows the first occurrence of the marker. */
  function AfterMarker(s: string): string
    requires Contains(s, Marker)
  {
    s[Find(s, Marker).value + |Marker|..]
  }

  /** The handler's invariant: the answer has started exactly when the marker is in
      the text received; the display is then what follows the marker's first
      occurrence and is empty (with nothing rendered) before; once started, the
      container last rendered the current display; every rendered string is a
      prefix of the current display. */
  predicate Inv(h: Handler) {
    && (h.started <==> Contains(h.fullText, Marker))
    && (h.started ==> h.displayText == AfterMarker(h.fullText))
    && (!h.started ==> h.displayText == "" && h.rendered == [])
    && (h.started ==> h.rendered != [] && h.rendered[|h.rendered| - 1] == h.displayText)
    && (forall k :: 0 <= k < |h.rendered| ==> StartsWith(h.displayText, h.rendered[k]))
  }

  /** A token keeps the invariant, and once the answer has started it renders the
      display it leaves. */
  lemma OnTokenInv(h: Handler, token: string)
    requires Inv(h)
    ensures Inv(OnToken(h, token))
    ensures OnToken(h, token).started ==>
      OnToken(h, token).rendered == h.rendered + [OnToken(h, token).displayText]
  {
    if h.started {
      OnTokenStarted(h, token);
    }
  }

  /** After the start a token extends the display, which still follows the marker's
      first occurrence, so every earlier rendering stays a prefix of it. */
  lemma OnTokenStarted(h: Handler, token: string)
    requires Inv(h) && h.started
    ensures Inv(OnToken(h, token))
  {
    var h' := OnToken(h, token);
    var full := h.fullText + token;
    FindAppend(h.fullText, token, Marker);
    var i := Find(h.fullText, Marker).value;
    assert full[i + |Marker|..] == h.fullText[i + |Marker|..] + token;
    forall k | 0 <= k < |h'.rendered|
      ensures StartsWith(h'.displayText, h'.rendered[k])
    {
      if k < |h.rendered| {
        assert h'.displayText[..|h.rendered[k]|] == h.displayText[..|h.rendered[k]|];
      }
    }
  }

  /** The end of a generation renders the display again once the answer has
      started, and renders nothing before. */
  lemma OnLlmEndRenders(h: Handler)
    requires Inv(h)
    ensures Inv(OnLlmEnd(h))
    ensures h.started ==> OnLlmEnd(h).rendered == h.rendered + [h.displayText]
    ensures !h.started ==> OnLlmEnd(h) == h
  {
  }

  lemma ApplyInv(h: Handler, e: Event)
    requires Inv(h)
    ensures Inv(Apply(h, e))
  {
    match e
    case Token(t) => OnTokenInv(h, t);
    case LlmEnd => OnLlmEndRenders(h);
    case AgentAction(tool, input) =>
    case ToolEnd(output) =>
  }

  /** Running events from a state keeps the invariant. */
  lemma {:induction false} RunInv(h: Handler, events: seq<Event>)
    requires Inv(h)
    ensures Inv(Run(h, events))
    decreases |events|
  {
    if events != [] {
      ApplyInv(h, events[0]);
      RunInv(Apply(h, events[0]), events[1..]);
    }
  }

  lemma ApplyTexts(h: Handler, e: Event)
    ensures Apply(h, e).fullText == h.fullText + TokenOf(e)
    ensures Apply(h, e).debugText == h.debugText + EntryOf(e)
  {
    match e
    case Token(t) =>
    case LlmEnd =>
      assert h.fullText + "" == h.fullText;
      assert h.debugText + "" == h.debugText;
    case AgentAction(tool, input) =>
      assert h.fullText + "" == h.fullText;
    case ToolEnd(output) =>
      assert h.fullText + "" == h.fullText;
  }

  /** Running events appends the tokens to the full text. */
  lemma {:induction false} RunFullText(h: Handler, events: seq<Event>)
    ensures Run(h, events).fullText == h.fullText + Tokens(events)
    decreases |events|
  {
    if events == [] {
      assert h.fullText + "" == h.fullText;
    } else {
      var h' := Apply(h, events[0]);
      RunFullText(h', events[1..]);
      ApplyTexts(h, events[0]);
      AppendAssociative(h.fullText, TokenOf(events[0]), Tokens(events[1..]));
    }
  }

  /** Running events appends the agent-action and tool-output entries to the
      debug text. */
  lemma {:induction false} RunDebugText(h: Handler, events: seq<Event>)
    ensures Run(h, events).debugText == h.debugText + Debug(events)
    decreases |events|
  {
    if events == [] {
      assert h.debugText + "" == h.debugText;
    } else {
      var h' := Apply(h, events[0]);
      RunDebugText(h', events[1..]);
      ApplyTexts(h, events[0]);
      AppendAssociative(h.debugText, EntryOf(events[0]), Debug(events[1..]));
    }
  }

  /** From a fresh handler: the full text is every token so far; the answer has
      started exactly when the marker occurs in it, even split across tokens, and
      the display is then what follows its first occurrence and the container last
      rendered it; before that nothing is displayed or rendered; the debug text is the entries in arrival order. */
  lemma ReplaySpec(events: seq<Event>)
    ensures var r := Run(Fresh, events);
      && r.fullText == Tokens(events)
      && r.debugText == Debug(events)
      && (r.started <==> Contains(Tokens(events), Marker))
      && (r.started ==> r.displayText == AfterMarker(Tokens(events)))
      && (!r.started ==> r.displayText == "" && r.rendered == [])
      && (r.started ==> r.rendered != [] && r.rendered[|r.rendered| - 1] == r.displayText)
      && (forall k :: 0 <= k < |r.rendered| ==> StartsWith(r.displayText, r.rendered[k]))
  {
    assert Find("", Marker).None?;
    RunInv(Fresh, events);
    RunFullText(Fresh, events);
    RunDebugText(Fresh, events);
  }

  /** Later events only add to the full and debug texts, and never unset `started`. */
  lemma {:induction false} RunKeepsStarted(h: Handler, events: seq<Event>)
    requires Inv(h) && h.started
    ensures Run(h, events).started
    decreases |events|
  {
    if events != [] {
      var h' := Apply(h, events[0]);
      ApplyInv(h, events[0]);
      RunKeepsStarted(h', events[1..]);
    }
  }

  lemma {:induction false} RunGrows(h: Handler, events: seq<Event>)
    ensures StartsWith(Run(h, events).fullText, h.fullText)
    ensures StartsWith(Run(h, events).debugText, h.debugText)
    ensures |Run(h, events).rendered| >= |h.rendered|
    ensures Run(h, events).rendered[..|h.rendered|] == h.rendered
    decreases |events|
  {
    if events != [] {
      var h' := Apply(h, events[0]);
      RunGrows(h', events[1..]);
      assert h'.rendered[..|h.rendered|] == h.rendered;
      var r := Run(h', events[1..]).rendered;
      assert r[..|h.rendered|] == r[..|h'.rendered|][..|h.rendered|];
      assert StartsWith(h'.fullText, h.fullText);
      assert StartsWith(h'.debugText, h.debugText);
    }
  }

  /** The marker split over two tokens still starts the answer, and the display
      holds just what follows it. */
  lemma SplitMarkerExample()
    ensures var r := Run(Fresh, [Token("Final Ans"), Token("wer: 42")]);
      r.started && r.displayText == " 42" && r.rendered == [" 42"]
  {
    var h1 := OnToken(Fresh, "Final Ans");
    assert "" + "Final Ans" == "Final Ans";
    assert Find("Final Ans", Marker).None?;
    assert h1 == Handler("Final Ans", "", false, "", []);
    var full := "Final Ans" + "wer: 42";
    assert full == "Final Answer: 42";
    assert OccursAt(full, Marker, 0);
    var h2 := OnToken(h1, "wer: 42");
    assert h2.displayText == full[13..] == " 42";
    assert [Token("Final Ans"), Token("wer: 42")][1..] == [Token("wer: 42")];
  }
}
