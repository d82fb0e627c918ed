/**
 The response flattener of the `/ask` handler (`ask_question`): it drains
 the agent's step stream, turns each step's latest message into either a
 tool announcement or a content fragment, removes repeated content, and
 joins tool announcements first, then content, with blank lines between
 them. The agent runtime itself is not modelled: its output is the input
 sequence of steps.
 */
module Flattener {
  import opened Strings
  import opened Unique

  /** A message whose rendering contains this text is treated as a tool call. */
  const ToolCallMarker: string := "<tool_call>"

  /** Fragments are separated by one blank line. */
  const Separator: string := "\n\n"

  /** Start of every tool announcement: the hammer-and-wrench emoji (U+1F6E0 U+FE0F) and a tag. */
  const AnnouncementPrefix: string := "\U{1F6E0}\U{FE0F} <tool-call> "

  datatype Option<+T> = None | Some(value: T)

  /** One requested tool invocation; `args` is the rendering of its argument dictionary. */
  datatype ToolCall = ToolCall(name: string, args: string)

  /**
   The latest message of a step. An `Exchange` is a bare `(role, content)`
   tuple; a `Chat` is a message object, with `rendered` its `str()` text,
   its `content`, and the tool calls it requests. Only AI messages have a
   `tool_calls` attribute; for the other message classes (the user's own
   message, tool results, system messages) `toolCalls` is `None`.
   */
  datatype Message =
    | Exchange(role: string, content: string)
    | Chat(rendered: string, content: string, toolCalls: Option<seq<ToolCall>>)

  /** One state snapshot of the agent stream: its message history. */
  datatype Step = Step(messages: seq<Message>)

  /** The Python exceptions the handler can raise on malformed steps. */
  datatype Fault =
    | NoMessages     // `step["messages"][-1]` on an empty history: IndexError
    | TupleToolCall  // `message.tool_calls` on a tuple: AttributeError
    | NoToolCallsAttribute  // `message.tool_calls` on a message class without it: AttributeError
    | NoToolCalls    // `message.tool_calls[0]` on an empty list: IndexError

  datatype Outcome<+T> = Ok(value: T) | Raised(fault: Fault)

  /** What one step adds to the response, or the exception it raises. */
  datatype Contribution = Announcement(text: string) | Content(text: string) | Crash(fault: Fault)

  /** The two accumulators: `tool_responses` and `collected_responses`. */
  datatype Fragments = Fragments(tools: seq<string>, contents: seq<string>)

  /**
   `"<tool_call>" in str(message)`. For a `(role, content)` tuple the test is
   on the role and the content themselves. `str()` of the tuple shows each
   string through `repr` and glues the two with parentheses and `", "`.
   `repr` puts a string in single or double quotes and may insert escapes,
   each starting with a backslash. The marker holds no backslash and no
   quote of either kind, so an escape never changes an occurrence and no
   occurrence can straddle a quote (`TupleMarkerIffParts` proves the
   single-quote case).
   */
  predicate MentionsToolCall(m: Message)
    ensures m.Exchange? ==>
              (MentionsToolCall(m) <==> Contains(TupleRendering(m.role, m.content), ToolCallMarker))
  {
    match m
    case Exchange(role, content) =>
      TupleMarkerIffParts(role, content);
      Contains(role, ToolCallMarker) || Contains(content, ToolCallMarker)
    case Chat(rendered, _, _) => Contains(rendered, ToolCallMarker)
  }

  /**
   Python's `repr` of a string holding no single quote, no backslash and no
   unprintable character: the string in single quotes. Strings that `repr`
   puts in double quotes or escapes are not covered by this rendering.
   */
  function Quoted(s: string): string {
    "'" + s + "'"
  }

  /** `str((role, content))` when both strings render as by `Quoted`. */
  function TupleRendering(role: string, content: string): string {
    "(" + Quoted(role) + ", " + Quoted(content) + ")"
  }

  /**
   The marker occurs in a tuple's rendering exactly when it occurs in the
   role or in the content: the quotes around each string are not marker
   characters, so no occurrence can straddle the glue.
   */
  lemma TupleMarkerIffParts(role: string, content: string)
    ensures Contains(TupleRendering(role, content), ToolCallMarker)
        <==> Contains(role, ToolCallMarker) || Contains(content, ToolCallMarker)
  {
    var q := '\'';
    var m := ToolCallMarker;
    assert q !in m;
    var x3 := content + [q] + ")";
    var x2 := ", " + [q] + x3;
    var x1 := role + [q] + x2;
    assert TupleRendering(role, content) == "(" + [q] + x1;
    ContainsAroundChar("(", q, x1, m);
    ContainsAroundChar(role, q, x2, m);
    ContainsAroundChar(", ", q, x3, m);
    ContainsAroundChar(content, q, ")", m);
  }

  /**
   The announcement line for one tool call: the prefix, then the tool's
   name, then its arguments at the very end. It starts with the emoji,
   which is not whitespace, so stripping never eats into it from the front.
   */
  function Announce(call: ToolCall): (r: string)
    ensures AnnouncementPrefix <= r && !IsSpace(r[0])
    ensures OccursAt(r, call.name, |AnnouncementPrefix|)
    ensures OccursAt(r, call.args, |r| - |call.args|)
  {
    AnnouncementPrefix + call.name + " called with arguments " + call.args
  }

  /** The latest message of a step with a non-empty history. */
  function Latest(step: Step): Message
    requires |step.messages| > 0
  {
    step.messages[|step.messages| - 1]
  }

  /**
   One iteration of the loop: take the latest message; the marker test
   comes first, then the tuple test, then the plain-message case. Content
   is contributed exactly when the latest message exists and does not
   mention a tool call; an announcement is always one of the latest
   message's tool calls.
   */
  function Classify(step: Step): (c: Contribution)
    ensures c == Crash(NoMessages) <==> |step.messages| == 0
    ensures c.Content? <==> |step.messages| > 0 && !MentionsToolCall(Latest(step))
    ensures c.Content? ==> c.text == Latest(step).content
    ensures c.Announcement? ==>
              && Latest(step).Chat? && Latest(step).toolCalls.Some?
              && exists call :: call in Latest(step).toolCalls.value && c.text == Announce(call)
  {
    if |step.messages| == 0 then Crash(NoMessages)
    else
      var m := step.messages[|step.messages| - 1];
      if MentionsToolCall(m) then
        match m
        case Exchange(_, _) => Crash(TupleToolCall)
        case Chat(_, _, None) => Crash(NoToolCallsAttribute)
        case Chat(_, _, Some(calls)) =>
          if |calls| == 0 then Crash(NoToolCalls) else Announcement(Announce(calls[0]))
      else
        Content(m.content)
  }

  /** The two accumulators after draining `steps`, or the first exception raised. */
  function Collect(steps: seq<Step>): (o: Outcome<Fragments>)
    ensures o.Ok? ==> |o.value.tools| + |o.value.contents| == |steps|
  {
    if |steps| == 0 then Ok(Fragments([], []))
    else
      match Collect(steps[..|steps| - 1])
      case Raised(f) => Raised(f)
      case Ok(acc) =>
        match Classify(steps[|steps| - 1])
        case Crash(f) => Raised(f)
        case Announcement(a) => Ok(Fragments(acc.tools + [a], acc.contents))
        case Content(c) => Ok(Fragments(acc.tools, acc.contents + [c]))
  }

  /** The response `ask_question` returns for the step stream `steps`. */
  function Flatten(steps: seq<Step>): (o: Outcome<string>)
    ensures |steps| == 0 ==> o == Ok("")
    ensures o.Ok? ==> IsTrimmed(o.value)
  {
    match Collect(steps)
    case Raised(f) => Raised(f)
    case Ok(fr) => Ok(Strip(JoinWith(Separator, fr.tools + Dedup(fr.contents))))
  }

  /**
   The handler's loop as written: two accumulators, one pass over the
   stream, an exception ends the request, then de-duplication, join and
   strip.
   */
  method AskQuestion(steps: seq<Step>) returns (o: Outcome<string>)
    ensures o == Flatten(steps)
  {
    var toolResponses: seq<string> := [];
    var collected: seq<string> := [];
    var i := 0;
    while i < |steps|
      invariant 0 <= i <= |steps|
      invariant Collect(steps[..i]) == Ok(Fragments(toolResponses, collected))
    {
      assert steps[..i + 1][..i] == steps[..i];
      match Classify(steps[i]) {
        case Crash(f) =>
          CollectAppend(steps[..i + 1], steps[i + 1..]);
          assert steps[..i + 1] + steps[i + 1..] == steps;
          return Raised(f);
        case Announcement(a) =>
          toolResponses := toolResponses + [a];
        case Content(c) =>
          collected := collected + [c];
      }
      i := i + 1;
    }
    assert steps[..i] == steps;
    collected := FromKeys(collected);
    o := Ok(Strip(JoinWith(Separator, toolResponses + collected)));
  }

  // ---------------------------------------------------------------------
  // Reference definitions: each category filtered from the stream
  // ---------------------------------------------------------------------

  /** The announcements of the announcing steps, in stream order. */
  function ToolsOf(steps: seq<Step>): seq<string> {
    if |steps| == 0 then []
    else
      (match Classify(steps[0]) case Announcement(a) => [a] case _ => []) + ToolsOf(steps[1..])
  }

  /** The content of the content steps, in stream order, repeats included. */
  function ContentsOf(steps: seq<Step>): seq<string> {
    if |steps| == 0 then []
    else
      (match Classify(steps[0]) case Content(c) => [c] case _ => []) + ContentsOf(steps[1..])
  }

  /** Step `i` is the first one that raises. */
  ghost predicate EarliestCrash(steps: seq<Step>, i: int) {
    && 0 <= i < |steps|
    && Classify(steps[i]).Crash?
    && forall k :: 0 <= k < i ==> !Classify(steps[k]).Crash?
  }

  lemma {:induction false} FiltersAppend(a: seq<Step>, b: seq<Step>)
    ensures ToolsOf(a + b) == ToolsOf(a) + ToolsOf(b)
    ensures ContentsOf(a + b) == ContentsOf(a) + ContentsOf(b)
    decreases |a|
  {
    if |a| > 0 {
      assert (a + b)[0] == a[0];
      assert (a + b)[1..] == a[1..] + b;
      FiltersAppend(a[1..], b);
    } else {
      assert a + b == b;
    }
  }

  /**
   Draining a concatenated stream: the first exception wins; otherwise
   each accumulator is the first part's followed by the second part's, so
   fragments keep their stream order within each category.
   */
  lemma {:induction false} CollectAppend(a: seq<Step>, b: seq<Step>)
    ensures Collect(a + b) ==
      match Collect(a)
      case Raised(f) => Raised(f)
      case Ok(fa) =>
        match Collect(b)
        case Raised(g) => Raised(g)
        case Ok(fb) => Ok(Fragments(fa.tools + fb.tools, fa.contents + fb.contents))
    decreases |b|
  {
    if |b| == 0 {
      assert a + b == a;
      if Collect(a).Ok? {
        var fa := Collect(a).value;
        assert fa.tools + [] == fa.tools && fa.contents + [] == fa.contents;
      }
    } else {
      var b' := b[..|b| - 1];
      var last := b[|b| - 1];
      assert (a + b)[..|a + b| - 1] == a + b';
      assert (a + b)[|a + b| - 1] == last;
      CollectAppend(a, b');
      match Collect(a) {
        case Raised(f) =>
        case Ok(fa) =>
          match Collect(b') {
            case Raised(g) =>
            case Ok(fb) =>
              match Classify(last) {
                case Crash(h) =>
                case Announcement(x) =>
                  assert fa.tools + (fb.tools + [x]) == (fa.tools + fb.tools) + [x];
                case Content(x) =>
                  assert fa.contents + (fb.contents + [x]) == (fa.contents + fb.contents) + [x];
              }
          }
      }
    }
  }

  /**
   Without an exception, the accumulators are exactly the two filtered
   categories; every step lands in exactly one of them.
   */
  lemma {:induction false} CollectIsFilters(steps: seq<Step>)
    requires forall i :: 0 <= i < |steps| ==> !Classify(steps[i]).Crash?
    ensures Collect(steps) == Ok(Fragments(ToolsOf(steps), ContentsOf(steps)))
    decreases |steps|
  {
    if |steps| > 0 {
      var init := steps[..|steps| - 1];
      var last := steps[|steps| - 1];
      assert steps == init + [last];
      assert forall i :: 0 <= i < |init| ==> init[i] == steps[i];
      CollectIsFilters(init);
      FiltersAppend(init, [last]);
      assert [last][1..] == [];
      assert ToolsOf([last][1..]) == [] && ContentsOf([last][1..]) == [];
      match Classify(last) {
        case Announcement(x) =>
          assert ToolsOf([last]) == [x] && ContentsOf([last]) == [];
          assert ContentsOf(init) + [] == ContentsOf(init);
        case Content(x) =>
          assert ToolsOf([last]) == [] && ContentsOf([last]) == [x];
          assert ToolsOf(init) + [] == ToolsOf(init);
      }
    }
  }

  /** The request fails exactly when some step raises, and then with the first step's exception. */
  lemma {:induction false} CollectRaisesEarliest(steps: seq<Step>)
    ensures Collect(steps).Raised? <==> exists i :: 0 <= i < |steps| && Classify(steps[i]).Crash?
    ensures Collect(steps).Raised? ==>
              exists i :: EarliestCrash(steps, i) && Collect(steps).fault == Classify(steps[i]).fault
    decreases |steps|
  {
    if |steps| > 0 {
      var init := steps[..|steps| - 1];
      var n := |steps| - 1;
      CollectRaisesEarliest(init);
      assert forall k :: 0 <= k < n ==> init[k] == steps[k];
      if Collect(init).Raised? {
        var i :| EarliestCrash(init, i) && Collect(init).fault == Classify(init[i]).fault;
        assert EarliestCrash(steps, i);
      } else if Classify(steps[n]).Crash? {
        assert EarliestCrash(steps, n);
      } else {
        forall k | 0 <= k < |steps|
          ensures !Classify(steps[k]).Crash?
        {
          if k < n {
            assert init[k] == steps[k];
          }
        }
      }
    }
  }

  /**
   The request ends in an exception exactly when some step's latest message
   cannot be handled, and the exception is the one of the first such step.
   */
  lemma FlattenFailsOnFirstBadStep(steps: seq<Step>)
    ensures Flatten(steps).Raised? <==> exists i :: 0 <= i < |steps| && Classify(steps[i]).Crash?
    ensures Flatten(steps).Raised? ==>
              exists i :: EarliestCrash(steps, i) && Flatten(steps).fault == Classify(steps[i]).fault
  {
    CollectRaisesEarliest(steps);
  }

  /** The separator is whitespace, so `strip()` may remove it at either end. */
  lemma SeparatorIsSpace()
    ensures AllSpace(Separator)
  {
  }

  /**
   The response in terms of the reference filters: announcements of the
   announcing steps, then the de-duplicated content, joined and stripped.
   */
  lemma FlattenIsJoinOfFilters(steps: seq<Step>)
    requires forall i :: 0 <= i < |steps| ==> !Classify(steps[i]).Crash?
    ensures Flatten(steps) ==
              Ok(Strip(JoinWith(Separator, ToolsOf(steps) + Dedup(ContentsOf(steps)))))
  {
    CollectIsFilters(steps);
  }

  /**
   Every tool announcement precedes every content fragment: the text before
   stripping is the joined announcements, one separator, then the joined
   de-duplicated content, however the steps were interleaved.
   */
  lemma ToolsBeforeContent(steps: seq<Step>)
    requires forall i :: 0 <= i < |steps| ==> !Classify(steps[i]).Crash?
    ensures Flatten(steps) ==
              Ok(Strip(JoinWith(Separator, ToolsOf(steps)) + Separator
                       + JoinWith(Separator, Dedup(ContentsOf(steps)))))
  {
    var t := ToolsOf(steps);
    var d := Dedup(ContentsOf(steps));
    FlattenIsJoinOfFilters(steps);
    SeparatorIsSpace();
    StripJoinSplit(Separator, t, d);
  }

  /**
   When no step's latest message mentions a tool call, there are no
   announcements and every step contributes its latest message's content.
   */
  lemma {:induction false} NoToolStepsAllContent(steps: seq<Step>)
    requires forall i :: 0 <= i < |steps| ==> |steps[i].messages| > 0
    requires forall i :: 0 <= i < |steps| ==> !MentionsToolCall(Latest(steps[i]))
    ensures ToolsOf(steps) == []
    ensures |ContentsOf(steps)| == |steps|
    ensures forall i :: 0 <= i < |steps| ==> ContentsOf(steps)[i] == Latest(steps[i]).content
    decreases |steps|
  {
    if |steps| > 0 {
      var rest := steps[1..];
      assert forall i :: 0 <= i < |rest| ==> rest[i] == steps[i + 1];
      NoToolStepsAllContent(rest);
      assert Classify(steps[0]) == Content(Latest(steps[0]).content);
    }
  }

  /**
   A query that triggers no tool call gets back the stripped blank-line
   join of the de-duplicated content fragments.
   */
  lemma FlattenWithoutTools(steps: seq<Step>)
    requires forall i :: 0 <= i < |steps| ==> |steps[i].messages| > 0
    requires forall i :: 0 <= i < |steps| ==> !MentionsToolCall(Latest(steps[i]))
    ensures Flatten(steps) == Ok(Strip(JoinWith(Separator, Dedup(ContentsOf(steps)))))
  {
    NoToolStepsAllContent(steps);
    assert forall i :: 0 <= i < |steps| ==> Classify(steps[i]) == Content(Latest(steps[i]).content);
    FlattenIsJoinOfFilters(steps);
    assert [] + Dedup(ContentsOf(steps)) == Dedup(ContentsOf(steps));
  }

  /**
   The marker test runs before the tuple and plain tests: a latest message
   that mentions a tool call never contributes content, even when it is a
   tuple or carries no tool call (then the step raises).
   */
  lemma MarkerTestedFirst(step: Step)
    requires |step.messages| > 0
    ensures MentionsToolCall(Latest(step)) ==> !Classify(step).Content?
    ensures MentionsToolCall(Latest(step)) && Latest(step).Exchange? ==>
              Classify(step) == Crash(TupleToolCall)
    ensures MentionsToolCall(Latest(step)) && Latest(step).Chat? && Latest(step).toolCalls.None? ==>
              Classify(step) == Crash(NoToolCallsAttribute)
    ensures MentionsToolCall(Latest(step)) && Latest(step).Chat? && Latest(step).toolCalls == Some([]) ==>
              Classify(step) == Crash(NoToolCalls)
    ensures MentionsToolCall(Latest(step)) && Latest(step).Chat? && Latest(step).toolCalls.Some?
            && |Latest(step).toolCalls.value| > 0 ==>
              Classify(step) == Announcement(Announce(Latest(step).toolCalls.value[0]))
    ensures !MentionsToolCall(Latest(step)) ==> Classify(step) == Content(Latest(step).content)
  {
  }

  /** Only the latest message of a step matters; the earlier history is ignored. */
  lemma OnlyLatestMessageCounts(history: seq<Message>, m: Message)
    ensures Classify(Step(history + [m])) == Classify(Step([m]))
  {
  }

  /**
   An announcement names only the first tool call of its message: any
   further calls the message carries make no difference.
   */
  lemma AnnouncesFirstCallOnly(rendered: string, content: string, first: ToolCall,
                               more: seq<ToolCall>)
    requires Contains(rendered, ToolCallMarker)
    ensures Classify(Step([Chat(rendered, content, Some([first] + more))]))
         == Announcement(AnnouncementPrefix + first.name + " called with arguments " + first.args)
  {
  }

  /** Draining a single step. */
  lemma CollectOne(step: Step)
    ensures Collect([step]) ==
      match Classify(step)
      case Crash(f) => Raised(f)
      case Announcement(a) => Ok(Fragments([a], []))
      case Content(c) => Ok(Fragments([], [c]))
  {
    assert [step][..0] == [];
    assert Collect([step][..0]) == Ok(Fragments([], []));
    assert [step][0] == step;
    match Classify(step) {
      case Crash(f) =>
      case Announcement(a) =>
        assert [] + [a] == [a];
      case Content(c) =>
        assert [] + [c] == [c];
    }
  }

  /** A tool step seen twice is announced twice: announcements are not de-duplicated. */
  lemma RepeatedToolCallAnnouncedTwice(tool: Step)
    requires Classify(tool).Announcement?
    ensures Flatten([tool, tool]) ==
              Ok(Strip(Classify(tool).text + Separator + Classify(tool).text))
  {
    var a := Classify(tool).text;
    CollectOne(tool);
    CollectAppend([tool], [tool]);
    assert [tool] + [tool] == [tool, tool];
    assert [a] + [a] == [a, a];
    assert Collect([tool, tool]) == Ok(Fragments([a, a], []));
    assert Dedup([]) == [];
    assert [a, a] + [] == [a, a];
    assert [a, a][1..] == [a];
    assert JoinWith(Separator, [a, a]) == a + Separator + a;
  }

  /** A content step seen twice contributes its content once. */
  lemma RepeatedContentKeptOnce(text: Step)
    requires Classify(text).Content?
    ensures Flatten([text, text]) == Ok(Strip(Classify(text).text))
  {
    var c := Classify(text).text;
    CollectOne(text);
    CollectAppend([text], [text]);
    assert [text] + [text] == [text, text];
    assert [c] + [c] == [c, c];
    assert Collect([text, text]) == Ok(Fragments([], [c, c]));
    assert [c][..0] == [];
    assert [c, c][..1] == [c];
    assert Dedup([c, c]) == [c];
    assert [] + [c] == [c];
  }
}
