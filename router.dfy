/** What the handlers compute, as values: the per-user mode store and how each
    inbound event changes it, `build_instructions`, the choice of the answer in
    `handle_text`, and the replies each event produces. */
module Router {

  import opened Wrappers
  import opened Personas
  import opened Chunker
  import opened Trim

  /** `user_modes`: Telegram user id to mode tag. */
  type ModeStore = map<int, string>

  /** Every stored tag is a key of `MODES`, so looking its hint up succeeds. */
  ghost predicate ModesValid(store: ModeStore)
  {
    forall u :: u in store ==> IsMode(store[u])
  }

  /** `user_modes.get(user_id, "analyze")`. */
  function ModeOf(store: ModeStore, user: int): (mode: string)
    ensures ModesValid(store) ==> IsMode(mode)
    ensures user !in store ==> mode == Analyze
  {
    if user in store then store[user] else Analyze
  }

  /** `build_instructions`, with the store passed in. */
  function BuildInstructions(store: ModeStore, user: int): (r: string)
    requires ModesValid(store)
    ensures HintOf(r) == Some(Modes[ModeOf(store, user)])
    ensures user !in store ==> HintOf(r) == Some(Modes[Analyze])
  {
    Instructions(ModeOf(store, user))
  }

  /** The outcome of the one request to the completion endpoint: its output
      text (possibly empty), or the failure it raised, rendered as text. */
  datatype Completion = Output(text: string) | Failed(error: string)

  const NoAnswerText: string := "Нет текста ответа."
  const ErrorPrefix: string := "Упс, ошибка запроса: "

  /** The answer `handle_text` sends: the output text, a fixed fallback when it
      is empty, or the error message when the request failed. */
  function ChooseAnswer(c: Completion): (answer: string)
    ensures answer != []
  {
    match c
    case Output(t) => if t == [] then NoAnswerText else t
    case Failed(e) => ErrorPrefix + e
  }

  /** The output text is passed through exactly when it is non-empty; a
      failure is never mistaken for the empty-answer fallback, and the failure
      detail can be read back from behind the error prefix. */
  lemma AnswerCases(c: Completion)
    ensures c.Output? ==> (ChooseAnswer(c) == c.text <==> c.text != [])
    ensures c.Output? && c.text == [] ==> ChooseAnswer(c) == NoAnswerText
    ensures c.Failed? ==>
      && ChooseAnswer(c) != NoAnswerText
      && |ChooseAnswer(c)| == |ErrorPrefix| + |c.error|
      && ChooseAnswer(c)[..|ErrorPrefix|] == ErrorPrefix
      && ChooseAnswer(c)[|ErrorPrefix|..] == c.error
  {
  }

  /** The replies of `handle_text` for a message whose text is `text`, given
      the instructions for its sender and the completion endpoint, which is
      called with the instructions and the stripped text. */
  function TextReplies(text: Option<string>, instructions: string,
                       complete: (string, string) -> Completion): (replies: seq<string>)
    ensures replies == [] <==> text.None? || text.value == []
  {
    if text.None? || text.value == [] then []
    else SplitMessage(ChooseAnswer(complete(instructions, Strip(text.value))), ChunkSize)
  }

  /** The replies to a message with text spell the chosen answer in order,
      and each fits the limit. */
  lemma TextRepliesSpec(text: Option<string>, instructions: string,
                        complete: (string, string) -> Completion)
    ensures text.Some? && text.value != [] ==>
      var replies := TextReplies(text, instructions, complete);
      && Concat(replies) == ChooseAnswer(complete(instructions, Strip(text.value)))
      && forall k :: 0 <= k < |replies| ==> 0 < |replies[k]| <= ChunkSize
  {
    if text.Some? && text.value != [] {
      var answer := ChooseAnswer(complete(instructions, Strip(text.value)));
      SplitConcat(answer, ChunkSize);
      ChunkLengths(answer, ChunkSize);
    }
  }

  /** An inbound update: one of the five commands, or a plain message whose
      text may be missing. */
  datatype Event =
    | StartCommand(user: int)
    | HelpCommand(user: int)
    | AnalyzeCommand(user: int)
    | ReviewCommand(user: int)
    | FaqCommand(user: int)
    | TextMessage(user: int, text: Option<string>)

  /** The mode an event writes for its sender, if it writes one. */
  function SelectedMode(e: Event): (m: Option<string>)
    ensures m.Some? ==> IsMode(m.value)
    ensures m.Some? <==> !e.HelpCommand? && !e.TextMessage?
  {
    match e
    case StartCommand(_) => Some(Analyze)
    case AnalyzeCommand(_) => Some(Analyze)
    case ReviewCommand(_) => Some(Review)
    case FaqCommand(_) => Some(Faq)
    case _ => None
  }

  /** The mode store after one event: it stays valid, and only the sender's
      entry can be new. */
  function NextModes(store: ModeStore, e: Event): (next: ModeStore)
    ensures ModesValid(store) ==> ModesValid(next)
    ensures next.Keys <= store.Keys + {e.user}
  {
    match SelectedMode(e)
    case Some(m) => store[e.user := m]
    case None => store
  }

  /** One event gives its sender the mode it selects (if any) and leaves every
      other user's entry alone. */
  lemma NextModesSpec(store: ModeStore, e: Event, u: int)
    ensures u != e.user ==>
      && (u in NextModes(store, e) <==> u in store)
      && ModeOf(NextModes(store, e), u) == ModeOf(store, u)
    ensures SelectedMode(e).Some? ==> ModeOf(NextModes(store, e), e.user) == SelectedMode(e).value
    ensures SelectedMode(e).None? ==> NextModes(store, e) == store
  {
  }

  /** What the bot sends in answer to one event: every command gets exactly
      one reply; a plain message gets none exactly when it has no text. */
  function Replies(store: ModeStore, e: Event, complete: (string, string) -> Completion)
    : (r: seq<string>)
    requires ModesValid(store)
    ensures !e.TextMessage? ==> |r| == 1
    ensures e.TextMessage? ==> (r == [] <==> e.text.None? || e.text.value == [])
  {
    if e.TextMessage? then TextReplies(e.text, BuildInstructions(store, e.user), complete)
    else [CommandReply(e)]
  }

  /** The one reply to a command: the greeting, the help text, or the
      confirmation of the mode the command selects. */
  function CommandReply(e: Event): (reply: string)
    requires !e.TextMessage?
    ensures !e.StartCommand? && !e.HelpCommand? ==>
      SelectedMode(e).Some? && reply == ModeReply(SelectedMode(e).value)
  {
    match e
    case StartCommand(_) => Greeting
    case HelpCommand(_) => HelpText
    case AnalyzeCommand(_) => ModeReply(Analyze)
    case ReviewCommand(_) => ModeReply(Review)
    case FaqCommand(_) => ModeReply(Faq)
  }

  /** The mode store after a run of events, handled one at a time. */
  function RunModes(store: ModeStore, events: seq<Event>): (final: ModeStore)
    decreases |events|
  {
    if events == [] then store else RunModes(NextModes(store, events[0]), events[1..])
  }

  lemma {:induction false} RunModesAppend(store: ModeStore, events: seq<Event>, e: Event)
    ensures RunModes(store, events + [e]) == NextModes(RunModes(store, events), e)
    decreases |events|
  {
    if events == [] {
      assert RunModes(NextModes(store, e), []) == NextModes(store, e);
      assert [e][1..] == [];
    } else {
      assert (events + [e])[0] == events[0];
      assert (events + [e])[1..] == events[1..] + [e];
      RunModesAppend(NextModes(store, events[0]), events[1..], e);
    }
  }

  /** No run of events ever stores a tag that `MODES` lacks. */
  lemma {:induction false} RunModesValid(store: ModeStore, events: seq<Event>)
    requires ModesValid(store)
    ensures ModesValid(RunModes(store, events))
    decreases |events|
  {
    if events != [] {
      RunModesValid(NextModes(store, events[0]), events[1..]);
    }
  }

  /** The mode the latest mode-writing event of `user` in `events` selects,
      read from the end of the run. */
  function LastSelected(events: seq<Event>, user: int): (m: Option<string>)
    ensures m.Some? ==> IsMode(m.value)
    decreases |events|
  {
    if events == [] then None
    else
      var e := events[|events| - 1];
      if e.user == user && SelectedMode(e).Some? then SelectedMode(e)
      else LastSelected(events[..|events| - 1], user)
  }

  /** A user's mode after a run is the one their latest `/start`, `/analyze`,
      `/review` or `/faq` selected, whatever messages came in between; a user
      who sent none of those keeps the mode they had before the run. */
  lemma {:induction false} LastCommandWins(store: ModeStore, events: seq<Event>, user: int)
    ensures ModeOf(RunModes(store, events), user)
      == match LastSelected(events, user)
         case Some(m) => m
         case None => ModeOf(store, user)
    decreases |events|
  {
    if events != [] {
      var init, e := events[..|events| - 1], events[|events| - 1];
      assert events == init + [e];
      RunModesAppend(store, init, e);
      NextModesSpec(RunModes(store, init), e, user);
      if !(e.user == user && SelectedMode(e).Some?) {
        LastCommandWins(store, init, user);
      }
    }
  }

  /** A user who never selected a mode is in the `analyze` mode. */
  lemma UnseenUserAnalyzes(events: seq<Event>, user: int)
    requires LastSelected(events, user).None?
    ensures ModeOf(RunModes(map[], events), user) == Analyze
  {
    LastCommandWins(map[], events, user);
  }

  /** `/review`, then a review text: the endpoint receives the review hint in
      its instructions, and a short answer goes back as exactly one reply. */
  lemma ReviewThenText(store: ModeStore, user: int, review: string, output: string,
                       complete: (string, string) -> Completion)
    requires ModesValid(store)
    requires review != [] && output != [] && |output| <= ChunkSize
    requires complete(BuildInstructions(NextModes(store, ReviewCommand(user)), user), Strip(review))
          == Output(output)
    ensures var s := NextModes(store, ReviewCommand(user));
      && ModesValid(s)
      && HintOf(BuildInstructions(s, user)) == Some(Modes[Review])
      && Replies(s, TextMessage(user, Some(review)), complete) == [output]
  {
    var s := NextModes(store, ReviewCommand(user));
    assert ModeOf(s, user) == Review;
    var instructions := BuildInstructions(s, user);
    assert ChooseAnswer(complete(instructions, Strip(review))) == output;
    SplitShort(output, ChunkSize);
    assert TextReplies(Some(review), instructions, complete) == [output];
    RepliesToText(s, user, Some(review), complete);
  }

  /** A plain message is answered by `handle_text` with its sender's
      instructions. */
  lemma RepliesToText(store: ModeStore, user: int, text: Option<string>,
                      complete: (string, string) -> Completion)
    requires ModesValid(store)
    ensures Replies(store, TextMessage(user, text), complete)
         == TextReplies(text, BuildInstructions(store, user), complete)
  {
  }

  /** A failed request still produces replies: the non-empty error message,
      in one piece when it is short. */
  lemma FailureStillReplies(store: ModeStore, user: int, text: string, error: string,
                            complete: (string, string) -> Completion)
    requires ModesValid(store) && text != []
    requires complete(BuildInstructions(store, user), Strip(text)) == Failed(error)
    ensures var replies := Replies(store, TextMessage(user, Some(text)), complete);
      && |replies| >= 1
      && Concat(replies) == ErrorPrefix + error
      && (|ErrorPrefix + error| <= ChunkSize ==> replies == [ErrorPrefix + error])
  {
    TextRepliesSpec(Some(text), BuildInstructions(store, user), complete);
    if |ErrorPrefix + error| <= ChunkSize {
      SplitShort(ErrorPrefix + error, ChunkSize);
    }
  }
}
