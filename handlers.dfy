/** The bot's handlers over its one piece of shared state, the per-user mode
    store `user_modes`. Replies are appended to `replies` in the order the
    transport would send them. */
module Handlers {

  import opened Wrappers
  import opened Personas
  import opened Chunker
  import opened Trim
  import opened Router

  class Bot {
    /** `user_modes`, updated in place by `start` and `set_mode`. */
    var userModes: ModeStore
    /** Every reply sent so far, oldest first. */
    var replies: seq<string>

    /** Every stored tag is a key of `MODES`. */
    ghost predicate Valid()
      reads this
    {
      ModesValid(userModes)
    }

    constructor ()
      ensures Valid()
      ensures userModes == map[] && replies == []
    {
      userModes := map[];
      replies := [];
    }

    /** `start`: resets the sender to `analyze` and sends the greeting. */
    method Start(userId: int)
      requires Valid()
      modifies this
      ensures Valid()
      ensures userModes == old(userModes)[userId := Analyze]
      ensures replies == old(replies) + [Greeting]
    {
      userModes := userModes[userId := Analyze];
      replies := replies + [Greeting];
    }

    /** `help_cmd`: sends the help text and changes nothing else. */
    method Help()
      modifies this`replies
      ensures replies == old(replies) + [HelpText]
    {
      replies := replies + [HelpText];
    }

    /** `set_mode`: stores the mode for the sender and confirms it. Its only
        callers pass one of the three tags. */
    method SetMode(userId: int, mode: string)
      requires Valid() && IsMode(mode)
      modifies this
      ensures Valid()
      ensures userModes == old(userModes)[userId := mode]
      ensures replies == old(replies) + [ModeReply(mode)]
    {
      userModes := userModes[userId := mode];
      replies := replies + [ModeReply(mode)];
    }

    method ModeAnalyze(userId: int)
      requires Valid()
      modifies this
      ensures Valid()
      ensures userModes == old(userModes)[userId := Analyze]
      ensures replies == old(replies) + [ModeReply(Analyze)]
    {
      SetMode(userId, Analyze);
    }

    method ModeReview(userId: int)
      requires Valid()
      modifies this
      ensures Valid()
      ensures userModes == old(userModes)[userId := Review]
      ensures replies == old(replies) + [ModeReply(Review)]
    {
      SetMode(userId, Review);
    }

    method ModeFaq(userId: int)
      requires Valid()
      modifies this
      ensures Valid()
      ensures userModes == old(userModes)[userId := Faq]
      ensures replies == old(replies) + [ModeReply(Faq)]
    {
      SetMode(userId, Faq);
    }

    /** `handle_text`: ignores a message without text; otherwise asks the
        completion endpoint once, with the sender's instructions and the
        stripped text, chooses the answer and sends its chunks in order. The
        mode store is read, never written. */
    method HandleText(userId: int, text: Option<string>, complete: (string, string) -> Completion)
      requires Valid()
      modifies this`replies
      ensures replies == old(replies) + TextReplies(text, BuildInstructions(userModes, userId), complete)
    {
      if text.None? || text.value == [] {
        return;
      }
      var prompt := Strip(text.value);
      var instructions := BuildInstructions(userModes, userId);
      var answer := ChooseAnswer(complete(instructions, prompt));
      SendChunks(answer);
    }

    /** The loop at the end of `handle_text`: one reply per chunk of the
        answer, in order. */
    method SendChunks(answer: string)
      modifies this`replies
      ensures replies == old(replies) + SplitMessage(answer, ChunkSize)
    {
      var parts := SplitMessage(answer, ChunkSize);
      for i := 0 to |parts|
        invariant replies == old(replies) + parts[..i]
      {
        replies := replies + [parts[i]];
      }
    }

    /** The handler table: each command to its handler, every other text
        message to `handle_text`. */
    method Dispatch(e: Event, complete: (string, string) -> Completion)
      requires Valid()
      modifies this
      ensures Valid()
      ensures userModes == NextModes(old(userModes), e)
      ensures replies == old(replies) + Replies(old(userModes), e, complete)
    {
      match e
      case StartCommand(u) => Start(u);
      case HelpCommand(_) => Help();
      case AnalyzeCommand(u) => ModeAnalyze(u);
      case ReviewCommand(u) => ModeReview(u);
      case FaqCommand(u) => ModeFaq(u);
      case TextMessage(u, t) => HandleText(u, t, complete);
    }
  }
}
