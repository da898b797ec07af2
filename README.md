# WB/OZON GPT bot: a Dafny model of its handlers

The bot is a Telegram front-end for sellers on Wildberries and Ozon. It relays
each text message to an OpenAI completion endpoint and sends the answer back.
Each user has one of three prompt personas (`analyze`, `review`, `faq`) that
decides the instructions sent with the message. This project models the logic
of `bot.py`:

- `wrappers.dfy` (module `Wrappers`): `Option`, for a message whose text may be missing.
- `chunker.dfy` (module `Chunker`): `split_message`. It cuts the outgoing answer
  into slices of at most 3200 characters. The lemmas prove the slices spell the
  input back, respect the bound, sit at the right offsets and have the exact
  count. Re-splitting a slice returns it unchanged.
- `personas.dfy` (module `Personas`): `SYSTEM_BASE`, `MODES`, the display names
  used by `set_mode`, `HELP_TEXT` and the `/start` greeting, all with their
  literal texts. Also the instruction text the bot composes for a mode. The
  lemmas prove the hint can be read back from the instructions and that
  different modes give different instructions.
- `trim.dfy` (module `Trim`): `str.strip()`, which `handle_text` applies to the
  message before using it as the prompt. It uses Python's whitespace set.
- `router.dfy` (module `Router`): the mode store as a value. It covers
  `user_modes.get(user_id, "analyze")`, `build_instructions`, the answer choice
  in `handle_text` and the replies each inbound event produces. It also covers
  runs of events. The main invariant: every stored tag is a key of `MODES`, so
  the lookup `MODES[mode]` in `build_instructions` cannot fail. The last
  mode-selecting command of a user decides that user's mode.
- `handlers.dfy` (module `Handlers`): class `Bot`. Its field `userModes` is the
  dictionary `user_modes` and is updated in place. Its field `replies` is the
  sequence of messages sent so far. Its methods are `start`, `help_cmd`,
  `set_mode`, the three `mode_*` wrappers and `handle_text`. `handle_text` sends
  the chunks one by one in a loop (`SendChunks`). `Dispatch` is the handler table. Each method
  gives the new store and the new replies through the `Router` functions.

The completion request is a parameter `complete: (string, string) -> Completion`.
It is called with the instructions and the stripped prompt, and it returns
either `Output(text)` (the text may be empty) or `Failed(error)`, where `error`
is the text of the exception.

## Model

| member | source | states |
|---|---|---|
| `Chunker.SplitMessage` | bot.py:90-93 | there is always at least one part, and the result is `[""]` exactly when the input is empty; what the parts are is stated by `SplitConcat`, `ChunkLengths`, `ChunkAt` and `ChunkCount` |
| `Chunker.SlicesFromCount` | bot.py:93 | the slices taken from offset `i` number the least `c` with `c` slices of `n` covering the rest of the text |
| `Chunker.SlicesFromAt` | bot.py:93 | slice `k` from offset `i` is `text[i+k*n : i+(k+1)*n]`, clamped to the end of the text |
| `Chunker.ConcatSlicesFrom` | bot.py:93 | the slices from offset `i`, concatenated, give back `text[i:]` |
| `Chunker.SplitConcat` | bot.py:90-93 | for every text and every limit of at least 1, the chunks concatenated in order give back the input exactly |
| `Chunker.ChunkLengths` | bot.py:93 | for non-empty input every chunk is non-empty and at most `chunk_size` long, and every chunk but the last is exactly `chunk_size` long |
| `Chunker.ChunkLength` | bot.py:93 | chunk `k` of a non-empty text is non-empty and at most `chunk_size` long, and exactly `chunk_size` long unless it is the last |
| `Chunker.ChunkAt` | bot.py:93 | chunk `k` is the slice `text[k*chunk_size : (k+1)*chunk_size]` |
| `Chunker.ChunkCount` | bot.py:90-93 | a non-empty input goes out as ceil(len/chunk_size) chunks |
| `Chunker.SplitShort` | bot.py:90-93 | a non-empty text of at most `chunk_size` characters goes out as one chunk equal to it |
| `Chunker.SplitIdempotent` | bot.py:90-93 | splitting any chunk again with the same limit gives that chunk alone |
| `Chunker.TenThousandCharacters` | bot.py:90-93 | a 10,000-character answer at the default limit of 3200 goes out as 4 chunks that spell it back |
| `Personas.ModeTags` | bot.py:66-85 | the keys of `MODES` are exactly `analyze`, `review` and `faq` |
| `Personas.ModeNamesCover` | bot.py:125 | the display-name table of `set_mode` has a name for a tag exactly when `MODES` has a hint for it |
| `Personas.Instructions` | bot.py:97 | the instruction text starts with `SYSTEM_BASE`, and cutting off `SYSTEM_BASE` and the newline gives back the mode's hint; `InstructionsInjective` adds that different modes give different texts |
| `Personas.HintsDistinct` | bot.py:66-85 | the three hints are pairwise different |
| `Personas.InstructionsInjective` | bot.py:95-97 | two modes give the same instruction text if and only if they are the same mode |
| `Personas.ModeReply` | bot.py:125-128 | the mode-switch confirmation opens with the fixed `Готово! Режим: `, then gives the display name of the mode just selected, and ends with that mode's hint |
| `Personas.GreetingShowsHelpAndMode` | bot.py:113-117 | the `/start` reply contains the help text and ends by naming `/analyze` |
| `Trim.Strip` | bot.py:145 | the prompt is empty exactly when the message is all whitespace, and otherwise neither starts nor ends with whitespace; `StripSlice` adds that it is a slice of the message with only whitespace cut off |
| `Trim.TrimStart` | bot.py:145 | the result is a suffix of the input, only whitespace was dropped, and it does not start with whitespace |
| `Trim.TrimEnd` | bot.py:145 | the result is a prefix of the input, only whitespace was dropped, and it does not end with whitespace |
| `Trim.StripSlice` | bot.py:145 | the prompt is a slice `s[i:j]` of the message with only whitespace outside it |
| `Trim.StripIdempotent` | bot.py:145 | stripping the prompt again changes nothing |
| `Router.ModeOf` | bot.py:96 | a user's mode is a key of `MODES` whenever the store is valid, and `analyze` when the user has no entry |
| `Router.BuildInstructions` | bot.py:95-97 | defined only on a valid store; the hint after `SYSTEM_BASE` and the newline is `MODES[mode]` for the user's mode, and the `analyze` hint for a user with no entry |
| `Router.ChooseAnswer` | bot.py:152-161 | the answer is never empty |
| `Router.AnswerCases` | bot.py:158-161 | the output text is used exactly when it is non-empty, an empty one gives the fixed fallback, and a failure gives the error prefix followed by the failure text, never the fallback |
| `Router.TextReplies` | bot.py:139-164 | a message with no or empty text gets no reply and any other gets at least one; `TextRepliesSpec` states what the replies are |
| `Router.TextRepliesSpec` | bot.py:139-164 | the replies to a message with text spell the chosen answer in order, each at most 3200 characters |
| `Router.SelectedMode` | bot.py:111-137 | only `/start`, `/analyze`, `/review` and `/faq` write a mode, and what they write is a key of `MODES` |
| `Router.NextModes` | bot.py:112-124 | one event keeps the store valid and adds no entry for anyone but its sender; `NextModesSpec` states what the entries become |
| `Router.NextModesSpec` | bot.py:111-137 | one event gives its sender the mode it selects, leaves every other user's entry unchanged, and a help or text event leaves the store unchanged |
| `Router.Replies` | bot.py:111-164 | every command gets exactly one reply; a text message gets none exactly when its text is missing or empty; `CommandReply`, `TextReplies` and `TextRepliesSpec` state what the replies are |
| `Router.CommandReply` | bot.py:111-137 | the reply to `/analyze`, `/review` or `/faq` is the confirmation for the mode that command selects |
| `Router.RunModesAppend` | bot.py:111-137 | handling a run and then one more event equals handling the longer run |
| `Router.RunModesValid` | bot.py:88 | no run of events stores a tag that `MODES` lacks, so the lookup in `build_instructions` never fails |
| `Router.LastSelected` | bot.py:111-137 | the mode read back from a user's latest mode command is always a key of `MODES` |
| `Router.LastCommandWins` | bot.py:111-137 | after any run of events a user's mode is the one selected by their latest mode command, whatever messages came in between, or the earlier mode if they sent none |
| `Router.UnseenUserAnalyzes` | bot.py:96 | starting from the empty store, a user who never selected a mode is in `analyze` mode |
| `Router.ReviewThenText` | bot.py:133-164 | after `/review` the instructions carry the review hint; when the endpoint answers that request with a short non-empty text, exactly one reply goes back, equal to that text |
| `Router.FailureStillReplies` | bot.py:159-164 | when the request for a message fails, at least one reply still goes out; the replies spell the error prefix plus the failure text, in one piece when it is short |
| `Handlers.Bot.constructor` | bot.py:88 | the store starts empty and valid, and nothing has been sent |
| `Handlers.Bot.Start` | bot.py:111-118 | the sender is reset to `analyze`, no other entry changes, the store stays valid, and the greeting is sent |
| `Handlers.Bot.Help` | bot.py:120-121 | the help text is sent and the store is not touched |
| `Handlers.Bot.SetMode` | bot.py:123-128 | the sender's entry becomes the given mode, no other entry changes, the store stays valid, and the confirmation is sent |
| `Handlers.Bot.ModeAnalyze` | bot.py:130-131 | the sender's entry becomes `analyze` and its confirmation is sent |
| `Handlers.Bot.ModeReview` | bot.py:133-134 | the sender's entry becomes `review` and its confirmation is sent |
| `Handlers.Bot.ModeFaq` | bot.py:136-137 | the sender's entry becomes `faq` and its confirmation is sent |
| `Handlers.Bot.HandleText` | bot.py:139-164 | the store is not written; the replies sent are exactly the chunks of the answer chosen for one request made with the sender's instructions and the stripped text, in order, or nothing for a message without text |
| `Handlers.Bot.SendChunks` | bot.py:163-164 | one reply per chunk of the answer, in order, and nothing else is sent |
| `Handlers.Bot.Dispatch` | bot.py:170-175 | each event reaches its handler; the new store is the one-event transition of the old one, and the replies are the ones that event produces |

## Left out

- `Chunker.SplitMessage` requires `chunk_size >= 1`. The only caller uses the default of 3200. In Python a size of 0 raises `ValueError`, and a negative size gives an empty list for non-empty text. Neither case is modelled.
- `Handlers.Bot.SetMode` requires a tag that is a key of `MODES`. Its three callers pass literal tags. With any other tag, the source would store it and then fail on the display-name lookup. That path is not modelled.
- The Telegram long-polling loop and handler registration are not modelled. `Dispatch` stands for the table those handlers form. `reply_text` is not modelled either: each reply is appended to `replies`, and the message it answers is not recorded.
- The OpenAI client and its request are replaced by the `complete` parameter. The model name `gpt-4o-mini` is not modelled. An `output_text` of `None` is folded into `Output("")`, since both select the fallback. The exception's text is the `Failed` string.
- Loading `.env` and the environment, the warnings about missing keys, and all logging are left out. This includes the log line that shows the first 160 characters of the prompt. None of them changes a reply.
- `async`/`await` scheduling is left out. Events are handled one at a time, in the order they arrive.
- `main` and the process entry point are left out: they are framework start-up.
