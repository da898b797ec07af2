/** The assistant's persona, its three modes and the fixed texts the bot sends:
    `SYSTEM_BASE`, `MODES`, `HELP_TEXT`, the greeting of `/start`, the
    confirmation of a mode switch, and the instruction text `build_instructions`
    composes for a mode. */
module Personas {

  import opened Wrappers

  /** The three mode tags, the keys of `MODES`. */
  const Analyze: string := "analyze"
  const Review: string := "review"
  const Faq: string := "faq"

  /** The base persona every instruction text starts with. */
  const SystemBase: string :=
    "Ты — помощник продавца на Wildberries и Ozon: анализ конкурентов, "
    + "оптимизация карточек (SEO/заголовок/описание/фото/УТП/характеристики), "
    + "ответы на отзывы и вопросы покупателей. "
    + "Отвечай структурировано и по делу. Формат по умолчанию: "
    + "\U{1F4CA} Анализ / ✅ Выводы / \U{1F4A1} Рекомендации."

  /** `MODES`: the hint text of each mode. */
  const Modes: map<string, string> := map[
    Analyze := "Режим: АНАЛИЗ КОНКУРЕНТОВ. "
               + "Подсказка: пришли данные так:\n\n"
               + "Конкуренты:\n"
               + "- Заголовки: ...\n"
               + "- Описания: ...\n"
               + "- Цены: ...\n"
               + "- Отзывы: ...\n\n"
               + "Моя карточка:\n"
               + "- Заголовок: ...\n"
               + "- Описание: ...\n"
               + "- Цена: ...\n"
               + "- Фото/характеристики: ...\n",
    Review := "Режим: ОТВЕТЫ НА ОТЗЫВЫ. "
              + "Подсказка: пришли текст отзыва так:\n\n"
              + "Отзыв: \"Доставка долгая, качество среднее\"",
    Faq := "Режим: ОТВЕТЫ НА ВОПРОСЫ. "
           + "Подсказка: пришли вопрос покупателя так:\n\n"
           + "Вопрос: \"Подойдёт ли эта футболка для спорта?\""
  ]

  /** The display names `set_mode` uses in its confirmation. */
  const ModeNames: map<string, string> := map[
    Analyze := "АНАЛИЗ",
    Review := "ОТЗЫВЫ",
    Faq := "ВОПРОСЫ"
  ]

  const HelpText: string :=
    "Команды:\n"
    + "/analyze — анализ конкурентов и оптимизация карточек\n"
    + "/review — ответы на отзывы (3 стиля)\n"
    + "/faq — ответы на вопросы покупателей (кратко)\n\n"
    + "Примеры:\n"
    + "• /analyze → вставь данные о конкурентах и своей карточке.\n"
    + "• /review → вставь текст отзыва.\n"
    + "• /faq → вставь вопрос покупателя.\n"

  const GreetingHead: string := "Привет! Я GPT-ассистент для продавцов WB/OZON.\n\n"
  const GreetingTail: string := "\nСейчас включён режим: /analyze."

  /** The reply to `/start`: a greeting, the help text, and the active mode. */
  const Greeting: string := GreetingHead + HelpText + GreetingTail

  /** A tag is a mode exactly when `MODES` has a hint for it. */
  predicate IsMode(mode: string) { mode in Modes }

  /** The three tags are the modes, and there are no others. */
  lemma ModeTags(mode: string)
    ensures IsMode(mode) <==> mode == Analyze || mode == Review || mode == Faq
  {
  }

  /** Every mode has a display name, and only modes have one. */
  lemma ModeNamesCover(mode: string)
    ensures mode in ModeNames <==> IsMode(mode)
  {
  }

  /** The instruction text for a mode: the base persona, a newline, the hint.
      It starts with the base persona, and the hint can be read back from it. */
  function Instructions(mode: string): (r: string)
    requires IsMode(mode)
    ensures |r| > |SystemBase| && r[..|SystemBase|] == SystemBase
    ensures HintOf(r) == Some(Modes[mode])
  {
    SystemBase + "\n" + Modes[mode]
  }

  /** Cuts the base persona and the newline off an instruction text, leaving the
      mode's hint; `None` for a text that does not start that way. */
  function HintOf(instructions: string): (hint: Option<string>)
  {
    if |instructions| > |SystemBase| && instructions[..|SystemBase|] == SystemBase
       && instructions[|SystemBase|] == '\n'
    then Some(instructions[|SystemBase| + 1..])
    else None
  }

  /** The three hints are pairwise different. */
  lemma HintsDistinct()
    ensures Modes[Analyze] != Modes[Review] && Modes[Analyze] != Modes[Faq]
    ensures Modes[Review] != Modes[Faq]
  {
  }

  /** Different modes give different instruction texts: the completion
      endpoint can tell from the instructions alone which mode is active. */
  lemma InstructionsInjective(m1: string, m2: string)
    requires IsMode(m1) && IsMode(m2)
    ensures Instructions(m1) == Instructions(m2) <==> m1 == m2
  {
  }

  const ConfirmHead: string := "Готово! Режим: "

  /** `set_mode`'s confirmation: the mode's display name, then its hint. It
      names the mode just selected right after the fixed opening, and ends
      with that mode's hint. */
  function ModeReply(mode: string): (r: string)
    requires IsMode(mode)
    ensures mode in ModeNames
    ensures |r| > |ConfirmHead| + |ModeNames[mode]| + |Modes[mode]|
    ensures r[..|ConfirmHead|] == ConfirmHead
    ensures r[|ConfirmHead|..|ConfirmHead| + |ModeNames[mode]|] == ModeNames[mode]
    ensures r[|r| - |Modes[mode]|..] == Modes[mode]
  {
    ModeNamesCover(mode);
    ConfirmHead + ModeNames[mode] + ".\n\n" + Modes[mode]
  }

  /** The greeting carries the help text and names `/analyze` as the mode. */
  lemma GreetingShowsHelpAndMode()
    ensures Greeting[|GreetingHead|..|GreetingHead| + |HelpText|] == HelpText
    ensures Greeting[|Greeting| - |"/analyze."|..] == "/analyze."
  {
  }
}
