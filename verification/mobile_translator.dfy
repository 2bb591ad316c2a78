/**
 * The mobile translator panel: the table of target languages allowed for each source language,
 * swapping the two languages together with the two texts, clearing the texts, and the guard that
 * keeps a blank text from being sent.
 */
module MobileTranslator {
  import opened Wrappers
  import opened JsText

  const Auto := "auto"

  /** The six concrete languages, in the table's order. */
  const Concrete: seq<string> := ["zh", "zh-TW", "en", "ja", "ko", "de"]

  /** The source-language buttons shown. */
  const VisibleSources: seq<string> := [Auto, "en", "zh"]
  /** The target-language buttons shown. */
  const VisibleTargets: seq<string> := ["zh", "en", "ja"]

  const BlankTextMessage := "请输入要翻译的文本"
  const SuccessMessage := "翻译成功"
  const FailureMessage := "翻译失败，请稍后重试"
  const NoSwapMessage := "自动检测语言无法交换"

  /** `targetLanguageMap[source]`: the entry of the table, if the source has one. */
  function TargetLanguageMap(source: string): Option<seq<string>> {
    if source == Auto then Some(["zh", "zh-TW", "en", "ja", "ko", "de"])
    else if source == "zh" then Some(["zh-TW", "en", "ja", "ko", "de"])
    else if source == "zh-TW" then Some(["zh", "en", "ja", "ko", "de"])
    else if source == "en" then Some(["zh", "zh-TW", "ja", "ko", "de"])
    else if source == "ja" then Some(["zh", "zh-TW", "en", "ko", "de"])
    else if source == "ko" then Some(["zh", "zh-TW", "en", "ja", "de"])
    else if source == "de" then Some(["zh", "zh-TW", "en", "ja", "ko"])
    else None
  }

  /** `targetLanguageMap[source] || []`. */
  function AvailableTargets(source: string): (r: seq<string>)
    ensures Auto !in r
    ensures forall i :: 0 <= i < |r| ==> r[i] in Concrete
  {
    match TargetLanguageMap(source)
    case Some(targets) => targets
    case None => []
  }

  /** A concrete source may be translated into each of the other five languages, and not into itself. */
  lemma ConcreteSourceTargets(source: string)
    requires source in Concrete
    ensures source !in AvailableTargets(source)
    ensures |AvailableTargets(source)| == 5
    ensures forall l :: l in Concrete && l != source ==> l in AvailableTargets(source)
  {
  }

  /** Detecting the language allows all six concrete targets. */
  lemma AutoSourceTargets()
    ensures AvailableTargets(Auto) == Concrete
  {
  }

  /** A source the table does not know allows no target at all. */
  lemma UnknownSourceTargets(source: string)
    requires source != Auto && source !in Concrete
    ensures AvailableTargets(source) == []
  {
  }

  // ---- the panel's texts and languages ----

  /** The two texts and the two languages. */
  datatype Panel = Panel(sourceText: string, translatedText: string, sourceLanguage: string, targetLanguage: string)

  /** The kind of a notification. */
  datatype NoticeKind = Success | Failure | Info

  /** A notification: its kind and message. */
  datatype Notice = Notice(kind: NoticeKind, message: string)

  const InitialPanel := Panel("", "", Auto, "zh")

  /** The panel after `swapLanguages`, and the notification it raises. */
  function Swap(p: Panel): (r: (Panel, Option<Notice>))
    ensures p.sourceLanguage != Auto && p.targetLanguage != Auto ==>
      r.1 == None
      && r.0.sourceLanguage == p.targetLanguage && r.0.targetLanguage == p.sourceLanguage
      && r.0.sourceText == p.translatedText && r.0.translatedText == p.sourceText
    ensures p.sourceLanguage == Auto || p.targetLanguage == Auto ==>
      r.0 == p && r.1 == Some(Notice(Info, NoSwapMessage))
  {
    if p.sourceLanguage != Auto && p.targetLanguage != Auto then
      (Panel(p.translatedText, p.sourceText, p.targetLanguage, p.sourceLanguage), None)
    else (p, Some(Notice(Info, NoSwapMessage)))
  }

  /** Swapping twice gives back both languages and both texts. */
  lemma SwapTwice(p: Panel)
    ensures Swap(Swap(p).0).0 == p
  {
  }

  /** `clearText`: both texts emptied, both languages kept. */
  function Clear(p: Panel): (r: Panel)
    ensures r.sourceText == [] && r.translatedText == []
    ensures r.sourceLanguage == p.sourceLanguage && r.targetLanguage == p.targetLanguage
  {
    p.(sourceText := [], translatedText := [])
  }

  /** A source button: its language becomes the source; the target is left as it is. */
  function PickSource(p: Panel, lang: string): (r: Panel)
    requires lang in VisibleSources
    ensures r.sourceLanguage == lang && r.targetLanguage == p.targetLanguage
  {
    p.(sourceLanguage := lang)
  }

  /** A target button: it is disabled unless the source allows its language. */
  function PickTarget(p: Panel, lang: string): (r: Panel)
    requires lang in VisibleTargets
    ensures lang in AvailableTargets(p.sourceLanguage) ==> r.targetLanguage == lang
    ensures lang !in AvailableTargets(p.sourceLanguage) ==> r == p
    ensures r.sourceLanguage == p.sourceLanguage
  {
    if lang in AvailableTargets(p.sourceLanguage) then p.(targetLanguage := lang) else p
  }

  /** What the user can do to the panel. */
  datatype Action =
    | SourceButton(lang: string)
    | TargetButton(lang: string)
    | SwapButton
    | ClearButton
    | TypeText(text: string)
    | Translated(text: string)

  /** Only the buttons that are shown can be pressed. */
  predicate Possible(a: Action) {
    match a
    case SourceButton(lang) => lang in VisibleSources
    case TargetButton(lang) => lang in VisibleTargets
    case _ => true
  }

  function Step(p: Panel, a: Action): Panel
    requires Possible(a)
  {
    match a
    case SourceButton(lang) => PickSource(p, lang)
    case TargetButton(lang) => PickTarget(p, lang)
    case SwapButton => Swap(p).0
    case ClearButton => Clear(p)
    case TypeText(text) => p.(sourceText := text)
    case Translated(text) => p.(translatedText := text)
  }

  function Run(p: Panel, actions: seq<Action>): Panel
    requires forall i :: 0 <= i < |actions| ==> Possible(actions[i])
    decreases |actions|
  {
    if actions == [] then p else Run(Step(p, actions[0]), actions[1..])
  }

  /** Starting from the initial panel, whatever is pressed, the target language is never `auto`. */
  lemma {:induction false} TargetNeverAuto(p: Panel, actions: seq<Action>)
    requires p.targetLanguage != Auto
    requires forall i :: 0 <= i < |actions| ==> Possible(actions[i])
    ensures Run(p, actions).targetLanguage != Auto
    decreases |actions|
  {
    if actions != [] {
      var q := Step(p, actions[0]);
      assert q.targetLanguage != Auto by {
        match actions[0]
        case TargetButton(lang) =>
          assert lang != Auto;
        case _ =>
      }
      TargetNeverAuto(q, actions[1..]);
    }
  }

  /**
   * The source buttons do not look at the target: picking Chinese as source while Chinese is the
   * target gives a pair the table does not allow.
   */
  lemma SourceButtonIgnoresTable()
    ensures var p := PickSource(InitialPanel, "zh");
      p.sourceLanguage == p.targetLanguage && p.targetLanguage !in AvailableTargets(p.sourceLanguage)
  {
  }

  /** With the target never `auto`, a swap the enabled button can trigger always exchanges. */
  lemma SwapButtonAlwaysSwaps(p: Panel)
    requires p.targetLanguage != Auto && p.sourceLanguage != Auto
    ensures Swap(p).1 == None && Swap(p).0.sourceLanguage == p.targetLanguage
  {
  }

  // ---- translating ----

  /** The text is empty or white space only. */
  predicate Blank(text: string) {
    AllSpace(text, IsSpaceChar)
  }

  /** `!text.trim()` tests exactly that: trimming leaves nothing when the text is blank. */
  lemma TrimTestsBlank(text: string)
    ensures TrimString(text) == [] <==> Blank(text)
  {
    TrimBlank(text, IsSpaceChar);
  }

  /** `!text.trim()`. */
  method IsBlank(text: string) returns (blank: bool)
    ensures blank == Blank(text)
  {
    TrimTestsBlank(text);
    blank := TrimString(text) == [];
  }

  /** What the translation request carries. */
  datatype Request = Request(text: string, sourceLanguage: string, targetLanguage: string)

  /** The server's answer: a translation, or a failure with the server's error message if it sent one. */
  datatype Reply = Ok(translatedText: string) | Failed(serverError: Option<string>)

  /**
   * `error.response?.data?.error || '…'`: the server's message when it sent a non-empty one, the
   * fixed failure message otherwise (an empty string is falsy, so it falls back too).
   */
  function FailureText(serverError: Option<string>): (m: string)
    ensures m != []
    ensures serverError.Some? && serverError.value != [] ==> m == serverError.value
    ensures serverError.None? || serverError.value == [] ==> m == FailureMessage
  {
    if serverError.Some? && serverError.value != [] then serverError.value else FailureMessage
  }

  /** The component's state: the `useState` fields. */
  class Translator {
    var sourceText: string
    var translatedText: string
    var sourceLanguage: string
    var targetLanguage: string
    var isLoading: bool
    var notification: Option<Notice>

    function CurrentPanel(): Panel
      reads this
    {
      Panel(sourceText, translatedText, sourceLanguage, targetLanguage)
    }

    predicate Valid()
      reads this
    {
      targetLanguage != Auto
    }

    /** Empty texts, language detection, Chinese as target, nothing loading or shown. */
    constructor ()
      ensures CurrentPanel() == InitialPanel && !isLoading && notification == None
      ensures Valid()
    {
      sourceText, translatedText, sourceLanguage, targetLanguage := "", "", Auto, "zh";
      isLoading, notification := false, None;
    }

    /**
     * `handleTranslate`, with the server's reply as a parameter. A blank text only raises an error
     * notification and sends nothing; otherwise the request is returned, the reply's text or an error
     * notification follows, and loading ends.
     */
    method HandleTranslate(reply: Reply) returns (request: Option<Request>)
      modifies this
      ensures Blank(old(sourceText)) ==>
        request == None && CurrentPanel() == old(CurrentPanel()) && isLoading == old(isLoading)
        && notification == Some(Notice(Failure, BlankTextMessage))
      ensures !Blank(old(sourceText)) ==>
        request == Some(Request(old(sourceText), old(sourceLanguage), old(targetLanguage))) && !isLoading
      ensures !Blank(old(sourceText)) && reply.Ok? ==>
        CurrentPanel() == old(CurrentPanel()).(translatedText := reply.translatedText)
        && notification == Some(Notice(Success, SuccessMessage))
      ensures !Blank(old(sourceText)) && reply.Failed? ==>
        CurrentPanel() == old(CurrentPanel())
        && notification == Some(Notice(Failure, FailureText(reply.serverError)))
    {
      var blank := IsBlank(sourceText);
      if blank {
        notification := Some(Notice(Failure, BlankTextMessage));
        request := None;
      } else {
        isLoading := true;
        request := Some(Request(sourceText, sourceLanguage, targetLanguage));
        if reply.Ok? {
          translatedText := reply.translatedText;
          notification := Some(Notice(Success, SuccessMessage));
        } else {
          notification := Some(Notice(Failure, FailureText(reply.serverError)));
        }
        isLoading := false;
      }
    }

    /** `swapLanguages`. */
    method SwapLanguages()
      requires Valid()
      modifies this
      ensures Valid()
      ensures CurrentPanel() == Swap(old(CurrentPanel())).0
      ensures notification == if Swap(old(CurrentPanel())).1.Some? then Swap(old(CurrentPanel())).1 else old(notification)
      ensures isLoading == old(isLoading)
    {
      if sourceLanguage != Auto && targetLanguage != Auto {
        var temp := sourceLanguage;
        sourceLanguage := targetLanguage;
        targetLanguage := temp;
        var tempText := sourceText;
        sourceText := translatedText;
        translatedText := tempText;
      } else {
        notification := Some(Notice(Info, NoSwapMessage));
      }
    }

    /** `clearText`. */
    method ClearText()
      requires Valid()
      modifies this
      ensures Valid()
      ensures CurrentPanel() == Clear(old(CurrentPanel()))
      ensures isLoading == old(isLoading) && notification == old(notification)
    {
      sourceText := "";
      translatedText := "";
    }

    /** A source-language button. */
    method SelectSource(lang: string)
      requires Valid() && lang in VisibleSources
      modifies this
      ensures Valid()
      ensures CurrentPanel() == PickSource(old(CurrentPanel()), lang)
      ensures isLoading == old(isLoading) && notification == old(notification)
    {
      sourceLanguage := lang;
    }

    /** A target-language button; a disabled one does nothing. */
    method SelectTarget(lang: string)
      requires Valid() && lang in VisibleTargets
      modifies this
      ensures Valid()
      ensures CurrentPanel() == PickTarget(old(CurrentPanel()), lang)
      ensures isLoading == old(isLoading) && notification == old(notification)
    {
      if lang in AvailableTargets(sourceLanguage) {
        targetLanguage := lang;
      }
    }
  }
}
