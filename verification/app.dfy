/**
 * The page's state record and the handlers that update it: convert the
 * pasted notes, enhance the converted notes through the text-generation
 * service, and extract a presentation ID from a URL.  Each handler is a pure
 * transition from the state before the click to the state React holds once
 * the handler's updates are applied in order.  The service call is not
 * modelled: its outcome is an input to the transition that resumes after
 * the `await`.
 */
module App {
  import opened Results
  import Text
  import Notes
  import SlideId

  const ErrPasteFirst: string := "最初にノートを貼り付けてください。"
  const ErrNoValidSlides: string :=
    "有効なスライドの内容が見つかりません。各スライドが'---'（それぞれが新しい行にあること）で区切られていることを確認してください。"
  const ErrConvertFirst: string := "最初にノートをマークダウンに変換してください。"
  const ErrInvalidUrl: string := "無効なGoogleスライドURLです。有効なリンクであることを確認してください。"
  const ErrUnknown: string := "不明なエラーが発生しました。"

  /** The fields the handlers read and write. */
  datatype State = State(
    rawNotes: string,
    slideUrl: string,
    markdownOutput: string,
    enhancedOutput: string,
    isLoading: bool,
    error: Option<string>,
    modalSlideId: Option<string>)

  /** The state when the page loads. */
  const Initial: State := State("", "", "", "", false, None, None)

  /** How the service call settled: a text, or a thrown value, which is an
      `Error` with a message or something else. */
  datatype Response = Resolved(text: string) | Rejected(message: Option<string>)

  /** The message shown for each converter error. */
  function ConvertMessage(e: Notes.ConvertError): string {
    match e
    case EmptyInput => ErrPasteFirst
    case NoValidSlides => ErrNoValidSlides
  }

  /** `handleConvert`: clear the error and both outputs, then either report
      why the notes cannot be converted or show the converted document. */
  function Convert(st: State): (r: State)
    ensures r == st.(markdownOutput := r.markdownOutput, enhancedOutput := "", error := r.error)
    ensures r.error.None? <==> Notes.Convert(st.rawNotes).Success?
    ensures r.error == Some(ErrPasteFirst) <==> Text.AllWhitespace(st.rawNotes)
    ensures r.error == Some(ErrNoValidSlides) <==> Notes.Convert(st.rawNotes) == Failure(Notes.NoValidSlides)
    ensures r.error.Some? ==> r.markdownOutput == ""
    ensures r.error.None? ==> r.markdownOutput == Notes.Convert(st.rawNotes).value
  {
    match Notes.Convert(st.rawNotes)
    case Failure(e) => st.(markdownOutput := "", enhancedOutput := "", error := Some(ConvertMessage(e)))
    case Success(doc) => st.(markdownOutput := doc, enhancedOutput := "", error := None)
  }

  /** What a click on "enhance" does before the `await`: the new state, and
      the notes sent to the service when a request is made. */
  datatype Start = Start(next: State, request: Option<string>)

  /** `handleEnhance` up to the `await`. */
  function EnhanceStart(st: State): (r: Start)
    ensures r.request.None? <==> st.markdownOutput == ""
    ensures r.request.None? ==> r.next == st.(error := Some(ErrConvertFirst))
    ensures r.request.Some? ==> r.request.value == st.markdownOutput
    ensures r.request.Some? ==> r.next == st.(isLoading := true, error := None, enhancedOutput := "")
  {
    if st.markdownOutput == "" then Start(st.(error := Some(ErrConvertFirst)), None)
    else Start(st.(isLoading := true, error := None, enhancedOutput := ""), Some(st.markdownOutput))
  }

  /** `handleEnhance` after the `await`, applied to whatever the state is
      when the call settles: show the text or the error, and stop loading. */
  function EnhanceFinish(st: State, resp: Response): (r: State)
    ensures !r.isLoading
    ensures r == st.(enhancedOutput := r.enhancedOutput, error := r.error, isLoading := false)
    ensures resp.Resolved? ==> r.enhancedOutput == resp.text && r.error == st.error
    ensures resp.Rejected? ==> r.enhancedOutput == st.enhancedOutput && r.error.Some?
    ensures resp.Rejected? && resp.message.Some? ==> r.error == resp.message
    ensures resp == Rejected(None) ==> r.error == Some(ErrUnknown)
  {
    match resp
    case Resolved(text) => st.(enhancedOutput := text, isLoading := false)
    case Rejected(Some(msg)) => st.(error := Some(msg), isLoading := false)
    case Rejected(None) => st.(error := Some(ErrUnknown), isLoading := false)
  }

  /** A whole click on "enhance" when nothing else happens while the call is
      outstanding; `resp` is how the call settles.  Without converted notes
      only the error changes; otherwise loading is over, the converted notes
      are untouched, and either the text is shown with no error or an error
      is shown with no text. */
  function Enhance(st: State, resp: Response): (r: State)
    ensures st.markdownOutput == "" ==> r == st.(error := Some(ErrConvertFirst))
    ensures st.markdownOutput != "" ==>
              r == st.(enhancedOutput := r.enhancedOutput, error := r.error, isLoading := false)
    ensures st.markdownOutput != "" && resp.Resolved? ==>
              r.enhancedOutput == resp.text && r.error.None?
    ensures st.markdownOutput != "" && resp.Rejected? ==>
              r.enhancedOutput == "" && r.error.Some?
  {
    var s := EnhanceStart(st);
    if s.request.None? then s.next else EnhanceFinish(s.next, resp)
  }

  /** `handleExtractNotes`: clear the error, then open the script dialog for
      the extracted ID, or report an invalid URL. */
  function ExtractNotes(st: State): (r: State)
    ensures SlideId.ExtractId(st.slideUrl).Some? ==>
              r == st.(error := None, modalSlideId := SlideId.ExtractId(st.slideUrl))
    ensures SlideId.ExtractId(st.slideUrl).None? ==>
              r == st.(error := Some(ErrInvalidUrl)) && !SlideId.HasMatch(st.slideUrl)
  {
    var st1 := st.(error := None);
    match SlideId.ExtractId(st.slideUrl)
    case Some(id) => st1.(modalSlideId := Some(id))
    case None => st1.(error := Some(ErrInvalidUrl))
  }

  /** Closing the script dialog (`onClose`). */
  function CloseModal(st: State): State {
    st.(modalSlideId := None)
  }

  /** Everything that changes the state: typing into the two inputs, the
      three buttons, closing the dialog, and a service call settling. */
  datatype Event =
    | EditNotes(notes: string)
    | EditUrl(url: string)
    | ClickConvert
    | ClickEnhance
    | Settle(resp: Response)
    | ClickExtract
    | Close

  /** The state after one event.  A `Settle` resumes some earlier "enhance"
      click; which one is not tracked, so it may arrive at any time. */
  function Step(st: State, e: Event): State {
    match e
    case EditNotes(notes) => st.(rawNotes := notes)
    case EditUrl(url) => st.(slideUrl := url)
    case ClickConvert => Convert(st)
    case ClickEnhance => EnhanceStart(st).next
    case Settle(resp) => EnhanceFinish(st, resp)
    case ClickExtract => ExtractNotes(st)
    case Close => CloseModal(st)
  }

  /** The state after a sequence of events, applied in order. */
  function Run(st: State, es: seq<Event>): State
    decreases |es|
  {
    if es == [] then st else Run(Step(st, es[0]), es[1..])
  }

  /** What holds of every reachable state: the dialog only ever shows a
      well-formed presentation ID, no text is shown while a request is in
      flight, and the converted notes, when present, are a rendered document
      starting with the first slide's heading. */
  predicate Inv(st: State) {
    && (st.modalSlideId.Some? ==> SlideId.IsId(st.modalSlideId.value))
    && (st.isLoading ==> st.enhancedOutput == "")
    && (st.markdownOutput != "" ==>
          |st.markdownOutput| >= |Notes.FirstHeading|
          && st.markdownOutput[..|Notes.FirstHeading|] == Notes.FirstHeading)
  }

  /** The page starts in a state satisfying the invariant, and clears
      everything but the inputs. */
  lemma InitialInv()
    ensures Inv(Initial)
    ensures !Initial.isLoading && Initial.error.None? && Initial.modalSlideId.None?
  {
  }

  /** Every event preserves the invariant. */
  lemma StepInv(st: State, e: Event)
    requires Inv(st)
    ensures Inv(Step(st, e))
  {
    match e
    case ClickConvert =>
      var r := Convert(st);
      if r.error.None? {
        assert Notes.Convert(st.rawNotes).Success?;
      }
    case ClickExtract =>
      if SlideId.ExtractId(st.slideUrl).Some? {
        assert ExtractNotes(st).modalSlideId == SlideId.ExtractId(st.slideUrl);
      }
    case _ =>
  }

  /** Every sequence of events from a state satisfying the invariant ends in
      one that satisfies it; in particular every state reachable from the
      initial one does. */
  lemma {:induction false} RunInv(st: State, es: seq<Event>)
    requires Inv(st)
    ensures Inv(Run(st, es))
    decreases |es|
  {
    if es != [] {
      StepInv(st, es[0]);
      RunInv(Step(st, es[0]), es[1..]);
    }
  }

  /** Notes made of a lone delimiter are not blank, yet yield no slide: the
      message is the one about missing slide content, not the one asking to
      paste notes. */
  lemma LoneDelimiterMessage(st: State)
    requires st.rawNotes == Notes.Delimiter
    ensures Convert(st).error == Some(ErrNoValidSlides)
    ensures Convert(st).markdownOutput == "" && Convert(st).enhancedOutput == ""
  {
    Notes.ConvertLoneDelimiter();
  }

  /** Converting twice in a row is the same as converting once. */
  lemma ConvertIdempotent(st: State)
    ensures Convert(Convert(st)) == Convert(st)
  {
  }

  /** A click on "convert" while a request is in flight, with notes that
      convert, does not cancel the request: when it later settles with a
      text, that text is shown next to the new conversion it was not
      computed from. */
  lemma StaleResultApplied(st: State, notes: string, text: string)
    requires st.markdownOutput != ""
    requires Notes.Convert(notes).Success?
    ensures var s1 := Step(st, ClickEnhance);
            var s2 := Step(Step(s1, EditNotes(notes)), ClickConvert);
            var s3 := Step(s2, Settle(Resolved(text)));
            && EnhanceStart(st).request == Some(st.markdownOutput)
            && s2.isLoading
            && s3.markdownOutput == Notes.Convert(notes).value
            && s3.enhancedOutput == text
            && s3.error.None?
  {
  }
}
