/**
 * The Google Apps Script shown in the extraction dialog: a fixed program
 * text with the presentation ID spliced into a double-quoted JavaScript
 * string literal, the whole template then trimmed.
 */
module Script {
  import opened Results
  import opened Text
  import SlideId

  /** The template text before the ID, without the template's opening line
      feed. */
  const ScriptHead: string :=
      "function getSpeakerNotes() {\n" +
      "  try {\n" +
      "    const presentationId = \""

  /** The program text after the ID's closing quote and before the final
      closing brace. */
  const ScriptBody: string :=
      ";\n" +
      "    const presentation = SlidesApp.openById(presentationId);\n" +
      "    const slides = presentation.getSlides();\n" +
      "    const allNotes = [];\n" +
      "\n" +
      "    slides.forEach((slide, index) => {\n" +
      "      const notes = slide.getNotesPage().getSpeakerNotesShape().getText().asString();\n" +
      "      allNotes.push(notes.trim());\n" +
      "    });\n" +
      "\n" +
      "    const output = allNotes.join('\\n---\\n');\n" +
      "    Logger.log(output);\n" +
      "    \n" +
      "    // Show a sidebar with the notes as SlidesApp does not support showModalDialog\n" +
      "    const htmlContent = '<h3>コピー用のスピーカーノート:</h3>' +\n" +
      "                        '<textarea style=\"width: 95%; height: 80vh;\" readonly>' + \n" +
      "                        output.replace(/\\n/g, '&#10;') + \n" +
      "                        '</textarea>' +\n" +
      "                        '<p>上のテキストをコピーして、前のタブに戻り貼り付けてください。</p>';\n" +
      "\n" +
      "    const html = HtmlService.createHtmlOutput(htmlContent)\n" +
      "      .setTitle('スピーカーノート');\n" +
      "    \n" +
      "    SlidesApp.getUi().showSidebar(html);\n" +
      "\n" +
      "  } catch (e) {\n" +
      "    Logger.log('Error: ' + e.toString());\n" +
      "    SlidesApp.getUi().alert('エラーが発生しました。プレゼンテーションIDが正しいこと、およびアクセス権があることを確認してください。');\n" +
      "  }\n"

  /** The template text after the ID, without the template's closing line
      feed: the closing quote, the body, the closing brace. */
  const ScriptTail: string := "\"" + (ScriptBody + "}")

  lemma ScriptEnds()
    ensures |ScriptHead| >= 1 && ScriptHead[0] == 'f'
    ensures |ScriptTail| >= 1 && ScriptTail[0] == '"' && ScriptTail[|ScriptTail| - 1] == '}'
  {
  }

  /** The template literal's value for `id`, before trimming: it opens and
      closes with a line feed. */
  function Template(id: string): string {
    "\n" + ScriptHead + id + ScriptTail + "\n"
  }

  /** The script text offered for copying: the template trimmed, which is
      the program with the ID in its place (GasCodeIsTrimmedTemplate). */
  function GasCode(id: string): string {
    ScriptHead + id + ScriptTail
  }

  /** Trimming a program text framed by two line feeds removes exactly
      those line feeds when the text starts and ends with non-whitespace. */
  lemma TrimFramed(h: string, id: string, t: string)
    requires h != [] && !IsWhitespace(h[0])
    requires t != [] && !IsWhitespace(t[|t| - 1])
    ensures Trim("\n" + h + id + t + "\n") == h + id + t
  {
    var m := h + id + t;
    assert m[0] == h[0] && m[|m| - 1] == t[|t| - 1];
    TrimUnique("\n", m, "\n");
    assert "\n" + h + id + t + "\n" == "\n" + m + "\n";
  }

  /** `gasCode` is `template.trim()`: trimming removes exactly the line
      feeds around the program, for every ID, so the script is the fixed
      text with the ID in its place and nothing else changed. */
  lemma GasCodeIsTrimmedTemplate(id: string)
    ensures GasCode(id) == Trim(Template(id))
  {
    ScriptEnds();
    TrimFramed(ScriptHead, id, ScriptTail);
  }

  /** Text that can sit between the quotes of a JavaScript string literal
      and be read back unchanged: no quote, no backslash, no line
      terminator. */
  predicate IsPlainLiteralBody(s: string) {
    forall k :: 0 <= k < |s| ==>
      s[k] != '"' && s[k] != '\\' && s[k] != '\n' && s[k] != '\r' && s[k] != '\U{2028}' && s[k] != '\U{2029}'
  }

  /** The characters before the first double quote. */
  function UpToQuote(s: string): (r: string)
    ensures |r| <= |s| && r == s[..|r|]
    ensures |r| == |s| || s[|r|] == '"'
    ensures forall k :: 0 <= k < |r| ==> r[k] != '"'
  {
    if s == [] || s[0] == '"' then []
    else [s[0]] + UpToQuote(s[1..])
  }

  /** What a JavaScript reader of the script sees as the value of
      `presentationId`: the text after the fixed opening up to the closing
      quote.  Escape sequences are not modelled, so a literal body holding
      a backslash (or a line terminator, which JavaScript rejects inside a
      string literal) is not read: the result is None, as it is when the
      text does not open like the script. */
  function PresentationIdOf(script: string): (r: Option<string>)
    ensures r.Some? ==> |ScriptHead| <= |script| && script[..|ScriptHead|] == ScriptHead
    ensures r.Some? ==> IsPlainLiteralBody(r.value)
  {
    if |ScriptHead| <= |script| && script[..|ScriptHead|] == ScriptHead then
      var body := UpToQuote(script[|ScriptHead|..]);
      if IsPlainLiteralBody(body) then Some(body) else None
    else None
  }

  /** Reading up to the first quote passes over a quote-free prefix. */
  lemma {:induction false} UpToQuoteAppend(a: string, b: string)
    requires forall k :: 0 <= k < |a| ==> a[k] != '"'
    ensures UpToQuote(a + b) == a + UpToQuote(b)
    decreases |a|
  {
    if a != [] {
      assert (a + b)[0] == a[0];
      assert (a + b)[1..] == a[1..] + b;
      UpToQuoteAppend(a[1..], b);
      assert [a[0]] + (a[1..] + UpToQuote(b)) == a + UpToQuote(b);
    } else {
      assert a + b == b;
    }
  }

  /** Reading up to the first quote stops at the end of a quote-free
      prefix that a quote follows. */
  lemma UpToQuoteStops(a: string, b: string)
    requires forall k :: 0 <= k < |a| ==> a[k] != '"'
    requires b != [] && b[0] == '"'
    ensures UpToQuote(a + b) == a
  {
    UpToQuoteAppend(a, b);
    assert a + [] == a;
  }

  /** An ID made of `[a-zA-Z0-9_-]` is a plain literal body. */
  lemma IdIsPlain(id: string)
    requires SlideId.IsId(id)
    ensures IsPlainLiteralBody(id)
  {
  }

  /** Reading back a script opening, a plain text and then a quote gives
      that text. */
  lemma ReadBackFramed(a: string, t: string)
    requires IsPlainLiteralBody(a)
    requires t != [] && t[0] == '"'
    ensures PresentationIdOf(ScriptHead + a + t) == Some(a)
  {
    var s := ScriptHead + a + t;
    assert s[..|ScriptHead|] == ScriptHead;
    assert s[|ScriptHead|..] == a + t;
    UpToQuoteStops(a, t);
  }

  /** The ID cannot break out of its string literal: the script built for a
      plain ID reads back as exactly that ID. */
  lemma ScriptRoundTrip(id: string)
    requires IsPlainLiteralBody(id)
    ensures PresentationIdOf(GasCode(id)) == Some(id)
  {
    ScriptEnds();
    ReadBackFramed(id, ScriptTail);
  }

  /** Every ID the extractor yields round-trips through the script. */
  lemma ExtractedIdRoundTrip(url: string)
    requires SlideId.ExtractId(url).Some?
    ensures PresentationIdOf(GasCode(SlideId.ExtractId(url).value)) == SlideId.ExtractId(url)
  {
    IdIsPlain(SlideId.ExtractId(url).value);
    ScriptRoundTrip(SlideId.ExtractId(url).value);
  }

  /** A quote inside the spliced text ends the literal there, when no
      escape or line break comes before it. */
  lemma QuoteCutsLiteral(id: string, k: nat, t: string)
    requires k < |id| && id[k] == '"'
    requires IsPlainLiteralBody(id[..k])
    ensures PresentationIdOf(ScriptHead + id + t) == Some(id[..k])
  {
    assert ScriptHead + id + t == ScriptHead + id[..k] + (id[k..] + t);
    ReadBackFramed(id[..k], id[k..] + t);
  }

  /** A quote in the ID would end the literal early: the script for an ID
      whose first quote is at `k`, with no escape or line break before it,
      reads back as only the part before the quote. */
  lemma QuoteBreaksOut(id: string, k: nat)
    requires k < |id| && id[k] == '"'
    requires IsPlainLiteralBody(id[..k])
    ensures PresentationIdOf(GasCode(id)) == Some(id[..k])
  {
    QuoteCutsLiteral(id, k, ScriptTail);
  }

  /** Reading the opening, then a quote-free text and a backslash, stops
      at the backslash, which starts an escape sequence the reader does not
      interpret. */
  lemma EscapeCutsRead(a: string, rest: string)
    requires forall j :: 0 <= j < |a| ==> a[j] != '"'
    requires rest != [] && rest[0] == '\\'
    ensures PresentationIdOf(ScriptHead + a + rest) == None
  {
    var script := ScriptHead + a + rest;
    assert script[..|ScriptHead|] == ScriptHead;
    assert script[|ScriptHead|..] == a + rest;
    UpToQuoteAppend(a, rest);
    var body := UpToQuote(a + rest);
    assert body[|a|] == '\\';
  }

  /** A backslash in the spliced text before any quote leaves the literal
      unread. */
  lemma EscapeInLiteral(id: string, k: nat, t: string)
    requires k < |id| && id[k] == '\\'
    requires forall j :: 0 <= j < k ==> id[j] != '"'
    ensures PresentationIdOf(ScriptHead + id + t) == None
  {
    assert ScriptHead + id + t == ScriptHead + id[..k] + (id[k..] + t);
    EscapeCutsRead(id[..k], id[k..] + t);
  }

  /** A backslash in the ID before any quote starts an escape sequence,
      which the reader does not interpret: no value is read back. */
  lemma EscapeNotRead(id: string, k: nat)
    requires k < |id| && id[k] == '\\'
    requires forall j :: 0 <= j < k ==> id[j] != '"'
    ensures PresentationIdOf(GasCode(id)) == None
  {
    EscapeInLiteral(id, k, ScriptTail);
  }
}
