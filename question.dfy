/** The question path (`responder_pregunta`): a bounded sample of the table is
    rendered as CSV and wrapped, with the user's question, into the chat
    request sent to the completion service. The request is modelled up to the
    point where it leaves the program. */
module Question {
  import opened Table

  /** How many rows of the table reach the prompt (`df.head(20)`). */
  const ContextLimit: nat := 20

  /** The completion model named in the request. */
  const ModelName: string := "gpt-4"

  /** The language code that selects the English texts; every other code
      selects the Spanish ones. */
  const English: string := "en"

  // The preambles and question lines are written in two pieces so that the verifier can look
  // into their first characters.
  const EnglishPreamble: string := "You are a data analyst. " + "Here is some subscription data:\n"
  const EnglishAsk: string := "Answer the following question " + "based on the data: "
  const EnglishSystem: string := "You are a data analysis expert."

  const SpanishPreamble: string := "Eres un analista de datos. " + "Aquí tienes datos de suscripciones:\n"
  const SpanishAsk: string := "Responde la siguiente pregunta " + "basada en los datos: "
  const SpanishSystem: string := "Eres un experto en análisis de datos."

  /** The CSV rendering of a table (`to_csv(index=False)`), kept abstract: a
      header line and the text of each row. */
  datatype CsvFormat = CsvFormat(header: string, line: Row -> string)

  /** One chat message: a role and its text. */
  datatype Message = Message(role: string, content: string)

  /** What is sent to the completion service: the model and the messages. */
  datatype ChatRequest = ChatRequest(model: string, messages: seq<Message>)

  /** `df.head(n)`: the first `n` rows, or every row when there are fewer. */
  function Head<R>(df: seq<R>, n: nat): (h: seq<R>)
    ensures |h| == if |df| < n then |df| else n
    ensures forall i :: 0 <= i < |h| ==> h[i] == df[i]
  {
    if |df| <= n then df else df[..n]
  }

  /** The row lines of a CSV text, one row after the other. */
  function Lines(line: Row -> string, rows: seq<Row>): string
  {
    if rows == [] then "" else line(rows[0]) + Lines(line, rows[1..])
  }

  /** The lines of two blocks of rows are the lines of the first, then the second. */
  lemma {:induction false} LinesAppend(line: Row -> string, a: seq<Row>, b: seq<Row>)
    ensures Lines(line, a + b) == Lines(line, a) + Lines(line, b)
  {
    if a == [] {
      assert a + b == b;
    } else {
      assert (a + b)[1..] == a[1..] + b;
      LinesAppend(line, a[1..], b);
    }
  }

  /** The data block of the prompt: the CSV text of the first rows only. */
  function Contexto(fmt: CsvFormat, df: seq<Row>): (c: string)
    ensures |df| <= ContextLimit ==> c == fmt.header + Lines(fmt.line, df)
    ensures |df| > ContextLimit ==> c == fmt.header + Lines(fmt.line, df[..ContextLimit])
  {
    fmt.header + Lines(fmt.line, Head(df, ContextLimit))
  }

  /** A longer table reaches the prompt as its first twenty rows, in order, and
      nothing past them influences the data block. */
  lemma {:induction false} LongTableTruncated(fmt: CsvFormat, df: seq<Row>, more: seq<Row>)
    requires |df| == ContextLimit
    ensures Contexto(fmt, df + more) == fmt.header + Lines(fmt.line, df)
    ensures Contexto(fmt, df + more) == Contexto(fmt, df)
  {
    assert Head(df + more, ContextLimit) == df;
  }

  /** Row `i` of the first twenty sits in the data block right after the
      header and the lines of the rows before it. */
  lemma RowInContext(fmt: CsvFormat, df: seq<Row>, i: nat)
    requires i < |df| && i < ContextLimit
    ensures fmt.header + Lines(fmt.line, df[..i]) + fmt.line(df[i]) <= Contexto(fmt, df)
  {
    var h := Head(df, ContextLimit);
    assert h == df[..i] + [df[i]] + h[i + 1..];
    LinesAppend(fmt.line, df[..i] + [df[i]], h[i + 1..]);
    LinesAppend(fmt.line, df[..i], [df[i]]);
    assert Lines(fmt.line, [df[i]]) == fmt.line(df[i]) + Lines(fmt.line, []);
  }

  /** The role preamble for a language. */
  function Preamble(lang: string): string
  {
    if lang == English then EnglishPreamble else SpanishPreamble
  }

  /** The line that introduces the question, for a language. */
  function Ask(lang: string): string
  {
    if lang == English then EnglishAsk else SpanishAsk
  }

  /** The user prompt: the preamble, the data block, a line break, then the
      question introduced in the same language. */
  function Prompt(lang: string, contexto: string, pregunta: string): (p: string)
    ensures Preamble(lang) <= p
    ensures |pregunta| <= |p| && p[|p| - |pregunta|..] == pregunta
  {
    Preamble(lang) + contexto + ("\n" + Ask(lang)) + pregunta
  }

  /** The English texts are chosen exactly for "en" and the Spanish ones for
      every other language code. */
  lemma LanguageTexts(lang: string)
    ensures Preamble(lang) == EnglishPreamble <==> lang == English
    ensures Preamble(lang) == SpanishPreamble <==> lang != English
    ensures Ask(lang) == EnglishAsk <==> lang == English
    ensures Ask(lang) == SpanishAsk <==> lang != English
  {
    assert EnglishPreamble[0] == 'Y' && SpanishPreamble[0] == 'E';
    assert EnglishAsk[0] == 'A' && SpanishAsk[0] == 'R';
  }

  /** The prompt opens with the English preamble exactly when the language is
      "en" and with the Spanish one otherwise; the data block follows the
      preamble verbatim, then a line break and the question line of the same
      language, and the question closes the prompt verbatim. */
  lemma PromptLayout(lang: string, contexto: string, pregunta: string)
    ensures EnglishPreamble <= Prompt(lang, contexto, pregunta) <==> lang == English
    ensures SpanishPreamble <= Prompt(lang, contexto, pregunta) <==> lang != English
    ensures var p := Prompt(lang, contexto, pregunta);
            var k := |Preamble(lang)|;
            k + |contexto| <= |p| && p[k..k + |contexto|] == contexto
    ensures var p := Prompt(lang, contexto, pregunta);
            var k := |Preamble(lang)| + |contexto|;
            k <= |p| - |pregunta| && p[k..|p| - |pregunta|] == "\n" + Ask(lang)
    ensures var p := Prompt(lang, contexto, pregunta);
            |pregunta| <= |p| && p[|p| - |pregunta|..] == pregunta
    ensures Ask(lang) == EnglishAsk <==> lang == English
    ensures Ask(lang) == SpanishAsk <==> lang != English
  {
    LanguageTexts(lang);
    PromptPieces(Preamble(lang), contexto, "\n" + Ask(lang), pregunta);
    OpensWithOnePreamble(lang, Prompt(lang, contexto, pregunta));
  }

  /** A text that opens with a language's preamble opens with the English one
      exactly when the language is "en", and with the Spanish one otherwise. */
  lemma OpensWithOnePreamble(lang: string, p: string)
    requires Preamble(lang) <= p
    ensures EnglishPreamble <= p <==> lang == English
    ensures SpanishPreamble <= p <==> lang != English
  {
    assert EnglishPreamble[0] == 'Y' && SpanishPreamble[0] == 'E';
    assert p[0] == Preamble(lang)[0];
  }

  /** Where each of four concatenated pieces sits in the whole. */
  lemma PromptPieces(a: string, b: string, c: string, d: string)
    ensures var w := a + b + c + d;
            && a <= w
            && w[|a|..|a| + |b|] == b
            && w[|a| + |b|..|a| + |b| + |c|] == c
            && w[|a| + |b| + |c|..] == d
  {
    var w := a + b + c + d;
    assert w == a + (b + (c + d));
    assert w == (a + b) + (c + d);
    assert w == (a + b + c) + d;
  }

  /** The system message for a language. */
  function SystemContent(lang: string): string
  {
    if lang == English then EnglishSystem else SpanishSystem
  }

  /** `responder_pregunta` up to the call: the request it sends. */
  function Solicitud(lang: string, fmt: CsvFormat, df: seq<Row>, pregunta: string): (r: ChatRequest)
    ensures r.model == ModelName && |r.messages| == 2
    ensures r.messages[0].role == "system" && r.messages[1].role == "user"
    ensures r.messages[0].content == EnglishSystem <==> lang == English
    ensures lang != English ==> r.messages[0].content == SpanishSystem
    ensures r.messages[1].content == Prompt(lang, Contexto(fmt, df), pregunta)
  {
    ChatRequest(ModelName, [Message("system", SystemContent(lang)),
                            Message("user", Prompt(lang, Contexto(fmt, df), pregunta))])
  }

  /** For a table of any size, the user message is the prompt built on the data
      block of the first rows: it opens with the English preamble exactly when
      the language is "en" and with the Spanish one otherwise, holds the data
      block right after the preamble, then the question line, and ends with
      the question verbatim. */
  lemma SolicitudShape(lang: string, fmt: CsvFormat, df: seq<Row>, pregunta: string)
    ensures var u := Solicitud(lang, fmt, df, pregunta).messages[1].content;
            var c := Contexto(fmt, df);
            var k := |Preamble(lang)|;
            && (EnglishPreamble <= u <==> lang == English)
            && (SpanishPreamble <= u <==> lang != English)
            && k + |c| <= |u| && u[k..k + |c|] == c
            && k + |c| <= |u| - |pregunta| && u[k + |c|..|u| - |pregunta|] == "\n" + Ask(lang)
            && |pregunta| <= |u| && u[|u| - |pregunta|..] == pregunta
  {
    PromptLayout(lang, Contexto(fmt, df), pregunta);
  }

  /** Rows past the twentieth never change the request. */
  lemma SolicitudIgnoresLaterRows(lang: string, fmt: CsvFormat, df: seq<Row>, more: seq<Row>, pregunta: string)
    requires |df| >= ContextLimit
    ensures Solicitud(lang, fmt, df + more, pregunta) == Solicitud(lang, fmt, df, pregunta)
  {
    LongTableTruncated(fmt, df[..ContextLimit], df[ContextLimit..] + more);
    LongTableTruncated(fmt, df[..ContextLimit], df[ContextLimit..]);
    assert df[..ContextLimit] + (df[ContextLimit..] + more) == df + more;
    assert df[..ContextLimit] + df[ContextLimit..] == df;
  }
}
