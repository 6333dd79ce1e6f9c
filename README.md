# Cerberu churn dashboard — Dafny model of its core logic

Cerberu is a small Streamlit dashboard. A user uploads a spreadsheet of
subscription records. The dashboard shows three churn figures and a bar
chart of subscription statuses. The user can then ask questions that are
answered by a chat-completion model. An optional voice onboarding captures
the user's name and registers it in a `usuarios` table.

This project models the four pieces of that program that carry logic:

- `table.dfy` (module `Table`): the loaded table as a sequence of rows. The
  status cell is `Missing | Value(text)`: a blank spreadsheet cell is NaN in
  the data frame, and NaN equals no string. The module also holds counting
  over sequences and an independent definition of a count as the set of
  positions that hold the value.
- `churn.dfy` (module `Churn`): `calcular_churn`. It counts the rows whose
  status is exactly `"cancelado"`, counts all rows, and divides. The rate is
  a `real`, and it is an explicit 0 when there is no row.
- `tally.dfy` (module `StatusTally`): the `value_counts()` tally that the
  status chart plots. The tally is built in three steps: the present status
  texts, their distinct values in first-seen order, and a stable insertion
  sort by descending count.
- `question.dfy` (module `Question`): the request that `responder_pregunta`
  sends. It takes the CSV text of the first 20 rows (`head(20)`). The CSV
  rendering is an abstract header plus an abstract function from a row to
  its line. It adds a language-selected preamble and system message, and
  the question. The model stops where the request leaves the program.
- `onboarding.dfy` (module `Onboarding`): the onboarding gate and the user
  registry. `Session` holds the optional session name and `Registro` holds
  the `usuarios` rows as a map keyed by `usuario_id`. `Session.PressStart`
  is the start button. `Registro.InsertarUsuario` is the
  insert-or-do-nothing write. Speech recognition and the database connection
  are parameters: `recognised` is what recognition returned, and `conn` is
  null when connecting failed.

`app.py` holds unresolved merge-conflict text, with a `HEAD` side and a
side from commit `a2d4b46`. The model takes each part from the side that has
it:

- The prompt preamble and the system message follow `a2d4b46`, where both are
  chosen by `selected_lang`: English for `"en"` and Spanish otherwise. The
  `HEAD` side sends the Spanish texts whatever the language.
- The onboarding block, `insertar_usuario` and the `usuarios` schema with a
  `nombre` column and a nullable `email` follow `HEAD`, the only side that has
  them.

Points where the code decides a case:

- The code tests `if nombre:`, so an empty recognised string onboards nobody
  (`Onboarding.Accepts`).
- pandas leaves the order among statuses with equal counts to its sort. The
  model keeps first-seen order among equal counts, and no contract promises it.
- `value_counts()` drops NaN cells, so the tally's counts add up to the rows
  whose status is not blank. They equal the number of rows only when no
  status is blank (`StatusTally.CountsCoverEveryRow`).

## Model

| member | source | states |
|---|---|---|
| `Table.Estados` | app.py:134 | the `estado` column has one cell per row, and cell i is row i's status |
| `Table.Count` | app.py:134 | the number of matches never exceeds the length, and it is zero exactly when the value does not occur |
| `Table.CountIsPositions` | app.py:134 | the count equals the number of positions that hold the value, which is an independent definition of the count |
| `Table.CountPlusWithout` | app.py:134-135 | the entries equal to a value plus the entries that differ from it make up the whole sequence |
| `Churn.CalcularChurn` | app.py:133-137 | the total is the row count; the canceled count is at most the total; the rate lies in [0,1]; it is 0 when there are no rows; when there are rows, rate × total = canceled |
| `Churn.CanceledAreExactMatches` | app.py:134 | the canceled count is the number of rows whose status equals `"cancelado"` exactly |
| `Churn.CanceledPlusRemaining` | app.py:134-135 | canceled rows plus non-canceled rows add up to the total |
| `Churn.RateZeroIffNoneCanceled` | app.py:136 | the rate is 0 if and only if no row is canceled, and this includes the empty table |
| `Churn.RateOneIffAllCanceled` | app.py:136 | the rate is 1 if and only if the table is non-empty and every row is canceled |
| `Churn.TenRowsFourCanceled` | app.py:133-137 | ten rows with four canceled give rate 0.4, count 4 and total 10 |
| `Churn.EmptyTable` | app.py:135-136 | the empty table gives (0, 0, 0) and no division error |
| `StatusTally.Present` | app.py:140 | the non-blank status texts are exactly the statuses present in the column; with the blank cells they make up the column |
| `StatusTally.PresentCount` | app.py:140 | dropping blank cells does not change any status's count |
| `StatusTally.Distinct` | app.py:140 | the distinct statuses contain no duplicate, and they are exactly the statuses that occur |
| `StatusTally.SortDescending` | app.py:140 | sorting is a permutation (same multiset of entries), and the result has non-increasing counts |
| `StatusTally.SortSum` | app.py:140 | sorting keeps the sum of the counts |
| `StatusTally.SortNoDup` | app.py:140 | sorting a tally with distinct statuses keeps the statuses distinct |
| `StatusTally.CountedSum` | app.py:140 | when every text is listed exactly once, the per-status counts add up to the number of texts |
| `StatusTally.ValueCounts` | app.py:140 | the tally has non-increasing counts, and every entry's status occurs in the column |
| `StatusTally.TallyCountsAreExact` | app.py:140 | every tally entry's count is the exact number of rows with its status, and it is positive |
| `StatusTally.TallyCoversStatuses` | app.py:140 | a status has a tally entry if and only if some row carries it |
| `StatusTally.ValueCountsSpec` | app.py:140 | one entry per distinct status; non-increasing counts; each count exact and positive; counts plus blank cells add up to the row count |
| `StatusTally.CountsCoverEveryRow` | app.py:140 | with no blank status, the counts add up to the number of rows |
| `Question.Head` | app.py:151 | `head(n)` keeps min(n, row count) rows, and they are the first rows in their order |
| `Question.LinesAppend` | app.py:151 | the CSV lines of two blocks of rows are the first block's lines followed by the second block's |
| `Question.Contexto` | app.py:151 | a table of at most 20 rows reaches the data block whole; a longer one reaches it as its first 20 rows, after the CSV header |
| `Question.LongTableTruncated` | app.py:151 | a table longer than 20 rows reaches the data block as its first 20 rows, and later rows do not change it |
| `Question.RowInContext` | app.py:151 | each of the first 20 rows appears in the data block, after the header and the lines of the rows before it |
| `Question.LanguageTexts` | app.py:155-160 | the English preamble and question line are chosen if and only if the language is `"en"`, and the Spanish ones if and only if it is not |
| `Question.Prompt` | app.py:152-161 | the prompt opens with the language's preamble and ends with the question verbatim |
| `Question.PromptLayout` | app.py:152-161 | the prompt opens with the English preamble if and only if the language is `"en"`, and with the Spanish one if and only if it is not; the data block follows the preamble verbatim; then come a line break and the question line of the same language; the question ends the prompt verbatim |
| `Question.Solicitud` | app.py:162-172 | the request names `gpt-4` and has exactly two messages, a system message then a user message; the system message is the English one if and only if the language is `"en"`, and the Spanish one otherwise; the user message is the prompt built on the data block of the table |
| `Question.SolicitudShape` | app.py:150-172 | for a table of any size, the user message opens with the English preamble if and only if the language is `"en"` and with the Spanish one if and only if it is not, holds the data block of the first rows right after the preamble, then a line break and the question line of the same language, and ends with the question verbatim |
| `Question.SolicitudIgnoresLaterRows` | app.py:151 | rows after the 20th never change the request |
| `Onboarding.LowerChar` | app.py:187 | an ASCII or Latin-1 capital becomes the letter 32 code points above it (its lower-case form); any other character is kept; the result is never such a capital |
| `Onboarding.Lower` | app.py:187 | `lower()` keeps the length, leaves no capital, keeps every non-capital, and turns each capital into its lower-case letter |
| `Onboarding.SameKeyIgnoringCase` | app.py:187 | two names get the same `usuario_id` if and only if they have the same length and the same letters up to ASCII/Latin-1 case |
| `Onboarding.LowerIdempotent` | app.py:187 | lowering twice is lowering once, so a registry key contains no upper-case letter |
| `Onboarding.NewUser` | app.py:187 | the row written for a name has the lowered name as id, the name as given, and no e-mail |
| `Onboarding.InsertIfAbsent` | app.py:100-103 | the id is present afterwards; its row is the old row if there was one, otherwise the new row; every other key and row is unchanged |
| `Onboarding.InsertTwiceKeepsFirst` | app.py:100-103 | inserting the same id twice leaves the first row; the table grows by one only if the id was new |
| `Onboarding.Registrations` | app.py:179-188 | after a series of onboardings every earlier row key is still present, every name's lowered id is present, and no other key appears |
| `Onboarding.RegistrationsKeep` | app.py:103 | a row, once written, survives every later onboarding unchanged |
| `Onboarding.FirstRegistrationWins` | app.py:179-188 | across a series of onboardings, the first name to arrive under a lower-case key is the row that key keeps |
| `Onboarding.Accepts` | app.py:179-182 | a session that already has a name never onboards again; a failed recognition (`None`) or an empty name never onboards; a recognised non-empty name on a session without one always does |
| `Onboarding.Registro.InsertarUsuario` | app.py:98-105 | the table afterwards is the insert-if-absent of the new row, and every row still sits under its own id |
| `Onboarding.Session.constructor` | app.py:179 | a new session has no user name |
| `Onboarding.Session.CurrentPhase` | app.py:179-191 | the session is in the no-user phase exactly when it holds no name; otherwise its phase carries the session's name |
| `Onboarding.Session.PressStart` | app.py:179-188 | the session name is set only for a recognised, non-empty name on a session without one. Only then is the lower-cased id inserted, if a connection exists. Otherwise neither the session nor the table changes. After an onboarding with a connection, the user's key holds a row whose id is that key |

## Left out

- Streamlit rendering: page titles, metric widgets, the `:.2%` formatting, captions and the second, duplicated UI branch (app.py:176-250). This is presentation, and the duplicated branch adds no logic.
- The matplotlib bar chart and its positional green/red/blue colours (app.py:141-148). This is presentation; only the tally it plots is modelled.
- `pd.read_excel` and the `to_datetime(..., errors='coerce')` coercion (app.py:127-131). This is library parsing whose rules are not visible here. Rows carry their date cells already as a timestamp or NaT.
- `to_csv(index=False)` formatting (app.py:151). This is library formatting. The header and the row line are parameters (`Question.CsvFormat`), and only the choice and order of the rows are modelled. The model renders each row on its own. pandas can format a column depending on the whole block: a datetime column may print date-only only when every value is at midnight. So one row can change the text of the others, which `Question.RowInContext` does not capture.
- The completion call `ChatCompletion.create`, its reply and the API-key check (app.py:122-124, 162-173). These are a network service and configuration. The model stops at the request.
- Speech recognition and text-to-speech (app.py:107-120, 193-194, 214-222). These are device I/O. The recognition result is the `recognised` parameter of `Session.PressStart`, and `None` stands for `UnknownValueError`.
- The database connection and `CREATE TABLE IF NOT EXISTS` (app.py:70-95). These are database I/O. A failed connection is a null `conn`, and the table is assumed to exist. The two `usuarios` schemas at app.py:87-92 are merge-conflict residue. The model keeps the nullable `email` of the `HEAD` side; the other side's `email TEXT UNIQUE NOT NULL` would reject the `email=None` insert.
- The greeting when the question mentions the user's name (app.py:214-217). It is a UI message and sends nothing.
- Onboarding.Lower: lowers ASCII and Latin-1 capitals only. Python's `str.lower()` also covers every other Unicode script, and some characters become two.
- Onboarding.LowerChar: maps ASCII and Latin-1 capitals only. Every other character is kept, although Python's `lower()` maps capitals of other scripts too ('Ā' becomes 'ā').
- Onboarding.SameKeyIgnoringCase: "up to case" means ASCII/Latin-1 case. Python gives "Ā" and "ā" one `usuario_id`, and the model gives them two.
- Churn.CalcularChurn: the rate is an exact `real`. Python computes `len(cancelados) / total` as a rounded binary float, so "rate × total = canceled" holds in the model only; for one canceled row in 49, Python's `1/49*49` is `0.9999999999999999`.
- StatusTally.ValueCountsSpec: does not state the order among statuses with equal counts, because pandas leaves it to its sort.
- Concurrent onboardings from several sessions. The single-threaded model runs them one after another (`Onboarding.Registrations`).
