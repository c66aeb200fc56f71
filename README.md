# Finance chat bot: transaction extraction and message store

This project is a Dafny model of the logic at the centre of a Telegram finance assistant. A language model answers each user message. When that answer describes a transaction, it carries four labelled lines:

- `💸 Tipo: …`
- `🧾 Item: …`
- `🗂️ Categoria: …`
- `💰 Valor: R$ …`

The bot pulls a transaction record out of those lines and stores it. It also stores every chat message, so it can send the model the user's recent history.

There are three parts:

- **`parse_transaction`** (db.py) is in `Parser.dfy` (module `TransactionParser`). It uses:
  - `Text.dfy`: ASCII digits, Python's whitespace set, and reading digit strings as integers;
  - `Dates.dfy`: the processing date in `%Y-%m-%d` form, and a parser for that form.

  It runs four independent searches. Each search finds the leftmost position where its marker is followed by at least one character of its group:
  - `(.+)` for the three text fields;
  - `([\d\.,]+)` for the amount.

  The rules are:
  - Each text field is the rest of its line, stripped.
  - In the amount run, every comma becomes a point, and the run then goes through `float()`.
  - Any failure makes the whole result None.
  - The date is the day of processing. It is a parameter here, never read from the text.

  Amounts are exact decimals: `Decimal(units, scale)` stands for units / 10^scale.
- **The message and transaction store of db.py** is `Store.dfy`:
  - a class holding both tables, each with its AUTOINCREMENT counter;
  - `save_message` and `save_transaction` are methods that append a row;
  - `get_user_history` is a function of the state.
- **The earlier store in old_versions/db.py** is `LegacyStore.dfy`. It has messages only, plus `clear_user_history`.

Both stores share `History.dfy`. It holds the `messages` row type and the history query `SELECT … WHERE user_id = ? ORDER BY id DESC LIMIT ?` followed by `reversed`. The query is stated next to an independent reference reading: the last `n` of the user's rows, in table order. Lemmas prove the two equal, and prove what insertion and deletion do to every user's history.

Three behaviours of the code deserve stating, because a reader might expect otherwise:

- `"R$ 1.234,56"` does not parse. The comma becomes a point, and `float("1.234.56")` fails.
- `"R$ 1.234"` reads 1.234, not 1234.
- A marker followed only by blanks yields an empty field, not a failure.

## Model

| member | source | states |
|---|---|---|
| TransactionParser.ParseTransaction | db.py:60-77 | All or nothing. The result is present exactly when all four markers occur, each followed by an admissible character, and the amount converts. Then each field equals its own extraction and `data` is the processing date in ISO form. |
| TransactionParser.Search | db.py:63 | `re.search`: a position is reported exactly when the pattern occurs. The pattern matches there, and at no earlier position. |
| TransactionParser.Span | db.py:63 | The greedy `+`: a prefix of the input, made only of admitted characters, that ends at the input's end or at a character the group refuses. |
| TransactionParser.Captured | db.py:63-66 | `.group(1)`: present exactly when the pattern occurs, non-empty, and made only of admitted characters. Which characters it holds is stated by CapturedIsRun. |
| TransactionParser.CapturedIsRun | db.py:63-66 | Reference reading: at the leftmost match, the capture is the longest run of admitted characters right after the marker, ending at the end of the text or at the first refused character. |
| TransactionParser.StripLeading | db.py:63 | What it drops is all whitespace, and what is left starts with a non-space. |
| TransactionParser.StripTrailing | db.py:63 | What it drops is all whitespace, and what is left ends with a non-space. |
| TransactionParser.Strip | db.py:63-65 | `str.strip()`: a contiguous slice of the input, with only whitespace on either side of it, that neither starts nor ends with whitespace. |
| TransactionParser.StripKeepsOut | db.py:63-65 | Stripping only removes characters: a character absent from the line is absent from the field. |
| TransactionParser.StripBlank | db.py:63 | Stripping a string made only of whitespace leaves the empty string. |
| TransactionParser.Label | db.py:63-65 | A text field is present exactly when its marker occurs. It never contains a line break and has no whitespace at either end. |
| TransactionParser.LabelIsRestOfLine | db.py:63-65 | Reference reading: the field is the strip of the text from just after the leftmost marker match to the next line break or the end of the text. |
| TransactionParser.SpanIsRun | db.py:63-66 | The greedy `+` takes every admitted character up to the first one its group refuses, or to the end of the text. For `.+` that is the rest of the line. |
| TransactionParser.BlankLabel | db.py:63-65 | For any marker, anywhere in any reply: when the rest of the line after the leftmost match is only blanks, the field is empty, not a failure. |
| TransactionParser.BlankTipo | db.py:63 | Example: "💸 Tipo: " followed by blanks alone gives an empty type. |
| TransactionParser.CommasToPoints | db.py:66 | `replace(",", ".")`: same length, each comma replaced by a point, every other character kept. |
| TransactionParser.SeparatorsBecomePoints | db.py:66 | After the replacement, the number of points equals the run's number of points plus commas. |
| TransactionParser.ToFloat | db.py:67 | `float()` on digits and points succeeds exactly when there is a digit and at most one point. Its value is the digits read as one integer, scaled down by the number of digits after the point. |
| TransactionParser.AmountOf | db.py:66-67 | The run converts exactly when it has a digit and at most one separator, point or comma. The value is its digits as one integer, scaled by the digits after the separator. |
| TransactionParser.Amount | db.py:66-67 | An amount exists exactly when the value marker is followed by a run that is well formed in that sense. Its value is stated by AmountIsRun. |
| TransactionParser.AmountIsRun | db.py:66-67 | Reference reading: the amount is the conversion of the longest run of digits, points and commas right after the leftmost `💰 Valor: R$ `. |
| TransactionParser.Value | db.py:66 | The amount is never negative: the pattern admits no sign. |
| TransactionParser.SpanStopsAtBreak | db.py:63-66 | No capture runs across a line break: neither group admits one. |
| TransactionParser.CapturedInJoin | db.py:63-66 | In two blocks joined by a line break, each search captures from the first block if its marker occurs there, and from the second block otherwise. |
| TransactionParser.ParseIgnoresLineOrder | db.py:63-68 | Swapping two blocks of the reply changes nothing, as long as no marker is found in both. |
| TransactionParser.ParseIgnoresUnmarkedLines | db.py:63-68 | Lines that carry no marker (such as "📅 Data: …") change nothing, before or after the rest. |
| TransactionParser.AmountOfDigits | db.py:66-67 | A run of digits alone converts, to that whole number. |
| TransactionParser.AmountOfDecimal | db.py:66-67 | Digits, one point or comma, then digits, with at least one digit in all: it converts, to the digits read as one integer scaled down by the digits after the separator. |
| TransactionParser.AmountWithTwoSeparators | db.py:66-67 | A run with two separators anywhere, points or commas in any mix, gives no amount. |
| TransactionParser.AmountWithoutSeparator | db.py:66-67 | "120" reads 120. |
| TransactionParser.AmountWithComma | db.py:66-67 | "1,5" reads 1.5. |
| TransactionParser.AmountWithPoint | db.py:66-67 | "1.234" reads 1.234. |
| TransactionParser.AmountWithThousands | db.py:66-67 | "1.234,56" gives no amount. |
| TransactionParser.AmountWithoutDigits | db.py:66 | A reply that starts with the value marker, followed by something other than a digit, point or comma, gives no amount when the marker's emoji appears nowhere after it. |
| TransactionParser.AmountOfLetters | db.py:66 | "R$ abc" gives no amount. |
| Text.IsDigit | db.py:66 | `\d` read as ASCII: exactly the characters '0' to '9'. |
| Text.IsSpace | db.py:63-65 | What `strip()` removes: exactly the 29 characters for which Python's `str.isspace` holds. These are tab, line feed, U+000B, U+000C, carriage return, U+001C to U+001F, space, U+0085, U+00A0, U+1680, U+2000 to U+200A, U+2028, U+2029, U+202F, U+205F and U+3000. |
| Text.NumberAppend | db.py:67 | Reading the digits of a + b equals reading a, shifted by the length of b, plus reading b. |
| Dates.IsoDate | db.py:68 | `strftime("%Y-%m-%d")`: ten characters, with dashes at positions 4 and 7 and digits elsewhere. |
| Dates.Padded | db.py:68 | The zero-padded `%Y`, `%m` and `%d` fields: exactly `width` characters, all digits. |
| Dates.PaddedRoundTrip | db.py:68 | A zero-padded field reads back as the number it was made from. |
| Dates.ParseIsoDate | db.py:68 | The code never parses a date. This is the inverse of the `%Y-%m-%d` rendering, which IsoDateRoundTrip needs as its partner. Only valid dates come back from it. |
| Dates.IsoDateRoundTrip | db.py:68 | Parsing the formatted processing date gives that date back. |
| History.Where | db.py:45 | `WHERE user_id = ?`, and what `DELETE … WHERE user_id = ?` leaves: exactly the rows of, or not of, the user. |
| History.Newest | db.py:45 | `ORDER BY id DESC LIMIT n`: at most n rows, all of them the user's rows. |
| History.NewestDescending | db.py:45 | The rows the query reads come in strictly descending id order. |
| History.Reverse | db.py:48 | `reversed(rows)`: the same length, with element i taken from position length - 1 - i. |
| History.Entries | db.py:48 | The `{"role": role, "content": content}` list comprehension: one entry per row, in row order, carrying that row's role and content. |
| History.UserHistory | db.py:42-48 | `get_user_history`: at most n entries, equal to the (role, content) of the last n rows of the user in table order. |
| History.NewestIsWindow | db.py:45-48 | Reversing the newest-first limited read gives the last n rows of the user in table order. |
| History.HistoryLength | db.py:45-48 | The history has min(n, count) entries, where count is the number of the user's rows. |
| History.HistoryWindow | db.py:45-48 | The window holds only the user's rows, oldest first. |
| History.HistoryWindowIsNewest | db.py:45 | No row of the user outside the window is newer than a row inside it. |
| History.HistoryAfterInsert | db.py:38 | After an insert, the owner's history of length n ≥ 1 is the owner's previous history of length n - 1, followed by the new (role, content). |
| History.OtherHistoryAfterInsert | old_versions/db.py:20 | An insert does not change any other user's history. |
| History.WhereAscending | old_versions/db.py:36 | Filtering rows keeps them in ascending id order. |
| History.ClearedRowsGone | old_versions/db.py:36 | No row of the user survives the delete. |
| History.ClearedHistoryEmpty | old_versions/db.py:33-38 | After the delete, the user's history is empty, whatever its length. |
| History.ClearKeepsOthers | old_versions/db.py:36 | The delete leaves every other user's rows as they were: same rows, same ids, same order. |
| History.ClearKeepsOtherHistories | old_versions/db.py:36 | The delete leaves every other user's history as it was. |
| History.ClearIdempotent | old_versions/db.py:36 | Deleting twice leaves what deleting once leaves. |
| Store.Database.constructor | db.py:5-33 | `init_db` on a new file: both tables and both counters start empty. |
| Store.Database.SaveMessage | db.py:35-40 | Appends one row with the next id, larger than every earlier id, and changes nothing else. Afterwards the user's history ends with the new (role, content), and no other user's history changes. |
| Store.Database.GetUserHistory | db.py:42-48 | At most max_messages entries: the (role, content) of the user's last rows, oldest first. |
| Store.Database.SaveTransaction | db.py:50-58 | Appends one row carrying the six values and the next id. The messages table is untouched. |
| LegacyStore.Database.constructor | old_versions/db.py:3-15 | `init_db` on a new file: an empty table, with no id handed out. |
| LegacyStore.Database.SaveMessage | old_versions/db.py:17-22 | Appends one row whose id was never handed out before, not even to a row deleted since. The history effects are the same as in the current store. |
| LegacyStore.Database.GetUserHistory | old_versions/db.py:24-31 | At most max_messages entries: the (role, content) of the user's last rows, oldest first. |
| LegacyStore.Database.ClearUserHistory | old_versions/db.py:33-38 | Removes exactly the user's rows and keeps the counter. The user's history is then empty, every other history is unchanged, and a second clear would change nothing. |

## Left out

- SQLite itself is not modelled:
  - connections, commits, the SQL text and the `CREATE TABLE` statements;
  - a database file that already exists when `init_db` runs, which the constructors do not cover;
  - the failure SQLite reports once an AUTOINCREMENT counter reaches 2^63 - 1;
  - the `valor REAL` column: it holds the exact decimal.
- TransactionParser.ToFloat, TransactionParser.AmountOf: Python's binary floating point is replaced by exact decimals, so rounding, and overflow to `inf` for very long runs, are not modelled.
- Digits are ASCII only. Python's `\d` and `float()` also accept other Unicode decimal digits; that is not modelled.
- Whitespace for `strip()` is Python's `str.isspace` set.
- The processing date (`datetime.now()`) is a parameter. Its formatting is modelled only for years 1000 to 9999, because `%Y` below 1000 depends on the platform.
- History.UserHistory takes a limit of zero or more. A negative limit, which SQLite treats as "no limit", is not modelled.
- `max_messages` defaults to 10 in the code. Here callers always pass the limit explicitly.
- bot.py is not part of this model. That covers the Telegram handlers, the remote language-model call, the webhook server and the environment variables.
  - Its `respond` saves the user's message before it reads the history. Through `SaveMessage`'s contract, that history therefore ends with the message just saved.
- register_webhook.py is not part of this model: it is a one-shot HTTP script.
- The code has no date-range query, per-category total, summary rendering or purge command, so none is modelled.
