# shuibiao — a verified model of the "查水表" Telegram bot

The bot hands out stock "we suggest you cooperate with the investigation"
questions and keeps score of them:

- at start-up, `init` reads a corpus file with one base64-encoded question per
  line into a list (`questions_list`) and into a dictionary keyed by the MD5
  hex digest of the text (`questions_dict`);
- `/question` sends a random question from the list, stripped of surrounding
  whitespace, and adds one to that text's count in the persisted ledger
  `bot_data`;
- an inline query offers three questions drawn from distinct positions of the
  list, plus a statistics entry whose text is `get_stats()`: the grand total
  and the top of the ranking;
- choosing an inline candidate looks its id up in the dictionary and counts
  the stripped text; choosing the statistics entry counts nothing;
- `/stats` lists every ledger entry, most counted first, then the total.

The model is split along those responsibilities:

| module | file | what it holds |
|---|---|---|
| `Text` | `text.dfy` | `str.strip()` with Python's whitespace set, string order by code point, `str(int)` |
| `Base64` | `base64.dfy` | `base64.standard_b64decode` on a text line, as the non-strict decoder of CPython 3.7 and later behaves, with a reference encoder |
| `Pool` | `pool.dfy` | reading one corpus line, loading a whole corpus, and the link between list and dictionary |
| `Ledger` | `ledger.dfy` | the usage ledger, its increment and its total |
| `Reporting` | `reporting.dfy` | the ranking `sorted((-v, k) ...)`, the cut-off of `get_stats`, and the two report texts |
| `Shuibiao` | `shuibiao.dfy` | the bot's state as a class (`questions`, `index`, `usage`) and one method per handler |

Points where the model follows the code closely:

- A corpus line with a character outside ASCII raises `ValueError` inside
  `standard_b64decode`. Decoded bytes that are not UTF-8 raise
  `UnicodeDecodeError`. `init` catches only `binascii.Error`, so either
  exception leaves `init`, which runs before `main`, and ends the whole
  process: no handler ever serves the questions loaded before that line.
  `Pool.Load` and `Shuibiao.Bot.Init` report the line number instead, and
  the model's bot is then a process that never started.
- Base64 errors that are caught: a lone data character in the last quantum
  ("excess data characters") and a missing pad ("incorrect padding"). Those
  lines are skipped. Characters outside the alphabet, including the line
  break, are ignored, and the first complete padding ends the decoding.
- The list keeps duplicates. A later question with the same digest replaces
  the earlier one in the dictionary. Nothing rejects an empty pool:
  `/question` then fails (`IndexError`), and an inline query with fewer than
  three questions fails (`ValueError`). Neither touches the ledger.
- Ledger keys are stripped texts. Dictionary values are the unstripped
  decoded lines.
- `get_stats` always shows the first three ranked entries, then keeps going
  while the count equals the previous one. Every entry tied with the third
  is shown, and so is the whole ranking when it has three entries or fewer.
- An inline id missing from the dictionary raises `KeyError` before anything
  is counted.

## Model

| member | source | states |
|---|---|---|
| Text.Strip | shuibiao.py:58 | `str.strip()` never lengthens the text; its full characterisation is `StripSpec` |
| Text.StripSpec | shuibiao.py:58 | `strip()` returns a contiguous slice of the text, with no whitespace at either end and only whitespace removed around it |
| Text.StripTrimmed | shuibiao.py:58 | the stripped text neither starts nor ends with a whitespace character |
| Text.StripIdempotent | shuibiao.py:102 | stripping an already stripped text changes nothing, so a ledger key is stable under re-stripping |
| Text.StrLess | shuibiao.py:68 | Python `<` on `str`: a text is never below itself, and a proper prefix comes before the longer text |
| Text.StrLessTransitive | shuibiao.py:68 | Python's code-point string order, which breaks count ties in the ranking, is transitive |
| Text.StrLessTotal | shuibiao.py:68 | two distinct texts are always ordered one way or the other |
| Text.Decimal | shuibiao.py:71 | `str(int)` in an f-string: a minus sign exactly for negative numbers, and decimal digits everywhere else |
| Text.DecimalRoundTrip | shuibiao.py:66 | the decimal rendering of a count or total in the reports reads back as the same integer, minus sign included |
| Base64.Feed | shuibiao.py:36 | one data character advances the quantum position by one modulo four and writes one byte for every character after the first of a quantum, appending only |
| Base64.Decode | shuibiao.py:36 | decoding fails with the non-ASCII error exactly when the line has a character above 127 |
| Base64.Scan | shuibiao.py:36 | the decoder never loses bytes already emitted, and its own failures are always `binascii.Error` kinds |
| Base64.EncodeIsAscii | shuibiao.py:36 | a standard base64 encoding is pure ASCII, so the `ValueError` path never fires on it |
| Base64.DecodeEncodedLine | shuibiao.py:36 | every byte string, base64-encoded and read back with or without its trailing line break, decodes to itself |
| Base64.ExcessCharacterRejected | shuibiao.py:36-41 | any whole number of encoded groups followed by one more data character and a line break is a caught `binascii.Error` (excess data characters), so the line is skipped |
| Base64.DecodeExample | shuibiao.py:36 | the corpus line `5L2g5aW977yf` decodes to the UTF-8 bytes of "你好？" |
| Pool.ReadLine | shuibiao.py:35-41 | a line is skipped exactly when it is ASCII and decoding raises `binascii.Error`; it yields a question exactly when it decodes to UTF-8 text, and that text; it aborts on non-ASCII input or non-UTF-8 bytes, and only then |
| Pool.Load | shuibiao.py:31-41 | loading appends at most one question per line, and an aborting line lies within the corpus |
| Pool.LoadConcat | shuibiao.py:34-38 | loading is line by line in file order: two parts give the concatenation of their questions |
| Pool.LoadSkipsFailedLine | shuibiao.py:36-41 | a line raising `binascii.Error` leaves the loaded list, and so the dictionary, unchanged, and the load goes on |
| Pool.LoadAppendsDecodedLine | shuibiao.py:36-38 | a line decoding to UTF-8 text appends exactly that text to the list |
| Pool.LoadStopsAtAbort | shuibiao.py:33-41 | once an uncaught exception ends the load, later lines change nothing |
| Pool.LoadedFromLines | shuibiao.py:36-38 | every loaded question is the decoded text of some corpus line |
| Pool.DuplicatesKept | shuibiao.py:38 | the same line twice gives the same question twice in the list |
| Pool.Register | shuibiao.py:39 | the dictionary's keys after loading are the old keys plus the digest of every loaded question |
| Pool.RegisterLatest | shuibiao.py:39 | a digest is filed under the last loaded question that has it: a later duplicate digest overwrites an earlier one |
| Pool.RegisterUntouched | shuibiao.py:39 | a digest that no loaded question has keeps its previous entry |
| Pool.RegisterKeepsInvariant | shuibiao.py:38-39 | after loading, every listed question is filed under its digest, and every filed text is listed under its own digest |
| Pool.LookupCandidate | shuibiao.py:102 | an inline id is always a dictionary key holding a text with that digest; when no other pooled question shares the digest, it maps back to the candidate's own text |
| Ledger.Bump | shuibiao.py:59 | an increment adds the text if absent (count 1), adds one if present, and leaves every other entry unchanged |
| Ledger.TotalWithout | shuibiao.py:65 | the sum of the ledger does not depend on the order in which entries are added up |
| Ledger.BumpTotal | shuibiao.py:59 | each counted delivery raises the total by exactly one |
| Ledger.BumpPositive | shuibiao.py:59 | increments keep every count at least one |
| Ledger.TotalOfPositive | shuibiao.py:65 | a ledger of positive counts totals at least its number of entries |
| Ledger.BumpAll | shuibiao.py:103 | after a run of deliveries the keys are the old keys plus every delivered text |
| Ledger.BumpAllCounts | shuibiao.py:103 | each text's count grows by the number of times it was delivered: no increment is lost |
| Ledger.BumpAllTotal | shuibiao.py:65 | the total grows by the number of deliveries |
| Reporting.Before | shuibiao.py:68 | the order of `(-count, text)` tuples: a higher count always comes first, never after a lower one |
| Reporting.BeforeTransitive | shuibiao.py:68 | the ranking order (count descending, text ascending on ties) is transitive |
| Reporting.BeforeTotal | shuibiao.py:68 | two entries with distinct texts are always ordered |
| Reporting.Insert | shuibiao.py:68 | inserting an entry with a fresh text keeps the sequence sorted and adds exactly that entry |
| Reporting.InsertRanks | shuibiao.py:68 | inserting a new ledger entry into a ranking of the rest gives a ranking of the extended ledger |
| Reporting.Ranking | shuibiao.py:68 | every ledger has a ranking: sorted, containing exactly its (text, count) pairs |
| Reporting.RankingKeys | shuibiao.py:68 | the texts listed in a ranking are exactly the ledger's keys |
| Reporting.RankingLength | shuibiao.py:68 | a ranking has one entry per ledger key and no text twice |
| Reporting.RankingUnique | shuibiao.py:109 | the ranking of a ledger is unique, so `sorted` leaves no freedom |
| Reporting.RankingOrder | shuibiao.py:68 | counts never increase down the ranking, and equal counts appear in text order |
| Reporting.RankingTotal | shuibiao.py:107 | the counts of the ranking add up to the ledger total |
| Reporting.TopCount | shuibiao.py:67-73 | the cut-off shows at least three entries (or all), then exactly the run tied with the third, and stops at the first count change |
| Reporting.TopCountKeepsTies | shuibiao.py:68-70 | every shown entry has a strictly higher count than every hidden one, so a tie is never split |
| Reporting.CutoffAt | shuibiao.py:69-70 | the loop's break test fires exactly at the cut-off position |
| Reporting.EntryLine | shuibiao.py:71 | an entry renders as its text, then a part with no line break, then a final line break (a text holding a line break of its own still spans several lines) |
| Reporting.TopHeader | shuibiao.py:66 | the `get_stats` header is exactly one line, ended by a line break |
| Reporting.TotalLine | shuibiao.py:111 | the total line of `/stats` contains no line break, so the reply does not end with one |
| Reporting.LinesPrefix | shuibiao.py:110 | the lines of a prefix of the ranking start the lines of the whole ranking |
| Reporting.TopReport | shuibiao.py:64-74 | the statistics text starts with the header, and a ledger of at most three entries is shown in full |
| Reporting.FullReport | shuibiao.py:106-111 | the `/stats` reply starts with the very lines the statistics entry shows, in the same order |
| Reporting.EmptyReports | shuibiao.py:107-111 | an empty ledger gives the header alone and the total line alone |
| Reporting.TieExample | shuibiao.py:67-73 | counts 5, 5, 3, 3 show all four entries, ties ordered by text, total 16 |
| Reporting.RenderTop | shuibiao.py:66-74 | the `get_stats` loop produces the header with the total followed by exactly the lines up to the cut-off |
| Reporting.Sort | shuibiao.py:109 | the sorted list of the ledger is a ranking of it |
| Reporting.Sum | shuibiao.py:65 | the summing loop yields the ledger total |
| Shuibiao.Sample | shuibiao.py:84 | `random.sample(..., 3)` fails exactly when the pool has fewer than three entries; otherwise it gives three distinct valid positions |
| Shuibiao.QuestionArticle | shuibiao.py:77-83 | a candidate's id is the digest of the text it offers, and that text is both its description and its message |
| Shuibiao.StatsArticle | shuibiao.py:87-93 | the statistics entry carries the sentinel id and the report as its message |
| Shuibiao.Bot.constructor | shuibiao.py:22-23 | the bot starts with an empty pool and the ledger as restored from persistence |
| Shuibiao.Bot.Init | shuibiao.py:31-41 | `init` appends the loaded questions, files them by digest, keeps list and dictionary linked, and reports the aborting line |
| Shuibiao.Bot.Question | shuibiao.py:58-59 | on an empty pool nothing is sent or counted; otherwise the sent text is some pooled question stripped, and it is counted once |
| Shuibiao.Bot.GetStats | shuibiao.py:64-74 | the statistics text is the total header followed by the ranking up to the tie-aware cut-off |
| Shuibiao.Bot.InlineAnswer | shuibiao.py:76-95 | three candidates from distinct positions, each under the digest of its text, then the statistics entry; a pool of fewer than three fails |
| Shuibiao.Bot.ChosenResult | shuibiao.py:98-103 | the statistics id counts nothing, an unknown id fails without counting, and any other id counts the stripped dictionary text |
| Shuibiao.Bot.Stats | shuibiao.py:106-111 | `/stats` is every ranked entry's line followed by the total line |
| Shuibiao.Bot.ChooseOffered | shuibiao.py:98-103 | choosing the candidate offered for a pooled question whose digest no other pooled question shares counts that question's stripped text; if its digest equals the statistics id, nothing is counted |
| Shuibiao.ChosenCandidateIsCounted | shuibiao.py:102 | when no other pooled question shares its digest, a candidate's id is not the statistics id when its digest is not, is a dictionary key, and maps back to the candidate's own text |
| Shuibiao.DuplicateOffersShareId | shuibiao.py:78 | two pool positions holding the same text give their inline articles the same id |

## Left out

- Telegram I/O is not modelled: sending messages and inline answers, reply-to ids, the thumbnail URL, command registration and the error handler. The handlers return what they would send instead.
- The event loop is not modelled. Handlers are taken to run one at a time.
- `PicklePersistence` is not modelled. The ledger is given to the constructor as restored.
- Logging is left out.
- `print` in the error handler is left out.
- Reading the corpus file is not modelled. The file path, `open`, and splitting into lines (each keeping its line break) are out; `Init` takes the lines.
- MD5 is a parameter of the bot (`md5`) rather than an implementation.
- Shuibiao.Bot.Init: after an uncaught `ValueError` or `UnicodeDecodeError` the real process exits; the model returns the line number and its bot object stays usable, so the handlers are only meaningful after a load that returned nothing.
- Which pooled questions share an MD5 digest is not decided. Where a candidate's own text must come back from the dictionary, the contracts require that no other pooled question shares its digest (`Pool.UniqueDigest`).
- Whether any question's digest equals the statistics id `000…0` depends on MD5 and is not decided. `Shuibiao.Bot.ChooseOffered` states both outcomes.
- What Telegram does with an inline answer holding two articles under one id is not modelled. `Shuibiao.DuplicateOffersShareId` shows a corpus with a repeated line can produce one.
- UTF-8 decoding is a parameter of the bot (`utf8`), returning nothing on malformed input.
- Randomness is nondeterministic choice. The distributions of `random.choice` and `random.sample` are not modelled.
- Shuibiao.Sample: the order and uniformity of `random.sample` are not modelled. The contract states only what holds for every draw.
- Base64.Decode models the non-strict decoder of CPython 3.7 and later. Older interpreters treat data after the padding differently.
- `tasks.py` is not part of this model.
- The `start` handler is not part of this model. It only replies with a fixed text.
- `main` is not part of this model. It only wires the handlers to the framework.
