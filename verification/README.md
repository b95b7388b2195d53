# TemperatureProcessor — a Dafny model of the streaming aggregation core

This project models the core of `TemperatureProcessor` from the One Billion Row
Challenge solution in `src/using_python.py`. The processor reads `station;temperature`
rows and keeps a running minimum, maximum, sum and count per station. At the end it
reports `min/mean/max` for every station, sorted by station name.

The model has three parts:

- **Row parsing** (`_parse_row`, module `Rows`). A row that is already split into
  fields either becomes a `(station, temperature)` pair or is rejected.
  There are two error kinds: `IncompleteRow` stands for the `IndexError` and
  `InvalidNumber` stands for the `ValueError` raised by `float`.
- **Statistics update** (`_atualizar_estatisticas`).
  - Module `Dicts` models the four dictionaries exactly as the code keeps them. The
    defaults of `minimas`, `maximas`, `somas` and the `Counter` are +inf, -inf, 0.0
    and 0. `Counter` iteration order is first-count order.
  - Module `Stats` holds the fused one-record-per-station `Table`.
  - `Dicts.RecordFuses` proves that the two representations stay in step. The four
    dictionaries always hold the same stations, each record is created on the
    station's first valid reading, and it is never removed.
- **Result generation** (`_gerar_resultados`, module `Report`). Stations with a zero
  count are dropped, the mean is `sum / count`, entries are sorted by station name
  (code-point order) and each is rendered as `fmt(min) + "/" + fmt(mean) + "/" + fmt(max)`.

The loop in `processar` is modelled twice, in module `Engine`:

- `Process` is a left fold of parse-then-update over the rows on the fused table.
- `Run` is the loop as written. It updates the four dictionaries, collects every
  rejected row with its error, and then generates the report. It is proved to return
  `Generate(Process(rows), fmt)`.

Modelling choices:

- Temperatures are `real`, not IEEE doubles. Sums are therefore exact, and summation
  order does not matter.
- The `:.1f` rendering is the parameter `fmt: real -> string`. Its digits and
  rounding are not modelled.
- `float(text)` is modelled by `Decimal.ParseNum` on a sub-grammar:
  - surrounding whitespace as `float()` trims it, then an optional `+` or `-`. That is every `str.isspace` character except the ASCII separators U+001C..U+001F. CPython maps non-ASCII whitespace to a space before trimming, but leaves those four in place, and they make the text invalid. The station name is trimmed with `str.strip()`, which does remove them;
  - then digits with an optional `.` and fraction, with at least one digit overall (`12`, `-3.4`, `5.`, `.5`).
- `Decimal.ShowTenths` writes a value in tenths the way a measurements file does.
  `Decimal.ParseShowTenths` proves that `ParseNum` reads such text back exactly.
- Python's dictionary results are modelled as sequences of `(key, value)` items in
  iteration order.

## Model

| member | source | states |
|---|---|---|
| Text.Strip | src/using_python.py:78-79 | with `StrBlanks` this is `str.strip()`, and with `FloatBlanks` it is the trimming inside `float()`. The result is the slice of the field left once maximal blank runs are cut from both ends; everything cut is blank, and the result neither starts nor ends with a blank |
| Text.StripIdempotent | src/using_python.py:78 | stripping a station name a second time changes nothing |
| Text.LessIsStrictTotalOrder | src/using_python.py:108 | Python's string order (code point by code point, a proper prefix first) is irreflexive, transitive and total, so sorting by station name is well defined |
| Decimal.ParseNum | src/using_python.py:79 | `float(field)` on the modelled grammar: a blank field is rejected, a negative result only comes from a field whose stripped text starts with `-`, and a positive result never does |
| Decimal.ParseNumIgnoresPadding | src/using_python.py:79 | whitespace that `float()` trims around the temperature field does not change the parsed value |
| Decimal.BlankPrefixIgnored | src/using_python.py:79 | a leading character that `float()` treats as padding (space, tab, NEL, no-break space, the Unicode spaces) leaves the parse of any field unchanged |
| Decimal.SeparatorPrefixRejected | src/using_python.py:79 | a field that starts with one of U+001C..U+001F is rejected, whatever follows, although `str.isspace` holds of those characters |
| Decimal.ParseShowTenths | src/using_python.py:79 | a temperature written in tenths (`-12.3`) parses back to exactly that value, for every integer number of tenths |
| Rows.ParseRow | src/using_python.py:72-80 | a row with fewer than two fields fails with the incomplete-row error, and a row with at least two fails with the invalid-number error exactly when the second field does not parse; on success the station is `row[0]` stripped and the temperature is the value of `row[1]` |
| Rows.ExtraFieldsIgnored | src/using_python.py:76-80 | fields after the second never change the outcome of parsing |
| Rows.StationIsTrimmed | src/using_python.py:78 | a parsed station name carries no surrounding whitespace |
| Rows.ParseWrittenRow | src/using_python.py:72-80 | a row `[name, tenths-text]` with a trimmed name parses to that name and value |
| Stats.Seed | src/using_python.py:86-89 | the first reading creates a valid record that summarizes exactly that one reading |
| Stats.Observe | src/using_python.py:86-89 | a further reading raises the count by one and adds the reading to the sum; the new minimum is the smaller of the old minimum and the reading, the new maximum the larger; validity is preserved |
| Stats.ObserveExtends | src/using_python.py:86-89 | if a record summarizes a sequence of readings, then after one more reading it summarizes the longer sequence: count, exact sum, and a minimum and maximum drawn from the readings that bound them all |
| Stats.Mean | src/using_python.py:101 | the mean times the count gives back the sum, so the mean is `sum / count`; for a valid record it lies between the minimum and maximum |
| Stats.Update | src/using_python.py:82-89 | an update of station `k` raises its count by exactly one, seeds a fresh record and appends `k` to the iteration order on first touch, and leaves every other station's record unchanged |
| Stats.UpdateKeepsValid | src/using_python.py:82-89 | an update keeps the order listing each station once and every record valid (count at least 1, min not above max, sum between count times min and count times max) |
| Dicts.PyMin | src/using_python.py:87 | Python's `min(a, b)` on floats with infinities returns one of its arguments and nothing smaller exists among them |
| Dicts.PyMax | src/using_python.py:88 | Python's `max(a, b)` returns one of its arguments and nothing larger exists among them |
| Dicts.Record | src/using_python.py:82-89 | the update on the four dictionaries adds the station to each of them, raises its count by one, adds the reading to its sum, sets its minimum to whichever of the old minimum and the reading is smaller and its maximum to whichever is larger, appends the station to the counter's iteration order exactly when it had no count before, and leaves every other station's entries unchanged |
| Dicts.FirstTouchSeeds | src/using_python.py:86-89 | because the defaults are +inf, -inf, 0.0 and 0 (lines 39-42), a station's first reading sets minimum, maximum and sum to that reading and its count to 1 |
| Dicts.Fuse | src/using_python.py:39-42 | the fused table has a record for exactly the counted stations; when the four dictionaries are in step, the order lists each station once and no value is lost, because each record's minimum, maximum, sum and count are exactly that station's four dictionary entries |
| Dicts.RecordInStep | src/using_python.py:86-89 | after an update the four dictionaries still hold exactly the same stations, each with a finite minimum and maximum and a positive count |
| Dicts.RecordFuses | src/using_python.py:82-89 | the update on the four parallel dictionaries, viewed as fused records, is exactly the update on the one-record-per-station table |
| Report.SortByKey | src/using_python.py:108 | `sorted(items)` on distinct station names returns a permutation of its input in strictly ascending name order |
| Report.Collect | src/using_python.py:97-106 | walking the counter keeps exactly the stations with a nonzero count, each once, each with its minimum, mean and maximum |
| Report.SummaryOf | src/using_python.py:101-106 | the per-station triple is the station's own minimum, its mean and its own maximum; the mean times the count is the sum, and for a valid record the mean lies between the station's minimum and maximum |
| Report.Generate | src/using_python.py:91-112 | the result holds exactly the stations with a nonzero count, in strictly ascending name order (so each appears once), each with the text `fmt(min)/fmt(mean)/fmt(max)` of its own statistics |
| Report.GenerateIgnoresOrder | src/using_python.py:98-108 | the result depends only on the statistics, not on the order in which stations were first seen |
| Report.RenderSplits | src/using_python.py:110 | when no rendered number contains `/`, splitting an entry at `/` recovers the rendered minimum, mean and maximum in that order |
| Engine.Step | src/using_python.py:58-63 | one loop iteration: a rejected row leaves the table unchanged; a parsed row seeds its station's record with the reading on first touch and otherwise folds the reading into it (new minimum, maximum, sum and a count one higher) and leaves every other station's record and presence as they were; the table invariant is preserved |
| Engine.Process | src/using_python.py:57-63 | the fold over all rows ends in a valid table: each station listed once, each record with count at least 1 and min not above max |
| Engine.ProcessSummarizes | src/using_python.py:57-60 | after the run a station has an entry exactly when it has a valid row, and its record is the summary of its valid readings: count, exact sum, and min and max that are among them and bound every one |
| Engine.CountIsValidRows | src/using_python.py:86 | a station's count equals the number of its rows that parsed, and is at least 1 |
| Engine.InvalidRowChangesNothing | src/using_python.py:58-63 | a rejected row leaves every statistic unchanged, and processing continues identically after it |
| Engine.AllRejectedGivesEmptyReport | src/using_python.py:57-68 | empty input, or input whose every row is rejected, leaves the table empty and produces an empty result |
| Engine.StepsCommute | src/using_python.py:86-89 | two consecutive rows leave the same statistics in either order |
| Engine.SwapAdjacentRows | src/using_python.py:57-68 | swapping two adjacent rows anywhere in the input changes neither the statistics nor the result |
| Engine.Rejections | src/using_python.py:61-63 | the rejected rows, each with its index and error kind, in file order; each listed row really fails to parse with that error |
| Engine.RejectionsComplete | src/using_python.py:61-63 | every row that fails to parse is among the rejections |
| Engine.Run | src/using_python.py:54-68 | the loop over the four dictionaries returns the same result as the fold over the fused table, and reports exactly the rejected rows with their errors, in order |

## Left out

- Logging setup, the `tqdm` progress bar and the `NUMERO_DE_LINHAS` constant (lines 12-18, 52, 57, 65, 95) are diagnostics only. The per-row warning is modelled as the list of rejections that `Run` returns.
- Opening the file, UTF-8 decoding, the `Path.exists` / `FileNotFoundError` check, the `TypeError` check in `__init__` and the re-raise of I/O errors (lines 31-37, 54-55, 64-66) are I/O plumbing. The model starts from rows already read.
- `csv.reader` tokenisation (line 56) is a library whose quoting and escaping rules are not part of this model. Rows arrive as already-split `seq<string>`.
- Decimal.ParseNum: accepts only sign, digits and an optional fraction. It rejects exponents (`1e3`), `inf`, `nan`, `infinity`, digit-group underscores and non-ASCII decimal digits, all of which Python's `float()` accepts. So a row such as `X;nan` is rejected by the model but accepted by the code.
- Engine.Process: temperatures are exact reals. IEEE double rounding of the running sum (line 89) and of the mean (line 101) is not modelled, so sums here are exact and independent of order. Signed zero is not modelled either. For `-0.0`, `float()` gives negative zero, `min` and `max` keep it, and the sum `0.0 + -0.0` is positive zero. So a station whose only reading is `-0.0` prints `-0.0/0.0/-0.0`, while here all three values are the one real `0.0`.
- Report.Generate: the text of `:.1f` (line 110), including its rounding, is the parameter `fmt`. The model states how entries are composed from `fmt`, not which digits `fmt` produces.
- Engine.Run: models one call of `processar` on a newly constructed processor, starting from the empty dictionaries of lines 39-42. The dictionaries belong to the object and are never reset, so a later call on the same object adds to what the earlier call left. Its result is the fold over both row sequences, which is not modelled.
- The `__main__` block and the printing of results (lines 116-131) are the entry point and output channel.
- The code has no operation that combines two tables, so none is modelled.
