# Solar Farm Insight: upload naming and loading

Solar Farm Insight is a Streamlit dashboard for exploring solar-farm sensor
readings. The user uploads one or more CSV files. The helper module
`app/utils.py` does two things with them:

- `process_name` turns a file name, for instance `solar_farm_data.csv`, into the
  display title `Solar Farm Data`. It removes every `.csv`, turns every `_`
  into a space, and applies Python's `str.title()`.
- `load_data` reads the uploaded files in upload order and builds a
  dictionary from display title to parsed table: one entry per distinct
  display title, where a later file with the same title overwrites the
  earlier parse.

This project models both functions in Dafny and proves what they guarantee.

The model has three modules:

- `PyString` (`pystring.dfy`) holds the two Python `str` methods the helper
  chains together. `Replace` is `str.replace`: one left-to-right scan,
  matches never overlap, and replaced text is never rescanned. `Count` is
  the matching `str.count`. `Title` is `str.title` restricted to ASCII: a
  letter is upper-cased when it starts the string or follows a non-letter.
  Every other letter is lower-cased. Non-letters, digits included, are kept.
  `TitleCased` states that rule as a property of the output, and the lemmas
  show it determines `Title` completely.
- `AppUtils` (`app_utils.dfy`) holds `ProcessName` and its properties, the
  specification function `Loaded` for `load_data`, and the method `LoadData`.
  `LoadData` is the source's loop, proved against `Loaded`. `pd.read_csv` is
  a function parameter `readCsv` that either returns a parsed value or fails.
  A failure stands for the exception that `load_data` lets propagate.
- `AppUtilsExamples` (`app_utils_examples.dfy`) holds concrete names: a
  typical upload name, `solar_farm_data.csv`; a `.csv` exposed by its
  removal; and two names that collide.

## Model

| member | source | states |
|---|---|---|
| PyString.Replace | app/utils.py:17 | `s.replace(pat, rep)` as one left-to-right scan that resumes after each match; its meaning is stated by ReplaceAbsent and ReplaceLeftmost, which characterise the result completely, and ReplaceLength |
| PyString.Count | app/utils.py:17 | the number of matches that scan replaces, never more than the string's length; ReplaceLength relates it to the replaced string's length |
| PyString.ReplaceAbsent | app/utils.py:17 | when the pattern does not occur, `replace` returns its input unchanged |
| PyString.ReplaceLeftmost | app/utils.py:17 | `replace` keeps everything before the leftmost match, substitutes the replacement, then continues after the match; with ReplaceAbsent this pins `replace` down completely |
| PyString.ReplaceLength | app/utils.py:17 | the result's length is the input's length plus, for each match, the replacement's length minus the pattern's |
| PyString.ReplaceCharAt | app/utils.py:17 | replacing one character by one character (`_` by a space) maps the string position by position and keeps its length |
| PyString.ReplaceKeepsAscii | app/utils.py:17 | replacing with ASCII text keeps an ASCII string ASCII |
| PyString.TitleFrom | app/utils.py:17 | the title-casing scan keeps the length of its input |
| PyString.Title | app/utils.py:17 | title-casing ASCII text yields ASCII text |
| PyString.TitleIsTitleCased | app/utils.py:17 | `title()` output has the input's length and letters (ignoring case); its non-letters are those of the input; each letter is upper-case exactly when it is first or follows a non-letter |
| PyString.TitleCasedUnique | app/utils.py:17 | at most one string is title-cased from a given input |
| PyString.TitleCharacterized | app/utils.py:17 | a string is `t.title()` if and only if it is title-cased from `t` |
| PyString.TitleIdempotent | app/utils.py:17 | title-casing twice gives the same result as title-casing once |
| PyString.TitleCasedHasNoCsv | app/utils.py:17 | title-cased text never contains a lower-case `.csv`, because the `c` after a `.` is upper-cased |
| AppUtils.Spaced | app/utils.py:17 | the first two steps of the chain, every `.csv` removed and then every `_` turned into a space; ASCII names stay ASCII; ProcessNameCasing shows `title()` is applied to exactly this text |
| AppUtils.ProcessName | app/utils.py:8-17 | the display title of an ASCII file name is ASCII |
| AppUtils.ProcessNameCasing | app/utils.py:17 | the display title is the name, with `.csv` removed and `_` turned into spaces, title-cased: letters raised exactly at word starts, every other character kept in place |
| AppUtils.ProcessNameNoUnderscore | app/utils.py:17 | no display title contains `_` |
| AppUtils.ProcessNameNoCsv | app/utils.py:17 | no display title contains a lower-case `.csv`, even one that was exposed by removing another |
| AppUtils.ProcessNameLength | app/utils.py:17 | a display title is four characters shorter than the name for each `.csv` the removal scan finds, and otherwise the same length |
| AppUtils.ProcessNameIdempotent | app/utils.py:17 | the display title of a display title is itself |
| AppUtilsExamples.ProcessNameExample | app/utils.py:17 | `solar_farm_data.csv` is shown as `Solar Farm Data` |
| AppUtilsExamples.ProcessNameExposedCsv | app/utils.py:17 | removing `.csv` from `..csvcsv` leaves `.csv`, which is not removed again; the display title is `.Csv` |
| AppUtilsExamples.CollidingTitles | app/utils.py:17 | `a_b.csv` and `A b` get the same display title, `A B` |
| AppUtils.Loaded | app/utils.py:20-33 | what `load_data` returns: the dictionary after inserting every file's parse under its display title in order, or the error of the first failing parse; it never has more entries than there are files; LoadedKeys, LoadedLastWins and LoadedSucceeds characterise its keys, values and success |
| AppUtils.LoadedKeys | app/utils.py:29-33 | after a successful load the dictionary's keys are exactly the display titles of the uploaded files |
| AppUtils.LoadedLastWins | app/utils.py:30-33 | the entry for a title holds the parse of the last file with that title |
| AppUtils.LoadedTwoSameTitle | app/utils.py:30-33 | two files with the same title leave a single entry, holding the second file's parse |
| AppUtils.LoadedSucceeds | app/utils.py:30-32 | loading succeeds if and only if every file parses |
| AppUtils.LoadedFirstError | app/utils.py:30-32 | a failed load reports the error of the first file that does not parse; every earlier file parsed |
| AppUtils.LoadedFailureExtends | app/utils.py:30-32 | once a prefix of the files fails to load, the whole list fails with the same error; later files are never reached |
| AppUtils.LoadData | app/utils.py:20-33 | the loop returns the dictionary `Loaded` describes, or the first parse error; an empty upload gives an empty dictionary; on success the keys are the display titles |

## Left out

- `pd.read_csv` (app/utils.py:32). Parsing a CSV file into a table is done by pandas, which is not part of this model. It becomes the parameter `readCsv`, an arbitrary function from an uploaded file to a value or an error. The model treats it as deterministic and reads each file once, as the loop does. Pandas details such as stream position are not modelled.
- PyString.Title: requires ASCII text and defines casing for ASCII letters only. Python's `str.title` also cases non-ASCII letters and can change the length (`ß` becomes `Ss`). It also has titlecase digraphs. None of that is modelled.
- AppUtils.ProcessName: requires an ASCII file name, because `Title` does. Every property proved about it holds only for ASCII names.
- AppUtils.LoadData: requires every uploaded file's name to be ASCII, for the same reason. `Loaded`, `Titles` and the `Loaded*` lemmas share that requirement.
- Dictionary order. A Python dictionary iterates keys in the order they were first inserted. `Loaded` gives a Dafny `map`, which has no order. The model proves which keys exist and what each one holds, not their order.
- The uploaded file object. `UploadedFile` keeps the name and the bytes sent. The content is only ever passed to `readCsv`.
- `report_null_columns`, `plot_entries`, `plot_correlation_heatmap` and `plot_scatter_matrix` are imported at app/utils/__init__.py:12-17. They are not part of this model, because `notebooks/utils.py` does not define them.
- `plot_statistical_summary` (notebooks/utils.py) is left out. It is matplotlib drawing, plus pandas resampling chosen by a method name looked up at run time. Its only arithmetic is the row count of the figure grid.
- The dashboard pages (`app/pages/*.py`) and `app/main.py` are left out. They are Streamlit widgets, session state and figure handling. They include the resampling and aggregation at app/pages/summary_statistics.py:57-59, which pandas carries out on floating-point data.
- `app/utils/__init__.py` is left out. It only manages imports: it extends `sys.path` and reloads a module.
