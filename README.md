# Werkbon report: cleaning, conversion and filtering

This project models the data path of the work-order ("werkbon") report page
in `app.py`. Mechanics' notes ("monteur notities") are cleaned of leftover
RTF font tables by `clean_tekst`. `load_data_from_json` turns the notes into
report rows. While the page renders, the rows are narrowed twice. First, in
database mode, a period select box chooses a cutoff relative to
`datetime.now()`. Then three select boxes narrow the rows by month, customer
("klant") and mechanic ("monteur"), where "Alle" means no filter.

The model has these modules:

- `Wrappers`: `Option` and `Result`.
- `Json`: the field values a note can carry. There are three: a missing value
  (`None`), `NaN` (pandas' float missing value) and a string. The module also
  models `dict.get` and Python truthiness.
- `Seqs`: an order-preserving `Filter`, with its laws. This is what a pandas
  boolean mask does to a frame's rows.
- `CleanText`: `clean_tekst`. The two regular-expression substitutions and
  `str.strip()` are written out as explicit functions on strings, over one
  whitespace predicate: the character set of `str.isspace`, which is also what
  `\s` matches in a `str` pattern.
- `ReportRows`: the row-building loop of `load_data_from_json`, as a method
  with a loop invariant. The loop is specified by a left fold, and lemmas give
  its result in closed form.
- `RowFilters`: the period cutoff and the three select-box filters, as methods
  specified by `Filter`.

Python exceptions the loop can raise become a `Failure`:

- slicing a `NaN` `melddatum` (NaN is truthy but cannot be sliced);
- calling `.strip()` on a status that is not a string.

`json.get()` defaults follow the code. A key that is present but null keeps
its null value rather than taking the default. Equality of a pandas column
with a string is false for null and NaN cells.

`clean_tekst` is not idempotent: for `"x; dAb; foo"`, the first pass removes `"x;"`, which lets the
`d`-rule fire and gives `"Ab; foo"`. A second pass then removes `"Ab;"` and
gives `"foo"`. `CleanText.CleanTekstNotIdempotent` proves this
counterexample.

## Model

| member | source | states |
|---|---|---|
| CleanText.CleanTekst | app.py:234-244 | A missing value (None or NaN) cleans to ""; a string cleans to a text no longer than itself. |
| CleanText.CleanTekstIsStripped | app.py:244 | Every cleaned text has no whitespace at either end. |
| CleanText.StripFontTable | app.py:241 | The first substitution returns a suffix of the text, which is shorter or the same text; which prefix it removes is stated by the two lemmas below. |
| CleanText.FontTableMatchIsLongest | app.py:241 | The prefix removed by `^[A-Za-z;]+;\s*\n*` is in the pattern's language, and no longer prefix of the text is; when the pattern does not fire, no prefix matches at all. |
| CleanText.StripFontTableRemovesLongestMatch | app.py:241 | The first substitution leaves a text without any match unchanged, and deletes exactly the longest matching prefix from a text that has a match. |
| CleanText.NoSemicolonInRunUnchanged | app.py:241 | A text whose leading letter/semicolon run has no `;` after its first character passes the first substitution unchanged. |
| CleanText.StripLeadingD | app.py:243 | The second substitution returns a suffix of the text; when it cuts is stated by the lemma below. |
| CleanText.StripLeadingDSpec | app.py:243 | The substitution `^\s*d([A-Z])` → `\1` cuts the text to start at the capital letter exactly when leading whitespace, a `d` and a capital letter are present; otherwise it changes nothing. |
| CleanText.Strip | app.py:244 | `strip()` returns a text no longer than its argument; which slice it returns is stated by the lemma below. |
| CleanText.StripSpec | app.py:244 | `strip()` returns the unique substring of the text that has only whitespace around it and none at its own ends. |
| CleanText.CleanTekstIsSubstring | app.py:234-244 | The cleaned text is one contiguous piece of the original text. |
| CleanText.CleanTekstRemovesFontList | app.py:240-241 | "Arial;Symbol;\nHallo" cleans to "Hallo". |
| CleanText.CleanTekstRemovesLeadingD | app.py:242-243 | " dWerk" cleans to "Werk": the leading whitespace and the stray `d` go, and the capital stays. |
| CleanText.CleanTekstKeepsLowerCaseD | app.py:243 | "dwerk" is left as it is, since a `d` is removed only before a capital letter. |
| CleanText.CleanTekstFirstPass | app.py:241-244 | "x; dAb; foo" cleans to "Ab; foo": removing the font table exposes a `d` that the second rule then removes. |
| CleanText.CleanTekstSecondPass | app.py:241-244 | "Ab; foo" cleans to "foo". |
| CleanText.CleanTekstNotIdempotent | app.py:234-244 | Some text gives a different result when cleaned a second time. |
| ReportRows.ToRow | app.py:217-228 | A note's row holds the work-order fields, with "" for missing `werkbon_code` and `type` and "Onbekend" for missing `klant` and `monteur`. `notitie` is the cleaned text and `status` the stripped status. For a truthy `melddatum`, `datum` is its first 10 characters and `maand` its first 7, a prefix of `datum`; otherwise they are "" and "Onbekend". The conversion fails exactly when `melddatum` is NaN or the status is not a string, and the NaN failure takes precedence. |
| ReportRows.FailureIsFinal | app.py:212-229 | Once the loop has raised, the remaining notes do not change the outcome. |
| ReportRows.LoadDataFromJson | app.py:210-231 | The loop skips notes without a work order, appends one row per other note and stops at the first exception; its result is the left fold `ConvertNotes` over the notes. |
| ReportRows.ConvertNotesSucceeds | app.py:212-229 | The load succeeds exactly when every note with a non-empty work order converts. |
| ReportRows.ConvertNotesRows | app.py:212-229 | A successful load yields exactly one row per note with a non-empty work order, in input order, each the conversion of its note. |
| ReportRows.ConvertNotesError | app.py:212-229 | A failed load reports the exception of the first note with a work order that fails to convert; every earlier such note converts. |
| RowFilters.NarrowThrice | app.py:443-450 | Applying the three select-box filters in turn keeps exactly the rows that meet all three choices, in order. |
| RowFilters.ApplySelection | app.py:443-450 | The filtered rows are the rows that match every choice other than "Alle", in input order. Every kept row matches, every matching input row is kept, and with "Alle" everywhere the rows are unchanged. Each matching row is kept as often as it occurs, and a non-matching row never, so `len(gefilterd)` counts every matching row. |
| RowFilters.PeriodDays | app.py:396-405 | "Laatste maand" gives 30 days, "Laatste 3 maanden" 90, "Laatste 6 maanden" 180 and "Laatste jaar" 365, each offset for that label only. Every other label, "Alles" among them, gives no cutoff. |
| RowFilters.FilterPeriod | app.py:393-410 | Outside database mode or without a cutoff the rows are unchanged. Otherwise the result is the rows, in order, whose date parses to an instant at or after `now` minus the period; a row with an unparseable date is dropped. Every copy of a kept row stays. |
| RowFilters.CutoffInDays | app.py:395-409 | Because `now` carries the time of day, a row dated exactly N days back is kept only when the page is loaded at exactly midnight; later dates are always kept and earlier ones never. |
| RowFilters.SinceCutoffTwice | app.py:408-409 | Cutting at two cutoffs in turn is the same as cutting once at the later one. |
| RowFilters.ShorterPeriodKeepsFewer | app.py:396-409 | The rows kept for a shorter period are a subsequence of those kept for a longer one. |
| Seqs.Filter | app.py:409 | A boolean mask keeps a subsequence of the rows, in their original order. Every kept row satisfies the mask, and every row satisfying it is among those kept. |
| Seqs.FilterCounts | app.py:409 | A boolean mask keeps each row satisfying it as often as it occurs, and no copy of any other row. |
| Seqs.FilterCompose | app.py:443-450 | Two masks applied in turn keep what their conjunction keeps. |

## Left out

- The Streamlit page itself is not modelled: layout, widgets, the load button and `st.session_state`. The select-box choices, the period label and the data-source mode are parameters.
- The password check is not modelled, and neither are its credentials.
- Database access is not modelled. This covers `combine_data_for_rapport` and the queries behind it. In database mode the period filter takes its rows as a parameter.
- Reading `data/sample_data.json` (`load_json_data`) is not modelled, nor are caching and the empty-file case. The loop takes the already parsed `monteur_notities` list.
- Summary metrics are not modelled: the three `st.metric` counts (including `nunique`), the table and text views, and the CSV export.
- Building the select-box option lists (app.py:418-420) is not modelled; the filters take any choice. This leaves out one exception. `sorted(rapport_data['klant'].unique())` at app.py:419 has no `pd.notna` guard, unlike `monteur` at app.py:420. It raises TypeError when a null or NaN `klant` sits beside a string `klant`. `Row.klant` can hold such a value, since a `klant` key present with a null value keeps it. The page then stops before the select-box filters at app.py:443-450 run, and the model does not capture that. A `maand` is always a string here, so its list cannot fail this way. A null choice is not modelled either: the choices are strings. When every `klant` is null (or every one is NaN), the list sorts without error and offers `None`, and choosing it keeps no rows.
- ReportRows.ToRow: only string, None and NaN field values are modelled. JSON numbers, booleans, arrays and objects are not, and neither is a truthy `werkbon` that is not a dictionary.
- CleanText.CleanTekst: `str(tekst)` of a non-string value is not modelled; only string, None and NaN inputs are.
- RowFilters.FilterPeriod: `pd.to_datetime(errors='coerce')` is an abstract per-value parser (`parse`) returning an instant in microseconds or nothing (NaT). Pandas' format inference over the whole column is not modelled.
- RowFilters.FilterPeriod: `datetime.now()` is the parameter `now`.
- Strings are sequences of code points. Lone surrogates and Unicode categories beyond the listed whitespace set play no part.
