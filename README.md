# Titanic survival prediction app — a Dafny model of its core

The application is a single Streamlit script, `app.py`. The user fills in a
passenger form: a free-text name, class, sex, age, siblings/spouses,
parents/children, fare, port and whether there was a cabin. Pressing Predict
validates the form, turns it into the 14-column feature vector a pre-trained
classifier expects, asks the classifier for its class and probability of
survival, and appends a row to the session's prediction history. One history
row can then be selected by its label (name and timestamp) and downloaded under
a file name derived from that label.

This project models that core:

- `text.dfy` (module `Text`): the Python string operations the core relies on,
  restricted to ASCII. These are `str.strip()`, `str.title()`, the
  one-character scan a regular expression makes, and `str.replace()`.
- `titles.dfy` (module `Titles`): `extract_title`, `map_title`, and the two
  different ways the script derives a title. The features use the stripped,
  title-cased name. The history row uses the name exactly as typed.
- `validation.dfy` (module `Validation`): `validate_inputs`, its three
  independent checks and the order in which it reports them.
- `features.dfy` (module `Features`): `preprocess_input`, the column order
  `ordered_columns`, and the reordering of the record into the classifier's
  input row.
- `history.dfy` (module `History`): the history row type and the session
  ledger. The ledger is a class whose list of rows is appended to in
  place. This file also models selection by label and the download file name.
- `app.dfy` (module `App`): the Predict button. Validation gates everything.
  The features are built and ordered, the classifier is consulted, the result
  text is chosen, and exactly one row, built by `NewEntry` as `new_entry`
  builds it, is appended.

The classifier is opaque. It is passed to `App.Predict` as two functions of the
ordered feature row: its predicted class and its probability of survival. The
clock is a `timestamp` parameter.

Where the behaviour needs a name, the model follows the code:

- Selecting a label returns every history row whose label matches, in ledger
  order. It does not return "the entry or none". Two predictions for the same
  name within the same second therefore select both rows, and the selected
  download holds both.
- The title the classifier sees and the title stored in the history can differ.
  For `"smith, mr. john"` the classifier sees `Mr`, because the name is
  title-cased first. The history stores `Other`, because `map_title` is given
  the raw `"mr"`.

## Model

| member | source | states |
|---|---|---|
| `Text.StripEmpty` | app.py:88 | `name.strip()` is empty exactly when every character of the name is whitespace |
| `Text.StripNonEmpty` | app.py:47 | a non-empty `strip()` result is the stretch from the first to the last non-whitespace character, and both its ends are non-whitespace |
| `Text.StripDropLeading` | app.py:47 | stripping what follows the leading whitespace gives the same string as stripping the whole |
| `Text.TitleCaseKeepsNonLetters` | app.py:53 | `title()` keeps every non-letter in place and turns letters into letters |
| `Text.TitleCaseStrip` | app.py:53 | `strip().title()` equals `title().strip()` |
| `Text.Find` | app.py:46 | the scan stops at the first occurrence of the character at or after the start, or at the end when there is none |
| `Text.ReplaceChar` | app.py:169 | `replace(':', '-')` keeps the length and changes exactly the colons into dashes |
| `Text.ReplaceAbsent` | app.py:169 | `replace` leaves a string with no occurrence of the pattern unchanged |
| `Titles.LeftmostMatchIsFirstComma` | app.py:46 | the leftmost match of `,\s*([^\.]*)\.` starts at the first comma of the name |
| `Titles.TitleStretch` | app.py:46 | the text between comma and period exists only when the name has a comma, and it holds no period |
| `Titles.ExtractTitleMatch` | app.py:45-47 | when the pattern matches, the title is the stripped text between the leftmost match's comma and the first period after it |
| `Titles.ExtractTitleNoMatch` | app.py:45-47 | when the pattern matches nowhere, the title is `"Other"` |
| `Titles.ExtractTitleIsGroupStripped` | app.py:46-47 | the title is the regular expression's group, which begins after the whitespace `\s*` takes from the stretch, stripped |
| `Titles.ExtractTitleShape` | app.py:45-47 | `extract_title` never fails, and its result holds no period and has no whitespace at either end |
| `Titles.ExtractTitleBraund` | app.py:45-47 | the name field's own example, `"Braund, Mr. Owen Harris"`, gives `"Mr"` |
| `Titles.ExtractTitleIgnoresPadding` | app.py:53-54 | stripping the name before extracting does not change the title |
| `Titles.ExtractTitleOfTitleCase` | app.py:53-54 | extracting from the title-cased name gives the title-cased title |
| `Titles.MapTitle` | app.py:49-50 | `Mr`, `Miss` and `Mrs` map to themselves, and every other string maps to `Other` |
| `Titles.MapTitleOfName` | app.py:49-50 | every category's own spelling, `"Other"` included, maps back to that category |
| `Titles.MapTitleIdempotent` | app.py:49-50 | mapping a mapped title again changes nothing |
| `Titles.FeatureTitleFromRawTitle` | app.py:53-55 | the feature title is the raw title title-cased and then mapped, so it agrees with the history's title (line 141) whenever the typed title is already capitalised |
| `Titles.LowerCaseNameTitles` | app.py:53-55 | for `"smith, mr. john"` the classifier's title is `Mr` while the history's title (line 141) is `Other` |
| `Validation.MessagesDistinct` | app.py:88-93 | the three messages are different texts |
| `Validation.Problems` | app.py:86-94 | each problem appears exactly when its check fails, at most once and in check order (name, fare, age), and the list is empty exactly when the form is acceptable |
| `Validation.ValidateInputs` | app.py:86-94 | the three checks all run in order and the list built equals `Problems` |
| `Validation.ReportAtMostThree` | app.py:86-94 | a report holds at most three problems |
| `Validation.ReportsDetermined` | app.py:86-94 | any list that meets the report condition is the one `validate_inputs` builds |
| `Validation.ZeroFareAlone` | app.py:90-91 | a zero fare with a proper name and age reports exactly the fare problem |
| `Validation.ZeroFareAndBlankName` | app.py:88-91 | a blank name and a zero fare are both reported, name first |
| `Features.ColumnsListEachOnce` | app.py:104-109 | `ordered_columns` has 14 entries, every column appears in it, and none appears twice |
| `Features.FinalAge` | app.py:57 | the final age is never 0, and any non-zero age is kept |
| `Features.FamilyCount` | app.py:58 | FamilySize is at least 1 for non-negative counts |
| `Features.TitleColumn` | app.py:81 | the column set for a title is named `"Title_"` followed by the title |
| `Features.PreprocessInput` | app.py:52-83 | the record holds every column with its expected value, and its title comes from the stripped, title-cased name |
| `Features.EncodeFeatures` | app.py:57-82 | the record built with zero title columns, then with the title's column set to 1, holds every column with its expected value |
| `Features.SetTitleColumn` | app.py:75-82 | setting the title's column to 1 in the initial record completes it, and no key is added |
| `Features.SelectColumns` | app.py:110 | the row holds the values of the named columns in the given order |
| `Features.RowLayout` | app.py:104-110 | the classifier's input row is the record's 14 values in the trained order |
| `Features.TitleOneHot` | app.py:75-82 | the four title columns sum to 1, and only the title's own column is 1 |
| `Features.NumericFeatures` | app.py:57-58 | Age 0 becomes 28, ages 1 to 100 are kept, Age is never 0, and FamilySize is SibSp + Parch + 1 ≥ 1 |
| `Features.CategoricalFeatures` | app.py:59-62 | Sex_male is 1 iff male, Has_Cabin is 1 iff "Yes", the two port flags are never both 1, and both are 0 iff the port is C |
| `App.ResultText` | app.py:114 | the result is "Would Have Survived" iff the predicted class is 1, and "Would Not Have Survived" otherwise |
| `App.Predict` | app.py:97-149 | rejected iff validation reports something, in which case the history is unchanged; otherwise the features are built, the classifier sees exactly the ordered row, and exactly one row is appended after the old ones |
| `App.EntryAgreesWithFeatures` | app.py:130-145 | the history row's Pclass, Age, SibSp, Parch, Fare, Has_Cabin and FamilySize equal the numbers the classifier saw |
| `App.EntryTitleMatchesFeatures` | app.py:141 | when the typed title is capitalised, the feature column of the history row's Title is the one set to 1 |
| `App.EntryNameAndLabel` | app.py:131 | an accepted name is stored non-empty with no surrounding whitespace, and the row's label is that name, the separator (space, bar, space) and the timestamp |
| `History.Matching` | app.py:163 | the selected rows are rows of the history with the label, and every row with the label is selected |
| `History.MatchingAppend` | app.py:163 | filtering a concatenation filters each part and keeps them in order |
| `History.SameLabelKeepsBoth` | app.py:157-163 | two rows sharing a label are both selected, the earlier one first |
| `History.UniqueLabelSelectsOne` | app.py:157-163 | a row whose label no other row shares is selected alone |
| `History.Ledger.constructor` | app.py:26-31 | a new session's history is empty |
| `History.Ledger.Append` | app.py:146-149 | the new row becomes the last row, and every earlier row stays where it was |
| `History.Ledger.Select` | app.py:163 | the scan returns exactly the rows `Matching` describes |
| `History.SelectAfterAppend` | app.py:146-163 | after an append, a selection gives what it gave before, followed by the new row if its label is the one selected |
| `History.DownloadName` | app.py:169 | the file name holds no colon, and it starts with `titanic_prediction_` and ends with `.csv` |
| `History.DownloadNameOfLabel` | app.py:157-169 | for a row whose name and timestamp hold no bar character, the file name is the name and the timestamp joined by `_`, with every colon made a dash |
| `History.SeparatorOverlap` | app.py:157-169 | for a name made of a bar-free part w followed by a blank and a bar, and a bar-free timestamp, the blank-bar-blank replaced is the one that ends the name: the result is w, `"_"`, the separator's bar, a blank and the timestamp |

## Left out

- The Streamlit user interface is left out. This covers the page text, the
  widgets' rendering and defaults, the error, success and info boxes, the
  progress bar, and the history table and download buttons as widgets.
  `Features.FromWidgets` states the widgets' option lists and number bounds.
  Only the feature lemmas require it, because validation and `preprocess_input`
  accept any values.
- Loading the model with joblib, and the classifier itself, are left out. The
  classifier is two opaque functions of the ordered feature row.
- The matplotlib pie chart and the percentage formatting of the confidence are
  presentation only. The confidence is stored unformatted, as the source does.
- The clock (`datetime.now().strftime`) is left out. The timestamp is a
  parameter, and nothing is assumed about its format except where a lemma says
  so.
- pandas mechanics are left out: DataFrames, `concat`, and CSV serialisation of
  the downloads. The history is a sequence of row records.
- The `label` column is left out as stored data. The source writes it into the
  session history itself (app.py:153 binds the session frame, app.py:157 adds
  the column in place) and drops it only from the downloaded copies (app.py:163
  and app.py:174). So from the second prediction on, the column stays in the
  history table, and the newest row's cell is empty until line 157 recomputes
  every label. The model computes `History.Label` on demand instead. Selection
  and the contents of the downloads are the same either way. The one-row feature frame is a map from the 14
  columns to reals, with integers embedded as reals. The full-history download's
  fixed file name is not modelled.
- `validate_inputs` returns message strings. The model returns the matching
  `Problem` values, and `Validation.Message` gives their exact texts.
- Whitespace and letter case are ASCII only. Python's `str.strip()`,
  `str.title()` and the regular expression's `\s` also treat non-ASCII
  whitespace and cased letters.
- The regular expression engine is replaced by the equivalent search for the
  first comma and the first period after it. `Titles.ExtractTitleMatch` and
  `Titles.ExtractTitleNoMatch` tie this search to the leftmost-match definition.
- History.DownloadNameOfLabel: states the file name only for names and
  timestamps without a bar character, because with a bar the separator may not
  be the " | " that is replaced. The form accepts any typed name.
  `History.DownloadName` models `replace` as Python runs it for every label, and
  `History.SeparatorOverlap` states the result for one such family of names:
  a bar-free part followed by a single blank and bar.
- Streamlit's rerun model is left out. The select box at app.py:158-161 is
  drawn only in the run where the Predict button was pressed. Choosing another
  label reruns the script with the button not pressed, so the box and its
  download are not drawn again. Each time the box is drawn it is new and shows
  the first label. In the running app the single-row download is therefore for
  the oldest row's label. `History.Ledger.Select` and `History.DownloadName`
  are stated for any label.
- The Age widget keeps the age between 0 and 100, so the validation's age check
  never fails from the form. The model checks it anyway, as the source does.
