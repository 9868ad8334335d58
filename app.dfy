/** The Predict button: validate the form, build the features, ask the
    classifier, and add a row to the session's history. */
module App {
  import opened Text
  import opened Titles
  import opened Validation
  import opened Features
  import opened History

  const Survived: string := "Would Have Survived"
  const NotSurvived: string := "Would Not Have Survived"

  /** The sentence shown for the class the classifier picks. */
  function ResultText(prediction: int): (r: string)
    ensures r == Survived || r == NotSurvived
    ensures r == Survived <==> prediction == 1
    ensures r == NotSurvived <==> prediction != 1
  {
    assert |Survived| != |NotSurvived|;
    if prediction == 1 then Survived else NotSurvived
  }

  /** The history row new_entry builds for a prediction. The name is stored
      stripped and title-cased, but the title is taken from the name as
      typed. */
  function NewEntry(inp: RawInput, result: string, confidence: real, timestamp: string): Entry {
    Entry(
      name := TitleCase(Strip(inp.name)),
      pclass := inp.pclass,
      age := FinalAge(inp.age),
      sibSp := inp.sibSp,
      parch := inp.parch,
      fare := inp.fare,
      hasCabin := if inp.hasCabin == "Yes" then 1 else 0,
      familySize := FamilyCount(inp.sibSp, inp.parch),
      sex := inp.sex,
      embarked := inp.embarked,
      title := TitleName(HistoryTitle(inp.name)),
      prediction := result,
      confidence := confidence,
      timestamp := timestamp)
  }

  /** What pressing Predict shows: the validation messages, or the features,
      the vector handed to the classifier and the classifier's answer. */
  datatype Outcome =
    | Rejected(errors: seq<Problem>)
    | Predicted(features: map<Column, real>, row: seq<real>, result: string, confidence: real)

  /** The Predict button. Validation comes first and, when it reports
      anything, nothing else happens. Otherwise the features are built,
      reordered into the trained column order and handed to the classifier
      (its class and its probability of survival, given as predict and
      predictProba), and one row is appended to the history. The clock
      reading is the timestamp parameter. */
  method Predict(ledger: Ledger, inp: RawInput, predict: seq<real> -> int,
                 predictProba: seq<real> -> real, timestamp: string)
    returns (outcome: Outcome)
    modifies ledger
    ensures outcome.Rejected? <==> !Acceptable(inp.name, inp.fare, inp.age)
    ensures outcome.Rejected? ==>
      Reports(outcome.errors, inp.name, inp.fare, inp.age)
      && ledger.entries == old(ledger.entries)
    ensures outcome.Predicted? ==>
      Encodes(inp, FeatureTitle(inp.name), outcome.features)
      && (forall i :: 0 <= i < |Columns| ==> Columns[i] in outcome.features)
      && outcome.row == SelectColumns(outcome.features, Columns)
      && outcome.result == ResultText(predict(outcome.row))
      && outcome.confidence == predictProba(outcome.row)
      && ledger.entries ==
           old(ledger.entries) + [NewEntry(inp, outcome.result, outcome.confidence, timestamp)]
  {
    var errors := ValidateInputs(inp.name, inp.fare, inp.age);
    if errors != [] {
      return Rejected(errors);
    }
    var data := PreprocessInput(inp);
    var row := SelectColumns(data, Columns);
    var prediction := predict(row);
    var confidence := predictProba(row);
    var result := ResultText(prediction);
    ledger.Append(NewEntry(inp, result, confidence, timestamp));
    outcome := Predicted(data, row, result, confidence);
  }

  /** The history row repeats the numbers the classifier saw: Age with the
      same default, FamilySize and Has_Cabin by the same rules, and the
      copied numbers unchanged. */
  lemma EntryAgreesWithFeatures(inp: RawInput, title: Title, data: map<Column, real>,
                                result: string, confidence: real, timestamp: string)
    requires Encodes(inp, title, data)
    ensures var e := NewEntry(inp, result, confidence, timestamp);
      data[Pclass] == e.pclass as real
      && data[Age] == e.age as real
      && data[SibSp] == e.sibSp as real
      && data[Parch] == e.parch as real
      && data[Fare] == e.fare
      && data[HasCabin] == e.hasCabin as real
      && data[FamilySize] == e.familySize as real
  {
    assert Pclass in data && data[Pclass] == Expected(inp, title, Pclass);
    assert Age in data && data[Age] == Expected(inp, title, Age);
    assert SibSp in data && data[SibSp] == Expected(inp, title, SibSp);
    assert Parch in data && data[Parch] == Expected(inp, title, Parch);
    assert Fare in data && data[Fare] == Expected(inp, title, Fare);
    assert HasCabin in data && data[HasCabin] == Expected(inp, title, HasCabin);
    assert FamilySize in data && data[FamilySize] == Expected(inp, title, FamilySize);
  }

  /** The history's title and the feature title agree when the title in the
      typed name is already capitalised: the column set in the features is
      the one named by the history row's Title. */
  lemma EntryTitleMatchesFeatures(inp: RawInput, data: map<Column, real>,
                                  result: string, confidence: real, timestamp: string)
    requires Encodes(inp, FeatureTitle(inp.name), data)
    requires TitleCase(ExtractTitle(inp.name)) == ExtractTitle(inp.name)
    ensures var e := NewEntry(inp, result, confidence, timestamp);
      data[TitleColumn(MapTitle(e.title))] == 1.0
  {
    FeatureTitleFromRawTitle(inp.name);
    MapTitleOfName(HistoryTitle(inp.name));
    TitleOneHot(inp, FeatureTitle(inp.name), data);
  }

  /** An accepted name gives the row a non-empty name without surrounding
      whitespace, and the row's label is that name, " | " and the timestamp. */
  lemma EntryNameAndLabel(inp: RawInput, result: string, confidence: real, timestamp: string)
    requires NameGiven(inp.name)
    ensures var e := NewEntry(inp, result, confidence, timestamp);
      |e.name| > 0
      && !IsSpace(e.name[0]) && !IsSpace(e.name[|e.name| - 1])
      && Label(e) == TitleCase(Strip(inp.name)) + " | " + timestamp
  {
    var w := Strip(inp.name);
    StripNonEmpty(inp.name);
    TitleCaseKeepsSpaces(w);
  }
}
