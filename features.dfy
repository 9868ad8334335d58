/** preprocess_input and the column order: turning the form's raw answers
    into the 14 numbers the classifier was trained on. */
module Features {
  import opened Titles

  /** What the form collects. Sex, Embarked and Has_Cabin stay the strings the
      select boxes hand over; Fare is a decimal. */
  datatype RawInput = RawInput(
    name: string,
    pclass: int,
    sex: string,
    age: int,
    sibSp: int,
    parch: int,
    fare: real,
    embarked: string,
    hasCabin: string)

  /** The values the form's widgets can produce: the option lists of the
      select boxes and radio button, and the bounds of the number inputs. */
  predicate FromWidgets(inp: RawInput) {
    inp.pclass in {1, 2, 3}
    && (inp.sex == "male" || inp.sex == "female")
    && 0 <= inp.age <= 100
    && 0 <= inp.sibSp <= 10
    && 0 <= inp.parch <= 10
    && inp.fare >= 0.0
    && (inp.embarked == "S" || inp.embarked == "C" || inp.embarked == "Q")
    && (inp.hasCabin == "Yes" || inp.hasCabin == "No")
  }

  /** The 14 columns of the record preprocess_input builds. */
  datatype Column =
    | Pclass | Age | SibSp | Parch | Fare
    | HasCabin | FamilySize | SexMale
    | EmbarkedQ | EmbarkedS
    | TitleMiss | TitleMr | TitleMrs | TitleOther

  /** The column's key in the record and in the trained model's schema. */
  function ColumnName(c: Column): string {
    match c
    case Pclass => "Pclass"
    case Age => "Age"
    case SibSp => "SibSp"
    case Parch => "Parch"
    case Fare => "Fare"
    case HasCabin => "Has_Cabin"
    case FamilySize => "FamilySize"
    case SexMale => "Sex_male"
    case EmbarkedQ => "Embarked_Q"
    case EmbarkedS => "Embarked_S"
    case TitleMiss => "Title_Miss"
    case TitleMr => "Title_Mr"
    case TitleMrs => "Title_Mrs"
    case TitleOther => "Title_Other"
  }

  /** The column order the classifier was trained on (ordered_columns). */
  const Columns: seq<Column> := [
    Pclass, Age, SibSp, Parch, Fare,
    HasCabin, FamilySize, SexMale,
    EmbarkedQ, EmbarkedS,
    TitleMiss, TitleMr, TitleMrs, TitleOther]

  /** ordered_columns lists every column once. */
  lemma ColumnsListEachOnce()
    ensures |Columns| == 14
    ensures forall c: Column :: c in Columns
    ensures forall i, j :: 0 <= i < j < |Columns| ==> Columns[i] != Columns[j]
  {
    forall c: Column
      ensures c in Columns
    {
      match c
      case Pclass => case Age => case SibSp => case Parch => case Fare =>
      case HasCabin => case FamilySize => case SexMale =>
      case EmbarkedQ => case EmbarkedS =>
      case TitleMiss => case TitleMr => case TitleMrs => case TitleOther =>
    }
  }

  /** An age of 0 stands for "unknown" and is replaced by the median, 28. */
  function FinalAge(age: int): (r: int)
    ensures r != 0
    ensures age != 0 ==> r == age
  {
    if age == 0 then 28 else age
  }

  /** The passenger plus siblings, spouses, parents and children aboard. */
  function FamilyCount(sibSp: int, parch: int): (r: int)
    ensures sibSp >= 0 && parch >= 0 ==> r >= 1
  {
    sibSp + parch + 1
  }

  /** The 0/1 encoding of a yes/no fact. */
  function Flag(b: bool): real {
    if b then 1.0 else 0.0
  }

  /** The one-hot column of a title. */
  function TitleColumn(t: Title): (c: Column)
    ensures ColumnName(c) == "Title_" + TitleName(t)
  {
    match t
    case Miss => TitleMiss
    case Mr => TitleMr
    case Mrs => TitleMrs
    case Other => TitleOther
  }

  /** The value preprocess_input puts in column c for inp once the title is
      known: the numbers copied, Age defaulted, FamilySize derived, the
      categorical answers encoded against their reference values (female,
      port C, no cabin), and the title one-hot. */
  function Expected(inp: RawInput, title: Title, c: Column): real {
    match c
    case Pclass => inp.pclass as real
    case Age => FinalAge(inp.age) as real
    case SibSp => inp.sibSp as real
    case Parch => inp.parch as real
    case Fare => inp.fare
    case HasCabin => Flag(inp.hasCabin == "Yes")
    case FamilySize => FamilyCount(inp.sibSp, inp.parch) as real
    case SexMale => Flag(inp.sex == "male")
    case EmbarkedQ => Flag(inp.embarked == "Q")
    case EmbarkedS => Flag(inp.embarked == "S")
    case TitleMiss => Flag(title == Miss)
    case TitleMr => Flag(title == Mr)
    case TitleMrs => Flag(title == Mrs)
    case TitleOther => Flag(title == Other)
  }

  /** The value column c holds before the title is set: the title columns
      start at 0. */
  function Initial(inp: RawInput, c: Column): real {
    match c
    case TitleMiss | TitleMr | TitleMrs | TitleOther => 0.0
    case _ => Expected(inp, Other, c)
  }

  /** data is the record preprocess_input builds for inp: every column
      present, each holding its expected value. */
  ghost predicate Encodes(inp: RawInput, title: Title, data: map<Column, real>) {
    forall c: Column :: c in data && data[c] == Expected(inp, title, c)
  }

  /** preprocess_input: the title comes from the stripped, title-cased name;
      the record is then built around it. */
  method PreprocessInput(inp: RawInput) returns (data: map<Column, real>)
    ensures Encodes(inp, FeatureTitle(inp.name), data)
  {
    var title := FeatureTitle(inp.name);
    data := EncodeFeatures(inp, title);
  }

  /** The body of preprocess_input after the title is known: build the record
      with every title column at 0, then set the title's column to 1. That
      column is always one of the 14, so no key is added. */
  method EncodeFeatures(inp: RawInput, title: Title) returns (data: map<Column, real>)
    ensures Encodes(inp, title, data)
  {
    var finalAge := FinalAge(inp.age);
    var familySize := FamilyCount(inp.sibSp, inp.parch);
    var hasCabinValue := Flag(inp.hasCabin == "Yes");
    var sexMale := Flag(inp.sex == "male");
    var embarkedQ := Flag(inp.embarked == "Q");
    var embarkedS := Flag(inp.embarked == "S");
    data := map[
      Pclass := inp.pclass as real,
      Age := finalAge as real,
      SibSp := inp.sibSp as real,
      Parch := inp.parch as real,
      Fare := inp.fare,
      HasCabin := hasCabinValue,
      FamilySize := familySize as real,
      SexMale := sexMale,
      EmbarkedQ := embarkedQ,
      EmbarkedS := embarkedS,
      TitleMiss := 0.0,
      TitleMr := 0.0,
      TitleMrs := 0.0,
      TitleOther := 0.0];
    forall c: Column
      ensures c in data && data[c] == Initial(inp, c)
    {
      match c
      case Pclass => case Age => case SibSp => case Parch => case Fare =>
      case HasCabin => case FamilySize => case SexMale =>
      case EmbarkedQ => case EmbarkedS =>
      case TitleMiss => case TitleMr => case TitleMrs => case TitleOther =>
    }
    SetTitleColumn(inp, title, data);
    data := data[TitleColumn(title) := 1.0];
  }

  /** Setting the title's column to 1 in the initial record completes it. */
  lemma SetTitleColumn(inp: RawInput, title: Title, data: map<Column, real>)
    requires forall c: Column :: c in data && data[c] == Initial(inp, c)
    ensures Encodes(inp, title, data[TitleColumn(title) := 1.0])
  {
  }

  /** input_df[ordered_columns]: the values of the named columns, in the
      order the names are given. */
  function SelectColumns(data: map<Column, real>, cols: seq<Column>): (row: seq<real>)
    requires forall i :: 0 <= i < |cols| ==> cols[i] in data
    ensures |row| == |cols|
    ensures forall i :: 0 <= i < |cols| ==> row[i] == data[cols[i]]
  {
    if cols == [] then [] else [data[cols[0]]] + SelectColumns(data, cols[1..])
  }

  /** The vector handed to the classifier holds the record's columns in
      the trained order. */
  lemma RowLayout(data: map<Column, real>)
    requires forall c: Column :: c in data
    ensures forall i :: 0 <= i < |Columns| ==> Columns[i] in data
    ensures SelectColumns(data, Columns) == [
      data[Pclass], data[Age], data[SibSp], data[Parch], data[Fare],
      data[HasCabin], data[FamilySize], data[SexMale],
      data[EmbarkedQ], data[EmbarkedS],
      data[TitleMiss], data[TitleMr], data[TitleMrs], data[TitleOther]]
  {
  }

  /** The title columns are one-hot: the column of the title taken from the
      title-cased name is 1, the other three are 0, so they sum to 1. */
  lemma TitleOneHot(inp: RawInput, title: Title, data: map<Column, real>)
    requires Encodes(inp, title, data)
    ensures data[TitleMiss] + data[TitleMr] + data[TitleMrs] + data[TitleOther] == 1.0
    ensures forall t: Title :: data[TitleColumn(t)] == Flag(t == title)
  {
  }

  /** Age 0 becomes the median 28 and every other admissible age is kept,
      so the feature Age is never 0; FamilySize counts the passenger. */
  lemma NumericFeatures(inp: RawInput, title: Title, data: map<Column, real>)
    requires FromWidgets(inp) && Encodes(inp, title, data)
    ensures data[Age] != 0.0
    ensures inp.age == 0 ==> data[Age] == 28.0
    ensures 1 <= inp.age <= 100 ==> data[Age] == inp.age as real
    ensures data[FamilySize] == (inp.sibSp + inp.parch + 1) as real >= 1.0
  {
  }

  /** Sex, cabin and port are encoded against a reference value: port C is
      the one with both port flags 0, and no passenger gets both flags. */
  lemma CategoricalFeatures(inp: RawInput, title: Title, data: map<Column, real>)
    requires FromWidgets(inp) && Encodes(inp, title, data)
    ensures data[SexMale] == 1.0 <==> inp.sex == "male"
    ensures data[SexMale] == 0.0 <==> inp.sex == "female"
    ensures data[HasCabin] == 1.0 <==> inp.hasCabin == "Yes"
    ensures !(data[EmbarkedQ] == 1.0 && data[EmbarkedS] == 1.0)
    ensures data[EmbarkedQ] == 0.0 && data[EmbarkedS] == 0.0 <==> inp.embarked == "C"
  {
  }
}
