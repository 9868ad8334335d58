/** validate_inputs: the checks that must pass before a prediction is made. */
module Validation {
  import opened Text

  /** The three problems validate_inputs can report, in the order its
      checks run. */
  datatype Problem = NameMissing | FareNotPositive | AgeOutOfRange

  /** The text shown for a problem. */
  function Message(p: Problem): string {
    match p
    case NameMissing => "Name cannot be empty."
    case FareNotPositive => "Fare must be greater than zero."
    case AgeOutOfRange => "Age must be between 0 and 100."
  }

  /** Different problems are shown with different texts, so a list of
      messages tells which problems were found. */
  lemma MessagesDistinct(p: Problem, q: Problem)
    requires p != q
    ensures Message(p) != Message(q)
  {
    assert Message(NameMissing)[0] == 'N';
    assert Message(FareNotPositive)[0] == 'F';
    assert Message(AgeOutOfRange)[0] == 'A';
  }

  /** Position of a problem in the order the checks run: name, fare, age. */
  function Rank(p: Problem): nat {
    match p
    case NameMissing => 0
    case FareNotPositive => 1
    case AgeOutOfRange => 2
  }

  predicate NameGiven(name: string) { |Strip(name)| > 0 }
  predicate FarePositive(fare: real) { fare > 0.0 }
  predicate AgeInRange(age: int) { 0 <= age <= 100 }

  /** The inputs a prediction is made for. */
  predicate Acceptable(name: string, fare: real, age: int) {
    NameGiven(name) && FarePositive(fare) && AgeInRange(age)
  }

  /** errors is what validation reports for these inputs: each problem at
      most once and in check order, and each present exactly when its check
      fails. */
  predicate Reports(errors: seq<Problem>, name: string, fare: real, age: int) {
    (forall k :: 0 < k < |errors| ==> Rank(errors[k - 1]) < Rank(errors[k]))
    && (NameMissing in errors <==> !NameGiven(name))
    && (FareNotPositive in errors <==> !FarePositive(fare))
    && (AgeOutOfRange in errors <==> !AgeInRange(age))
  }

  /** The problems found in these inputs, in check order. */
  function Problems(name: string, fare: real, age: int): (errors: seq<Problem>)
    ensures Reports(errors, name, fare, age)
    ensures errors == [] <==> Acceptable(name, fare, age)
  {
    (if NameGiven(name) then [] else [NameMissing])
    + (if FarePositive(fare) then [] else [FareNotPositive])
    + (if AgeInRange(age) then [] else [AgeOutOfRange])
  }

  /** validate_inputs: every check runs, each failure appends its problem. */
  method ValidateInputs(name: string, fare: real, age: int) returns (errors: seq<Problem>)
    ensures errors == Problems(name, fare, age)
  {
    errors := [];
    if |Strip(name)| == 0 {
      errors := errors + [NameMissing];
    }
    if fare <= 0.0 {
      errors := errors + [FareNotPositive];
    }
    if age > 100 || age < 0 {
      errors := errors + [AgeOutOfRange];
    }
  }

  /** In a list of strictly increasing ranks, the problem at position k has
      rank at least k. */
  lemma {:induction false} RankAtLeastPosition(errors: seq<Problem>, k: nat)
    requires forall i :: 0 < i < |errors| ==> Rank(errors[i - 1]) < Rank(errors[i])
    requires k < |errors|
    ensures k <= Rank(errors[k])
  {
    if k > 0 {
      RankAtLeastPosition(errors, k - 1);
    }
  }

  /** A report holds at most one problem per check. */
  lemma ReportAtMostThree(errors: seq<Problem>, name: string, fare: real, age: int)
    requires Reports(errors, name, fare, age)
    ensures |errors| <= 3
  {
    if errors != [] {
      RankAtLeastPosition(errors, |errors| - 1);
    }
  }

  /** The report is determined by the inputs: any list that meets Reports
      is the one validate_inputs builds, so its contract leaves no freedom in
      which problems appear or in their order. */
  lemma ReportsDetermined(errors: seq<Problem>, name: string, fare: real, age: int)
    requires Reports(errors, name, fare, age)
    ensures errors == Problems(name, fare, age)
  {
    ReportAtMostThree(errors, name, fare, age);
    if |errors| == 1 {
      OneProblem(errors, name, fare, age);
    } else if |errors| == 2 {
      TwoProblems(errors, name, fare, age);
    } else if |errors| == 3 {
      ThreeProblems(errors, name, fare, age);
    }
  }

  /** ReportsDetermined for a report of one problem. */
  lemma OneProblem(errors: seq<Problem>, name: string, fare: real, age: int)
    requires Reports(errors, name, fare, age) && |errors| == 1
    ensures errors == Problems(name, fare, age)
  {
    assert errors == [errors[0]];
    match errors[0]
    case NameMissing =>
    case FareNotPositive =>
    case AgeOutOfRange =>
  }

  /** ReportsDetermined for a report of two problems: their ranks fix their
      order. */
  lemma TwoProblems(errors: seq<Problem>, name: string, fare: real, age: int)
    requires Reports(errors, name, fare, age) && |errors| == 2
    ensures errors == Problems(name, fare, age)
  {
    assert errors == [errors[0], errors[1]];
    assert Rank(errors[0]) < Rank(errors[1]);
    match errors[0]
    case NameMissing =>
    case FareNotPositive =>
    case AgeOutOfRange =>
  }

  /** ReportsDetermined for a report of three problems: every check failed. */
  lemma ThreeProblems(errors: seq<Problem>, name: string, fare: real, age: int)
    requires Reports(errors, name, fare, age) && |errors| == 3
    ensures errors == Problems(name, fare, age)
  {
    assert Rank(errors[0]) < Rank(errors[1]) < Rank(errors[2]);
    assert errors[0] == NameMissing && errors[1] == FareNotPositive && errors[2] == AgeOutOfRange;
    assert errors == [NameMissing, FareNotPositive, AgeOutOfRange];
    assert !NameGiven(name) && !FarePositive(fare) && !AgeInRange(age);
  }

  /** A zero fare with a proper name and age reports exactly the fare problem. */
  lemma ZeroFareAlone(errors: seq<Problem>, name: string, age: int)
    requires Reports(errors, name, 0.0, age)
    requires NameGiven(name) && AgeInRange(age)
    ensures errors == [FareNotPositive]
  {
    ReportsDetermined(errors, name, 0.0, age);
  }

  /** A zero fare and a blank name are both reported, name first. */
  lemma ZeroFareAndBlankName(errors: seq<Problem>, name: string, age: int)
    requires Reports(errors, name, 0.0, age)
    requires !NameGiven(name) && AgeInRange(age)
    ensures errors == [NameMissing, FareNotPositive]
  {
    ReportsDetermined(errors, name, 0.0, age);
  }
}
