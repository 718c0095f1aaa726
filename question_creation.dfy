/** The question editor (question_creation.py): a question field, a field holding the number of
    choices, one field per choice, and the set of questions this session has published. */
module QuestionCreation {
  import opened Wire
  import opened Text
  import opened Dict

  const TopicQuestion := "votinglivepoll/question"
  const MinChoices := 2
  const MaxChoices := 30
  const DefaultChoices := 4

  /** The rule of `on_choice_count_change`: the text is all digits and its value lies between
      2 and 30 inclusive; then that value is the new number of choice fields. */
  function CountRule(text: string): Option<nat> {
    if IsDigits(text) && MinChoices <= Value(text) <= MaxChoices then Some(Value(text)) else None
  }

  /** The count field accepts the decimal rendering of exactly the numbers 2 to 30. */
  lemma CountRuleDecimal(n: nat)
    ensures CountRule(Decimal(n)) == Some(n) <==> MinChoices <= n <= MaxChoices
    ensures CountRule(Decimal(n)) == None <==> !(MinChoices <= n <= MaxChoices)
  {
    ValueOfDecimal(n);
  }

  /** Whatever the count field accepts is a digit string whose value is in range; leading
      zeros are accepted too. */
  lemma CountRuleSound(text: string)
    ensures CountRule(text).Some? ==>
      IsDigits(text) && CountRule(text).value == Value(text) && 2 <= Value(text) <= 30
    ensures IsDigits(text) ==> CountRule("0" + text) == CountRule(text)
  {
    if IsDigits(text) {
      ValueLeadingZero(text);
    }
  }

  /** `[c.text().strip() for c in self.choices_inputs]` */
  function StripAll(texts: seq<string>): seq<string> {
    seq(|texts|, k requires 0 <= k < |texts| => Strip(texts[k]))
  }

  /** `any(not c for c in choices)` */
  predicate AnyEmpty(choices: seq<string>) {
    exists k :: 0 <= k < |choices| && choices[k] == []
  }

  /** What pressing "publish" leads to. */
  datatype PublishOutcome =
    | MissingField
    | AlreadyPublished
    | Published(message: Payload)

  /** The checks of `publish_question`, in order: an empty stripped question or an empty
      stripped choice, then a stripped question already published in this session; otherwise
      the message `{question, choices}` with the stripped texts. */
  function Submission(questionText: string, choiceTexts: seq<string>, published: set<string>)
    : PublishOutcome
  {
    var question := Strip(questionText);
    var choices := StripAll(choiceTexts);
    if question == [] || AnyEmpty(choices) then MissingField
    else if question in published then AlreadyPublished
    else Published(QuestionPayload(question, choices))
  }

  /** Nothing is published when the question or any choice is only white space. */
  lemma SubmissionMissing(questionText: string, choiceTexts: seq<string>, published: set<string>)
    ensures Submission(questionText, choiceTexts, published) == MissingField <==>
      AllSpace(questionText) || exists k :: 0 <= k < |choiceTexts| && AllSpace(choiceTexts[k])
  {
    StripEmptyIff(questionText);
    forall k | 0 <= k < |choiceTexts| {
      StripEmptyIff(choiceTexts[k]);
    }
    if exists k :: 0 <= k < |choiceTexts| && AllSpace(choiceTexts[k]) {
      var k :| 0 <= k < |choiceTexts| && AllSpace(choiceTexts[k]);
      assert StripAll(choiceTexts)[k] == [];
    }
  }

  /** A filled-in question is refused exactly when its stripped text was published before. */
  lemma SubmissionDuplicate(questionText: string, choiceTexts: seq<string>, published: set<string>)
    requires Submission(questionText, choiceTexts, published) != MissingField
    ensures Submission(questionText, choiceTexts, published) == AlreadyPublished <==>
      Strip(questionText) in published
  {
  }

  /** A publication carries the stripped question and the stripped choices in field order,
      none of them empty or with white space at either end, under a question not published
      before. */
  lemma SubmissionPublished(questionText: string, choiceTexts: seq<string>, published: set<string>)
    requires Submission(questionText, choiceTexts, published).Published?
    ensures var m := Submission(questionText, choiceTexts, published).message;
      && m == QuestionPayload(Strip(questionText), StripAll(choiceTexts))
      && Strip(questionText) !in published
      && |StripAll(choiceTexts)| == |choiceTexts|
      && Strip(questionText) != [] && !IsSpace(Strip(questionText)[0])
      && !IsSpace(Strip(questionText)[|Strip(questionText)| - 1])
      && forall k :: 0 <= k < |choiceTexts| ==>
           StripAll(choiceTexts)[k] != [] && Strip(StripAll(choiceTexts)[k]) == StripAll(choiceTexts)[k]
  {
    var _, _ := StripShape(questionText);
    forall k | 0 <= k < |choiceTexts| {
      StripIdempotent(choiceTexts[k]);
    }
  }

  /** Once a question is published and recorded, no later submission with the same stripped
      text is published again, whatever its choices. */
  lemma NoRepublish(questionText: string, choiceTexts: seq<string>, published: set<string>,
                    laterText: string, laterChoices: seq<string>)
    requires Submission(questionText, choiceTexts, published).Published?
    requires Strip(laterText) == Strip(questionText)
    ensures !Submission(laterText, laterChoices, published + {Strip(questionText)}).Published?
  {
  }

  class QuestionCreator {
    var publishedQuestions: set<string>
    var questionInput: string
    /** The text of each choice field, in order. */
    var choicesInputs: seq<string>
    /** The questions published so far, in order. */
    ghost var publishedLog: seq<string>

    /** Each published question was published once, and the set is the log's elements. */
    ghost predicate Valid()
      reads this
    {
      Distinct(publishedLog) && forall q :: q in publishedQuestions <==> q in publishedLog
    }

    /** The window starts with nothing published, an empty question and four empty choice
        fields. */
    constructor ()
      ensures Valid()
      ensures publishedQuestions == {} && publishedLog == [] && questionInput == []
      ensures choicesInputs == seq(DefaultChoices, _ => [])
    {
      publishedQuestions := {};
      publishedLog := [];
      questionInput := [];
      choicesInputs := [];
      new;
      UpdateChoiceFields(DefaultChoices);
    }

    /** Typing into the question field. */
    method TypeQuestion(text: string)
      modifies this`questionInput
      ensures questionInput == text
    {
      questionInput := text;
    }

    /** Typing into choice field `i`. */
    method TypeChoice(i: nat, text: string)
      requires i < |choicesInputs|
      modifies this`choicesInputs
      ensures choicesInputs == old(choicesInputs)[i := text]
    {
      choicesInputs := choicesInputs[i := text];
    }

    /** `update_choice_fields`: the old fields are dropped and `count` empty ones built. */
    method UpdateChoiceFields(count: nat)
      modifies this`choicesInputs
      ensures choicesInputs == seq(count, _ => [])
    {
      choicesInputs := [];
      var i := 0;
      while i < count
        invariant 0 <= i <= count
        invariant choicesInputs == seq(i, _ => [])
      {
        choicesInputs := choicesInputs + [[]];
        i := i + 1;
      }
    }

    /** `on_choice_count_change`: the fields are rebuilt only when the count text passes the
        rule; otherwise they stay as they are. */
    method OnChoiceCountChange(text: string)
      modifies this`choicesInputs
      ensures match CountRule(text)
        case Some(n) => choicesInputs == seq(n, _ => [])
        case None => choicesInputs == old(choicesInputs)
    {
      if IsDigits(text) {
        var count := Value(text);
        if MinChoices <= count <= MaxChoices {
          UpdateChoiceFields(count);
        }
      }
    }

    /** `publish_question` with `clear_fields`: a refused submission changes nothing; a
        published one adds its question to the set and empties every field, keeping their
        number. */
    method PublishQuestion() returns (outcome: PublishOutcome)
      requires Valid()
      modifies this`publishedQuestions, this`publishedLog, this`questionInput, this`choicesInputs
      ensures Valid()
      ensures outcome == Submission(old(questionInput), old(choicesInputs), old(publishedQuestions))
      ensures if outcome.Published? then
          && publishedQuestions == old(publishedQuestions) + {Strip(old(questionInput))}
          && publishedLog == old(publishedLog) + [Strip(old(questionInput))]
          && questionInput == [] && choicesInputs == seq(|old(choicesInputs)|, _ => [])
        else
          && publishedQuestions == old(publishedQuestions) && publishedLog == old(publishedLog)
          && questionInput == old(questionInput) && choicesInputs == old(choicesInputs)
    {
      var question := Strip(questionInput);
      var choices := StripAll(choicesInputs);
      if question == [] || AnyEmpty(choices) {
        return MissingField;
      }
      if question in publishedQuestions {
        return AlreadyPublished;
      }
      outcome := Published(QuestionPayload(question, choices));
      publishedQuestions := publishedQuestions + {question};
      publishedLog := publishedLog + [question];
      questionInput := [];
      choicesInputs := seq(|choicesInputs|, _ => []);
    }
  }
}
