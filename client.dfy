/** The voting client (client.py): a welcome window that asks for a pseudonym, then a window
    with four answer buttons that a question message fills in and that each send a vote. */
module Client {
  import opened Wire
  import opened Text

  const TopicVote := "votinglivepoll/vote"
  const TopicQuestion := "votinglivepoll/question"
  const ButtonCount := 4
  const WaitingText := "En attente de question..."

  datatype Button = Button(text: string, enabled: bool)

  /** `chr(65 + i)`: the letters A to D. */
  function Letter(i: nat): char
    requires i < ButtonCount
  {
    (65 + i) as char
  }

  /** The text of button `i` before any question: "A. Réponse 1" and so on. */
  function PlaceholderText(i: nat): string
    requires i < ButtonCount
  {
    [Letter(i)] + ". Réponse " + [('1' as int + i) as char]
  }

  /** The text of button `i` showing `choice`: "A. " followed by the choice. */
  function ChoiceText(i: nat, choice: string): string
    requires i < ButtonCount
  {
    [Letter(i)] + ". " + choice
  }

  /** `data.get("choix") or data.get("choices")`: `choix` when present and non-empty,
      otherwise whatever `choices` is. */
  function ChoiceList(data: Payload): Option<seq<string>> {
    if data.choix.Some? && data.choix.value != [] then data.choix else data.choices
  }

  /** The acceptance test of `on_message`: a non-empty question and exactly four choices;
      the result is what the window then shows. */
  function Acceptance(data: Payload): (r: Option<(string, seq<string>)>)
    ensures r.Some? <==>
      && data.question.Some? && data.question.value != []
      && ChoiceList(data).Some? && |ChoiceList(data).value| == ButtonCount
    ensures r.Some? ==> r.value.0 == data.question.value && r.value.1 == ChoiceList(data).value
  {
    var question := data.question.GetOr("");
    var choix := ChoiceList(data);
    if question == [] || choix.None? || choix.value == [] || |choix.value| != ButtonCount then None
    else Some((question, choix.value))
  }

  /** The list under `choix` is used whenever it is present and non-empty, even when
      `choices` is present too; otherwise `choices` is, and an empty `choix` does not hide it. */
  lemma ChoiceListPreference(data: Payload)
    ensures data.choix.Some? && data.choix.value != [] ==> ChoiceList(data) == data.choix
    ensures (data.choix.None? || data.choix.value == []) ==> ChoiceList(data) == data.choices
  {
  }

  /** A non-empty `choix` decides on its own: when its length is not four the question is
      refused, whatever `choices` holds; a missing or empty `choix` leaves the decision to
      `choices`. */
  lemma ChoixOverridesChoices(data: Payload)
    requires data.question.Some? && data.question.value != []
    ensures data.choix.Some? && data.choix.value != [] ==>
      (Acceptance(data).Some? <==> |data.choix.value| == ButtonCount)
    ensures (data.choix.None? || data.choix.value == []) ==>
      (Acceptance(data).Some? <==> data.choices.Some? && |data.choices.value| == ButtonCount)
  {
    ChoiceListPreference(data);
  }

  /** The dict `send_vote` publishes: `{"pseudo": pseudo, "reponse": choice}` and no other key. */
  function VoteMessage(pseudo: string, choice: string): Payload {
    EmptyPayload.(pseudo := Some(pseudo), reponse := Some(choice))
  }

  class VotingClient {
    const pseudo: string
    var questionLabel: string
    var choices: seq<string>
    var buttons: seq<Button>

    /** Four buttons, and an enabled button has a choice to vote for. */
    ghost predicate Valid()
      reads this
    {
      |buttons| == ButtonCount && forall i :: 0 <= i < ButtonCount && buttons[i].enabled ==> i < |choices|
    }

    /** `init_ui`: a waiting label, no choices and four disabled placeholder buttons. */
    constructor (pseudo: string)
      ensures Valid() && this.pseudo == pseudo
      ensures questionLabel == WaitingText && choices == []
      ensures buttons == seq(ButtonCount, i requires 0 <= i < ButtonCount => Button(PlaceholderText(i), false))
    {
      this.pseudo := pseudo;
      questionLabel := WaitingText;
      choices := [];
      var bs: seq<Button> := [];
      var i := 0;
      while i < ButtonCount
        invariant 0 <= i <= ButtonCount
        invariant bs == seq(i, k requires 0 <= k < i => Button(PlaceholderText(k), false))
      {
        bs := bs + [Button(PlaceholderText(i), false)];
        i := i + 1;
      }
      buttons := bs;
    }

    /** `on_message`: an accepted question replaces the question label and the stored choices, and
        button i shows letter i and choice i and becomes enabled; a rejected message changes
        nothing. */
    method OnMessage(data: Payload) returns (accepted: bool)
      requires Valid()
      modifies this
      ensures Valid()
      ensures accepted <==> Acceptance(data).Some?
      ensures accepted ==>
        var cs := Acceptance(data).value.1;
        && questionLabel == Acceptance(data).value.0 && choices == cs
        && buttons == seq(ButtonCount, i requires 0 <= i < ButtonCount => Button(ChoiceText(i, cs[i]), true))
      ensures !accepted ==>
        questionLabel == old(questionLabel) && choices == old(choices) && buttons == old(buttons)
    {
      var question := data.question.GetOr("");
      var choix := ChoiceList(data);
      if question == [] || choix.None? || choix.value == [] || |choix.value| != ButtonCount {
        return false;
      }
      assert Acceptance(data) == Some((question, choix.value));
      questionLabel := question;
      choices := choix.value;
      var i := 0;
      while i < ButtonCount
        invariant 0 <= i <= ButtonCount && |buttons| == ButtonCount
        invariant questionLabel == question && choices == choix.value
        invariant forall k :: 0 <= k < i ==> buttons[k] == Button(ChoiceText(k, choices[k]), true)
        invariant forall k :: i <= k < ButtonCount ==> buttons[k] == old(buttons[k])
      {
        buttons := buttons[i := Button(ChoiceText(i, choices[i]), true)];
        i := i + 1;
      }
      accepted := true;
    }

    /** Clicking button `i`: `send_vote(self.choices[i])` publishes the vote message for the
        choice stored at that position. */
    method ClickButton(i: nat) returns (message: Payload)
      requires Valid() && i < ButtonCount && buttons[i].enabled
      ensures message == VoteMessage(pseudo, choices[i])
      ensures message.reponse == Some(choices[i]) && message.question.None?
    {
      message := VoteMessage(pseudo, choices[i]);
    }
  }

  /** `WelcomeWindow.validate`: a pseudonym that is only white space is refused and no voting
      window opens; otherwise the window opens with the stripped pseudonym. */
  method Validate(input: string) returns (client: VotingClient?)
    ensures client == null <==> AllSpace(input)
    ensures client != null ==> fresh(client) && client.Valid() && client.pseudo == Strip(input)
    ensures client != null ==> client.choices == [] && client.questionLabel == WaitingText
  {
    var pseudo := Strip(input);
    StripEmptyIff(input);
    if pseudo == [] {
      return null;
    }
    client := new VotingClient(pseudo);
  }
}
