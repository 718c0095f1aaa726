/** How the programs' messages meet: what the dashboard makes of a question the editor
    publishes and of a vote the client sends, and what the client makes of a published
    question. */
module Interop {
  import opened Wire
  import opened Text
  import Admin
  import Client
  import QuestionCreation

  /** The client's vote carries no question and no timestamp, so the dashboard decodes it as a
      vote for the empty question text, stamped with its own clock. */
  lemma ClientVoteDecoded(pseudo: string, choice: string, pollCount: nat, now: real)
    ensures Admin.Decode(Client.TopicVote, Client.VoteMessage(pseudo, choice), pollCount, now)
         == Admin.NewVote("", choice, now)
  {
  }

  /** A client vote reaches a poll exactly when some poll's question text is empty, and then
      the first such poll. */
  lemma ClientVoteTarget(polls: seq<Admin.Poll>, pseudo: string, choice: string, now: real)
    ensures var e := Admin.Decode(Client.TopicVote, Client.VoteMessage(pseudo, choice), |polls|, now);
      && e.NewVote?
      && (Admin.FirstMatch(polls, e.question).Some? <==>
            exists k :: 0 <= k < |polls| && polls[k].question == [])
  {
    var e := Admin.Decode(Client.TopicVote, Client.VoteMessage(pseudo, choice), |polls|, now);
    assert e.question == [];
    if exists k :: 0 <= k < |polls| && polls[k].question == [] {
      var k :| 0 <= k < |polls| && polls[k].question == [];
      assert polls[k].question == e.question;
    }
  }

  /** The editor never publishes an empty question, so when every poll came from the editor a
      client vote matches none of them. */
  lemma ClientVoteDroppedForEditorPolls(polls: seq<Admin.Poll>, texts: seq<string>,
                                        choiceTexts: seq<seq<string>>, published: seq<set<string>>,
                                        pseudo: string, choice: string, now: real)
    requires |texts| == |polls| && |choiceTexts| == |polls| && |published| == |polls|
    requires forall k :: 0 <= k < |polls| ==>
      QuestionCreation.Submission(texts[k], choiceTexts[k], published[k]).Published? &&
      polls[k].question ==
        QuestionCreation.Submission(texts[k], choiceTexts[k], published[k]).message.question.value
    ensures var e := Admin.Decode(Client.TopicVote, Client.VoteMessage(pseudo, choice), |polls|, now);
      Admin.FirstMatch(polls, e.question).None?
  {
    forall k | 0 <= k < |polls| ensures polls[k].question != [] {
      QuestionCreation.SubmissionPublished(texts[k], choiceTexts[k], published[k]);
    }
    ClientVoteTarget(polls, pseudo, choice, now);
  }

  /** A published question is announced to the dashboard as a new poll at the next index, with
      the stripped question and the stripped choices. */
  lemma PublishedQuestionAnnounced(questionText: string, choiceTexts: seq<string>,
                                   published: set<string>, pollCount: nat, now: real)
    requires QuestionCreation.Submission(questionText, choiceTexts, published).Published?
    ensures Admin.Decode(Admin.TopicQuestion,
                         QuestionCreation.Submission(questionText, choiceTexts, published).message,
                         pollCount, now)
         == Admin.NewPoll(pollCount, Strip(questionText), QuestionCreation.StripAll(choiceTexts))
  {
    QuestionCreation.SubmissionPublished(questionText, choiceTexts, published);
  }

  /** The client shows a published question exactly when it has four choice fields, since the
      editor sends its list under `choices` and never with an empty question. */
  lemma PublishedQuestionShownIffFour(questionText: string, choiceTexts: seq<string>,
                                      published: set<string>)
    requires QuestionCreation.Submission(questionText, choiceTexts, published).Published?
    ensures var m := QuestionCreation.Submission(questionText, choiceTexts, published).message;
      && (Client.Acceptance(m).Some? <==> |choiceTexts| == Client.ButtonCount)
      && (Client.Acceptance(m).Some? ==>
            Client.Acceptance(m).value == (Strip(questionText), QuestionCreation.StripAll(choiceTexts)))
  {
    QuestionCreation.SubmissionPublished(questionText, choiceTexts, published);
  }
}
