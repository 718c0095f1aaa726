/** The single-poll results window (results.py): one tally that every new question replaces
    and every vote for a current choice increments. */
module Results {
  import opened Wire
  import opened Dict

  const TopicVote := "votinglivepollbis/vote"
  const TopicQuestion := "votinglivepollbis/question"

  /** What `on_message` hands to the GUI thread. */
  datatype Event =
    | QuestionUpdate(question: string, choices: seq<string>)
    | VoteUpdate(response: string, inc: int)

  /** The routing of `on_message`: the question topic resets the tally, every other topic is a
      vote worth one. */
  function Route(topic: string, data: Payload): (e: Event)
    ensures e.QuestionUpdate? <==> topic == TopicQuestion
    ensures e.VoteUpdate? ==> e.inc == 1
  {
    if topic == TopicQuestion then
      QuestionUpdate(data.question.GetOr(""), data.choices.GetOr([]))
    else
      VoteUpdate(data.reponse.GetOr(""), 1)
  }

  /** The tally after one vote from `on_message`. */
  function VoteStep(counts: Dict<int>, response: string): Dict<int> {
    if Has(counts, response) then Increment(counts, response, 1) else counts
  }

  /** The tally after the votes `responses`, in order, starting from `counts`. */
  function Replay(counts: Dict<int>, responses: seq<string>): Dict<int> {
    if responses == [] then counts
    else VoteStep(Replay(counts, responses[..|responses| - 1]), responses[|responses| - 1])
  }

  /** How many of `responses` are `c`. */
  function Occurrences(responses: seq<string>, c: string): nat {
    if responses == [] then 0
    else Occurrences(responses[..|responses| - 1], c) + if responses[|responses| - 1] == c then 1 else 0
  }

  /** How many of `responses` are among `choices`. */
  function AcceptedCount(choices: seq<string>, responses: seq<string>): nat {
    if responses == [] then 0
    else AcceptedCount(choices, responses[..|responses| - 1])
         + if responses[|responses| - 1] in choices then 1 else 0
  }

  /** One vote for a current choice raises that choice's count by one and keeps every other
      choice's count and the set of keys. */
  lemma VoteStepCounts(choices: seq<string>, d: Dict<int>, r: string)
    requires WellFormed(d) && Has(d, r)
    requires forall c :: Has(d, c) <==> c in choices
    ensures WellFormed(VoteStep(d, r)) && Keys(VoteStep(d, r)) == Keys(d)
    ensures forall c :: Has(VoteStep(d, r), c) <==> c in choices
    ensures forall c :: c in choices ==>
      Get(VoteStep(d, r), c) == Get(d, c) + if c == r then 1 else 0
    ensures Sum(VoteStep(d, r)) == Sum(d) + 1
  {
    IncrementEffect(d, r, 1);
    var d' := Increment(d, r, 1);
    forall c | c in choices
      ensures Get(d', c) == Get(d, c) + if c == r then 1 else 0
    {
      var j := IndexOf(d, c);
      GetAt(d, j);
      GetAt(d', j);
    }
    forall c ensures Has(d', c) <==> c in choices {
      if Has(d', c) {
        var j := IndexOf(d', c);
        assert Keys(d')[j] == c;
      }
    }
  }

  /** After a question with `choices` and then the votes `responses`, the tally has exactly the
      question's choices as keys, each choice's count is the number of votes for it, and the
      counts add up to the number of votes that named a choice. */
  lemma {:induction false} ReplayCounts(choices: seq<string>, responses: seq<string>)
    ensures WellFormed(Replay(FromKeys(choices, 0), responses))
    ensures Keys(Replay(FromKeys(choices, 0), responses)) == Dedup(choices)
    ensures forall c :: Has(Replay(FromKeys(choices, 0), responses), c) <==> c in choices
    ensures forall c :: c in choices ==>
      Get(Replay(FromKeys(choices, 0), responses), c) == Occurrences(responses, c)
    ensures Sum(Replay(FromKeys(choices, 0), responses)) == AcceptedCount(choices, responses)
  {
    ZeroTally(choices);
    if responses != [] {
      var init, r := responses[..|responses| - 1], responses[|responses| - 1];
      ReplayCounts(choices, init);
      var d := Replay(FromKeys(choices, 0), init);
      if Has(d, r) {
        VoteStepCounts(choices, d, r);
      }
    }
  }

  class VoteResults {
    var voteCounts: Dict<int>
    /** The votes `on_message` has accepted since the last question. */
    ghost var acceptedVotes: nat

    /** What every dict satisfies. */
    ghost predicate WellFormedCounts()
      reads this
    {
      WellFormed(voteCounts)
    }

    /** Under `on_message`, the counts never go negative and add up to the number of votes
        accepted since the last question. */
    ghost predicate Valid()
      reads this
    {
      WellFormed(voteCounts) && NonNegative(voteCounts) && Sum(voteCounts) == acceptedVotes
    }

    constructor ()
      ensures Valid() && voteCounts == [] && acceptedVotes == 0
    {
      voteCounts := [];
      acceptedVotes := 0;
    }

    /** `update_question`: clear the tally, then set each new choice to 0 in turn. */
    method UpdateQuestion(question: string, choices: seq<string>)
      modifies this
      ensures Valid()
      ensures voteCounts == FromKeys(choices, 0) && acceptedVotes == 0
    {
      voteCounts := [];
      var k := 0;
      while k < |choices|
        invariant 0 <= k <= |choices|
        invariant voteCounts == FromKeys(choices[..k], 0)
      {
        assert choices[..k + 1][..k] == choices[..k];
        voteCounts := Assign(voteCounts, choices[k], 0);
        k := k + 1;
      }
      assert choices[..k] == choices;
      acceptedVotes := 0;
      ZeroTally(choices);
    }

    /** `update_votes`: a response that is a current choice has its count raised by `inc`;
        any other response changes nothing. */
    method UpdateVotes(response: string, inc: int)
      requires WellFormedCounts()
      modifies this`voteCounts
      ensures WellFormedCounts()
      ensures voteCounts == if Has(old(voteCounts), response)
                            then Increment(old(voteCounts), response, inc)
                            else old(voteCounts)
    {
      if Has(voteCounts, response) {
        IncrementEffect(voteCounts, response, inc);
        voteCounts := Increment(voteCounts, response, inc);
      }
    }

    /** `on_message` followed by the slot it signals. */
    method OnMessage(topic: string, data: Payload)
      requires Valid()
      modifies this
      ensures Valid()
      ensures match Route(topic, data)
        case QuestionUpdate(_, cs) => voteCounts == FromKeys(cs, 0) && acceptedVotes == 0
        case VoteUpdate(r, _) =>
          && voteCounts == VoteStep(old(voteCounts), r)
          && acceptedVotes == old(acceptedVotes) + if Has(old(voteCounts), r) then 1 else 0
    {
      match Route(topic, data)
      case QuestionUpdate(q, cs) =>
        UpdateQuestion(q, cs);
      case VoteUpdate(r, inc) =>
        var accepted := Has(voteCounts, r);
        if accepted {
          IncrementEffect(voteCounts, r, 1);
          IncrementNonNegative(voteCounts, r, 1);
        }
        UpdateVotes(r, inc);
        if accepted {
          acceptedVotes := acceptedVotes + 1;
        }
    }
  }
}
