/** The multi-poll dashboard (admin.py): every announced question becomes a new poll, kept in
    five parallel lists; a vote updates the first poll whose question text matches. */
module Admin {
  import opened Wire
  import opened Dict

  const TopicVote := "votinglivepoll/vote"
  const TopicQuestion := "votinglivepoll/question"

  /** An element of `polls`: the question text and the choices exactly as announced. */
  datatype Poll = Poll(question: string, choices: seq<string>)

  /** A time-series sample: (seconds since the poll's first accepted vote, cumulative count). */
  type Sample = (real, int)

  /** What the parallel lists hold at one poll's index: its tally, its total series, its
      series per choice and its start time. */
  datatype PollState = PollState(
    counts: Dict<int>,
    total: seq<Sample>,
    perChoice: Dict<seq<Sample>>,
    start: Option<real>)

  /** What `on_message` hands to the GUI thread. */
  datatype Event =
    | NewPoll(idx: nat, question: string, choices: seq<string>)
    | NewVote(question: string, choice: string, timestamp: real)

  /** The decode step of `on_message`: the question topic announces a poll at the next index,
      every other topic carries a vote; missing fields take their defaults, and a vote
      without a timestamp is stamped with the current time `now`. */
  function Decode(topic: string, data: Payload, pollCount: nat, now: real): (e: Event)
    ensures e.NewPoll? <==> topic == TopicQuestion
    ensures e.NewPoll? ==> e.idx == pollCount
  {
    if topic == TopicQuestion then
      NewPoll(pollCount, data.question.GetOr(""), data.choices.GetOr([]))
    else
      NewVote(data.question.GetOr(""), data.reponse.GetOr(""), data.timestamp.GetOr(now))
  }

  /** The index of the first poll whose question text is exactly `question`. */
  function FirstMatch(polls: seq<Poll>, question: string): (r: Option<nat>)
    ensures r.Some? ==> r.value < |polls| && polls[r.value].question == question
    ensures r.Some? ==> forall k :: 0 <= k < r.value ==> polls[k].question != question
    ensures r.None? ==> forall k :: 0 <= k < |polls| ==> polls[k].question != question
  {
    if polls == [] then None
    else if polls[0].question == question then Some(0)
    else
      match FirstMatch(polls[1..], question)
      case Some(k) => Some(k + 1)
      case None => None
  }

  /** What `add_poll` appends at the new poll's index. */
  function InitialState(choices: seq<string>): PollState {
    PollState(FromKeys(choices, 0), [], FromKeys(choices, []), None)
  }

  /** `ser[-1][1] if ser else 0` */
  function LastOr0(ser: seq<Sample>): int {
    if ser == [] then 0 else ser[|ser| - 1].1
  }

  /** One more sample at elapsed time `t` on every choice's series: the voted choice's count
      goes up by one, every other count is carried forward. */
  function ExtendSeries(spc: Dict<seq<Sample>>, choice: string, t: real): Dict<seq<Sample>> {
    seq(|spc|, j requires 0 <= j < |spc| =>
      (spc[j].0, spc[j].1 + [(t, LastOr0(spc[j].1) + if spc[j].0 == choice then 1 else 0)]))
  }

  /** The effect of one accepted vote at `timestamp` on one poll. */
  function ApplyVote(s: PollState, choice: string, timestamp: real): PollState
    requires Has(s.counts, choice)
  {
    var counts := Increment(s.counts, choice, 1);
    var start := s.start.GetOr(timestamp);
    var t := timestamp - start;
    PollState(counts, s.total + [(t, Sum(counts))], ExtendSeries(s.perChoice, choice, t), Some(start))
  }

  /** What holds of a poll's state after any sequence of accepted votes: one count per
      distinct choice, never negative; one total sample per accepted vote, the k-th holding
      k + 1; a start time exactly when a vote was accepted, and the first sample at elapsed
      time 0; per choice, a series aligned with the total series whose last value is the
      choice's count. */
  ghost predicate Consistent(p: Poll, s: PollState) {
    && WellFormed(s.counts)
    && Keys(s.counts) == Dedup(p.choices)
    && Keys(s.perChoice) == Keys(s.counts)
    && NonNegative(s.counts)
    && |s.total| == Sum(s.counts)
    && (forall k :: 0 <= k < |s.total| ==> s.total[k].1 == k + 1)
    && (s.start.None? <==> s.total == [])
    && (s.total != [] ==> s.total[0].0 == 0.0)
    && forall j :: 0 <= j < |s.perChoice| ==>
         && |s.perChoice[j].1| == |s.total|
         && LastOr0(s.perChoice[j].1) == s.counts[j].1
         && forall k :: 0 <= k < |s.total| ==> s.perChoice[j].1[k].0 == s.total[k].0
  }

  // ---------------------------------------------------------------------------------------
  // Properties of one poll

  /** A new poll has every declared choice at 0 (a repeated choice once), no total samples,
      an empty series per choice and no start time. */
  lemma InitialStateFresh(question: string, choices: seq<string>)
    ensures Consistent(Poll(question, choices), InitialState(choices))
    ensures forall c :: Has(InitialState(choices).counts, c) <==> c in choices
    ensures forall c :: c in choices ==> Get(InitialState(choices).counts, c) == 0
    ensures Keys(InitialState(choices).perChoice) == Dedup(choices)
    ensures forall j :: 0 <= j < |InitialState(choices).perChoice| ==>
      InitialState(choices).perChoice[j].1 == []
    ensures InitialState(choices).total == [] && InitialState(choices).start == None
  {
    var init: seq<Sample> := [];
    ZeroTally(choices);
    FromKeysIsFill(choices, init);
    FillShape(Dedup(choices), init);
    FromKeysIsFill(choices, 0);
    FillShape(Dedup(choices), 0);
  }

  /** An accepted vote keeps the tally and the total series consistent. */
  lemma ApplyVoteTallyConsistent(p: Poll, s: PollState, choice: string, timestamp: real)
    requires Consistent(p, s) && Has(s.counts, choice)
    ensures var s' := ApplyVote(s, choice, timestamp);
      && WellFormed(s'.counts) && Keys(s'.counts) == Dedup(p.choices)
      && Keys(s'.perChoice) == Keys(s'.counts)
      && NonNegative(s'.counts)
      && |s'.total| == Sum(s'.counts)
      && (forall k :: 0 <= k < |s'.total| ==> s'.total[k].1 == k + 1)
      && s'.start.Some? && s'.total != [] && s'.total[0].0 == 0.0
  {
    var s' := ApplyVote(s, choice, timestamp);
    IncrementLookup(s.counts, choice, 1);
    IncrementSum(s.counts, choice, 1);
    IncrementNonNegative(s.counts, choice, 1);
    assert Keys(s'.perChoice) == Keys(s.perChoice);
  }

  /** An accepted vote keeps every choice's series aligned with the total series and ending
      at the choice's count. */
  lemma ApplyVoteSeriesConsistent(p: Poll, s: PollState, choice: string, timestamp: real)
    requires Consistent(p, s) && Has(s.counts, choice)
    ensures var s' := ApplyVote(s, choice, timestamp);
      forall j :: 0 <= j < |s'.perChoice| ==>
        && |s'.perChoice[j].1| == |s'.total|
        && LastOr0(s'.perChoice[j].1) == s'.counts[j].1
        && forall k :: 0 <= k < |s'.total| ==> s'.perChoice[j].1[k].0 == s'.total[k].0
  {
    var s' := ApplyVote(s, choice, timestamp);
    IncrementEntries(s.counts, choice, 1);
    assert |s.perChoice| == |s.counts|;
    forall j | 0 <= j < |s'.perChoice|
      ensures LastOr0(s'.perChoice[j].1) == s'.counts[j].1
    {
      assert Keys(s.perChoice)[j] == Keys(s.counts)[j];
    }
  }

  /** An accepted vote keeps a poll's state consistent. */
  lemma ApplyVoteConsistent(p: Poll, s: PollState, choice: string, timestamp: real)
    requires Consistent(p, s) && Has(s.counts, choice)
    ensures Consistent(p, ApplyVote(s, choice, timestamp))
  {
    ApplyVoteTallyConsistent(p, s, choice, timestamp);
    ApplyVoteSeriesConsistent(p, s, choice, timestamp);
  }

  /** An accepted vote increments exactly the voted choice's count, by one; every other entry
      of the tally keeps its position and count. */
  lemma ApplyVoteCounts(p: Poll, s: PollState, choice: string, timestamp: real)
    requires Consistent(p, s) && Has(s.counts, choice)
    ensures Keys(ApplyVote(s, choice, timestamp).counts) == Keys(s.counts)
    ensures Has(ApplyVote(s, choice, timestamp).counts, choice)
    ensures Get(ApplyVote(s, choice, timestamp).counts, choice) == Get(s.counts, choice) + 1
    ensures forall j :: 0 <= j < |s.counts| && s.counts[j].0 != choice ==>
      ApplyVote(s, choice, timestamp).counts[j] == s.counts[j]
  {
    IncrementEffect(s.counts, choice, 1);
  }

  /** The first accepted vote sets the start time to its own timestamp, so its elapsed time
      is 0; a later vote keeps the start time, and its elapsed time is its timestamp minus the
      start, whatever the sign. */
  lemma ApplyVoteTime(p: Poll, s: PollState, choice: string, timestamp: real)
    requires Consistent(p, s) && Has(s.counts, choice)
    ensures s.start.None? ==>
      && ApplyVote(s, choice, timestamp).start == Some(timestamp)
      && ApplyVote(s, choice, timestamp).total == [(0.0, 1)]
    ensures s.start.Some? ==>
      && ApplyVote(s, choice, timestamp).start == s.start
      && ApplyVote(s, choice, timestamp).total[|s.total|].0 == timestamp - s.start.value
  {
    IncrementEffect(s.counts, choice, 1);
  }

  /** An accepted vote appends one total sample holding the new sum of the counts, which is
      the number of votes accepted for the poll, and one sample to every choice's series
      holding that choice's new count; earlier samples are untouched. */
  lemma ApplyVoteSamples(p: Poll, s: PollState, choice: string, timestamp: real)
    requires Consistent(p, s) && Has(s.counts, choice)
    ensures var s' := ApplyVote(s, choice, timestamp);
      && |s'.total| == |s.total| + 1 && s'.total[..|s.total|] == s.total
      && s'.total[|s.total|].1 == Sum(s'.counts) == |s'.total|
      && |s'.perChoice| == |s.perChoice| == |s'.counts|
      && forall j :: 0 <= j < |s'.perChoice| ==>
           && s'.perChoice[j].0 == s'.counts[j].0
           && s'.perChoice[j].1 == s.perChoice[j].1 + [(s'.total[|s.total|].0, s'.counts[j].1)]
  {
    ApplyVoteConsistent(p, s, choice, timestamp);
    IncrementEffect(s.counts, choice, 1);
    var s' := ApplyVote(s, choice, timestamp);
    assert s'.total[..|s.total|] == s.total;
    forall j | 0 <= j < |s'.perChoice|
      ensures s'.perChoice[j].0 == s'.counts[j].0
    {
      assert Keys(s'.perChoice)[j] == Keys(s'.counts)[j];
    }
  }

  /** In a consistent poll with votes, the last total sample is the sum of the counts and the
      last sample of each choice's series is that choice's count. */
  lemma LastSamplesMatchTally(p: Poll, s: PollState)
    requires Consistent(p, s) && s.total != []
    ensures s.total[|s.total| - 1].1 == Sum(s.counts)
    ensures forall j :: 0 <= j < |s.perChoice| ==>
      && s.perChoice[j].0 == s.counts[j].0
      && s.perChoice[j].1[|s.total| - 1].1 == s.counts[j].1
  {
    forall j | 0 <= j < |s.perChoice|
      ensures s.perChoice[j].0 == s.counts[j].0
    {
      assert Keys(s.perChoice)[j] == Keys(s.counts)[j];
    }
  }

  /** Elapsed time is not clamped: after a poll's first vote at `t1`, a vote stamped `t2` is
      recorded at elapsed time `t2 - t1`, which is negative when `t2` is earlier. */
  lemma ElapsedCanBeNegative(p: Poll, s: PollState, choice: string, t1: real, t2: real)
    requires Consistent(p, s) && Has(s.counts, choice) && s.start.None?
    ensures Has(ApplyVote(s, choice, t1).counts, choice)
    ensures ApplyVote(ApplyVote(s, choice, t1), choice, t2).total == [(0.0, 1), (t2 - t1, 2)]
  {
    ApplyVoteTime(p, s, choice, t1);
    ApplyVoteCounts(p, s, choice, t1);
    ApplyVoteConsistent(p, s, choice, t1);
    var s1 := ApplyVote(s, choice, t1);
    ApplyVoteTime(p, s1, choice, t2);
    ApplyVoteSamples(p, s1, choice, t2);
  }

  /** Appending a poll never changes where an existing question's votes go; a question text
      that was not there yet now resolves to the new poll. So a re-announced text gets a second
      poll that no vote can reach. */
  lemma FirstMatchAppend(polls: seq<Poll>, p: Poll, question: string)
    ensures FirstMatch(polls + [p], question) ==
      if FirstMatch(polls, question).Some? then FirstMatch(polls, question)
      else if p.question == question then Some(|polls|)
      else None
  {
    var r := FirstMatch(polls + [p], question);
    var r0 := FirstMatch(polls, question);
    if r0.Some? {
      assert (polls + [p])[r0.value] == polls[r0.value];
    } else if p.question == question {
      assert (polls + [p])[|polls|] == p;
    }
  }

  /** Every poll of the five parallel lists is consistent. */
  ghost predicate AllConsistent(ps: seq<Poll>, vc: seq<Dict<int>>, ts: seq<seq<Sample>>,
                                spc: seq<Dict<seq<Sample>>>, st: seq<Option<real>>)
  {
    && |vc| == |ps| && |ts| == |ps| && |spc| == |ps| && |st| == |ps|
    && forall i :: 0 <= i < |ps| ==> Consistent(ps[i], PollState(vc[i], ts[i], spc[i], st[i]))
  }

  lemma AllConsistentUpdate(ps: seq<Poll>, vc: seq<Dict<int>>, ts: seq<seq<Sample>>,
                            spc: seq<Dict<seq<Sample>>>, st: seq<Option<real>>, i: nat, s: PollState)
    requires AllConsistent(ps, vc, ts, spc, st) && i < |ps| && Consistent(ps[i], s)
    ensures AllConsistent(ps, vc[i := s.counts], ts[i := s.total], spc[i := s.perChoice], st[i := s.start])
  {
  }

  lemma AllConsistentAppend(ps: seq<Poll>, vc: seq<Dict<int>>, ts: seq<seq<Sample>>,
                            spc: seq<Dict<seq<Sample>>>, st: seq<Option<real>>, p: Poll, s: PollState)
    requires AllConsistent(ps, vc, ts, spc, st) && Consistent(p, s)
    ensures AllConsistent(ps + [p], vc + [s.counts], ts + [s.total], spc + [s.perChoice], st + [s.start])
  {
    var n := |ps|;
    assert (ps + [p])[n] == p;
  }

  /** The inner loop of `record_vote`: every choice's series gets one sample at `tRel`, its
      previous value plus one for the voted choice and plus nothing for the others. */
  method AppendSamples(spc: Dict<seq<Sample>>, choice: string, tRel: real)
    returns (r: Dict<seq<Sample>>)
    ensures r == ExtendSeries(spc, choice, tRel)
  {
    r := spc;
    var j := 0;
    while j < |r|
      invariant 0 <= j <= |r| == |spc|
      invariant forall k :: 0 <= k < j ==> r[k] == ExtendSeries(spc, choice, tRel)[k]
      invariant forall k :: j <= k < |r| ==> r[k] == spc[k]
    {
      var c: string, ser: seq<Sample> := r[j].0, r[j].1;
      var prev := if ser != [] then ser[|ser| - 1].1 else 0;
      r := r[j := (c, ser + [(tRel, prev + if c == choice then 1 else 0)])];
      j := j + 1;
    }
  }

  // ---------------------------------------------------------------------------------------
  // The dashboard's state

  class VoteResults {
    var polls: seq<Poll>
    var voteCounts: seq<Dict<int>>
    var timeSeriesTotal: seq<seq<Sample>>
    var seriesPerChoice: seq<Dict<seq<Sample>>>
    var startTimes: seq<Option<real>>

    /** The five lists have one element per poll. */
    ghost predicate Parallel()
      reads this
    {
      && |voteCounts| == |polls|
      && |timeSeriesTotal| == |polls|
      && |seriesPerChoice| == |polls|
      && |startTimes| == |polls|
    }

    /** The elements of the five lists at index `i`. */
    ghost function StateAt(i: nat): PollState
      reads this
      requires Parallel() && i < |polls|
    {
      PollState(voteCounts[i], timeSeriesTotal[i], seriesPerChoice[i], startTimes[i])
    }

    ghost predicate Valid()
      reads this
    {
      AllConsistent(polls, voteCounts, timeSeriesTotal, seriesPerChoice, startTimes)
    }

    constructor ()
      ensures Valid()
      ensures polls == [] && voteCounts == [] && timeSeriesTotal == []
      ensures seriesPerChoice == [] && startTimes == []
    {
      polls, voteCounts, timeSeriesTotal, seriesPerChoice, startTimes := [], [], [], [], [];
    }

    /** `add_poll`: one new element at the end of each list, zero counts for the declared
        choices, empty series and no start time. No question text is checked against the
        existing polls. The returned index is the one `on_message` computed. */
    method AddPoll(question: string, choices: seq<string>) returns (idx: nat)
      requires Valid()
      modifies this
      ensures Valid()
      ensures idx == old(|polls|)
      ensures polls == old(polls) + [Poll(question, choices)]
      ensures voteCounts == old(voteCounts) + [FromKeys(choices, 0)]
      ensures timeSeriesTotal == old(timeSeriesTotal) + [[]]
      ensures seriesPerChoice == old(seriesPerChoice) + [FromKeys(choices, [])]
      ensures startTimes == old(startTimes) + [None]
    {
      idx := |polls|;
      polls := polls + [Poll(question, choices)];
      voteCounts := voteCounts + [FromKeys(choices, 0)];
      timeSeriesTotal := timeSeriesTotal + [[]];
      seriesPerChoice := seriesPerChoice + [FromKeys(choices, [])];
      startTimes := startTimes + [None];
      InitialStateFresh(question, choices);
      AllConsistentAppend(old(polls), old(voteCounts), old(timeSeriesTotal), old(seriesPerChoice),
                          old(startTimes), Poll(question, choices), InitialState(choices));
    }

    /** The body of `record_vote` once poll `i` has matched and `choice` is one of its keys:
        increment the count, anchor the start time on the first vote, append the total sample
        and one sample per choice. Only index `i` of the lists changes. */
    method TakeVote(i: nat, choice: string, timestamp: real)
      requires Valid() && i < |polls| && Has(voteCounts[i], choice)
      modifies this
      ensures Valid()
      ensures polls == old(polls)
      ensures var s := ApplyVote(old(StateAt(i)), choice, timestamp);
        && voteCounts == old(voteCounts)[i := s.counts]
        && timeSeriesTotal == old(timeSeriesTotal)[i := s.total]
        && seriesPerChoice == old(seriesPerChoice)[i := s.perChoice]
        && startTimes == old(startTimes)[i := s.start]
    {
      ghost var s0 := StateAt(i);
      ghost var s1 := ApplyVote(s0, choice, timestamp);
      var cnts := Increment(voteCounts[i], choice, 1);
      voteCounts := voteCounts[i := cnts];
      if startTimes[i].None? {
        startTimes := startTimes[i := Some(timestamp)];
      }
      var tRel := timestamp - startTimes[i].value;
      var total := Sum(cnts);
      timeSeriesTotal := timeSeriesTotal[i := timeSeriesTotal[i] + [(tRel, total)]];
      var spc := AppendSamples(seriesPerChoice[i], choice, tRel);
      seriesPerChoice := seriesPerChoice[i := spc];
      assert s1 == PollState(cnts, timeSeriesTotal[i], spc, startTimes[i]);
      ApplyVoteConsistent(polls[i], s0, choice, timestamp);
      AllConsistentUpdate(old(polls), old(voteCounts), old(timeSeriesTotal),
                          old(seriesPerChoice), old(startTimes), i, s1);
    }

    /** `record_vote`: the first poll whose text is `question` takes the vote when `choice`
        is one of its tally's keys; every other case changes nothing. */
    method RecordVote(question: string, choice: string, timestamp: real)
      requires Valid()
      modifies this
      ensures Valid()
      ensures polls == old(polls)
      ensures var m := FirstMatch(old(polls), question);
        if m.Some? && Has(old(voteCounts)[m.value], choice) then
          var s := ApplyVote(old(StateAt(m.value)), choice, timestamp);
          && voteCounts == old(voteCounts)[m.value := s.counts]
          && timeSeriesTotal == old(timeSeriesTotal)[m.value := s.total]
          && seriesPerChoice == old(seriesPerChoice)[m.value := s.perChoice]
          && startTimes == old(startTimes)[m.value := s.start]
        else
          && voteCounts == old(voteCounts) && timeSeriesTotal == old(timeSeriesTotal)
          && seriesPerChoice == old(seriesPerChoice) && startTimes == old(startTimes)
    {
      var i := 0;
      while i < |polls|
        invariant 0 <= i <= |polls|
        invariant forall k :: 0 <= k < i ==> polls[k].question != question
      {
        if polls[i].question == question {
          assert FirstMatch(polls, question) == Some(i);
          if Has(voteCounts[i], choice) {
            TakeVote(i, choice, timestamp);
          }
          return;
        }
        i := i + 1;
      }
    }

    /** `on_message` followed by the slot it signals: a question announces a new poll, anything
        else is a vote. */
    method OnMessage(topic: string, data: Payload, now: real)
      requires Valid()
      modifies this
      ensures Valid()
      ensures match Decode(topic, data, old(|polls|), now)
        case NewPoll(_, q, cs) =>
          && polls == old(polls) + [Poll(q, cs)]
          && voteCounts == old(voteCounts) + [FromKeys(cs, 0)]
          && timeSeriesTotal == old(timeSeriesTotal) + [[]]
          && seriesPerChoice == old(seriesPerChoice) + [FromKeys(cs, [])]
          && startTimes == old(startTimes) + [None]
        case NewVote(q, c, ts) =>
          && polls == old(polls)
          && var m := FirstMatch(old(polls), q);
          if m.Some? && Has(old(voteCounts)[m.value], c) then
            var s := ApplyVote(old(StateAt(m.value)), c, ts);
            && voteCounts == old(voteCounts)[m.value := s.counts]
            && timeSeriesTotal == old(timeSeriesTotal)[m.value := s.total]
            && seriesPerChoice == old(seriesPerChoice)[m.value := s.perChoice]
            && startTimes == old(startTimes)[m.value := s.start]
          else
            && voteCounts == old(voteCounts) && timeSeriesTotal == old(timeSeriesTotal)
            && seriesPerChoice == old(seriesPerChoice) && startTimes == old(startTimes)
    {
      var e := Decode(topic, data, |polls|, now);
      match e
      case NewPoll(_, q, cs) =>
        var _ := AddPoll(q, cs);
      case NewVote(q, c, ts) =>
        RecordVote(q, c, ts);
    }
  }
}
