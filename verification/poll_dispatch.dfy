/**
 * The poll dispatch loop of the bot (`send_polls`): the selected questions are
 * sent one by one as quiz or regular polls, through a sender whose answers
 * (sent, flood wait, other error) are a parameter, and what the loop does is
 * recorded as a trace of events.
 */
module PollDispatch {
  import opened Wrappers
  import opened QuizParser

  // ---------------------------------------------------------------------
  // questions[start:end]
  // ---------------------------------------------------------------------

  /** A slice bound of Python, for a sequence of length `n`: negative counts from the end, then clamped to `[0, n]`. */
  function ClampIndex(i: int, n: nat): (r: nat)
    ensures r <= n
    ensures 0 <= i <= n ==> r == i
    ensures i > n ==> r == n
    ensures i < 0 && i + n >= 0 ==> r == i + n
    ensures i + n < 0 ==> r == 0
  {
    if i < 0 then (if i + n < 0 then 0 else i + n)
    else if i > n then n
    else i
  }

  /** `xs[start:end]` */
  function PySlice<T>(xs: seq<T>, start: int, end: int): (r: seq<T>)
    ensures |r| <= |xs|
    ensures var lo, hi := ClampIndex(start, |xs|), ClampIndex(end, |xs|);
      (lo < hi ==> r == xs[lo..hi]) && (hi <= lo ==> r == [])
  {
    var lo, hi := ClampIndex(start, |xs|), ClampIndex(end, |xs|);
    if lo < hi then xs[lo..hi] else []
  }

  /** `end or len(questions)`: an absent end and an end of 0 both mean the length. */
  function EffectiveEnd(end: Option<int>, n: nat): (r: int)
    ensures end.None? || end == Some(0) ==> r == n
    ensures end.Some? && end.value != 0 ==> r == end.value
  {
    match end
    case None => n
    case Some(e) => if e == 0 then n else e
  }

  /** The questions `send_polls(..., start, end)` goes through. */
  function Selected(questions: seq<Question>, start: int, end: Option<int>): seq<Question> {
    PySlice(questions, start, EffectiveEnd(end, |questions|))
  }

  // ---------------------------------------------------------------------
  // One send
  // ---------------------------------------------------------------------

  datatype PollKind =
    | QuizPoll(correctOptionId: nat, explanation: Option<string>)
    | RegularPoll

  /** The arguments of one `client.send_poll` call. */
  datatype PollRequest = PollRequest(
    chatId: int,
    question: string,
    options: seq<string>,
    kind: PollKind,
    isAnonymous: bool)

  /**
   * The poll sent for a question: a quiz carrying the correct option and the
   * explanation only when it is a non-empty string, or a regular poll when
   * there is no correct option; never anonymous.
   */
  function RequestFor(chatId: int, q: Question): (r: PollRequest)
    ensures r.chatId == chatId && r.question == q.question && r.options == q.options
    ensures !r.isAnonymous
    ensures r.kind.QuizPoll? <==> q.correctOptionId.Some?
    ensures r.kind.QuizPoll? ==> r.kind.correctOptionId == q.correctOptionId.value
    ensures r.kind.QuizPoll? ==> (r.kind.explanation.Some? <==> q.explanation.Some? && q.explanation.value != [])
    ensures r.kind.QuizPoll? && r.kind.explanation.Some? ==> r.kind.explanation == q.explanation
  {
    var kind :=
      if q.correctOptionId.Some? then
        QuizPoll(q.correctOptionId.value, if q.explanation.Some? && q.explanation.value != [] then q.explanation else None)
      else RegularPoll;
    PollRequest(chatId, q.question, q.options, kind, false)
  }

  /** What one `send_poll` call ends in. */
  datatype SendOutcome =
    | Sent
    | FloodWait(seconds: nat)
    | SendError(message: string)

  /**
   * The sender: what the `attempt`-th call of `send_poll` (counted from 0)
   * ends in for a request. The network is not modelled; any function will do.
   */
  type Sender = (nat, PollRequest) -> SendOutcome

  /** What the loop does, in order. */
  datatype Event =
    | SendPoll(request: PollRequest)
    | Sleep(seconds: nat)
    | LogFloodWait(seconds: nat)
    | LogSendError(message: string)

  /** The events of one pass of the loop body, given how the send ended. */
  function AttemptEvents(request: PollRequest, outcome: SendOutcome): seq<Event> {
    match outcome
    case Sent => [SendPoll(request), Sleep(3)]
    case FloodWait(v) => [SendPoll(request), LogFloodWait(v), Sleep(v)]
    case SendError(m) => [SendPoll(request), LogSendError(m)]
  }

  /** The events of the loop over `qs`, whose first send is attempt number `attempt`. */
  function DispatchTrace(chatId: int, qs: seq<Question>, sender: Sender, attempt: nat): seq<Event>
    decreases |qs|
  {
    if qs == [] then []
    else
      var request := RequestFor(chatId, qs[0]);
      AttemptEvents(request, sender(attempt, request)) + DispatchTrace(chatId, qs[1..], sender, attempt + 1)
  }

  /** The polls requested, in order. */
  function Sends(events: seq<Event>): seq<PollRequest> {
    if events == [] then []
    else (if events[0].SendPoll? then [events[0].request] else []) + Sends(events[1..])
  }

  /** The requests for `qs`, in order. */
  function Requests(chatId: int, qs: seq<Question>): (rs: seq<PollRequest>)
    ensures |rs| == |qs|
    ensures forall i :: 0 <= i < |qs| ==> rs[i] == RequestFor(chatId, qs[i])
  {
    seq(|qs|, i requires 0 <= i < |qs| => RequestFor(chatId, qs[i]))
  }

  lemma {:induction false} SendsAppend(a: seq<Event>, b: seq<Event>)
    ensures Sends(a + b) == Sends(a) + Sends(b)
    decreases |a|
  {
    if a == [] {
      assert a + b == b;
    } else {
      assert (a + b)[1..] == a[1..] + b;
      SendsAppend(a[1..], b);
      assert (a + b)[0] == a[0];
    }
  }

  /** Events that are not sends contribute no request. */
  lemma {:induction false} SendsOfNoSend(events: seq<Event>)
    requires forall k :: 0 <= k < |events| ==> !events[k].SendPoll?
    ensures Sends(events) == []
    decreases |events|
  {
    if events != [] {
      SendsOfNoSend(events[1..]);
    }
  }

  /** Each pass of the loop body sends exactly once, whatever the outcome: no retry after a flood wait. */
  lemma AttemptSendsOnce(request: PollRequest, outcome: SendOutcome)
    ensures Sends(AttemptEvents(request, outcome)) == [request]
  {
    var events := AttemptEvents(request, outcome);
    SendsOfNoSend(events[1..]);
  }

  lemma {:induction false} DispatchTraceAppend(chatId: int, a: seq<Question>, b: seq<Question>, sender: Sender, attempt: nat)
    ensures DispatchTrace(chatId, a + b, sender, attempt)
         == DispatchTrace(chatId, a, sender, attempt) + DispatchTrace(chatId, b, sender, attempt + |a|)
    decreases |a|
  {
    if a == [] {
      assert a + b == b;
    } else {
      assert (a + b)[1..] == a[1..] + b;
      assert (a + b)[0] == a[0];
      DispatchTraceAppend(chatId, a[1..], b, sender, attempt + 1);
    }
  }

  /**
   * Every selected question is sent exactly once, in order, as the poll built
   * for it, whatever the sender answers: flood waits and errors skip nothing
   * and repeat nothing.
   */
  lemma {:induction false} DispatchSendsEachOnce(chatId: int, qs: seq<Question>, sender: Sender, attempt: nat)
    ensures Sends(DispatchTrace(chatId, qs, sender, attempt)) == Requests(chatId, qs)
    decreases |qs|
  {
    if qs != [] {
      var request := RequestFor(chatId, qs[0]);
      var first := AttemptEvents(request, sender(attempt, request));
      var rest := DispatchTrace(chatId, qs[1..], sender, attempt + 1);
      SendsAppend(first, rest);
      AttemptSendsOnce(request, sender(attempt, request));
      DispatchSendsEachOnce(chatId, qs[1..], sender, attempt + 1);
      assert Requests(chatId, qs) == [request] + Requests(chatId, qs[1..]);
    }
  }

  /**
   * How sleeps and errors sit in a trace: it starts with a send; every sleep
   * comes right after a send (and then lasts 3 seconds) or right after the
   * flood-wait log line of the same length; and after an error log line comes
   * the next send or nothing.
   */
  predicate Paced(t: seq<Event>) {
    && (t != [] ==> t[0].SendPoll?)
    && (forall j :: 0 <= j < |t| && t[j].Sleep? ==>
          j > 0 && ((t[j - 1].SendPoll? && t[j].seconds == 3) || t[j - 1] == LogFloodWait(t[j].seconds)))
    && (forall j :: 0 <= j < |t| && t[j].LogSendError? ==> j + 1 == |t| || t[j + 1].SendPoll?)
  }

  lemma PacedAppend(a: seq<Event>, b: seq<Event>)
    requires Paced(a) && Paced(b)
    ensures Paced(a + b)
  {
    var t := a + b;
    forall j | 0 <= j < |t| && t[j].Sleep?
      ensures j > 0 && ((t[j - 1].SendPoll? && t[j].seconds == 3) || t[j - 1] == LogFloodWait(t[j].seconds))
    {
      if j >= |a| {
        assert t[j] == b[j - |a|];
        assert j - |a| > 0;
        assert t[j - 1] == b[j - |a| - 1];
      } else {
        assert t[j] == a[j];
      }
    }
    forall j | 0 <= j < |t| && t[j].LogSendError? ensures j + 1 == |t| || t[j + 1].SendPoll? {
      if j >= |a| {
        assert t[j] == b[j - |a|];
      } else if j + 1 < |a| {
        assert t[j] == a[j] && t[j + 1] == a[j + 1];
      } else if b != [] {
        assert t[j + 1] == b[0];
      }
    }
  }

  /**
   * Whatever the sender answers, the trace keeps the shape of `Paced`: no
   * sleep before the first send, a 3-second sleep only right after a send, a
   * flood-wait sleep only right after its log line, and nothing between an
   * error log line and the next send. Which sleeps occur is `DispatchSleeps`.
   */
  lemma {:induction false} DispatchIsPaced(chatId: int, qs: seq<Question>, sender: Sender, attempt: nat)
    ensures Paced(DispatchTrace(chatId, qs, sender, attempt))
    decreases |qs|
  {
    if qs != [] {
      var request := RequestFor(chatId, qs[0]);
      DispatchIsPaced(chatId, qs[1..], sender, attempt + 1);
      PacedAppend(AttemptEvents(request, sender(attempt, request)), DispatchTrace(chatId, qs[1..], sender, attempt + 1));
    }
  }

  /** The sleeps of a trace, in seconds, in order. */
  function Sleeps(events: seq<Event>): seq<nat> {
    if events == [] then []
    else (if events[0].Sleep? then [events[0].seconds] else []) + Sleeps(events[1..])
  }

  lemma {:induction false} SleepsAppend(a: seq<Event>, b: seq<Event>)
    ensures Sleeps(a + b) == Sleeps(a) + Sleeps(b)
    decreases |a|
  {
    if a == [] {
      assert a + b == b;
    } else {
      assert (a + b)[1..] == a[1..] + b;
      SleepsAppend(a[1..], b);
      assert (a + b)[0] == a[0];
    }
  }

  /** The answers of the sender to the sends of the loop over `qs`, in order. */
  function Answers(chatId: int, qs: seq<Question>, sender: Sender, attempt: nat): (os: seq<SendOutcome>)
    ensures |os| == |qs|
    ensures forall i :: 0 <= i < |qs| ==> os[i] == sender(attempt + i, RequestFor(chatId, qs[i]))
  {
    seq(|qs|, i requires 0 <= i < |qs| => sender(attempt + i, RequestFor(chatId, qs[i])))
  }

  /**
   * The sleep the bot intends after an answer: 3 seconds after a poll that
   * went through, the requested time after a flood wait, none after any other error.
   */
  function Pause(answer: SendOutcome): seq<nat> {
    match answer
    case Sent => [3]
    case FloodWait(v) => [v]
    case SendError(_) => []
  }

  function Pauses(answers: seq<SendOutcome>): seq<nat> {
    if answers == [] then [] else Pause(answers[0]) + Pauses(answers[1..])
  }

  /** One pass of the loop body sleeps as its answer calls for. */
  lemma AttemptSleeps(request: PollRequest, outcome: SendOutcome)
    ensures Sleeps(AttemptEvents(request, outcome)) == Pause(outcome)
  {
    var events := AttemptEvents(request, outcome);
    var tail := events[1..];
    match outcome
    case Sent =>
      assert tail[1..] == [];
      assert Sleeps(tail) == [3];
    case FloodWait(v) =>
      assert tail[1..][1..] == [];
      assert Sleeps(tail[1..]) == [v];
      assert Sleeps(tail) == [v];
    case SendError(m) =>
      assert tail[1..] == [];
      assert Sleeps(tail) == [];
  }

  lemma AnswersStep(chatId: int, qs: seq<Question>, sender: Sender, attempt: nat)
    requires qs != []
    ensures Answers(chatId, qs, sender, attempt)
         == [sender(attempt, RequestFor(chatId, qs[0]))] + Answers(chatId, qs[1..], sender, attempt + 1)
  {
    var answers, rest := Answers(chatId, qs, sender, attempt), Answers(chatId, qs[1..], sender, attempt + 1);
    forall i | 0 <= i < |rest| ensures answers[i + 1] == rest[i] {
      assert qs[1..][i] == qs[i + 1];
      assert attempt + 1 + i == attempt + (i + 1);
    }
    assert answers == [answers[0]] + answers[1..];
  }

  /**
   * The loop sleeps exactly as the sender's answers call for, in order: 3
   * seconds for each poll sent, the waiting time for each flood wait, and
   * nothing for other errors.
   */
  lemma {:induction false} DispatchSleeps(chatId: int, qs: seq<Question>, sender: Sender, attempt: nat)
    ensures Sleeps(DispatchTrace(chatId, qs, sender, attempt)) == Pauses(Answers(chatId, qs, sender, attempt))
    decreases |qs|
  {
    if qs != [] {
      var request := RequestFor(chatId, qs[0]);
      var answer := sender(attempt, request);
      SleepsAppend(AttemptEvents(request, answer), DispatchTrace(chatId, qs[1..], sender, attempt + 1));
      AttemptSleeps(request, answer);
      DispatchSleeps(chatId, qs[1..], sender, attempt + 1);
      AnswersStep(chatId, qs, sender, attempt);
      var rest := Answers(chatId, qs[1..], sender, attempt + 1);
      assert ([answer] + rest)[1..] == rest;
    }
  }

  /**
   * `send_polls(client, chat_id, questions, start, end)`: the events of the
   * loop over `questions[start:end or len(questions)]`.
   */
  method SendPolls(chatId: int, questions: seq<Question>, start: int, end: Option<int>, sender: Sender)
    returns (trace: seq<Event>)
    ensures trace == DispatchTrace(chatId, Selected(questions, start, end), sender, 0)
    ensures Sends(trace) == Requests(chatId, Selected(questions, start, end))
    ensures Paced(trace)
    ensures Sleeps(trace) == Pauses(Answers(chatId, Selected(questions, start, end), sender, 0))
  {
    var endIndex := EffectiveEnd(end, |questions|);
    var selection := PySlice(questions, start, endIndex);
    trace := [];
    var i := 0;
    while i < |selection|
      invariant 0 <= i <= |selection|
      invariant trace == DispatchTrace(chatId, selection[..i], sender, 0)
    {
      var question := selection[i];
      var request := RequestFor(chatId, question);
      var outcome := sender(i, request);
      match outcome {
        case Sent =>
          trace := trace + [SendPoll(request), Sleep(3)];
        case FloodWait(v) =>
          trace := trace + [SendPoll(request), LogFloodWait(v), Sleep(v)];
        case SendError(m) =>
          trace := trace + [SendPoll(request), LogSendError(m)];
      }
      DispatchStep(chatId, selection, sender, i);
      i := i + 1;
    }
    assert selection[..i] == selection;
    DispatchSendsEachOnce(chatId, selection, sender, 0);
    DispatchIsPaced(chatId, selection, sender, 0);
    DispatchSleeps(chatId, selection, sender, 0);
  }

  /** One more question adds its own pass of the loop body at the end of the trace. */
  lemma DispatchStep(chatId: int, qs: seq<Question>, sender: Sender, i: nat)
    requires i < |qs|
    ensures var request := RequestFor(chatId, qs[i]);
      DispatchTrace(chatId, qs[..i + 1], sender, 0)
        == DispatchTrace(chatId, qs[..i], sender, 0) + AttemptEvents(request, sender(i, request))
  {
    assert qs[..i + 1] == qs[..i] + [qs[i]];
    DispatchTraceAppend(chatId, qs[..i], [qs[i]], sender, 0);
    assert [qs[i]][1..] == [];
  }

  // ---------------------------------------------------------------------
  // Which questions are selected
  // ---------------------------------------------------------------------

  /** With the defaults (`start` 0, no `end`), every question is sent. */
  lemma SelectAllByDefault(questions: seq<Question>)
    ensures Selected(questions, 0, None) == questions
  {
    if questions != [] {
      assert questions[0..|questions|] == questions;
    }
  }

  /** An `end` of 0 is the same as no `end` at all. */
  lemma EndZeroMeansLength(questions: seq<Question>, start: int)
    ensures Selected(questions, start, Some(0)) == Selected(questions, start, None)
  {
  }

  /** `/gen <file> a b` with `1 <= a <= b <= len`: the questions numbered `a` to `b`, counted from 1. */
  lemma SelectRange(questions: seq<Question>, a: int, b: int)
    requires 1 <= a <= b <= |questions|
    ensures Selected(questions, a - 1, Some(b)) == questions[a - 1..b]
  {
  }

  /**
   * `/gen <file> 0 b` gives `start == -1`, which Python reads as the last
   * question: with `b` below the length nothing at all is selected.
   */
  lemma StartZeroCountsFromEnd(questions: seq<Question>, b: int)
    requires 1 <= b < |questions|
    ensures Selected(questions, -1, Some(b)) == []
  {
  }

  /** The selection is a run of consecutive questions, in their order. */
  lemma SelectedIsContiguous(questions: seq<Question>, start: int, end: Option<int>)
    ensures exists lo: nat, hi: nat :: lo <= hi <= |questions| && Selected(questions, start, end) == questions[lo..hi]
  {
    var lo, hi := ClampIndex(start, |questions|), ClampIndex(EffectiveEnd(end, |questions|), |questions|);
    if hi <= lo {
      assert Selected(questions, start, end) == questions[lo..lo];
    } else {
      assert Selected(questions, start, end) == questions[lo..hi];
    }
  }
}
