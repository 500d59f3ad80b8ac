/**
 * Turning decoded chat sessions into flat conversation records: the inner `for` loop
 * of the export script over each session's requests, with the `try`/`catch` that ends
 * a session when reading it throws, and the concatenation of the sessions' records
 * that the outer loop builds (the outer loop itself is `Export.ExportChats`).
 *
 * A session is taken as already decoded from its stored bytes; decoding is not modelled
 * (`None` stands for every session that the script skips before its loop starts).
 */
module Extraction {
  import opened Wrappers
  import opened Strings
  import opened Cleaning
  import Decimal

  // ---------------------------------------------------------------------------
  // The decoded session, as far as the script reads it
  // ---------------------------------------------------------------------------

  /**
   * `request.message.text`: absent or falsy (`NoText`), a string (`Text`), or a truthy
   * value that is not a string (`NonStringText`), on which `.replace` throws.
   */
  datatype MessageText = NoText | Text(text: string) | NonStringText

  /** An element of `request.response`: a string `value` or anything else. */
  datatype Fragment = ValueFragment(value: string) | OtherFragment

  /** `request.response`: an array or not (absent, null, an object, ...). */
  datatype Response = NotArray | Parts(fragments: seq<Fragment>)

  /** An element of `requests`; `NullRequest` is a null entry, on which `.message` throws. */
  datatype Request = Request(message: MessageText, response: Response) | NullRequest

  /**
   * A parsed session: its `sessionId` if it is a string; its creation date as
   * `new Date(creationDate).toLocaleDateString()` formats it, or `None` when that
   * conversion throws (a `creationDate` whose conversion to a primitive fails, such as
   * an object whose own `toString` is not a function); and its requests (empty when
   * absent).
   */
  datatype Session = Session(sessionId: Option<string>, date: Option<string>, requests: seq<Request>)

  datatype Content = Content(session: string, date: string, human: string, copilot: string)

  /** One exported object `{ key, content, type }`. */
  datatype Record = Record(key: string, content: Content, kind: string)

  const MinTextLength := 10
  const SessionIdLength := 8
  const LabelPrefix := "conversation-"
  const RecordKind := "conversation"

  // ---------------------------------------------------------------------------
  // Record fields
  // ---------------------------------------------------------------------------

  /** The key `conversation-${j + 1}` of the record for request `j`. */
  function Label(j: nat): string
  {
    LabelPrefix + Decimal.Show(j + 1)
  }

  /** The request index a key was made from, or -1 for a key that is not a label. */
  function RequestIndex(key: string): int
  {
    if |LabelPrefix| < |key| && key[..|LabelPrefix|] == LabelPrefix && Decimal.AllDigits(key[|LabelPrefix|..])
    then Decimal.Parse(key[|LabelPrefix|..]) - 1
    else -1
  }

  /** A label gives back its request index, so labels within a session are distinct. */
  lemma LabelRoundTrip(j: nat)
    ensures RequestIndex(Label(j)) == j
  {
    var key := Label(j);
    assert key[..|LabelPrefix|] == LabelPrefix;
    assert key[|LabelPrefix|..] == Decimal.Show(j + 1);
    Decimal.ParseShow(j + 1);
  }

  /** `sessionId.substring(0, 8)`. */
  function SessionPrefix(id: string): (r: string)
    ensures |r| == if |id| < SessionIdLength then |id| else SessionIdLength
    ensures r == id[..|r|]
  {
    if |id| < SessionIdLength then id else id[..SessionIdLength]
  }

  /** The user text: the cleaned `message.text`, or '' when there is none. Not trimmed. */
  function UserText(m: MessageText): string
  {
    if m.Text? && m.text != "" then Clean(m.text) else ""
  }

  /** `response.filter(r => r && r.value && typeof r.value === 'string')`, as the values. */
  function TextValues(fragments: seq<Fragment>): seq<string>
  {
    if fragments == [] then []
    else
      var rest := TextValues(fragments[1..]);
      match fragments[0]
      case ValueFragment(v) => if v != "" then [v] + rest else rest
      case OtherFragment => rest
  }

  /** The kept values are exactly the non-empty string values, at most one per fragment. */
  lemma {:induction false} TextValuesSpec(fragments: seq<Fragment>)
    ensures |TextValues(fragments)| <= |fragments|
    ensures forall v :: v in TextValues(fragments) <==> v != "" && ValueFragment(v) in fragments
    decreases |fragments|
  {
    if fragments != [] {
      TextValuesSpec(fragments[1..]);
      assert fragments == [fragments[0]] + fragments[1..];
    }
  }

  /** The values of consecutive runs of elements are concatenated in order. */
  lemma {:induction false} TextValuesAppend(a: seq<Fragment>, b: seq<Fragment>)
    ensures TextValues(a + b) == TextValues(a) + TextValues(b)
    decreases |a|
  {
    if a == [] {
      assert a + b == b;
    } else {
      assert (a + b)[0] == a[0];
      assert (a + b)[1..] == a[1..] + b;
      TextValuesAppend(a[1..], b);
    }
  }

  /** One element gives its value when that is a non-empty string, and nothing otherwise. */
  lemma TextValuesSingle(f: Fragment)
    ensures TextValues([f]) == if f.ValueFragment? && f.value != "" then [f.value] else []
  {
    assert [f][1..] == [];
  }

  /** `.map(r => clean(r.value))`. */
  function CleanAll(values: seq<string>): seq<string>
  {
    if values == [] then [] else [Clean(values[0])] + CleanAll(values[1..])
  }

  /** Every value is cleaned, in place. */
  lemma {:induction false} CleanAllSpec(values: seq<string>)
    ensures |CleanAll(values)| == |values|
    ensures forall i :: 0 <= i < |values| ==> CleanAll(values)[i] == Clean(values[i])
    decreases |values|
  {
    if values != [] {
      var rest := values[1..];
      CleanAllSpec(rest);
      var r := CleanAll(values);
      assert r == [Clean(values[0])] + CleanAll(rest);
      forall i | 1 <= i < |values|
        ensures r[i] == Clean(values[i])
      {
        assert r[i] == CleanAll(rest)[i - 1] && values[i] == rest[i - 1];
      }
    }
  }

  /** The response text: the cleaned values joined by one space and trimmed; '' for a non-array. */
  function ResponseText(r: Response): string
  {
    match r
    case NotArray => ""
    case Parts(fragments) => Trim(JoinWithSpace(CleanAll(TextValues(fragments))))
  }

  // ---------------------------------------------------------------------------
  // One iteration of the inner loop, and the loop itself
  // ---------------------------------------------------------------------------

  /** What the loop body does with one request: push a record, push nothing, or throw. */
  datatype Outcome = Emit(record: Record) | Skip | Throw

  /** Both texts are long enough for the record to be pushed. */
  predicate Qualifies(request: Request)
  {
    request.Request? && !request.message.NonStringText? &&
    |UserText(request.message)| > MinTextLength && |ResponseText(request.response)| > MinTextLength
  }

  function RequestOutcome(s: Session, j: nat): Outcome
    requires j < |s.requests|
  {
    var request := s.requests[j];
    if request.NullRequest? || request.message.NonStringText? then Throw
    else if !Qualifies(request) then Skip
    else if s.sessionId.None? then Throw
    else if s.date.None? then Throw
    else Emit(Record(Label(j),
                     Content(SessionPrefix(s.sessionId.value), s.date.value, UserText(request.message), ResponseText(request.response)),
                     RecordKind))
  }

  /**
   * Reading request `j` throws: a null request, a truthy non-string text, or, for a
   * request whose record would be pushed, a missing id or a date that cannot be converted.
   */
  predicate Throws(s: Session, j: nat)
    requires j < |s.requests|
  {
    var request := s.requests[j];
    request.NullRequest? || request.message.NonStringText? || (Qualifies(request) && (s.sessionId.None? || s.date.None?))
  }

  /** The outcome of every request of `s`, in order (`OutcomeAt` gives each one). */
  function Outcomes(s: Session): (os: seq<Outcome>)
    ensures |os| == |s.requests|
  {
    OutcomesFrom(s, 0)
  }

  function OutcomesFrom(s: Session, k: nat): (os: seq<Outcome>)
    requires k <= |s.requests|
    ensures |os| == |s.requests| - k
    decreases |s.requests| - k
  {
    if k == |s.requests| then [] else [RequestOutcome(s, k)] + OutcomesFrom(s, k + 1)
  }

  /** One unfolding of `OutcomesFrom`: the outcome at `k`, then those after it. */
  lemma OutcomesFromCons(s: Session, k: nat)
    requires k < |s.requests|
    ensures OutcomesFrom(s, k) == [RequestOutcome(s, k)] + OutcomesFrom(s, k + 1)
  {
  }

  lemma {:induction false} OutcomesFromAt(s: Session, k: nat, j: nat)
    requires k <= j < |s.requests|
    ensures OutcomesFrom(s, k)[j - k] == RequestOutcome(s, j)
    decreases j - k
  {
    OutcomesFromCons(s, k);
    if k < j {
      OutcomesFromAt(s, k + 1, j);
    }
  }

  /** Entry `j` is the outcome of request `j`; a throw is exactly a read that throws. */
  lemma OutcomeAt(s: Session, j: nat)
    requires j < |s.requests|
    ensures Outcomes(s)[j] == RequestOutcome(s, j)
    ensures Outcomes(s)[j].Throw? <==> Throws(s, j)
  {
    OutcomesFromAt(s, 0, j);
  }

  /** The records pushed so far, and whether the session has thrown. */
  datatype RunState = RunState(records: seq<Record>, aborted: bool)

  /** The state after the loop body has met the first `n` of the outcomes `os`. */
  function Run(os: seq<Outcome>, n: nat): RunState
    requires n <= |os|
  {
    if n == 0 then RunState([], false)
    else
      var prev := Run(os, n - 1);
      if prev.aborted then prev
      else match os[n - 1]
        case Emit(r) => RunState(prev.records + [r], false)
        case Skip => prev
        case Throw => RunState(prev.records, true)
  }

  /** The records one session adds: those pushed before its loop ends or throws. */
  function SessionRecords(s: Session): seq<Record>
  {
    var os := Outcomes(s);
    Run(os, |os|).records
  }

  /** What one matched key adds: nothing when the value was missing or failed to parse. */
  function Contribution(v: Option<Session>): seq<Record>
  {
    match v
    case None => []
    case Some(s) => SessionRecords(s)
  }

  /** The records of the outer loop over the sessions, in order. */
  function AllRecords(sessions: seq<Option<Session>>): seq<Record>
  {
    FlatMap(Contribution, sessions)
  }

  // ---------------------------------------------------------------------------
  // Properties of the inner loop
  // ---------------------------------------------------------------------------

  /** None of the first `n` outcomes is a throw. */
  predicate NoThrowBefore(os: seq<Outcome>, n: nat)
    requires n <= |os|
  {
    forall k :: 0 <= k < n ==> !os[k].Throw?
  }

  /** Once thrown, the session stays as it was: later requests are not looked at. */
  lemma {:induction false} RunAbortedStable(os: seq<Outcome>, n: nat, m: nat)
    requires n <= m <= |os|
    requires Run(os, n).aborted
    ensures Run(os, m) == Run(os, n)
    decreases m - n
  {
    if n < m {
      RunAbortedStable(os, n, m - 1);
    }
  }

  /** The loop has thrown after `n` requests exactly when one of them threw. */
  lemma {:induction false} RunAborted(os: seq<Outcome>, n: nat)
    requires n <= |os|
    ensures Run(os, n).aborted <==> !NoThrowBefore(os, n)
    decreases n
  {
    if n > 0 {
      RunAborted(os, n - 1);
    }
  }

  /** At most one record per request. */
  lemma {:induction false} RunLength(os: seq<Outcome>, n: nat)
    requires n <= |os|
    ensures |Run(os, n).records| <= n
    decreases n
  {
    if n > 0 {
      RunLength(os, n - 1);
    }
  }

  /** Every record an outcome carries is labelled with the index of its request. */
  predicate Labelled(os: seq<Outcome>)
  {
    forall j :: 0 <= j < |os| && os[j].Emit? ==> RequestIndex(os[j].record.key) == j
  }

  lemma OutcomesLabelled(s: Session)
    ensures Labelled(Outcomes(s))
  {
    var os := Outcomes(s);
    forall j | 0 <= j < |os| && os[j].Emit?
      ensures RequestIndex(os[j].record.key) == j
    {
      OutcomeAt(s, j);
      LabelRoundTrip(j);
    }
  }

  /** The records were made from strictly increasing request indices. */
  predicate InRequestOrder(rs: seq<Record>)
  {
    forall a, b :: 0 <= a < b < |rs| ==> RequestIndex(rs[a].key) < RequestIndex(rs[b].key)
  }

  /**
   * Every record is the one pushed by one of the first `n` requests, and the
   * records are in request order.
   */
  lemma {:induction false} RunRecordsFrom(os: seq<Outcome>, n: nat)
    requires n <= |os| && Labelled(os)
    ensures forall r :: r in Run(os, n).records ==>
      0 <= RequestIndex(r.key) < n && os[RequestIndex(r.key)] == Emit(r)
    ensures InRequestOrder(Run(os, n).records)
    decreases n
  {
    if n > 0 {
      RunRecordsFrom(os, n - 1);
      var prev := Run(os, n - 1);
      if prev.aborted || !os[n - 1].Emit? {
        assert Run(os, n).records == prev.records;
      } else {
        var r := os[n - 1].record;
        var rs := Run(os, n).records;
        assert rs == prev.records + [r];
        assert RequestIndex(r.key) == n - 1;
        forall x | x in rs
          ensures 0 <= RequestIndex(x.key) < n && os[RequestIndex(x.key)] == Emit(x)
        {
          if x != r {
            assert x in prev.records;
          }
        }
        forall a, b | 0 <= a < b < |rs|
          ensures RequestIndex(rs[a].key) < RequestIndex(rs[b].key)
        {
          if b == |rs| - 1 {
            assert rs[a] == prev.records[a] && rs[b] == r;
            assert rs[a] in prev.records;
          } else {
            assert rs[a] == prev.records[a] && rs[b] == prev.records[b];
          }
        }
      }
    }
  }

  /** Some record of `rs` was made from request `j`. */
  predicate HasRecordFor(rs: seq<Record>, j: int)
  {
    exists r :: r in rs && RequestIndex(r.key) == j
  }

  /** Request `j` gets a record exactly when no earlier request threw and it pushes one. */
  lemma {:induction false} RunEmits(os: seq<Outcome>, n: nat, j: nat)
    requires j < n <= |os| && Labelled(os)
    ensures HasRecordFor(Run(os, n).records, j) <==> NoThrowBefore(os, j) && os[j].Emit?
    decreases n
  {
    RunAborted(os, n - 1);
    RunRecordsFrom(os, n - 1);
    var prev := Run(os, n - 1);
    if j < n - 1 {
      RunEmits(os, n - 1, j);
      if !prev.aborted && os[n - 1].Emit? {
        assert Run(os, n).records == prev.records + [os[n - 1].record];
      }
    } else {
      assert !HasRecordFor(prev.records, j);
      if !prev.aborted && os[n - 1].Emit? {
        var r := os[n - 1].record;
        assert Run(os, n).records == prev.records + [r];
        assert r in Run(os, n).records;
      }
    }
  }

  // ---------------------------------------------------------------------------
  // Properties of one session
  // ---------------------------------------------------------------------------

  /**
   * Request `j` of a session gets a record exactly when no earlier request threw,
   * both of its texts are longer than 10 characters, the session has a string id and
   * its creation date converts.
   */
  lemma SessionEmits(s: Session, j: nat)
    requires j < |s.requests|
    ensures HasRecordFor(SessionRecords(s), j) <==>
      (forall k :: 0 <= k < j ==> !Throws(s, k)) && Qualifies(s.requests[j]) && s.sessionId.Some? && s.date.Some?
  {
    var os := Outcomes(s);
    OutcomesLabelled(s);
    RunEmits(os, |os|, j);
    forall k | 0 <= k < j
      ensures os[k].Throw? <==> Throws(s, k)
    {
      OutcomeAt(s, k);
    }
    OutcomeAt(s, j);
  }

  /** What a pushed record holds. */
  lemma EmittedRecord(s: Session, j: nat)
    requires j < |s.requests| && RequestOutcome(s, j).Emit?
    ensures var r := RequestOutcome(s, j).record;
      var request := s.requests[j];
      r.key == Label(j) && r.kind == "conversation" &&
      s.sessionId.Some? && r.content.session == SessionPrefix(s.sessionId.value) &&
      s.date.Some? && r.content.date == s.date.value &&
      r.content.human == UserText(request.message) && |r.content.human| > 10 &&
      r.content.copilot == ResponseText(request.response) && |r.content.copilot| > 10
  {
  }

  /** The user text is cleaned but not trimmed: text without backticks is kept as written. */
  lemma UserTextUntrimmed(t: string)
    requires t != "" && BacktickFree(t)
    ensures UserText(Text(t)) == t
  {
    CleanBacktickFree(t);
  }

  /** The response text is trimmed: one value without backticks gives that value trimmed. */
  lemma ResponseTextTrimmed(v: string)
    requires v != "" && BacktickFree(v)
    ensures ResponseText(Parts([ValueFragment(v)])) == Trim(v)
  {
    var fragments := [ValueFragment(v)];
    assert fragments[1..] == [];
    assert TextValues(fragments) == [v];
    CleanBacktickFree(v);
    assert CleanAll([v]) == [v];
  }

  /**
   * A session adds at most one record per request, in request order, each labelled
   * with its request and carrying that request's texts.
   */
  lemma SessionRecordsShape(s: Session)
    ensures |SessionRecords(s)| <= |s.requests|
    ensures forall r :: r in SessionRecords(s) ==>
      0 <= RequestIndex(r.key) < |s.requests| && RequestOutcome(s, RequestIndex(r.key)) == Emit(r)
    ensures InRequestOrder(SessionRecords(s))
  {
    var os := Outcomes(s);
    RunLength(os, |os|);
    OutcomesLabelled(s);
    RunRecordsFrom(os, |os|);
    forall r | r in SessionRecords(s)
      ensures 0 <= RequestIndex(r.key) < |s.requests| && RequestOutcome(s, RequestIndex(r.key)) == Emit(r)
    {
      OutcomeAt(s, RequestIndex(r.key));
    }
  }

  /**
   * An example session: a session `abcdef1234567` with one request whose text has an
   * inline span and whose one response value has a fenced block gives one record.
   */
  lemma ExampleSession(s: Session, text: string, value: string, date: string)
    requires text == "Hello world, `please` help"
    requires value == "Sure, ```js\ncode\n``` here you go"
    requires s == Session(Some("abcdef1234567"), Some(date), [Request(Text(text), Parts([ValueFragment(value)]))])
    ensures SessionRecords(s) ==
      [Record("conversation-1", Content("abcdef12", date, "Hello world, please help", "Sure, code\n here you go"), "conversation")]
  {
    var human, copilot := "Hello world, please help", "Sure, code\n here you go";
    InlineExample(text);
    ResponseFenceExample(value);
    ExampleResponse(value, copilot);
    ExampleFields(human, copilot);
    ExampleOutcome(s, human, copilot);
    var r := Record("conversation-1", Content("abcdef12", date, human, copilot), "conversation");
    OutcomeAt(s, 0);
    var os := Outcomes(s);
    assert os[0] == Emit(r);
    assert Run(os, 1) == RunState([r], false);
  }

  lemma ExampleOutcome(s: Session, human: string, copilot: string)
    requires |s.requests| == 1 && s.requests[0].Request? && s.requests[0].message.Text?
    requires UserText(s.requests[0].message) == human && ResponseText(s.requests[0].response) == copilot
    requires |human| > MinTextLength && |copilot| > MinTextLength
    requires s.sessionId == Some("abcdef1234567") && s.date.Some?
    requires Label(0) == "conversation-1" && SessionPrefix("abcdef1234567") == "abcdef12"
    ensures RequestOutcome(s, 0) == Emit(Record("conversation-1", Content("abcdef12", s.date.value, human, copilot), "conversation"))
  {
  }

  lemma ExampleResponse(value: string, copilot: string)
    requires Clean(value) == copilot && copilot == "Sure, code\n here you go"
    ensures ResponseText(Parts([ValueFragment(value)])) == copilot
  {
    var fragments := [ValueFragment(value)];
    assert fragments[1..] == [];
    assert value != "";
    assert TextValues(fragments) == [value];
    assert CleanAll([value]) == [copilot];
    TrimUnchanged(copilot);
  }

  lemma ExampleFields(human: string, copilot: string)
    requires human == "Hello world, please help" && copilot == "Sure, code\n here you go"
    ensures |human| > MinTextLength && |copilot| > MinTextLength
    ensures Label(0) == "conversation-1" && SessionPrefix("abcdef1234567") == "abcdef12"
  {
    assert Decimal.Show(1) == "1";
  }

  // ---------------------------------------------------------------------------
  // Properties of the outer loop
  // ---------------------------------------------------------------------------

  /** The records of consecutive runs of sessions are concatenated in order. */
  lemma AllRecordsAppend(a: seq<Option<Session>>, b: seq<Option<Session>>)
    ensures AllRecords(a + b) == AllRecords(a) + AllRecords(b)
  {
    FlatMapAppend(Contribution, a, b);
  }

  /** A session that was missing or failed to parse leaves the other sessions' records as they are. */
  lemma SkippedSession(a: seq<Option<Session>>, b: seq<Option<Session>>)
    ensures AllRecords(a + [None] + b) == AllRecords(a + b)
  {
    var none: seq<Option<Session>> := [None];
    FlatMapAppend(Contribution, a + none, b);
    FlatMapAppend(Contribution, a, none);
    FlatMapAppend(Contribution, a, b);
    assert none[..0] == [];
    assert FlatMap(Contribution, none) == [];
  }

  function TotalRequests(sessions: seq<Option<Session>>): nat
  {
    if sessions == [] then 0
    else TotalRequests(sessions[..|sessions| - 1]) + match sessions[|sessions| - 1] {
      case None => 0
      case Some(s) => |s.requests|
    }
  }

  /** The output has at most one record per request of the parsed sessions. */
  lemma {:induction false} AllRecordsLength(sessions: seq<Option<Session>>)
    ensures |AllRecords(sessions)| <= TotalRequests(sessions)
    decreases |sessions|
  {
    if sessions != [] {
      AllRecordsLength(sessions[..|sessions| - 1]);
      if sessions[|sessions| - 1].Some? {
        SessionRecordsShape(sessions[|sessions| - 1].value);
      }
    }
  }

  /** Every output record is a record of one of the parsed sessions. */
  lemma AllRecordsFrom(sessions: seq<Option<Session>>, r: Record)
    requires r in AllRecords(sessions)
    ensures exists i :: 0 <= i < |sessions| && sessions[i].Some? && r in SessionRecords(sessions[i].value)
  {
    FlatMapMember(Contribution, sessions, r);
  }

  // ---------------------------------------------------------------------------
  // One step of the inner loop, request by request
  // ---------------------------------------------------------------------------

  /** One more outcome, met while the session has not thrown. */
  lemma RunStep(os: seq<Outcome>, j: nat)
    requires j < |os| && !Run(os, j).aborted
    ensures Run(os, j + 1) == match os[j]
      case Emit(r) => RunState(Run(os, j).records + [r], false)
      case Skip => Run(os, j)
      case Throw => RunState(Run(os, j).records, true)
  {
  }

  // ---------------------------------------------------------------------------
  // The loops, as the script runs them
  // ---------------------------------------------------------------------------

  /**
   * The body of the inner loop for request `j`: what reading the request gives, with
   * `Throw` for the reads that throw (`.message` of null, `.replace` of a truthy non-string,
   * `.substring` of a missing `sessionId`, `new Date` of a `creationDate` that cannot be
   * converted). It is the statement form of
   * `RequestOutcome`, written step by step as the loop body runs.
   */
  method ReadRequest(chatSession: Session, j: nat) returns (outcome: Outcome)
    requires j < |chatSession.requests|
    ensures outcome == Outcomes(chatSession)[j]
  {
    OutcomeAt(chatSession, j);
    var request := chatSession.requests[j];
    if request.NullRequest? || request.message.NonStringText? {
      return Throw;
    }
    var userMessage := UserText(request.message);
    var copilotResponse := ResponseText(request.response);
    if |userMessage| > MinTextLength && |copilotResponse| > MinTextLength {
      if chatSession.sessionId.None? {
        return Throw;
      }
      var session := SessionPrefix(chatSession.sessionId.value);
      if chatSession.date.None? {
        return Throw;
      }
      var content := Content(session, chatSession.date.value, userMessage, copilotResponse);
      return Emit(Record(Label(j), content, RecordKind));
    }
    return Skip;
  }

  /**
   * The inner loop over one parsed session: the records it pushes, in order, until
   * the session ends or reading a request throws. The records pushed before a throw
   * stay pushed.
   */
  method ProcessSession(chatSession: Session) returns (pushed: seq<Record>)
    ensures pushed == SessionRecords(chatSession)
  {
    pushed := [];
    var n := |chatSession.requests|;
    ghost var os := Outcomes(chatSession);
    var j := 0;
    while j < n
      invariant 0 <= j <= n
      invariant Run(os, j) == RunState(pushed, false)
    {
      var outcome := ReadRequest(chatSession, j);
      RunStep(os, j);
      match outcome {
        case Throw =>
          // the catch ends the session
          RunAbortedStable(os, j + 1, n);
          return;
        case Skip =>
        case Emit(record) =>
          pushed := pushed + [record];
      }
      j := j + 1;
    }
  }
}
