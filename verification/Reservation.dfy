/**
 The idempotency key of Thumbup as a machine of interleaved requests. Each request takes its steps
 one at a time, any other request may take steps in between, keys expire at any moment, and every
 call to Redis, MySQL or Kafka may fail. A script or a push whose reply is lost has had its effect and
 still looks failed to the request. A request that stops half way is one that takes no more steps.
 */
module Reservation {
  import opened LikeRecords

  /** The values P:type and D:type of an idempotency key. */
  datatype Slot = Processing(likeType: int) | Finished(likeType: int)

  type Slots = map<Key, Slot>

  datatype Phase = Fresh | Reserved | RecordRead | CountRead | Sent | Done

  /** A request and how far it is; it owns the key when the script answered "processing". */
  datatype Request = Request(msg: Msg, phase: Phase, owns: bool)

  datatype State = State(slots: Slots, requests: seq<Request>, log: seq<Msg>)

  datatype Found = NotFound | Record(likeType: int)

  datatype Step =
    | Reserve(r: nat, applied: bool, seen: bool)
    | ReadRecord(r: nat, ok: bool, found: Found, delOk: bool)
    | ReadCount(r: nat, ok: bool, delOk: bool)
    | Push(r: nat, applied: bool, seen: bool, delOk: bool)
    | MarkDone(r: nat, setOk: bool)
    | Expire(key: Key)

  datatype Verdict = Granted | Duplicate | Conflict

  /** The reservation script. */
  function ReserveScript(slots: Slots, k: Key, t: int): (Slots, Verdict) {
    if k !in slots then (slots[k := Processing(t)], Granted)
    else if slots[k] == Processing(t) || slots[k] == Finished(t) then (slots, Duplicate)
    else (slots, Conflict)
  }

  function Release(slots: Slots, q: Request, delOk: bool): Slots {
    if q.owns && delOk then slots - {q.msg.key} else slots
  }

  predicate Enabled(s: State, step: Step) {
    match step
    case Reserve(r, _, _) => r < |s.requests| && s.requests[r].phase == Fresh
    case ReadRecord(r, _, _, _) => r < |s.requests| && s.requests[r].phase == Reserved
    case ReadCount(r, _, _) => r < |s.requests| && s.requests[r].phase == RecordRead
    case Push(r, _, _, _) => r < |s.requests| && s.requests[r].phase == CountRead
    case MarkDone(r, _) => r < |s.requests| && s.requests[r].phase == Sent
    case Expire(_) => true
  }

  function Next(s: State, step: Step): State
    requires Enabled(s, step)
  {
    if step.Expire? then s.(slots := s.slots - {step.key})
    else
      var q := s.requests[step.r];
      match step
      case Reserve(r, applied, seen) =>
        var (slots, verdict) := ReserveScript(s.slots, q.msg.key, q.msg.likeType);
        var reserved := s.(slots := if applied then slots else s.slots);
        if !applied || !seen then reserved.(requests := s.requests[r := q.(phase := Reserved)])
        else if verdict == Duplicate then s.(requests := s.requests[r := q.(phase := Done)])
        else reserved.(requests := s.requests[r := q.(phase := Reserved, owns := verdict == Granted)])
      case ReadRecord(r, ok, found, delOk) =>
        if !ok then
          s.(slots := Release(s.slots, q, delOk), requests := s.requests[r := q.(phase := Done)])
        else if found == Record(q.msg.likeType) then
          s.(requests := s.requests[r := q.(phase := Done)])
        else
          s.(requests := s.requests[r := q.(phase := RecordRead)])
      case ReadCount(r, ok, delOk) =>
        if !ok then
          s.(slots := Release(s.slots, q, delOk), requests := s.requests[r := q.(phase := Done)])
        else
          s.(requests := s.requests[r := q.(phase := CountRead)])
      case Push(r, applied, seen, delOk) =>
        var pushed := s.(log := if applied then s.log + [q.msg] else s.log);
        if !applied || !seen then
          pushed.(slots := Release(s.slots, q, delOk), requests := s.requests[r := q.(phase := Done)])
        else
          pushed.(requests := s.requests[r := q.(phase := Sent)])
      case MarkDone(r, setOk) =>
        s.(slots := if q.owns && setOk then s.slots[q.msg.key := Finished(q.msg.likeType)] else s.slots,
           requests := s.requests[r := q.(phase := Done)])
  }

  /** A run: its states one by one, each step taken from the state before it. */
  ghost predicate Run(states: seq<State>, steps: seq<Step>) {
    && |states| == |steps| + 1
    && Start(states[0])
    && forall i :: 0 <= i < |steps| ==> Enabled(states[i], steps[i]) && states[i + 1] == Next(states[i], steps[i])
  }

  ghost predicate Start(s: State) {
    && s.slots == map[] && s.log == []
    && forall r :: 0 <= r < |s.requests| ==> s.requests[r].phase == Fresh && !s.requests[r].owns
  }

  function TypeOf(slots: Slots, k: Key): Found {
    if k in slots then Record(slots[k].likeType) else NotFound
  }

  ghost predicate Pushes(steps: seq<Step>, i: nat, r: nat) {
    i < |steps| && steps[i].Push? && steps[i].r == r && steps[i].applied
  }

  // ---- A finished key has been pushed ----

  /** D:t is set only after t was pushed for that key, and a request that has sent is in the log. */
  ghost predicate Backed(s: State) {
    && (forall k :: k in s.slots && s.slots[k].Finished? ==> Msg(k, s.slots[k].likeType) in s.log)
    && (forall r :: 0 <= r < |s.requests| && s.requests[r].phase == Sent ==> s.requests[r].msg in s.log)
  }

  lemma StepKeepsBacked(s: State, step: Step)
    requires Backed(s) && Enabled(s, step)
    ensures Backed(Next(s, step))
    ensures s.log <= Next(s, step).log
  {
  }

  lemma {:induction false} FinishedMeansPushed(states: seq<State>, steps: seq<Step>, i: nat)
    requires Run(states, steps) && i < |states|
    ensures Backed(states[i])
  {
    if i > 0 {
      FinishedMeansPushed(states, steps, i - 1);
      StepKeepsBacked(states[i - 1], steps[i - 1]);
    }
  }

  // ---- At most one push per period ----

  lemma PhaseMoves(s: State, step: Step, r: nat)
    requires Enabled(s, step) && r < |s.requests|
    ensures |Next(s, step).requests| == |s.requests|
    ensures Next(s, step).requests[r].msg == s.requests[r].msg
    ensures s.requests[r].phase == Done ==> Next(s, step).requests[r].phase == Done
    ensures s.requests[r].phase != Fresh ==> Next(s, step).requests[r].phase != Fresh
  {
  }

  lemma {:induction false} RequestsStay(states: seq<State>, steps: seq<Step>, i: nat, j: nat, r: nat)
    requires Run(states, steps) && i <= j < |states| && r < |states[i].requests|
    ensures |states[j].requests| == |states[i].requests|
    ensures states[j].requests[r].msg == states[i].requests[r].msg
    ensures states[i].requests[r].phase == Done ==> states[j].requests[r].phase == Done
    ensures states[i].requests[r].phase != Fresh ==> states[j].requests[r].phase != Fresh
    decreases j
  {
    hide Next, Enabled;
    if i < j {
      RequestsStay(states, steps, i, j - 1, r);
      PhaseMoves(states[j - 1], steps[j - 1], r);
    }
  }

  /** A request that is answered while its type already holds the key never pushes, before or after. */
  lemma DuplicateNeverPushes(states: seq<State>, steps: seq<Step>, b: nat, r: nat, i: nat)
    requires Run(states, steps) && b < |steps|
    requires steps[b] == Reserve(r, true, true) && r < |states[b].requests|
    requires TypeOf(states[b].slots, states[b].requests[r].msg.key) == Record(states[b].requests[r].msg.likeType)
    ensures !Pushes(steps, i, r)
  {
    if Pushes(steps, i, r) {
      if i <= b {
        RequestsStay(states, steps, i, b, r);
      } else {
        assert states[b + 1].requests[r].phase == Done;
        RequestsStay(states, steps, b + 1, i, r);
      }
      assert false;
    }
  }

  /** From state i to state j the key holds one and the same reserved type. */
  ghost predicate Holds(states: seq<State>, i: nat, j: nat, k: Key, t: int) {
    i <= j < |states| && forall n :: i <= n <= j ==> TypeOf(states[n].slots, k) == Record(t)
  }

  /** A request for (k, t) calls the script between states i and j, whatever becomes of the call. */
  ghost predicate ReservesIn(states: seq<State>, steps: seq<Step>, i: nat, j: nat, k: Key, t: int, a: nat, r: nat) {
    && a < |steps| && a < |states| && i <= a + 1 <= j
    && steps[a].Reserve? && steps[a].r == r
    && r < |states[a].requests| && states[a].requests[r].msg == Msg(k, t)
  }

  predicate Answered(step: Step) {
    step.Reserve? && step.applied && step.seen
  }

  /**
   While a key holds one reserved type, a request whose call is answered pushes only if no other
   request of that type called the script before it in that time, no matter how requests, failures,
   lost replies and expiries interleave. So at most one of the answered requests pushes.
   */
  lemma OnePushPerPeriod(states: seq<State>, steps: seq<Step>, i: nat, j: nat, k: Key, t: int,
                         a1: nat, r1: nat, a2: nat, r2: nat, p: nat)
    requires Run(states, steps) && Holds(states, i, j, k, t)
    requires ReservesIn(states, steps, i, j, k, t, a1, r1) && ReservesIn(states, steps, i, j, k, t, a2, r2)
    requires a1 <= a2 && Answered(steps[a2])
    requires Pushes(steps, p, r2)
    ensures a1 == a2 && r1 == r2
  {
    if a1 < a2 {
      DuplicateNeverPushes(states, steps, a2, r2, p);
      assert false;
    }
  }

  /** A request that holds nothing yet and finds no record, up to its push. */
  function UpToPush(r: nat, seen: bool): seq<Step> {
    [Reserve(r, true, seen), ReadRecord(r, true, NotFound, true), ReadCount(r, true, true), Push(r, true, true, true)]
  }

  /** It gets that far when it is first at its key, or when it does not see the answer. */
  lemma GetsToPush(s: State, r: nat, seen: bool) returns (s1: State, s2: State, s3: State, s4: State)
    requires r < |s.requests| && s.requests[r].phase == Fresh
    requires TypeOf(s.slots, s.requests[r].msg.key) == if seen then NotFound else Record(s.requests[r].msg.likeType)
    ensures var steps := UpToPush(r, seen);
      && Enabled(s, steps[0]) && s1 == Next(s, steps[0])
      && Enabled(s1, steps[1]) && s2 == Next(s1, steps[1])
      && Enabled(s2, steps[2]) && s3 == Next(s2, steps[2])
      && Enabled(s3, steps[3]) && s4 == Next(s3, steps[3])
    ensures s1.slots == s2.slots == s3.slots == s4.slots
    ensures TypeOf(s1.slots, s.requests[r].msg.key) == Record(s.requests[r].msg.likeType)
    ensures s4.requests == s.requests[r := s4.requests[r]]
  {
    s1 := Next(s, Reserve(r, true, seen));
    s2 := Next(s1, ReadRecord(r, true, NotFound, true));
    s3 := Next(s2, ReadCount(r, true, true));
    s4 := Next(s3, Push(r, true, true, true));
  }

  /** Without an answer the second request goes on, and both push while the key holds their type. */
  lemma LostReplyPushesTwice(k: Key, t: int) returns (states: seq<State>, steps: seq<Step>)
    ensures Run(states, steps) && Holds(states, 1, 8, k, t)
    ensures ReservesIn(states, steps, 1, 8, k, t, 0, 0) && Answered(steps[0]) && Pushes(steps, 3, 0)
    ensures ReservesIn(states, steps, 1, 8, k, t, 4, 1) && !Answered(steps[4]) && Pushes(steps, 7, 1)
  {
    hide Next, Enabled;
    var waiting := Request(Msg(k, t), Fresh, false);
    steps := UpToPush(0, true) + UpToPush(1, false);
    var s0 := State(map[], [waiting, waiting], []);
    var s1, s2, s3, s4 := GetsToPush(s0, 0, true);
    var s5, s6, s7, s8 := GetsToPush(s4, 1, false);
    states := [s0, s1, s2, s3, s4, s5, s6, s7, s8];
  }

  /** And a request pushes at most once. */
  lemma OnePushPerRequest(states: seq<State>, steps: seq<Step>, r: nat, p1: nat, p2: nat)
    requires Run(states, steps) && Pushes(steps, p1, r) && Pushes(steps, p2, r)
    ensures p1 == p2
  {
    if p1 != p2 {
      var first, second := if p1 < p2 then p1 else p2, if p1 < p2 then p2 else p1;
      SentNeverReturns(states, steps, first + 1, second, r);
      assert false;
    }
  }

  lemma {:induction false} SentNeverReturns(states: seq<State>, steps: seq<Step>, i: nat, j: nat, r: nat)
    requires Run(states, steps) && i <= j < |states| && r < |states[i].requests|
    requires states[i].requests[r].phase == Sent || states[i].requests[r].phase == Done
    ensures |states[j].requests| == |states[i].requests|
    ensures states[j].requests[r].phase == Sent || states[j].requests[r].phase == Done
    decreases j
  {
    if i < j {
      SentNeverReturns(states, steps, i, j - 1, r);
    }
  }
}
