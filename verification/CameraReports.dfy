/** What becomes of the JPEG data the camera library reports, over every interleaving: it is stored in the
    order reported, and each finished picture is delivered once. */
module CameraReports {
  import opened Base
  import opened Camera

  /** The library reports JPEG data while a JPEG is awaited. */
  predicate Reports(s: State, e: Event) {
    e.Callback? && (e.c.EncodeBuffer? || e.c.EncodeDone?) && s.cam == WaitingJpeg
  }

  /** The raw picture is done, and with a callback to serve the JPEG starts afresh. */
  predicate Restarts(s: State, e: Event) {
    e == CbStep && s.cb == PostLpm && s.jpegCb
  }

  /** Everything reported since the JPEG last started afresh, by the events and the state they met. */
  ghost function Reported(trace: seq<State>, events: seq<Event>, k: nat): seq<Byte>
    requires |trace| == |events| + 1 && k < |trace|
  {
    if k == 0 then []
    else if Restarts(trace[k - 1], events[k - 1]) then []
    else if Reports(trace[k - 1], events[k - 1]) then Reported(trace, events, k - 1) + events[k - 1].c.data
    else Reported(trace, events, k - 1)
  }

  /** The data in the callback thread's hands. */
  function InHand(cb: CbPc): seq<Byte> {
    if cb.Fragment? then cb.data else []
  }

  lemma ApiLeavesReports(s: State, ok: bool, fresh_: seq<Byte>)
    requires ApiCanStep(s)
    ensures var t := ApiNext(s, ok, fresh_); t.received == s.received && t.cb == s.cb && t.images == s.images
  {}

  lemma StepReports(s: State, e: Event)
    requires Enabled(s, e) && (e.CbStep? && (s.cb.Fragment? || s.cb.Deliver?) ==> HeapThere(s))
    ensures var t := Next(s, e);
      t.received + InHand(t.cb) == if Restarts(s, e) then []
                                   else if Reports(s, e) then s.received + InHand(s.cb) + e.c.data
                                   else s.received + InHand(s.cb)
  {
    if e.ApiStep? { ApiLeavesReports(s, e.ok, e.fresh_); }
  }

  /** Nothing reported is passed over: it has been stored, or is in the callback thread's hands. */
  lemma {:induction false} ReportedIsReceived(trace: seq<State>, events: seq<Event>, k: nat)
    requires IsRun(trace, events) && k < |trace|
    ensures trace[k].received + InHand(trace[k].cb) == Reported(trace, events, k)
  {
    if k > 0 {
      ReportedIsReceived(trace, events, k - 1);
      assert StepOk(trace[k - 1], events[k - 1], trace[k]);
      StepReports(trace[k - 1], events[k - 1]);
    }
  }

  /** While a JPEG is awaited, and no report is being dealt with, the heap starts with exactly what the library
      has reported, cut at its end. */
  lemma HeapHoldsReports(trace: seq<State>, events: seq<Event>, k: nat)
    requires IsRun(trace, events) && k < |trace|
    requires trace[k].cam == WaitingJpeg && !Finishing(trace[k]) && !trace[k].cb.Fragment?
    ensures var s := trace[k];
      HeapThere(s) && s.heap.value[..s.size] == Cut(Reported(trace, events, k), |s.heap.value|)
  {
    RunKeepsInv(trace, events, k);
    ReportedIsReceived(trace, events, k);
  }

  /** Only the delivering step adds a picture, and only with a callback to give it to. */
  lemma StepDelivers(s: State, e: Event)
    requires Enabled(s, e) && (e.CbStep? && (s.cb.Fragment? || s.cb.Deliver?) ==> HeapThere(s))
    ensures var t := Next(s, e);
      if e.CbStep? && s.cb.Deliver? && s.jpegCb then |t.images| == |s.images| + 1 && t.images[..|s.images|] == s.images
      else t.images == s.images
  {
    if e.ApiStep? { ApiLeavesReports(s, e.ok, e.fresh_); }
  }

  /** What a delivered picture shows is what was reported for it, cut at the heap. */
  lemma DeliveredIsReported(trace: seq<State>, events: seq<Event>, k: nat)
    requires IsRun(trace, events) && k < |events| && events[k] == CbStep && trace[k].cb == Deliver && trace[k].jpegCb
    ensures HeapThere(trace[k]) && |trace[k + 1].images| == |trace[k].images| + 1
    ensures trace[k + 1].images[..|trace[k].images|] == trace[k].images
    ensures trace[k + 1].images[|trace[k].images|].bytes
         == Cut(Reported(trace, events, k), |trace[k].heap.value|)
  {
    RunKeepsInv(trace, events, k);
    assert StepOk(trace[k], events[k], trace[k + 1]);
    HeapHoldsReports(trace, events, k);
  }

  // ---- A finished picture is delivered ----

  /** The callback thread takes no step from state a up to state b. */
  ghost predicate CbRests(events: seq<Event>, a: nat, b: nat)
    requires b <= |events|
  {
    forall m :: a <= m < b ==> events[m] != CbStep
  }

  /** Until its next step, what the callback thread is busy with stays as it is. */
  lemma {:induction false} CbStays(trace: seq<State>, events: seq<Event>, a: nat, b: nat)
    requires IsRun(trace, events) && a <= b <= |events| && CbRests(events, a, b) && trace[a].cb != Ready
    ensures trace[b].cb == trace[a].cb && trace[b].images == trace[a].images
    ensures Reported(trace, events, b) == Reported(trace, events, a)
    decreases b
  {
    if a < b {
      CbStays(trace, events, a, b - 1);
      var s, e := trace[b - 1], events[b - 1];
      assert StepOk(s, e, trace[b]);
      if e.ApiStep? { ApiLeavesReports(s, e.ok, e.fresh_); }
    }
  }

  /** The end of a JPEG is taken up. */
  lemma DoneIsTakenUp(trace: seq<State>, events: seq<Event>, k: nat, a: nat, data: seq<Byte>)
    requires IsRun(trace, events) && k < a <= |events| && CbRests(events, k + 1, a)
    requires events[k] == Callback(EncodeDone(data)) && trace[k].cam == WaitingJpeg
    ensures trace[a].cb == Fragment(data, true) && trace[a].images == trace[k].images
    ensures Reported(trace, events, a) == Reported(trace, events, k) + data
  {
    assert StepOk(trace[k], events[k], trace[k + 1]);
    CbStays(trace, events, k + 1, a);
  }

  /** ... and stored. */
  lemma DoneIsStored(trace: seq<State>, events: seq<Event>, a: nat, b: nat)
    requires IsRun(trace, events) && a < b <= |events| && events[a] == CbStep && CbRests(events, a + 1, b)
    requires trace[a].cb.Fragment? && trace[a].cb.last
    ensures trace[b].cb == Deliver && trace[b].images == trace[a].images
    ensures Reported(trace, events, b) == Reported(trace, events, a)
  {
    assert StepOk(trace[a], events[a], trace[a + 1]);
    CbStays(trace, events, a + 1, b);
  }

  /** The end of a JPEG that is reported while it is awaited, and the callback thread's next two steps, however
      API calls come in between: they give all that was reported to the callback as one picture if it is still
      set, and nothing if it is not. */
  lemma EncodeDoneDelivers(trace: seq<State>, events: seq<Event>, k: nat, a: nat, b: nat, data: seq<Byte>)
    requires IsRun(trace, events) && k < a < b < |events|
    requires events[k] == Callback(EncodeDone(data)) && trace[k].cam == WaitingJpeg
    requires events[a] == CbStep && events[b] == CbStep && CbRests(events, k + 1, a) && CbRests(events, a + 1, b)
    ensures trace[b].cb == Deliver && HeapThere(trace[b])
    ensures if trace[b].jpegCb then
              && |trace[b + 1].images| == |trace[k].images| + 1
              && trace[b + 1].images[..|trace[k].images|] == trace[k].images
              && trace[b + 1].images[|trace[k].images|].bytes
                 == Cut(Reported(trace, events, k) + data, |trace[b].heap.value|)
            else trace[b + 1].images == trace[k].images
  {
    DoneIsTakenUp(trace, events, k, a, data);
    DoneIsStored(trace, events, a, b);
    EncodeFindsHeap(trace, events, b);
    if trace[b].jpegCb { DeliveredIsReported(trace, events, b); } else { DroppedWithoutCallback(trace, events, b); }
  }

  lemma DroppedWithoutCallback(trace: seq<State>, events: seq<Event>, b: nat)
    requires IsRun(trace, events) && b < |events| && !trace[b].jpegCb
    ensures trace[b + 1].images == trace[b].images
  {
    assert StepOk(trace[b], events[b], trace[b + 1]);
    StepDelivers(trace[b], events[b]);
  }

  /** Picture i is what had been reported when some delivering step gave it. */
  ghost predicate GivenAt(trace: seq<State>, events: seq<Event>, k: nat, i: nat, m: nat)
    requires |trace| == |events| + 1 && k < |trace|
  {
    && m < k && events[m] == CbStep && trace[m].cb == Deliver && HeapThere(trace[m])
    && i == |trace[m].images| && i < |trace[k].images|
    && trace[k].images[i].bytes == Cut(Reported(trace, events, m), |trace[m].heap.value|)
  }

  /** Every picture the callback was ever given is all that was reported for it, cut at its heap. */
  lemma {:induction false} EveryPictureIsReported(trace: seq<State>, events: seq<Event>, k: nat, i: nat)
    returns (m: nat)
    requires IsRun(trace, events) && k < |trace| && i < |trace[k].images|
    ensures GivenAt(trace, events, k, i, m)
    decreases k
  {
    var s, e := trace[k - 1], events[k - 1];
    assert StepOk(s, e, trace[k]);
    StepDelivers(s, e);
    if i < |s.images| {
      m := EveryPictureIsReported(trace, events, k - 1, i);
      assert trace[k].images[i] == s.images[i];
    } else {
      m := k - 1;
      DeliveredIsReported(trace, events, k - 1);
    }
  }

  // ---- What the other reports do ----

  /** A reported transition is made if the camera was in its first state, and is an error otherwise. */
  lemma MoveReported(trace: seq<State>, events: seq<Event>, k: nat, a: nat, from: Cam, to: Cam)
    requires IsRun(trace, events) && k < a < |events| && events[k] == Callback(Move(from, to))
    requires events[a] == CbStep && CbRests(events, k + 1, a)
    ensures trace[a + 1].cam == if trace[k].cam == from then to else Error
  {
    assert StepOk(trace[k], events[k], trace[k + 1]);
    CbStays(trace, events, k + 1, a);
    assert StepOk(trace[a], events[a], trace[a + 1]);
  }

  /** The end of the raw picture leads on to the JPEG if there is a callback for it, back to Idle if not, and to
      an error outside WaitingRaw; the JPEG starts afresh. */
  lemma RawDoneReported(trace: seq<State>, events: seq<Event>, k: nat, a: nat, b: nat)
    requires IsRun(trace, events) && k < a < b < |events| && events[k] == Callback(RawDone)
    requires events[a] == CbStep && events[b] == CbStep && CbRests(events, k + 1, a) && CbRests(events, a + 1, b)
    ensures trace[b + 1].cam == if trace[b].cam != WaitingRaw then Error
                                else if trace[b].jpegCb then WaitingJpeg else Idle
    ensures trace[a].jpegCb ==> Reported(trace, events, a + 1) == [] && trace[a + 1].size == 0
  {
    assert StepOk(trace[k], events[k], trace[k + 1]);
    CbStays(trace, events, k + 1, a);
    assert StepOk(trace[a], events[a], trace[a + 1]);
    CbStays(trace, events, a + 1, b);
    assert StepOk(trace[b], events[b], trace[b + 1]);
  }

  /** A failure makes the state an error; one reported for a picture then looks at the state once more. */
  lemma FailureReported(trace: seq<State>, events: seq<Event>, k: nat, a: nat, picture: bool)
    requires IsRun(trace, events) && k < a < |events| && events[k] == Callback(Failed(picture))
    requires events[a] == CbStep && CbRests(events, k + 1, a)
    ensures trace[a + 1].cam == Error && trace[a + 1].cb == if picture then FailCheck else Ready
  {
    assert StepOk(trace[k], events[k], trace[k + 1]);
    CbStays(trace, events, k + 1, a);
    assert StepOk(trace[a], events[a], trace[a + 1]);
  }

  /** Any other code for a picture looks at the state, and leaves it. */
  lemma OtherReported(trace: seq<State>, events: seq<Event>, k: nat)
    requires IsRun(trace, events) && k < |events| && events[k] == Callback(OtherPicture)
    ensures trace[k + 1].cb == FailCheck && trace[k + 1].cam == trace[k].cam
  {
    assert StepOk(trace[k], events[k], trace[k + 1]);
  }

  /** A picture that has failed is over: the camera is idle again after the callback thread's next two steps. */
  lemma FailedIsOver(trace: seq<State>, events: seq<Event>, a: nat, b: nat)
    requires IsRun(trace, events) && a < b < |events| && trace[a].cb == FailCheck
    requires events[a] == CbStep && events[b] == CbStep && CbRests(events, a + 1, b)
    ensures trace[a].cam == Error ==> trace[b + 1].cam == Idle
    ensures trace[a].cam != Error ==> trace[a + 1] == trace[a].(cb := Ready)
  {
    assert StepOk(trace[a], events[a], trace[a + 1]);
    if trace[a].cam == Error {
      CbStays(trace, events, a + 1, b);
      assert StepOk(trace[b], events[b], trace[b + 1]);
    }
  }

  /** What API calls make of the state: taking a picture and stopping end a preview, a picture is requested from
      Idle, a preview from Idle if it can be prepared and with an error if it cannot be started, and releasing goes
      by Stopping to Init. */
  lemma ApiState(s: State, ok: bool, fresh_: seq<Byte>)
    requires Inv(s) && ApiCanStep(s)
    ensures ApiNext(s, ok, fresh_).cam
         == match s.api
            case TakeStart(_) => if s.cam == PreviewInProgress then PreviewStopping else s.cam
            case StopStart => if s.cam == PreviewInProgress then PreviewStopping else s.cam
            case Request => RawRequested
            case PreviewCheck => if s.cam == Idle && ok then PreviewRequested else s.cam
            case PreviewSet => if ok then s.cam else Error
            case ReleaseStart => if s.cam == Init then s.cam else Stopping
            case ReleaseWait => Init
            case _ => s.cam
  {
    if Taking(s.api) { TakingState(s, ok, fresh_); } else { OtherState(s, ok, fresh_); }
  }

  lemma TakingState(s: State, ok: bool, fresh_: seq<Byte>)
    requires ApiCanStep(s) && Taking(s.api)
    ensures ApiNext(s, ok, fresh_).cam
         == if s.api.TakeStart? && s.cam == PreviewInProgress then PreviewStopping
            else if s.api == Request then RawRequested else s.cam
  {}

  lemma OtherState(s: State, ok: bool, fresh_: seq<Byte>)
    requires ApiCanStep(s) && !Taking(s.api)
    ensures ApiNext(s, ok, fresh_).cam
         == if s.api == StopStart then (if s.cam == PreviewInProgress then PreviewStopping else s.cam)
            else if s.api == PreviewCheck then (if s.cam == Idle && ok then PreviewRequested else s.cam)
            else if s.api == PreviewSet then (if ok then s.cam else Error)
            else if s.api == ReleaseStart then (if s.cam == Init then s.cam else Stopping)
            else if s.api == ReleaseWait then Init else s.cam
  {}

  lemma ApiRequestsFromIdle(s: State, ok: bool, fresh_: seq<Byte>)
    requires Inv(s) && ApiCanStep(s)
    ensures var t := ApiNext(s, ok, fresh_);
      t.requested == s.requested || (s.cam == Idle && t.cam == RawRequested && t.requested == s.requested + 1)
  {}

  /** A picture is requested only from Idle, and that starts it. */
  lemma RequestedFromIdle(trace: seq<State>, events: seq<Event>, k: nat)
    requires IsRun(trace, events) && k < |events| && trace[k + 1].requested != trace[k].requested
    ensures trace[k].cam == Idle && trace[k + 1].cam == RawRequested && trace[k + 1].requested == trace[k].requested + 1
  {
    RunKeepsInv(trace, events, k);
    assert StepOk(trace[k], events[k], trace[k + 1]);
    if events[k].ApiStep? { ApiRequestsFromIdle(trace[k], events[k].ok, events[k].fresh_); }
  }

  // ---- A picture from start to end ----

  lemma Onward(trace: seq<State>, events: seq<Event>, e: Event) returns (trace': seq<State>, events': seq<Event>)
    requires IsRun(trace, events) && Enabled(trace[|events|], e)
    ensures IsRun(trace', events') && trace'[0] == trace[0]
    ensures var s := trace[|events|];
      (e.CbStep? && (s.cb.Fragment? || s.cb.Deliver?) ==> HeapThere(s)) && trace'[|events'|] == Next(s, e)
  {
    var s := trace[|events|];
    RunKeepsInv(trace, events, |events|);
    NextKeeps(s, e);
    trace', events' := trace + [Next(s, e)], events + [e];
    assert StepOk(s, e, Next(s, e));
    forall k {:trigger events'[k]} | 0 <= k < |events'| ensures StepOk(trace'[k], events'[k], trace'[k + 1]) {
      if k < |events| { assert StepOk(trace[k], events[k], trace[k + 1]); }
    }
  }

  /** No API call holds the lock, and a JPEG callback is set. */
  ghost predicate Stage(s: State, cam: Cam, cb: CbPc, heap: seq<Byte>) {
    s.cam == cam && s.cb == cb && !s.locked && s.jpegCb && s.heap == Some(heap) && s.images == []
  }

  lemma JpegIsRequested(s: State, heap: seq<Byte>) returns (trace: seq<State>, events: seq<Event>)
    requires AtStart(s)
    ensures IsRun(trace, events) && trace[0] == s && Stage(trace[|events|], RawRequested, Ready, heap)
  {
    trace, events := CameraStarts(s);
    trace, events := JpegIsPrepared(trace, events, heap);
    trace, events := Onward(trace, events, ApiStep(true, []));
    trace, events := Onward(trace, events, ApiStep(true, []));
  }

  lemma JpegIsPrepared(t: seq<State>, e: seq<Event>, heap: seq<Byte>) returns (trace: seq<State>, events: seq<Event>)
    requires IsRun(t, e)
    requires var s := t[|e|]; s.cam == Idle && !s.locked && s.api == Outside && s.cb == Ready && s.images == []
    ensures IsRun(trace, events) && trace[0] == t[0]
    ensures var s := trace[|events|];
      s.cam == Idle && s.api == SetCallbacks(true) && s.heap == Some(heap) && s.cb == Ready && s.images == []
  {
    trace, events := Onward(t, e, TakePicture(true));
    trace, events := Onward(trace, events, ApiStep(true, []));
    trace, events := Onward(trace, events, ApiStep(true, []));
    trace, events := Onward(trace, events, ApiStep(true, []));
    trace, events := Onward(trace, events, ApiStep(true, heap));
  }

  lemma JpegIsAwaited(t: seq<State>, e: seq<Event>, heap: seq<Byte>) returns (trace: seq<State>, events: seq<Event>)
    requires IsRun(t, e) && Stage(t[|e|], RawRequested, Ready, heap)
    ensures IsRun(trace, events) && trace[0] == t[0] && Stage(trace[|events|], WaitingJpeg, Ready, heap)
    ensures trace[|events|].received == [] && trace[|events|].size == 0
  {
    trace, events := Onward(t, e, Callback(Move(RawRequested, WaitingRaw)));
    trace, events := Onward(trace, events, CbStep);
    trace, events := Onward(trace, events, Callback(RawDone));
    trace, events := Onward(trace, events, CbStep);
    trace, events := Onward(trace, events, CbStep);
  }

  lemma JpegIsReported(t: seq<State>, e: seq<Event>, room: nat, part: seq<Byte>, rest: seq<Byte>)
    returns (trace: seq<State>, events: seq<Event>)
    requires IsRun(t, e) && t[|e|].heap.Some? && |t[|e|].heap.value| == room
    requires Stage(t[|e|], WaitingJpeg, Ready, t[|e|].heap.value) && t[|e|].received == []
    ensures IsRun(trace, events) && trace[0] == t[0]
    ensures var s := trace[|events|];
      && s.cam == WaitingJpeg && s.cb == Deliver && !s.locked && s.jpegCb && s.images == []
      && HeapThere(s) && |s.heap.value| == room && s.received == part + rest
  {
    trace, events := Onward(t, e, Callback(EncodeBuffer(part)));
    trace, events := Onward(trace, events, CbStep);
    trace, events := Onward(trace, events, Callback(EncodeDone(rest)));
    trace, events := Onward(trace, events, CbStep);
    assert [] + part == part;
  }

  /** It works: whatever the library reports of the JPEG in two parts, the callback gets, as far as the heap
      has room, and the camera is idle again. */
  lemma PictureIsTaken(s: State, heap: seq<Byte>, part: seq<Byte>, rest: seq<Byte>)
    returns (trace: seq<State>, events: seq<Event>)
    requires AtStart(s)
    ensures IsRun(trace, events) && trace[0] == s
    ensures var t := trace[|events|];
      t.cam == Idle && t.cb == Ready && |t.images| == 1 && t.images[0].bytes == Cut(part + rest, |heap|)
  {
    trace, events := JpegIsRequested(s, heap);
    trace, events := JpegIsAwaited(trace, events, heap);
    trace, events := JpegIsReported(trace, events, |heap|, part, rest);
    RunKeepsInv(trace, events, |events|);
    trace, events := Onward(trace, events, CbStep);
    trace, events := Onward(trace, events, CbStep);
  }
}
