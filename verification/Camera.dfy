/** Taking a picture: one API call at a time (they all hold mLock) and one callback thread of the
    camera library, which delivers any callback at any moment. The API holds mStateLock between its
    waits; the callback thread looks at the camera state without it and writes the state under it. */
module Camera {
  import opened Base

  datatype Cam =
    | Init | Idle | Error | PreviewInProgress | WaitingRaw | WaitingJpeg
    | PreviewStopping | PreviewRequested | RawRequested | Stopping

  predicate InPicture(c: Cam) { c == RawRequested || c == WaitingRaw || c == WaitingJpeg }

  predicate Settled(c: Cam) { c == Idle || c == Error }

  /** Where an API call is; jpeg says whether takePicture was given a JPEG callback. */
  datatype ApiPc =
    | Outside
    | TakeStart(jpeg: bool) | TakeSettle(jpeg: bool) | TakeCheck(jpeg: bool)
    | ClearHeap(jpeg: bool) | MakeHeap(jpeg: bool) | SetCallbacks(jpeg: bool) | Request | TakeWait
    | CancelStart(jpeg: bool) | CancelSet(jpeg: bool) | SettleAndLeave
    | PreviewStart | PreviewSettle | PreviewCheck | PreviewSet | PreviewWait | StopStart
    | ReleaseStart | ReleaseWait

  /** Where the callback thread is in camera_cb. */
  datatype CbPc =
    | Ready
    | Write(target: Cam, next: AfterWrite)   // about to change the state to a target chosen before
    | FailCheck                              // a failed picture: the state is looked at once more
    | PostLpm                                // receivePostLpmRawPicture
    | RawTransition                          // leave WaitingRaw, under the lock
    | Fragment(data: seq<Byte>, last: bool)  // receiveJpegPictureFragment, entered in WaitingJpeg
    | Deliver                                // receiveJpegPicture

  /** Finish: the picture was delivered and its heap dropped. */
  datatype AfterWrite = Done | Finish | ThenFailCheck

  /** What the camera library reports. */
  datatype Callback =
    | Move(from: Cam, to: Cam)               // a state transition it expects
    | Failed(picture: bool)                  // an error code; picture for CAMERA_FUNC_TAKE_PICTURE
    | OtherPicture                           // an unknown code for CAMERA_FUNC_TAKE_PICTURE
    | RawDone
    | EncodeBuffer(data: seq<Byte>)
    | EncodeDone(data: seq<Byte>)

  datatype State = State(
    cam: Cam,
    locked: bool,                            // the API call holds mStateLock
    api: ApiPc,
    cb: CbPc,
    jpegCb: bool,                            // mJpegPictureCallback is set
    heap: Option<seq<Byte>>,                 // mJpegHeap
    size: nat,                               // mJpegSize
    // ghost history
    received: seq<Byte>,                     // fragments since the size was last reset
    images: seq<Image>,                      // pictures given to the JPEG callback
    requested: nat)                          // pictures requested from the library

  /** A delivered picture, with the fragments received for it and the room there was. */
  datatype Image = Image(bytes: seq<Byte>, fragments: seq<Byte>, room: nat)

  datatype Event =
    | TakePicture(jpegCallback: bool)
    | CancelPicture(cancelJpeg: bool)
    | StartPreview
    | StopPreview
    | Release
    | ApiStep(ok: bool, fresh_: seq<Byte>)   // ok and fresh_: whether allocation worked, and what it gave
    | Callback(c: Callback)
    | CbStep

  /** The library's transitions that one callback can ask for. */
  predicate Expected(from: Cam, to: Cam) {
    || (from == PreviewRequested && to == PreviewInProgress)
    || (from == Init && to == Idle)
    || (from == PreviewStopping && to == Idle)
    || (from == RawRequested && to == WaitingRaw)
    || (from == Stopping && to == Init)
  }

  // ---- The API ----

  predicate ApiCanStep(s: State) {
    match s.api
    case Outside => false
    case TakeSettle(_) => !s.locked && Settled(s.cam)
    case PreviewSettle => !s.locked && Settled(s.cam)
    case SettleAndLeave => !s.locked && Settled(s.cam)
    case TakeWait => !s.locked && (s.cam == WaitingRaw || s.cam == WaitingJpeg || Settled(s.cam))
    case PreviewWait => !s.locked && (s.cam == PreviewInProgress || s.cam == Error)
    case ReleaseWait => !s.locked && s.cam != Stopping
    case _ => true
  }

  /** Leave with the lock dropped. */
  function Leave(s: State): State { s.(api := Outside, locked := false) }

  /** Wait for the state to settle, with the lock dropped. */
  function WaitIn(s: State, pc: ApiPc): State { s.(api := pc, locked := false) }

  function ApiNext(s: State, ok: bool, fresh_: seq<Byte>): State
    requires ApiCanStep(s)
  {
    match s.api
    case TakeStart(j) =>
      if s.cam == PreviewInProgress then WaitIn(s.(cam := PreviewStopping), TakeSettle(j))
      else if s.cam == WaitingRaw || s.cam == WaitingJpeg then WaitIn(s, TakeSettle(j))
      else s.(api := TakeCheck(j))
    case TakeSettle(j) => s.(api := TakeCheck(j), locked := true)
    case TakeCheck(j) => if s.cam != Idle then Leave(s) else s.(api := ClearHeap(j))
    case ClearHeap(j) => s.(api := MakeHeap(j), heap := None)
    case MakeHeap(j) =>
      if !ok then Leave(s) else s.(api := SetCallbacks(j), heap := if j then Some(fresh_) else None)
    case SetCallbacks(j) => s.(api := Request, jpegCb := j)
    case Request => WaitIn(s.(cam := RawRequested, requested := s.requested + 1), TakeWait)
    case CancelStart(j) => if InPicture(s.cam) then s.(api := CancelSet(j)) else Leave(s)
    case CancelSet(j) => WaitIn(s.(jpegCb := s.jpegCb && !j), SettleAndLeave)
    case PreviewStart =>
      if s.cam == PreviewInProgress then Leave(s)
      else if s.cam == WaitingRaw || s.cam == WaitingJpeg then WaitIn(s, PreviewSettle)
      else s.(api := PreviewCheck)
    case PreviewSettle => s.(api := PreviewCheck, locked := true)
    case PreviewCheck => if s.cam != Idle || !ok then Leave(s) else s.(api := PreviewSet, cam := PreviewRequested)
    case PreviewSet => if ok then WaitIn(s, PreviewWait) else Leave(s.(cam := Error))
    case StopStart =>
      if s.cam == PreviewInProgress then WaitIn(s.(cam := PreviewStopping), SettleAndLeave) else Leave(s)
    case ReleaseStart => if s.cam == Init then Leave(s) else WaitIn(s.(cam := Stopping), ReleaseWait)
    case ReleaseWait => Leave(s.(cam := Init))
    case _ => Leave(s)
  }

  // ---- The callback thread ----

  function Transition(c: Cam, from: Cam, to: Cam): Cam { if c == from then to else Error }

  function CallbackNext(s: State, c: Callback): State {
    match c
    case Move(from, to) => s.(cb := Write(Transition(s.cam, from, to), Done))
    case Failed(picture) => s.(cb := Write(Error, if picture then ThenFailCheck else Done))
    case OtherPicture => s.(cb := FailCheck)
    case RawDone => s.(cb := PostLpm)
    case EncodeBuffer(d) => if s.cam == WaitingJpeg then s.(cb := Fragment(d, false)) else s
    case EncodeDone(d) => if s.cam == WaitingJpeg then s.(cb := Fragment(d, true)) else s
  }

  predicate CbCanStep(s: State) {
    match s.cb
    case Ready => false
    case Write(_, _) => !s.locked
    case RawTransition => !s.locked
    case _ => true
  }

  /** Copy a fragment behind what the heap holds, cut at its end. */
  function Stored(heap: seq<Byte>, size: nat, data: seq<Byte>): (r: (seq<Byte>, nat))
    requires size <= |heap|
    ensures |r.0| == |heap| && size <= r.1 <= |heap|
  {
    var n := if |data| > |heap| - size then |heap| - size else |data|;
    (heap[..size] + data[..n] + heap[size + n..], size + n)
  }

  /** What the fragment and delivery steps dereference is there, with room for what it holds. */
  predicate HeapThere(s: State) {
    s.heap.Some? && s.size <= |s.heap.value|
  }

  function CbNext(s: State): State
    requires CbCanStep(s) && (s.cb.Fragment? || s.cb.Deliver? ==> HeapThere(s))
  {
    match s.cb
    case Write(target, next) => s.(cam := target, cb := if next == ThenFailCheck then FailCheck else Ready)
    case FailCheck => if s.cam == Error then s.(cb := Write(Idle, Done)) else s.(cb := Ready)
    case PostLpm => if s.jpegCb then s.(cb := RawTransition, size := 0, received := []) else s.(cb := RawTransition)
    case RawTransition => s.(cam := Transition(s.cam, WaitingRaw, if s.jpegCb then WaitingJpeg else Idle), cb := Ready)
    case Fragment(data, last) =>
      var r := Stored(s.heap.value, s.size, data);
      s.(heap := Some(r.0), size := r.1, received := s.received + data, cb := if last then Deliver else Ready)
    case Ready => s
    case Deliver =>
      var img := Image(s.heap.value[..s.size], s.received, |s.heap.value|);
      s.(heap := None, images := if s.jpegCb then s.images + [img] else s.images,
         cb := Write(Transition(s.cam, WaitingJpeg, Idle), Finish))
  }

  // ---- The machine ----

  predicate Enabled(s: State, e: Event) {
    match e
    case TakePicture(_) => s.api == Outside && !s.locked
    case CancelPicture(_) => s.api == Outside && !s.locked
    case StartPreview => s.api == Outside && !s.locked
    case StopPreview => s.api == Outside && !s.locked
    case Release => s.api == Outside && !s.locked && !InPicture(s.cam)
    case ApiStep(_, _) => ApiCanStep(s)
    case Callback(c) => s.cb == Ready && (c.Move? ==> Expected(c.from, c.to))
    case CbStep => CbCanStep(s)
  }

  function Next(s: State, e: Event): State
    requires Enabled(s, e) && (e.CbStep? && (s.cb.Fragment? || s.cb.Deliver?) ==> HeapThere(s))
  {
    match e
    case TakePicture(j) => s.(api := TakeStart(j), locked := true)
    case CancelPicture(j) => s.(api := CancelStart(j), locked := true)
    case StartPreview => s.(api := PreviewStart, locked := true)
    case StopPreview => s.(api := StopStart, locked := true)
    case Release => s.(api := ReleaseStart, locked := true)
    case ApiStep(ok, fresh_) => ApiNext(s, ok, fresh_)
    case Callback(c) => CallbackNext(s, c)
    case CbStep => CbNext(s)
  }

  // ---- Invariant ----

  predicate Unlocked(a: ApiPc) {
    || a == Outside || a.TakeSettle? || a == TakeWait || a == SettleAndLeave
    || a == PreviewSettle || a == PreviewWait || a == ReleaseWait
  }

  predicate Preparing(a: ApiPc) {
    a.ClearHeap? || a.MakeHeap? || a.SetCallbacks? || a == Request
  }

  /** What an API call knows about the state while it holds the lock. */
  ghost predicate ApiOk(s: State) {
    && (s.locked <==> !Unlocked(s.api))
    && (Preparing(s.api) ==> s.cam == Idle)
    && (s.api.SetCallbacks? && s.api.jpeg ==> s.heap.Some?)
    && (s.api == Request && s.jpegCb ==> s.heap.Some?)
    && (s.api.CancelSet? ==> InPicture(s.cam))
    && (s.api == ReleaseStart ==> !InPicture(s.cam)) && (s.api == ReleaseWait ==> !InPicture(s.cam))
    && (s.api == PreviewSet ==> s.cam == PreviewRequested)
  }

  /** What the callback thread relies on between its steps. */
  ghost predicate CbOk(s: State) {
    match s.cb
    case Write(target, next) =>
      && target != WaitingJpeg && target != RawRequested
      && (target == WaitingRaw ==> s.cam == RawRequested)
      && (next == Finish ==> s.cam == WaitingJpeg && target == Idle)
    case RawTransition => s.cam == WaitingRaw && s.jpegCb ==> s.size == 0 && s.received == []
    case Fragment(_, _) => s.cam == WaitingJpeg
    case Deliver => s.cam == WaitingJpeg
    case _ => true
  }

  predicate Finishing(s: State) { s.cb.Write? && s.cb.next == Finish }

  /** The first bytes of what was received, as many as there is room for. */
  function Cut(data: seq<Byte>, room: nat): seq<Byte> {
    if |data| <= room then data else data[..room]
  }

  /** The heap holds what was received for the picture under way, cut at its size. */
  ghost predicate Holds(s: State) {
    HeapThere(s) && s.heap.value[..s.size] == Cut(s.received, |s.heap.value|)
  }

  ghost predicate HeapOk(s: State) {
    && ((s.cam == RawRequested || s.cam == WaitingRaw) && s.jpegCb ==> s.heap.Some?)
    && (s.cam == WaitingJpeg && !Finishing(s) ==> Holds(s))
  }

  ghost predicate ImagesOk(images: seq<Image>) {
    forall i :: 0 <= i < |images| ==> images[i].bytes == Cut(images[i].fragments, images[i].room)
  }

  /** A picture under way has not been delivered yet, and counts with the delivered ones. */
  ghost predicate Counted(s: State) {
    |s.images| + (if InPicture(s.cam) && !Finishing(s) then 1 else 0) <= s.requested
  }

  ghost predicate Inv(s: State) {
    ApiOk(s) && CbOk(s) && HeapOk(s) && ImagesOk(s.images) && Counted(s)
  }

  // ---- Every step keeps it ----

  lemma EntryKeeps(s: State, e: Event)
    requires Inv(s) && Enabled(s, e) && !e.ApiStep? && !e.Callback? && !e.CbStep?
    ensures Inv(Next(s, e))
  {}

  /** Inside takePicture. */
  predicate Taking(a: ApiPc) {
    a.TakeStart? || a.TakeSettle? || a.TakeCheck? || Preparing(a) || a == TakeWait
  }

  lemma ApiOkAfterTaking(s: State, ok: bool, fresh_: seq<Byte>)
    requires ApiOk(s) && ApiCanStep(s) && Taking(s.api)
    ensures ApiOk(ApiNext(s, ok, fresh_))
  {}

  lemma ApiOkAfterOther(s: State, ok: bool, fresh_: seq<Byte>)
    requires ApiOk(s) && ApiCanStep(s) && !Taking(s.api)
    ensures ApiOk(ApiNext(s, ok, fresh_))
  {}

  lemma ApiOkAfterApi(s: State, ok: bool, fresh_: seq<Byte>)
    requires ApiOk(s) && ApiCanStep(s)
    ensures ApiOk(ApiNext(s, ok, fresh_))
  {
    if Taking(s.api) { ApiOkAfterTaking(s, ok, fresh_); } else { ApiOkAfterOther(s, ok, fresh_); }
  }

  lemma CbOkAfterApi(s: State, ok: bool, fresh_: seq<Byte>)
    requires ApiOk(s) && CbOk(s) && ApiCanStep(s)
    ensures CbOk(ApiNext(s, ok, fresh_))
  {}

  lemma HeapOkAfterApi(s: State, ok: bool, fresh_: seq<Byte>)
    requires ApiOk(s) && CbOk(s) && HeapOk(s) && ApiCanStep(s)
    ensures HeapOk(ApiNext(s, ok, fresh_))
  {}

  lemma CountedAfterApi(s: State, ok: bool, fresh_: seq<Byte>)
    requires ApiOk(s) && Counted(s) && ApiCanStep(s)
    ensures Counted(ApiNext(s, ok, fresh_)) && ApiNext(s, ok, fresh_).images == s.images
  {}

  lemma ApiKeeps(s: State, ok: bool, fresh_: seq<Byte>)
    requires Inv(s) && ApiCanStep(s)
    ensures Inv(ApiNext(s, ok, fresh_))
  {
    ApiOkAfterApi(s, ok, fresh_);
    CbOkAfterApi(s, ok, fresh_);
    HeapOkAfterApi(s, ok, fresh_);
    CountedAfterApi(s, ok, fresh_);
  }

  lemma CallbackKeeps(s: State, c: Callback)
    requires Inv(s) && Enabled(s, Callback(c))
    ensures Inv(CallbackNext(s, c))
  {}

  lemma StoredHolds(heap: seq<Byte>, size: nat, received: seq<Byte>, data: seq<Byte>)
    requires size <= |heap| && heap[..size] == Cut(received, |heap|)
    ensures var r := Stored(heap, size, data); r.0[..r.1] == Cut(received + data, |heap|)
  {}

  /** ... and touches nothing else of the heap. */
  lemma StoredElsewhere(heap: seq<Byte>, size: nat, data: seq<Byte>)
    requires size <= |heap|
    ensures var r := Stored(heap, size, data); r.0[..size] == heap[..size] && r.0[r.1..] == heap[r.1..]
  {}

  lemma FragmentKeeps(s: State)
    requires Inv(s) && s.cb.Fragment?
    ensures HeapThere(s) && Inv(CbNext(s))
  {
    StoredHolds(s.heap.value, s.size, s.received, s.cb.data);
  }

  lemma DeliverKeeps(s: State)
    requires Inv(s) && s.cb.Deliver?
    ensures HeapThere(s) && Inv(CbNext(s))
  {}

  lemma CbKeeps(s: State)
    requires Inv(s) && CbCanStep(s)
    ensures s.cb.Fragment? || s.cb.Deliver? ==> HeapThere(s)
    ensures Inv(CbNext(s))
  {
    if s.cb.Fragment? {
      FragmentKeeps(s);
    } else if s.cb.Deliver? {
      DeliverKeeps(s);
    }
  }

  lemma NextKeeps(s: State, e: Event)
    requires Inv(s) && Enabled(s, e)
    ensures e.CbStep? && (s.cb.Fragment? || s.cb.Deliver?) ==> HeapThere(s)
    ensures Inv(Next(s, e))
  {
    match e
    case ApiStep(ok, fresh_) => ApiKeeps(s, ok, fresh_);
    case Callback(c) => CallbackKeeps(s, c);
    case CbStep => CbKeeps(s);
    case _ => EntryKeeps(s, e);
  }

  // ---- Runs ----

  ghost predicate AtStart(s: State) {
    && s.cam == Init && !s.locked && s.api == Outside && s.cb == Ready && !s.jpegCb && s.heap == None
    && s.received == [] && s.images == []
  }

  ghost predicate StepOk(s: State, e: Event, t: State) {
    Enabled(s, e) && (e.CbStep? && (s.cb.Fragment? || s.cb.Deliver?) ==> HeapThere(s)) && t == Next(s, e)
  }

  /** A run, up to a first use of a heap that is not there if there ever were one. */
  ghost predicate IsRun(trace: seq<State>, events: seq<Event>) {
    && |trace| == |events| + 1
    && AtStart(trace[0])
    && forall k {:trigger events[k]} :: 0 <= k < |events| ==> StepOk(trace[k], events[k], trace[k + 1])
  }

  lemma {:induction false} RunKeepsInv(trace: seq<State>, events: seq<Event>, k: nat)
    requires IsRun(trace, events) && k < |trace|
    ensures Inv(trace[k])
  {
    if k > 0 {
      RunKeepsInv(trace, events, k - 1);
      assert StepOk(trace[k - 1], events[k - 1], trace[k]);
      NextKeeps(trace[k - 1], events[k - 1]);
    }
  }

  /** Whenever the callback thread is about to use the JPEG heap, the state is WaitingJpeg and the heap
      is there and has room for what it already holds: no run can stop at a missing heap. */
  lemma EncodeFindsHeap(trace: seq<State>, events: seq<Event>, k: nat)
    requires IsRun(trace, events) && k < |trace| && (trace[k].cb.Fragment? || trace[k].cb.Deliver?)
    ensures trace[k].cam == WaitingJpeg && HeapThere(trace[k])
  {
    RunKeepsInv(trace, events, k);
  }

  /** While a JPEG is awaited the heap starts with exactly the fragments received since the size was
      last reset, in order, cut at the end of the heap. */
  lemma HeapHoldsFragments(trace: seq<State>, events: seq<Event>, k: nat)
    requires IsRun(trace, events) && k < |trace| && trace[k].cam == WaitingJpeg && !Finishing(trace[k])
    ensures var s := trace[k]; HeapThere(s) && s.heap.value[..s.size] == Cut(s.received, |s.heap.value|)
  {
    RunKeepsInv(trace, events, k);
  }

  /** Every delivered picture is the fragments received for it, cut at the end of its heap, and each
      request delivers one picture at most. */
  lemma PicturesAreFragments(trace: seq<State>, events: seq<Event>, k: nat)
    requires IsRun(trace, events) && k < |trace|
    ensures forall i :: 0 <= i < |trace[k].images| ==>
              trace[k].images[i].bytes == Cut(trace[k].images[i].fragments, trace[k].images[i].room)
    ensures |trace[k].images| <= trace[k].requested
  {
    RunKeepsInv(trace, events, k);
  }

  lemma OnlyRawDoneAwaitsJpeg(s: State, e: Event)
    requires Inv(s) && Enabled(s, e) && s.cam != WaitingJpeg
    requires e.CbStep? && (s.cb.Fragment? || s.cb.Deliver?) ==> HeapThere(s)
    ensures Next(s, e).cam == WaitingJpeg ==> s.cam == WaitingRaw && s.jpegCb && s.received == [] && s.size == 0
  {
    if e.ApiStep? { ApiNeverAwaitsJpeg(s, e.ok, e.fresh_); }
  }

  lemma ApiNeverAwaitsJpeg(s: State, ok: bool, fresh_: seq<Byte>)
    requires ApiCanStep(s) && s.cam != WaitingJpeg
    ensures ApiNext(s, ok, fresh_).cam != WaitingJpeg
  {}

  /** A JPEG is awaited only after the raw picture, with a callback to deliver it to, and with nothing
      received of it yet. */
  lemma JpegStartsEmpty(trace: seq<State>, events: seq<Event>, k: nat)
    requires IsRun(trace, events) && k < |events| && trace[k].cam != WaitingJpeg && trace[k + 1].cam == WaitingJpeg
    ensures trace[k].cam == WaitingRaw && trace[k].jpegCb && trace[k + 1].received == [] && trace[k + 1].size == 0
  {
    RunKeepsInv(trace, events, k);
    assert StepOk(trace[k], events[k], trace[k + 1]);
    OnlyRawDoneAwaitsJpeg(trace[k], events[k]);
  }

  // ---- A failed picture ----

  /** The error branch is about to call a JPEG callback that is null; it makes that call, and the one
      of the raw callback, without looking. */
  predicate NullJpegCall(s: State) {
    s.cb == FailCheck && s.cam == Error && !s.jpegCb
  }

  /** The picture last asked for came with a JPEG callback, and was not cancelled since. */
  ghost predicate Armed(trace: seq<State>, events: seq<Event>, k: nat)
    requires |trace| == |events| + 1 && k < |trace|
  {
    k > 0 &&
    var s, e := trace[k - 1], events[k - 1];
    if e.ApiStep? && s.api.SetCallbacks? then s.api.jpeg
    else Armed(trace, events, k - 1) && !(e.ApiStep? && s.api.CancelSet? && s.api.jpeg)
  }

  lemma StepArms(s: State, e: Event)
    requires Inv(s) && Enabled(s, e)
    requires e.CbStep? && (s.cb.Fragment? || s.cb.Deliver?) ==> HeapThere(s)
    ensures Next(s, e).jpegCb == if e.ApiStep? && s.api.SetCallbacks? then s.api.jpeg
                                 else s.jpegCb && !(e.ApiStep? && s.api.CancelSet? && s.api.jpeg)
  {}

  lemma {:induction false} CallbackIsArmed(trace: seq<State>, events: seq<Event>, k: nat)
    requires IsRun(trace, events) && k < |trace|
    ensures trace[k].jpegCb == Armed(trace, events, k)
  {
    if k > 0 {
      CallbackIsArmed(trace, events, k - 1);
      RunKeepsInv(trace, events, k - 1);
      assert StepOk(trace[k - 1], events[k - 1], trace[k]);
      StepArms(trace[k - 1], events[k - 1]);
    }
  }

  /** A failure reported for a picture calls a null JPEG callback exactly when the picture last asked
      for came without one or was cancelled since. */
  lemma FailureCallsNullIff(trace: seq<State>, events: seq<Event>, k: nat)
    requires IsRun(trace, events) && k < |trace| && trace[k].cb == FailCheck && trace[k].cam == Error
    ensures NullJpegCall(trace[k]) <==> !Armed(trace, events, k)
  {
    CallbackIsArmed(trace, events, k);
  }

  lemma Go(trace: seq<State>, events: seq<Event>, e: Event) returns (trace': seq<State>, events': seq<Event>)
    requires IsRun(trace, events) && Enabled(trace[|events|], e) && (e.CbStep? ==> trace[|events|].cb.Write?)
    ensures IsRun(trace', events') && trace'[0] == trace[0] && trace'[|events'|] == Next(trace[|events|], e)
  {
    var s := trace[|events|];
    trace', events' := trace + [Next(s, e)], events + [e];
    assert StepOk(s, e, Next(s, e));
    forall k | 0 <= k < |events'| ensures StepOk(trace'[k], events'[k], trace'[k + 1]) {
      if k < |events| { assert StepOk(trace[k], events[k], trace[k + 1]); }
    }
  }

  lemma CameraStarts(s: State) returns (trace: seq<State>, events: seq<Event>)
    requires AtStart(s)
    ensures IsRun(trace, events) && trace[0] == s
    ensures var t := trace[|events|]; t.cam == Idle && !t.locked && t.api == Outside && t.cb == Ready && t.images == []
  {
    trace, events := [s], [];
    trace, events := Go(trace, events, Callback(Move(Init, Idle)));
    trace, events := Go(trace, events, CbStep);
  }

  lemma PictureIsRequested(s: State) returns (trace: seq<State>, events: seq<Event>)
    requires AtStart(s)
    ensures IsRun(trace, events) && trace[0] == s
    ensures var t := trace[|events|]; t.cam == RawRequested && !t.locked && !t.jpegCb && t.cb == Ready
  {
    trace, events := CameraStarts(s);
    trace, events := Go(trace, events, TakePicture(false));
    trace, events := Go(trace, events, ApiStep(true, []));
    trace, events := Go(trace, events, ApiStep(true, []));
    trace, events := Go(trace, events, ApiStep(true, []));
    trace, events := Go(trace, events, ApiStep(true, []));
    trace, events := Go(trace, events, ApiStep(true, []));
    trace, events := Go(trace, events, ApiStep(true, []));
  }

  /** It happens: a picture without a JPEG callback, and a failure while it is taken. */
  lemma FailureMeetsNull(s: State) returns (trace: seq<State>, events: seq<Event>)
    requires AtStart(s)
    ensures IsRun(trace, events) && trace[0] == s && NullJpegCall(trace[|events|])
  {
    trace, events := PictureIsRequested(s);
    trace, events := Go(trace, events, Callback(Failed(true)));
    trace, events := Go(trace, events, CbStep);
  }

  // ---- The heap in place ----

  /** The JPEG heap as the callback thread fills it. */
  class JpegBuffer {
    const base: array<Byte>
    var mJpegSize: nat

    constructor (virtualSize: nat)
      ensures fresh(base) && base.Length == virtualSize && mJpegSize == 0
    {
      base := new Byte[virtualSize](_ => 0);
      mJpegSize := 0;
    }

    method ReceiveJpegPictureFragment(data: seq<Byte>)
      requires mJpegSize <= base.Length
      modifies this`mJpegSize, base
      ensures (base[..], mJpegSize) == Stored(old(base[..]), old(mJpegSize), data)
    {
      var size, remaining := |data|, base.Length - mJpegSize;
      if size > remaining { size := remaining; }
      ghost var was := base[..];
      forall i | 0 <= i < size {
        base[mJpegSize + i] := data[i];
      }
      assert base[..] == was[..mJpegSize] + data[..size] + was[mJpegSize + size..];
      mJpegSize := mJpegSize + size;
    }
  }
}
