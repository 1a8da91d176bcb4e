/** The copybit device: clipping, scaling and submission step by step, against what a blit asks for. */
module Copybit {
  import opened Base
  import opened CopybitSpec

  const ALPHA_OPAQUE: nat := 255

  predicate HasAlpha(f: Format) {
    f.Rgba8888? || f.Bgra8888? || f.Rgba5551? || f.Rgba4444?
  }

  /** Scale both parameters. The divisor is taken on trust: trap says that it is zero and used. */
  method Muldiv(a: U32, b: U32, mul: int, div: int) returns (a': U32, b': U32, trap: bool)
    ensures trap <==> mul != div && ToU32(div) == 0
    ensures !trap ==> a' == Scale(a, mul, div) && b' == Scale(b, mul, div)
  {
    a', b', trap := a, b, false;
    if mul != div {
      if ToU32(div) == 0 { return a, b, true; }
      a' := ScaleDown(ToU32(mul * a), ToU32(div));
      b' := ScaleDown(ToU32(mul * b), ToU32(div));
    }
  }

  /** Scaling by the sides of the destination is defined: a side of zero is the source's side too. */
  predicate Scalable(rot90: bool, dst: Rect, src: Rect) {
    && (src.r - src.l != Width(rot90, dst) ==> ToU32(Width(rot90, dst)) != 0)
    && (src.b - src.t != Height(rot90, dst) ==> ToU32(Height(rot90, dst)) != 0)
  }

  /** Lay a clip along the source's axes, with the sides of the destination to scale by. */
  method TurnClip(rot90: bool, clip: Rect, dst: Rect, src: Rect) returns (a: Area, w: U32, h: U32)
    ensures a == Turned(rot90, clip, dst, src) && ToInt(w) == Width(rot90, dst) && ToInt(h) == Height(rot90, dst)
  {
    if rot90 {
      a := Area(ToU32(clip.t - dst.t + src.t), ToU32(dst.r - clip.r + src.l),
                ToU32(clip.b - clip.t), ToU32(clip.r - clip.l));
      w, h := ToU32(dst.b - dst.t), ToU32(dst.r - dst.l);
    } else {
      a := Area(ToU32(clip.l - dst.l + src.l), ToU32(clip.t - dst.t + src.t),
                ToU32(clip.r - clip.l), ToU32(clip.b - clip.t));
      w, h := ToU32(dst.r - dst.l), ToU32(dst.b - dst.t);
    }
  }

  /** Fill in the two rectangles of a request, unless that divides by zero. */
  method SetRects(e: Req, dst: Rect, src: Rect, scissor: Rect) returns (q: Req, trap: bool)
    ensures trap <==> !Scalable(e.transform.rot90, dst, src)
    ensures var j := Job(e.alpha, e.transform, e.dst, e.src, dst, src);
      !trap ==> q == e.(dstRect := DstArea(Intersect(scissor, dst)), srcRect := SrcArea(j, Intersect(scissor, dst)))
  {
    var clip := Intersect(scissor, dst);
    var dstRect := Area(ToU32(clip.l), ToU32(clip.t), ToU32(clip.r - clip.l), ToU32(clip.b - clip.t));
    var a, w, h := TurnClip(e.transform.rot90, clip, dst, src);
    q := e.(dstRect := dstRect);
    var x, sw, y, sh;
    x, sw, trap := Muldiv(a.x, a.w, src.r - src.l, ToInt(w));
    if trap { return; }
    y, sh, trap := Muldiv(a.y, a.h, src.b - src.t, ToInt(h));
    if trap { return; }
    if e.transform.flipV { y := ToU32(e.src.h as int - (y as int + sh as int)); }
    if e.transform.flipH { x := ToU32(e.src.w as int - (x as int + sw as int)); }
    q := q.(srcRect := Area(x, y, sw, sh));
  }

  class CopybitContext {
    var mAlpha: nat
    var mFlags: Transform
    const maxDimension: nat

    constructor (max: nat)
      requires max == 2048 || max == MAX_DIMENSION
      ensures maxDimension == max && mAlpha == ALPHA_OPAQUE && mFlags == Transform(false, false, false)
    {
      maxDimension, mAlpha, mFlags := max, ALPHA_OPAQUE, Transform(false, false, false);
    }

    function JobOf(dst: Image, src: Image, dstRect: Rect, srcRect: Rect): Job
      reads this
    {
      Job(mAlpha, mFlags, dst, src, dstRect, srcRect)
    }

    /** What a stretch refuses: plane alpha over a format with alpha, a source rectangle outside the
        source, images larger than the processor takes. */
    predicate Refused(dst: Image, src: Image, srcRect: Rect)
      reads this
    {
      || (mAlpha < ALPHA_OPAQUE && HasAlpha(src.format))
      || srcRect.l < 0 || ToU32(srcRect.r) > src.w || srcRect.t < 0 || ToU32(srcRect.b) > src.h
      || src.w > maxDimension || src.h > maxDimension || dst.w > maxDimension || dst.h > maxDimension
    }

    /** Blit every rectangle of a region; outcome k is the driver's answer to batch k. A stretch that is
        not refused divides by zero exactly when it has a rectangle and its sides cannot be scaled. */
    method Stretch(dst: Image, src: Image, dstRect: Rect, srcRect: Rect, region: seq<Rect>, outcome: nat -> int)
      returns (status: int, batches: seq<seq<Req>>, trap: bool)
      ensures Refused(dst, src, srcRect)
         <==> || (mAlpha < 255 && src.format in [Rgba8888, Bgra8888, Rgba5551, Rgba4444])
              || srcRect.l < 0 || srcRect.t < 0 || srcRect.r % WORD32 > src.w || srcRect.b % WORD32 > src.h
              || src.w > maxDimension || src.h > maxDimension || dst.w > maxDimension || dst.h > maxDimension
      ensures trap <==> !Refused(dst, src, srcRect) && region != [] && !Scalable(mFlags.rot90, dstRect, srcRect)
      ensures trap ==> batches == []
      ensures !trap ==>
                Submission(status, batches)
                == if Refused(dst, src, srcRect) then Submission(-EINVAL, [])
                   else Submit(Requests(Job(mAlpha, mFlags, dst, src, dstRect, srcRect), region), outcome, 0)
    {
      status, batches, trap := -EINVAL, [], false;
      if mAlpha < ALPHA_OPAQUE && HasAlpha(src.format) { return; }
      if srcRect.l < 0 || ToU32(srcRect.r) > src.w || srcRect.t < 0 || ToU32(srcRect.b) > src.h { return; }
      if src.w > maxDimension || src.h > maxDimension { return; }
      if dst.w > maxDimension || dst.h > maxDimension { return; }
      status, batches, trap := Run(dst, src, dstRect, srcRect, region, outcome);
    }

    /** The request for one rectangle of the region. */
    method Fill(dst: Image, src: Image, dstRect: Rect, srcRect: Rect, r: Rect) returns (q: Req, trap: bool)
      ensures trap <==> !Scalable(mFlags.rot90, dstRect, srcRect)
      ensures !trap ==> q == Request(JobOf(dst, src, dstRect, srcRect), r)
    {
      var bounds := Rect(0, 0, ToInt(dst.w), ToInt(dst.h));
      var clip := Intersect(bounds, r);
      q := Req(src, dst, Area(0, 0, 0, 0), Area(0, 0, 0, 0), mAlpha, mFlags);
      q, trap := SetRects(q, dstRect, srcRect, clip);
    }

    method Run(dst: Image, src: Image, dstRect: Rect, srcRect: Rect, region: seq<Rect>, outcome: nat -> int)
      returns (status: int, batches: seq<seq<Req>>, trap: bool)
      ensures trap <==> region != [] && !Scalable(mFlags.rot90, dstRect, srcRect)
      ensures trap ==> batches == []
      ensures !trap ==>
                Submission(status, batches) == Submit(Requests(JobOf(dst, src, dstRect, srcRect), region), outcome, 0)
    {
      ghost var j := JobOf(dst, src, dstRect, srcRect);
      ghost var all := Submit(Requests(j, region), outcome, 0);
      var blank := Req(src, dst, Area(0, 0, 0, 0), Area(0, 0, 0, 0), 0, Transform(false, false, false));
      var req := new Req[BATCH](_ => blank);
      var count, i := 0, 0;
      status, batches, trap := 0, [], false;
      PendingAtStart(Requests(j, region), outcome);
      while status == 0 && i < |region|
        invariant 0 <= i <= |region| && 0 <= count < BATCH && req.Length == BATCH
        invariant i > 0 ==> Scalable(mFlags.rot90, dstRect, srcRect)
        invariant i == 0 ==> batches == []
        invariant Pending(all, status, batches, req[..count], Requests(j, region[i..]), outcome)
        decreases |region| - i
      {
        assert region[i..][1..] == region[i + 1..];
        var q;
        q, trap := Fill(dst, src, dstRect, srcRect, region[i]);
        if trap { return; }
        i := i + 1;
        count, status, batches := Append(req, count, q, batches, outcome, all, Requests(j, region[i..]));
      }
      if status == 0 {
        PendingAtEnd(all, batches, req[..count], outcome);
        if count != 0 {
          status := outcome(|batches|);
          batches := batches + [req[..count]];
        }
      }
    }

    /** A blit of the whole source over the whole destination. */
    method Blit(dst: Image, src: Image, region: seq<Rect>, outcome: nat -> int)
      returns (status: int, batches: seq<seq<Req>>, trap: bool)
      ensures trap
         <==> !Refused(dst, src, Bounds(src)) && region != [] && !Scalable(mFlags.rot90, Bounds(dst), Bounds(src))
      ensures trap ==> batches == []
      ensures !trap ==>
                Submission(status, batches)
                == if Refused(dst, src, Bounds(src)) then Submission(-EINVAL, [])
                   else Submit(Requests(Job(mAlpha, mFlags, dst, src, Rect(0, 0, ToInt(dst.w), ToInt(dst.h)),
                                            Rect(0, 0, ToInt(src.w), ToInt(src.h))), region), outcome, 0)
    {
      var dr := Rect(0, 0, ToInt(dst.w), ToInt(dst.h));
      var sr := Rect(0, 0, ToInt(src.w), ToInt(src.h));
      status, batches, trap := Stretch(dst, src, dr, sr, region, outcome);
    }
  }

  /** Put a request behind the first count of a batch unless it is empty, and submit the batch when
      it is full. all is the whole submission and rest what comes after. */
  method Append(req: array<Req>, count: nat, q: Req, batches: seq<seq<Req>>, outcome: nat -> int,
                ghost all: Submission, ghost rest: seq<Req>)
    returns (count': nat, status: int, batches': seq<seq<Req>>)
    requires req.Length == BATCH && count < BATCH && Pending(all, 0, batches, req[..count], One(q) + rest, outcome)
    modifies req
    ensures count' < BATCH && Pending(all, status, batches', req[..count'], rest, outcome)
  {
    count', status, batches' := count, 0, batches;
    ghost var list := req[..count];
    PendingNext(all, batches, list, q, rest, outcome);
    req[count] := q;
    assert req[..count] == list;
    if q.srcRect.w == 0 || q.srcRect.h == 0 { return; }
    if q.dstRect.w == 0 || q.dstRect.h == 0 { return; }
    count' := count + 1;
    assert req[..count'] == list + [q];
    if count' == BATCH {
      PendingFull(all, batches, list + [q], rest, outcome);
      status := outcome(|batches|);
      batches' := batches + [req[..count']];
      count' := 0;
    }
  }

  /** A submission with the batches already made in front. */
  function Behind(batches: seq<seq<Req>>, s: Submission): Submission {
    Submission(s.status, batches + s.batches)
  }

  /** What is left to do for a submission: a list being filled, and the requests still to come. */
  ghost predicate Pending(all: Submission, status: int, batches: seq<seq<Req>>, list: seq<Req>, rest: seq<Req>,
                          outcome: nat -> int) {
    all == if status == 0 then Behind(batches, Submit(list + rest, outcome, |batches|)) else Submission(status, batches)
  }

  lemma PendingAtStart(reqs: seq<Req>, outcome: nat -> int)
    ensures Pending(Submit(reqs, outcome, 0), 0, [], [], reqs, outcome)
  {
    var all := Submit(reqs, outcome, 0);
    assert [] + reqs == reqs && [] + all.batches == all.batches;
  }

  lemma PendingNext(all: Submission, batches: seq<seq<Req>>, list: seq<Req>, q: Req, rest: seq<Req>,
                    outcome: nat -> int)
    requires Pending(all, 0, batches, list, One(q) + rest, outcome)
    ensures Pending(all, 0, batches, if Kept(q) then list + [q] else list, rest, outcome)
  {
    assert list + (One(q) + rest) == (if Kept(q) then list + [q] else list) + rest;
  }

  lemma PendingFull(all: Submission, batches: seq<seq<Req>>, list: seq<Req>, rest: seq<Req>, outcome: nat -> int)
    requires |list| == BATCH && Pending(all, 0, batches, list, rest, outcome)
    ensures Pending(all, outcome(|batches|), batches + [list], [], rest, outcome)
  {
    var k, reqs := |batches|, list + rest;
    assert reqs[..BATCH] == list && reqs[BATCH..] == rest && [] + rest == rest;
    var more := Submit(rest, outcome, k + 1).batches;
    assert batches + ([list] + more) == batches + [list] + more;
  }

  lemma PendingAtEnd(all: Submission, batches: seq<seq<Req>>, list: seq<Req>, outcome: nat -> int)
    requires |list| < BATCH && Pending(all, 0, batches, list, [], outcome)
    ensures all == if list == [] then Submission(0, batches) else Submission(outcome(|batches|), batches + [list])
  {
    var k := |batches|;
    assert list + [] == list && list[..|list|] == list && list[|list|..] == [];
    assert Submit([], outcome, k + 1) == Submission(0, []);
  }
}
