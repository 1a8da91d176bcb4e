/** What a blit asks of the display processor: for each clip of a region, a destination and a source
    rectangle in 32-bit unsigned arithmetic, submitted twelve at a time. */
module CopybitSpec {

  import opened Base

  const BATCH: nat := 12

  datatype Rect = Rect(l: int, t: int, r: int, b: int)

  datatype Area = Area(x: U32, y: U32, w: U32, h: U32)

  datatype Format = Rgba8888 | Bgra8888 | Rgba5551 | Rgba4444 | OtherFormat(code: int)

  datatype Image = Image(w: U32, h: U32, format: Format)

  datatype Transform = Transform(flipH: bool, flipV: bool, rot90: bool)

  datatype Req = Req(src: Image, dst: Image, srcRect: Area, dstRect: Area, alpha: nat, transform: Transform)

  /** The arguments of a stretch other than its region. */
  datatype Job = Job(alpha: nat, transform: Transform, dst: Image, src: Image, dstRect: Rect, srcRect: Rect)

  function Min(a: int, b: int): int { if a < b then a else b }

  function Max(a: int, b: int): int { if a > b then a else b }

  function Intersect(a: Rect, b: Rect): Rect {
    Rect(Max(a.l, b.l), Max(a.t, b.t), Min(a.r, b.r), Min(a.b, b.b))
  }

  /** value * mul / div in unsigned words; nothing happens when mul is div. */
  function Scale(value: U32, mul: int, div: int): U32 {
    if mul == div then value
    else if ToU32(div) == 0 then 0
    else ScaleDown(ToU32(mul * value), ToU32(div))
  }

  /** Scaling in words, written out. */
  lemma ScaleInWords(value: U32, mul: int, div: int)
    requires mul != div && div % WORD32 != 0
    ensures Scale(value, mul, div) == mul * value % WORD32 / (div % WORD32) && Scale(value, mul, mul) == value
  {}

  function ScaleDown(v: U32, div: U32): (r: U32)
    requires div != 0
  {
    Shrinks(v, div);
    v / div
  }

  lemma Shrinks(v: nat, d: nat)
    requires d > 0
    ensures v / d <= v
  {
    Grows(v / d, d);
    Divides(v, d);
  }

  lemma Grows(q: nat, d: nat)
    requires d > 0
    ensures q <= q * d
  {
    MulMono(q, 1, d);
  }

  function DstArea(clip: Rect): Area {
    Area(ToU32(clip.l), ToU32(clip.t), ToU32(clip.r - clip.l), ToU32(clip.b - clip.t))
  }

  /** The clip relative to the destination, turned into the source's axes but not yet scaled. */
  function Turned(rot90: bool, clip: Rect, dst: Rect, src: Rect): Area {
    if rot90 then
      Area(ToU32(clip.t - dst.t + src.t), ToU32(dst.r - clip.r + src.l), ToU32(clip.b - clip.t), ToU32(clip.r - clip.l))
    else
      Area(ToU32(clip.l - dst.l + src.l), ToU32(clip.t - dst.t + src.t), ToU32(clip.r - clip.l), ToU32(clip.b - clip.t))
  }

  function Width(rot90: bool, dst: Rect): int {
    ToInt(ToU32(if rot90 then dst.b - dst.t else dst.r - dst.l))
  }

  function Height(rot90: bool, dst: Rect): int {
    ToInt(ToU32(if rot90 then dst.r - dst.l else dst.b - dst.t))
  }

  function Scaled(a: Area, src: Rect, width: int, height: int): Area {
    Area(Scale(a.x, src.r - src.l, width), Scale(a.y, src.b - src.t, height),
         Scale(a.w, src.r - src.l, width), Scale(a.h, src.b - src.t, height))
  }

  function Flipped(a: Area, tr: Transform, img: Image): Area {
    Area(if tr.flipH then ToU32(img.w - (a.x + a.w)) else a.x,
         if tr.flipV then ToU32(img.h - (a.y + a.h)) else a.y, a.w, a.h)
  }

  function SrcArea(j: Job, clip: Rect): Area {
    var rot := j.transform.rot90;
    Flipped(Scaled(Turned(rot, clip, j.dstRect, j.srcRect), j.srcRect, Width(rot, j.dstRect), Height(rot, j.dstRect)),
            j.transform, j.src)
  }

  function Bounds(dst: Image): Rect { Rect(0, 0, ToInt(dst.w), ToInt(dst.h)) }

  function Clip(j: Job, r: Rect): Rect {
    Intersect(Intersect(Bounds(j.dst), r), j.dstRect)
  }

  function Request(j: Job, r: Rect): Req {
    Req(j.src, j.dst, SrcArea(j, Clip(j, r)), DstArea(Clip(j, r)), j.alpha, j.transform)
  }

  predicate Kept(q: Req) {
    q.srcRect.w != 0 && q.srcRect.h != 0 && q.dstRect.w != 0 && q.dstRect.h != 0
  }

  /** The requests of a region, in its order, without the empty ones. */
  function Requests(j: Job, region: seq<Rect>): seq<Req> {
    if region == [] then [] else One(Request(j, region[0])) + Requests(j, region[1..])
  }

  function One(q: Req): seq<Req> { if Kept(q) then [q] else [] }

  // ---- Submission ----

  datatype Submission = Submission(status: int, batches: seq<seq<Req>>)

  /** Submit twelve requests at a time until none is left or the driver refuses a batch; outcome k is
      the driver's answer to batch k, zero for success. */
  function Submit(reqs: seq<Req>, outcome: nat -> int, k: nat): Submission
    decreases |reqs|
  {
    if reqs == [] then Submission(0, [])
    else
      var n := if |reqs| < BATCH then |reqs| else BATCH;
      if outcome(k) != 0 then Submission(outcome(k), [reqs[..n]])
      else
        var rest := Submit(reqs[n..], outcome, k + 1);
        Submission(rest.status, [reqs[..n]] + rest.batches)
  }

  function Flatten(batches: seq<seq<Req>>): seq<Req> {
    if batches == [] then [] else batches[0] + Flatten(batches[1..])
  }

  /** The driver took batches k to k + n - 1. */
  ghost predicate Taken(outcome: nat -> int, k: nat, n: int) {
    forall j :: k <= j < k + n ==> outcome(j) == 0
  }

  lemma {:induction false} SubmitStops(reqs: seq<Req>, outcome: nat -> int, k: nat)
    ensures var s := Submit(reqs, outcome, k);
      if s.status == 0 then Taken(outcome, k, |s.batches|)
      else |s.batches| > 0 && Taken(outcome, k, |s.batches| - 1) && s.status == outcome(k + |s.batches| - 1)
    decreases |reqs|
  {
    if reqs != [] && outcome(k) == 0 {
      SubmitStops(reqs[if |reqs| < BATCH then |reqs| else BATCH..], outcome, k + 1);
    }
  }

  /** One to twelve requests a batch, and twelve in all but the last. */
  ghost predicate Filled(bs: seq<seq<Req>>) {
    && (forall i :: 0 <= i < |bs| ==> 1 <= |bs[i]| <= BATCH)
    && (forall i :: 0 <= i < |bs| - 1 ==> |bs[i]| == BATCH)
  }

  lemma FilledBefore(first: seq<Req>, bs: seq<seq<Req>>)
    requires Filled(bs) && 1 <= |first| <= BATCH && (bs != [] ==> |first| == BATCH)
    ensures Filled([first] + bs)
  {}

  lemma {:induction false} SubmitFills(reqs: seq<Req>, outcome: nat -> int, k: nat)
    ensures Filled(Submit(reqs, outcome, k).batches)
    decreases |reqs|
  {
    if reqs != [] && outcome(k) == 0 {
      var n := if |reqs| < BATCH then |reqs| else BATCH;
      SubmitFills(reqs[n..], outcome, k + 1);
      FilledBefore(reqs[..n], Submit(reqs[n..], outcome, k + 1).batches);
    }
  }

  lemma {:induction false} SubmitKeepsOrder(reqs: seq<Req>, outcome: nat -> int, k: nat)
    ensures var s := Submit(reqs, outcome, k);
      Flatten(s.batches) <= reqs && (s.status == 0 ==> Flatten(s.batches) == reqs)
    decreases |reqs|
  {
    if reqs == [] {
    } else {
      var n := if |reqs| < BATCH then |reqs| else BATCH;
      if outcome(k) != 0 {
        assert [reqs[..n]][1..] == [];
      } else {
        SubmitKeepsOrder(reqs[n..], outcome, k + 1);
        var more := Submit(reqs[n..], outcome, k + 1).batches;
        assert ([reqs[..n]] + more)[1..] == more;
        assert reqs == reqs[..n] + reqs[n..];
      }
    }
  }

  /** Batches hold one to twelve requests, all but the last exactly twelve; together they are the
      requests in order, all of them or up to and including the first batch the driver refused. */
  lemma SubmitInOrder(reqs: seq<Req>, outcome: nat -> int)
    ensures var s := Submit(reqs, outcome, 0);
      && (if s.status == 0 then Flatten(s.batches) == reqs && Taken(outcome, 0, |s.batches|)
          else Flatten(s.batches) <= reqs && |s.batches| > 0 && Taken(outcome, 0, |s.batches| - 1)
               && s.status == outcome(|s.batches| - 1))
      && Filled(s.batches)
  {
    SubmitStops(reqs, outcome, 0);
    SubmitFills(reqs, outcome, 0);
    SubmitKeepsOrder(reqs, outcome, 0);
  }

  // ---- Where the rectangles lie ----

  /** The job of a full-image blit. */
  function BlitJob(alpha: nat, transform: Transform, dst: Image, src: Image): Job {
    Job(alpha, transform, dst, src, Bounds(dst), Bounds(src))
  }

  const MAX_DIMENSION: nat := 4096

  predicate Blittable(img: Image) {
    0 < img.w <= MAX_DIMENSION && 0 < img.h <= MAX_DIMENSION
  }

  predicate Inside(a: Area, img: Image) {
    a.x + a.w <= img.w && a.y + a.h <= img.h
  }

  predicate NonEmpty(c: Rect) {
    c.l < c.r && c.t < c.b
  }

  /** The exact floor a position is scaled to, without words. */
  function Floor(v: nat, mul: nat, div: nat): nat
    requires div > 0
  {
    v * mul / div
  }

  lemma Product(a: nat, b: nat, m: nat, n: nat)
    requires a <= m && b <= n
    ensures a * b <= m * n
  {
    MulMono(b, a, m);
    MulMono(m, b, n);
  }

  /** Floor division is superadditive and monotonic. */
  lemma FloorSum(a: nat, b: nat, d: nat)
    requires d > 0
    ensures a / d + b / d <= (a + b) / d
  {
    Divides(a, d);
    Divides(b, d);
    SumAtLeast(a + b, a / d, b / d, a % d + b % d, d);
  }

  lemma SumAtLeast(v: nat, x: nat, y: nat, r: nat, d: nat)
    requires d > 0 && v == x * d + y * d + r
    ensures x + y <= v / d
  {
    Distribute(x, y, d);
    AtLeast(v, x + y, r, d);
  }

  lemma AtLeast(v: nat, q: nat, r: nat, d: nat)
    requires d > 0 && v == q * d + r
    ensures q <= v / d
  {
    Divides(v, d);
    QuotientAtLeast(v / d, v % d, q, r, d);
  }

  lemma QuotientAtLeast(p: nat, m: nat, q: nat, r: nat, d: nat)
    requires p * d + m == q * d + r && m < d
    ensures q <= p
  {
    if p < q { NextMultiple(p, q, d); }
  }

  lemma NextMultiple(p: nat, q: nat, d: nat)
    requires p < q
    ensures p * d + d <= q * d
  {
    MulMono(d, p + 1, q);
    Distribute(p, 1, d);
  }

  lemma FloorMono(a: nat, b: nat, d: nat)
    requires d > 0 && a <= b
    ensures a / d <= b / d
  {
    FloorSum(a, b - a, d);
  }

  /** In words nothing wraps while both factors are at most the largest dimension. */
  lemma ScaleIsFloor(v: U32, mul: nat, div: nat)
    requires v <= 2 * MAX_DIMENSION && mul <= MAX_DIMENSION && 0 < div <= MAX_DIMENSION
    ensures Scale(v, mul, div) == Floor(v, mul, div)
  {
    if mul == div {
      Exactly(v, div);
    } else {
      Product(mul, v, MAX_DIMENSION, 2 * MAX_DIMENSION);
      Small(mul * v);
      Small(div);
      assert mul * v == v * mul;
    }
  }

  lemma Small(n: nat)
    requires n < 0x8000_0000
    ensures ToU32(n) == n && ToInt(ToU32(n)) == n
  {}

  lemma Exactly(v: nat, d: nat)
    requires d > 0
    ensures v * d / d == v
  {
    AtLeast(v * d, v, 0, d);
    Divides(v * d, d);
    if v * d / d > v { Product(v + 1, d, v * d / d, d); }
  }

  /** An interval scaled piecewise ends no later than its end scaled, which is within the image. */
  lemma IntervalScaled(lo: nat, len: nat, mul: nat, div: nat)
    requires lo + len <= div <= MAX_DIMENSION && mul <= MAX_DIMENSION && 0 < div
    ensures Scale(lo, mul, div) + Scale(len, mul, div) <= Floor(lo + len, mul, div) <= mul
  {
    ScaleIsFloor(lo, mul, div);
    ScaleIsFloor(len, mul, div);
    FloorSum(lo * mul, len * mul, div);
    Distribute(lo, len, mul);
    MulMono(mul, lo + len, div);
    FloorMono((lo + len) * mul, mul * div, div);
    Exactly(mul, div);
  }

  predicate Int32(n: int) { -0x8000_0000 <= n < 0x8000_0000 }

  predicate RectOk(r: Rect) { Int32(r.l) && Int32(r.t) && Int32(r.r) && Int32(r.b) }

  /** A non-empty clip inside the destination. */
  predicate ClipOk(c: Rect, dst: Image) {
    NonEmpty(c) && 0 <= c.l && 0 <= c.t && c.r <= dst.w && c.b <= dst.h
  }

  lemma DstInside(c: Rect, dst: Image)
    requires Blittable(dst) && ClipOk(c, dst)
    ensures DstArea(c) == Area(c.l, c.t, c.r - c.l, c.b - c.t) && Inside(DstArea(c), dst)
  {}

  /** The turned clip lies in the turned destination. */
  lemma TurnedInside(rot90: bool, c: Rect, dst: Image, src: Image)
    requires Blittable(dst) && Blittable(src) && ClipOk(c, dst)
    ensures var a := Turned(rot90, c, Bounds(dst), Bounds(src));
      var w, h := Width(rot90, Bounds(dst)), Height(rot90, Bounds(dst));
      && w == (if rot90 then dst.h else dst.w) && h == (if rot90 then dst.w else dst.h)
      && a == (if rot90 then Area(c.t, dst.w - c.r, c.b - c.t, c.r - c.l) else Area(c.l, c.t, c.r - c.l, c.b - c.t))
      && a.x + a.w <= w && a.y + a.h <= h
  {
    Small(dst.w);
    Small(dst.h);
    Small(c.b - c.t);
    Small(c.r - c.l);
    Small(c.t);
    if rot90 { Small(dst.w - c.r); } else { Small(c.l); }
  }

  lemma ScaledInside(a: Area, src: Image, w: nat, h: nat)
    requires Blittable(src) && 0 < w <= MAX_DIMENSION && 0 < h <= MAX_DIMENSION && a.x + a.w <= w && a.y + a.h <= h
    ensures Inside(Scaled(a, Bounds(src), w, h), src)
  {
    IntervalScaled(a.x, a.w, src.w, w);
    IntervalScaled(a.y, a.h, src.h, h);
  }

  lemma FlippedInside(a: Area, tr: Transform, src: Image)
    requires Inside(a, src)
    ensures Inside(Flipped(a, tr, src), src)
  {}

  lemma SrcInside(j: Job, c: Rect)
    requires j == BlitJob(j.alpha, j.transform, j.dst, j.src)
    requires Blittable(j.dst) && Blittable(j.src) && ClipOk(c, j.dst)
    ensures Inside(SrcArea(j, c), j.src)
  {
    var rot := j.transform.rot90;
    var a := Turned(rot, c, j.dstRect, j.srcRect);
    TurnedInside(rot, c, j.dst, j.src);
    ScaledInside(a, j.src, Width(rot, j.dstRect), Height(rot, j.dstRect));
    FlippedInside(Scaled(a, j.srcRect, Width(rot, j.dstRect), Height(rot, j.dstRect)), j.transform, j.src);
  }

  /** A clip that is turned inside out is submitted with a wrapped size. */
  lemma InvertedOutside(c: Rect, dst: Image)
    requires Blittable(dst) && RectOk(c) && 0 <= c.l && 0 <= c.t && c.r <= dst.w && c.b <= dst.h
    requires DstArea(c).w != 0 && DstArea(c).h != 0 && !NonEmpty(c)
    ensures !Inside(DstArea(c), dst)
  {
    if c.r < c.l { Wraps(c.l, c.r); } else { Wraps(c.t, c.b); }
  }

  lemma Wraps(lo: int, hi: int)
    requires Int32(hi) && Int32(lo) && 0 <= lo && hi <= MAX_DIMENSION
    ensures hi < lo ==> ToU32(lo) + ToU32(hi - lo) > MAX_DIMENSION
    ensures hi == lo ==> ToU32(hi - lo) == 0
  {}

  lemma ClipInBounds(j: Job, r: Rect)
    requires j == BlitJob(j.alpha, j.transform, j.dst, j.src) && Blittable(j.dst) && RectOk(r)
    ensures var c := Clip(j, r); RectOk(c) && 0 <= c.l && 0 <= c.t && c.r <= j.dst.w && c.b <= j.dst.h
  {}

  /** In a full-image blit under every flip and rotation, a submitted request reads inside the source
      and writes inside the destination exactly when its clip is not turned inside out. */
  lemma SubmittedInsideIff(j: Job, r: Rect)
    requires j == BlitJob(j.alpha, j.transform, j.dst, j.src) && Blittable(j.dst) && Blittable(j.src) && RectOk(r)
    requires Kept(Request(j, r))
    ensures Inside(Request(j, r).srcRect, j.src) && Inside(Request(j, r).dstRect, j.dst) <==> NonEmpty(Clip(j, r))
  {
    var c := Clip(j, r);
    ClipInBounds(j, r);
    if NonEmpty(c) {
      SrcInside(j, c);
      DstInside(c, j.dst);
    } else {
      InvertedOutside(c, j.dst);
    }
  }

  /** A region rectangle beside the image escapes it: the clip is inside out, and the request is
      submitted with a destination 4294967196 pixels wide. */
  lemma BesideTheImage()
    ensures var img := Image(100, 100, Rgba8888);
      var q := Request(BlitJob(255, Transform(false, false, false), img, img), Rect(200, 0, 300, 50));
      Kept(q) && q.dstRect == Area(200, 0, 0xFFFF_FF9C, 50) && !Inside(q.dstRect, img)
  {}

  ghost predicate AllInside(qs: seq<Req>) {
    forall i :: 0 <= i < |qs| ==> Inside(qs[i].srcRect, qs[i].src) && Inside(qs[i].dstRect, qs[i].dst)
  }

  /** Every request of a region whose clips are sound lies inside both images. */
  lemma {:induction false} BlitStaysInside(j: Job, region: seq<Rect>)
    requires j == BlitJob(j.alpha, j.transform, j.dst, j.src) && Blittable(j.dst) && Blittable(j.src)
    requires forall i :: 0 <= i < |region| ==> RectOk(region[i]) && NonEmpty(Clip(j, region[i]))
    ensures AllInside(Requests(j, region))
  {
    if region == [] {
    } else {
      var rest := region[1..];
      forall i | 0 <= i < |rest| ensures RectOk(rest[i]) && NonEmpty(Clip(j, rest[i])) {
        assert rest[i] == region[i + 1];
      }
      BlitStaysInside(j, rest);
      if Kept(Request(j, region[0])) { SubmittedInsideIff(j, region[0]); }
      InsideFirst(One(Request(j, region[0])), Requests(j, rest));
    }
  }

  lemma InsideFirst(a: seq<Req>, b: seq<Req>)
    requires AllInside(a) && AllInside(b)
    ensures AllInside(a + b)
  {}

  // ---- Clips apart stay apart ----

  predicate Apart(a: Area, b: Area) {
    a.x + a.w <= b.x || b.x + b.w <= a.x || a.y + a.h <= b.y || b.y + b.h <= a.y
  }

  predicate RectsApart(a: Rect, b: Rect) {
    a.r <= b.l || b.r <= a.l || a.b <= b.t || b.b <= a.t
  }

  /** An interval before another is still before it when both are scaled. */
  lemma ScaledBefore(lo: nat, len: nat, next: nat, mul: nat, div: nat)
    requires lo + len <= next <= div <= MAX_DIMENSION && mul <= MAX_DIMENSION && 0 < div
    ensures Scale(lo, mul, div) + Scale(len, mul, div) <= Scale(next, mul, div)
  {
    IntervalScaled(lo, len, mul, div);
    ScaleIsFloor(next, mul, div);
    MulMono(mul, lo + len, next);
    FloorMono((lo + len) * mul, next * mul, div);
  }

  lemma ScaledApart(a: Area, b: Area, src: Image, w: nat, h: nat)
    requires Blittable(src) && 0 < w <= MAX_DIMENSION && 0 < h <= MAX_DIMENSION
    requires a.x + a.w <= w && a.y + a.h <= h && b.x + b.w <= w && b.y + b.h <= h && Apart(a, b)
    ensures Apart(Scaled(a, Bounds(src), w, h), Scaled(b, Bounds(src), w, h))
  {
    if a.x + a.w <= b.x {
      ScaledBefore(a.x, a.w, b.x, src.w, w);
    } else if b.x + b.w <= a.x {
      ScaledBefore(b.x, b.w, a.x, src.w, w);
    } else if a.y + a.h <= b.y {
      ScaledBefore(a.y, a.h, b.y, src.h, h);
    } else {
      ScaledBefore(b.y, b.h, a.y, src.h, h);
    }
  }

  lemma FlippedApart(a: Area, b: Area, tr: Transform, src: Image)
    requires Inside(a, src) && Inside(b, src) && Apart(a, b)
    ensures Apart(Flipped(a, tr, src), Flipped(b, tr, src))
  {
    FlippedAt(a, tr, src);
    FlippedAt(b, tr, src);
  }

  /** Inside the image no flip wraps. */
  lemma FlippedAt(a: Area, tr: Transform, src: Image)
    requires Inside(a, src)
    ensures var x, y := if tr.flipH then src.w - (a.x + a.w) else a.x, if tr.flipV then src.h - (a.y + a.h) else a.y;
      Flipped(a, tr, src) == Area(x, y, a.w, a.h)
  {}

  /** Clips that do not overlap read source rectangles that do not overlap, despite the rounding. */
  lemma SourcesApart(j: Job, c: Rect, d: Rect)
    requires j == BlitJob(j.alpha, j.transform, j.dst, j.src) && Blittable(j.dst) && Blittable(j.src)
    requires ClipOk(c, j.dst) && ClipOk(d, j.dst) && RectsApart(c, d)
    ensures Apart(SrcArea(j, c), SrcArea(j, d))
  {
    var rot := j.transform.rot90;
    var w, h := Width(rot, j.dstRect), Height(rot, j.dstRect);
    var a, b := Turned(rot, c, j.dstRect, j.srcRect), Turned(rot, d, j.dstRect, j.srcRect);
    TurnedInside(rot, c, j.dst, j.src);
    TurnedInside(rot, d, j.dst, j.src);
    ScaledApart(a, b, j.src, w, h);
    ScaledInside(a, j.src, w, h);
    ScaledInside(b, j.src, w, h);
    FlippedApart(Scaled(a, j.srcRect, w, h), Scaled(b, j.srcRect, w, h), j.transform, j.src);
  }

  // ---- What a blit shows ----

  datatype Pixel = Pixel(x: int, y: int)

  predicate InRect(c: Rect, p: Pixel) { c.l <= p.x < c.r && c.t <= p.y < c.b }

  predicate InArea(a: Area, p: Pixel) { a.x <= p.x < a.x + a.w && a.y <= p.y < a.y + a.h }

  /** A quarter turn takes a destination's rows to columns, from the right. */
  function Unturned(rot90: bool, dst: Image, p: Pixel): Pixel {
    if rot90 then Pixel(p.y, dst.w - 1 - p.x) else p
  }

  function Mirrored(tr: Transform, src: Image, p: Pixel): Pixel {
    Pixel(if tr.flipH then src.w - 1 - p.x else p.x, if tr.flipV then src.h - 1 - p.y else p.y)
  }

  /** The source pixel that a destination pixel shows when nothing is scaled: turned, then mirrored
      along the source's axes. */
  function Shown(tr: Transform, dst: Image, src: Image, p: Pixel): Pixel {
    Mirrored(tr, src, Unturned(tr.rot90, dst, p))
  }

  lemma TurnedIsExact(rot90: bool, c: Rect, dst: Image, src: Image, p: Pixel)
    requires Blittable(dst) && Blittable(src) && ClipOk(c, dst)
    ensures InRect(c, p) <==> InArea(Turned(rot90, c, Bounds(dst), Bounds(src)), Unturned(rot90, dst, p))
  {
    TurnedInside(rot90, c, dst, src);
  }

  lemma FlippedIsExact(a: Area, tr: Transform, src: Image, p: Pixel)
    requires Inside(a, src)
    ensures InArea(a, p) <==> InArea(Flipped(a, tr, src), Mirrored(tr, src, p))
  {
    FlippedAt(a, tr, src);
  }

  lemma UnscaledStays(a: Area, src: Rect)
    ensures Scaled(a, src, src.r - src.l, src.b - src.t) == a
  {}

  /** Nothing is scaled when the turned sides of the images match. */
  predicate SidesMatch(j: Job) {
    if j.transform.rot90 then j.dst.h == j.src.w && j.dst.w == j.src.h else j.dst.w == j.src.w && j.dst.h == j.src.h
  }

  lemma UnscaledArea(j: Job, c: Rect)
    requires j == BlitJob(j.alpha, j.transform, j.dst, j.src)
    requires Blittable(j.dst) && Blittable(j.src) && ClipOk(c, j.dst)
    requires SidesMatch(j)
    ensures var a := Turned(j.transform.rot90, c, j.dstRect, j.srcRect);
      Inside(a, j.src) && SrcArea(j, c) == Flipped(a, j.transform, j.src)
  {
    var rot := j.transform.rot90;
    TurnedInside(rot, c, j.dst, j.src);
    Small(j.src.w);
    Small(j.src.h);
    assert Width(rot, j.dstRect) == j.srcRect.r - j.srcRect.l && Height(rot, j.dstRect) == j.srcRect.b - j.srcRect.t;
    UnscaledStays(Turned(rot, c, j.dstRect, j.srcRect), j.srcRect);
  }

  /** Between images of matching size, under every flip and rotation, the source rectangle of a clip
      holds exactly the pixels that the clip shows. */
  lemma UnscaledIsExact(j: Job, c: Rect, p: Pixel)
    requires j == BlitJob(j.alpha, j.transform, j.dst, j.src)
    requires Blittable(j.dst) && Blittable(j.src) && ClipOk(c, j.dst)
    requires SidesMatch(j)
    ensures InRect(c, p) <==> InArea(SrcArea(j, c), Shown(j.transform, j.dst, j.src, p))
  {
    var rot := j.transform.rot90;
    UnscaledArea(j, c);
    TurnedIsExact(rot, c, j.dst, j.src, p);
    FlippedIsExact(Turned(rot, c, j.dstRect, j.srcRect), j.transform, j.src, Unturned(rot, j.dst, p));
  }

  // ---- What a scaled blit shows ----

  /** n is v * mul / div, rounded down: stated by products alone. */
  predicate RoundsDown(n: nat, v: nat, mul: nat, div: nat) {
    n * div <= v * mul < (n + 1) * div
  }

  lemma FloorRoundsDown(v: nat, mul: nat, div: nat)
    requires div > 0
    ensures RoundsDown(Floor(v, mul, div), v, mul, div)
  {
    Divides(v * mul, div);
    Distribute(v * mul / div, 1, div);
  }

  /** s is a scaled by sw / w and sh / h. */
  predicate ScaledFrom(s: Area, a: Area, sw: nat, w: nat, sh: nat, h: nat) {
    && RoundsDown(s.x, a.x, sw, w) && RoundsDown(s.w, a.w, sw, w)
    && RoundsDown(s.y, a.y, sh, h) && RoundsDown(s.h, a.h, sh, h)
  }

  predicate NoWider(a: Area, most: nat) { a.x <= most && a.y <= most && a.w <= most && a.h <= most }

  lemma ScaledRoundsDown(a: Area, src: Rect, w: nat, h: nat)
    requires 0 <= src.r - src.l <= MAX_DIMENSION && 0 <= src.b - src.t <= MAX_DIMENSION
    requires 0 < w <= MAX_DIMENSION && 0 < h <= MAX_DIMENSION && NoWider(a, 2 * MAX_DIMENSION)
    ensures ScaledFrom(Scaled(a, src, w, h), a, src.r - src.l, w, src.b - src.t, h)
  {
    var sw, sh := src.r - src.l, src.b - src.t;
    ScaleIsFloor(a.x, sw, w);
    ScaleIsFloor(a.w, sw, w);
    ScaleIsFloor(a.y, sh, h);
    ScaleIsFloor(a.h, sh, h);
    FloorRoundsDown(a.x, sw, w);
    FloorRoundsDown(a.w, sw, w);
    FloorRoundsDown(a.y, sh, h);
    FloorRoundsDown(a.h, sh, h);
  }

  /** A rectangle of image size in the positive quadrant. */
  predicate Framed(r: Rect) {
    0 <= r.l < r.r <= MAX_DIMENSION && 0 <= r.t < r.b <= MAX_DIMENSION
  }

  predicate Within(c: Rect, r: Rect) {
    r.l <= c.l && c.r <= r.r && r.t <= c.t && c.b <= r.b
  }

  lemma TurnedFramed(c: Rect, d: Rect, s: Rect)
    requires Framed(d) && Framed(s) && NonEmpty(c) && Within(c, d)
    ensures Turned(true, c, d, s) == Area(c.t - d.t + s.t, d.r - c.r + s.l, c.b - c.t, c.r - c.l)
    ensures Turned(false, c, d, s) == Area(c.l - d.l + s.l, c.t - d.t + s.t, c.r - c.l, c.b - c.t)
    ensures NoWider(Turned(true, c, d, s), 2 * MAX_DIMENSION) && NoWider(Turned(false, c, d, s), 2 * MAX_DIMENSION)
  {
    Small(c.t - d.t + s.t);
    Small(c.l - d.l + s.l);
    Small(d.r - c.r + s.l);
    Small(c.b - c.t);
    Small(c.r - c.l);
  }

  lemma SidesFramed(rot90: bool, d: Rect)
    requires Framed(d)
    ensures Width(rot90, d) == (if rot90 then d.b - d.t else d.r - d.l) && 0 < Width(rot90, d) <= MAX_DIMENSION
    ensures Height(rot90, d) == (if rot90 then d.r - d.l else d.b - d.t) && 0 < Height(rot90, d) <= MAX_DIMENSION
  {
    Small(d.r - d.l);
    Small(d.b - d.t);
  }

  /** Before the flips. */
  lemma StretchIsScaled(rot90: bool, c: Rect, d: Rect, s: Rect) returns (a: Area)
    requires Framed(d) && Framed(s) && NonEmpty(c) && Within(c, d)
    ensures a == Scaled(Turned(rot90, c, d, s), s, Width(rot90, d), Height(rot90, d))
    ensures rot90 ==> ScaledFrom(a, Area(c.t - d.t + s.t, d.r - c.r + s.l, c.b - c.t, c.r - c.l),
                                 s.r - s.l, d.b - d.t, s.b - s.t, d.r - d.l)
    ensures !rot90 ==> ScaledFrom(a, Area(c.l - d.l + s.l, c.t - d.t + s.t, c.r - c.l, c.b - c.t),
                                  s.r - s.l, d.r - d.l, s.b - s.t, d.b - d.t)
  {
    var t := Turned(rot90, c, d, s);
    TurnedFramed(c, d, s);
    SidesFramed(rot90, d);
    ScaledRoundsDown(t, s, Width(rot90, d), Height(rot90, d));
    a := Scaled(t, s, Width(rot90, d), Height(rot90, d));
  }

  /** In any stretch, under every transform, the source rectangle of a clip is the clip laid along the source's
      axes from the corner of the source rectangle and scaled by the sides of the two rectangles, each
      coordinate and size rounded down; a flip measures it from the other edge of the image. */
  lemma StretchIsExact(j: Job, c: Rect) returns (a: Area)
    requires Framed(j.dstRect) && Framed(j.srcRect) && NonEmpty(c) && Within(c, j.dstRect)
    ensures var d, s := j.dstRect, j.srcRect;
      && (j.transform.rot90 ==> ScaledFrom(a, Area(c.t - d.t + s.t, d.r - c.r + s.l, c.b - c.t, c.r - c.l),
                                           s.r - s.l, d.b - d.t, s.b - s.t, d.r - d.l))
      && (!j.transform.rot90 ==> ScaledFrom(a, Area(c.l - d.l + s.l, c.t - d.t + s.t, c.r - c.l, c.b - c.t),
                                            s.r - s.l, d.r - d.l, s.b - s.t, d.b - d.t))
    ensures var q, tr := SrcArea(j, c), j.transform;
      && q.w == a.w && q.h == a.h
      && q.x == (if tr.flipH then (j.src.w - (a.x + a.w)) % WORD32 else a.x)
      && q.y == (if tr.flipV then (j.src.h - (a.y + a.h)) % WORD32 else a.y)
  {
    a := StretchIsScaled(j.transform.rot90, c, j.dstRect, j.srcRect);
    FlipsInWords(a, j.transform, j.src);
  }

  lemma FlipsInWords(a: Area, tr: Transform, img: Image)
    ensures var q := Flipped(a, tr, img);
      && q.w == a.w && q.h == a.h
      && q.x == (if tr.flipH then (img.w - (a.x + a.w)) % WORD32 else a.x)
      && q.y == (if tr.flipV then (img.h - (a.y + a.h)) % WORD32 else a.y)
  {}

  /** An area seen before the flips: from the left and the top, whichever edges it is measured from. */
  function BeforeFlips(a: Area, tr: Transform, src: Image): Area
    requires Inside(a, src)
  {
    Area(if tr.flipH then src.w - (a.x + a.w) else a.x, if tr.flipV then src.h - (a.y + a.h) else a.y, a.w, a.h)
  }

  /** In a full-image blit, under every transform, the source rectangle of a clip is the clip laid along the
      source's axes and scaled by the sides of the images, each coordinate and size rounded down. */
  lemma ScaledIsExact(j: Job, c: Rect)
    requires j == BlitJob(j.alpha, j.transform, j.dst, j.src)
    requires Blittable(j.dst) && Blittable(j.src) && ClipOk(c, j.dst)
    ensures Inside(SrcArea(j, c), j.src)
    ensures var q := BeforeFlips(SrcArea(j, c), j.transform, j.src);
      if j.transform.rot90 then
        ScaledFrom(q, Area(c.t, j.dst.w - c.r, c.b - c.t, c.r - c.l), j.src.w, j.dst.h, j.src.h, j.dst.w)
      else
        ScaledFrom(q, Area(c.l, c.t, c.r - c.l, c.b - c.t), j.src.w, j.dst.w, j.src.h, j.dst.h)
  {
    var rot := j.transform.rot90;
    var w, h := Width(rot, j.dstRect), Height(rot, j.dstRect);
    var a := Turned(rot, c, j.dstRect, j.srcRect);
    TurnedInside(rot, c, j.dst, j.src);
    ScaledInside(a, j.src, w, h);
    Small(j.src.w);
    Small(j.src.h);
    ScaledRoundsDown(a, j.srcRect, w, h);
    SrcInside(j, c);
    FlippedAt(Scaled(a, j.srcRect, w, h), j.transform, j.src);
  }

  lemma WholeScales(n: nat, mul: nat, div: nat)
    requires div > 0
    ensures RoundsDown(n, 0, mul, div) ==> n == 0
    ensures RoundsDown(n, div, mul, div) ==> n == mul
  {
    if RoundsDown(n, 0, mul, div) && n > 0 { MulMono(div, 1, n); }
    if RoundsDown(n, div, mul, div) {
      if n < mul { MulMono(div, n + 1, mul); }
      if n > mul { MulMono(div, mul + 1, n); Distribute(mul, 1, div); }
    }
  }

  /** The whole destination shows the whole source. */
  lemma WholeShowsWhole(j: Job)
    requires j == BlitJob(j.alpha, j.transform, j.dst, j.src)
    requires Blittable(j.dst) && Blittable(j.src) && 0 < j.dst.w && 0 < j.dst.h
    ensures SrcArea(j, Bounds(j.dst)) == Area(0, 0, j.src.w, j.src.h)
  {
    Small(j.dst.w);
    Small(j.dst.h);
    ScaledIsExact(j, Bounds(j.dst));
    var q := BeforeFlips(SrcArea(j, Bounds(j.dst)), j.transform, j.src);
    var w, h := if j.transform.rot90 then j.dst.h else j.dst.w, if j.transform.rot90 then j.dst.w else j.dst.h;
    WholeScales(q.x, j.src.w, w);
    WholeScales(q.w, j.src.w, w);
    WholeScales(q.y, j.src.h, h);
    WholeScales(q.h, j.src.h, h);
  }

  /** A request names both images and how to blend and turn them, and writes exactly the pixels of the
      destination that lie in its rectangle of the region and in the one stretched to. */
  lemma RequestWrites(j: Job, r: Rect, p: Pixel)
    requires Blittable(j.dst) && NonEmpty(Clip(j, r))
    ensures var q := Request(j, r);
      && q.src == j.src && q.dst == j.dst && q.alpha == j.alpha && q.transform == j.transform
      && (InArea(q.dstRect, p)
          <==> InRect(r, p) && InRect(j.dstRect, p) && 0 <= p.x < j.dst.w && 0 <= p.y < j.dst.h)
  {
    Small(j.dst.w);
    Small(j.dst.h);
    DstInside(Clip(j, r), j.dst);
  }

  /** A rectangle of the region is left out exactly when it would read or write nothing. */
  lemma LeftOutIffEmpty(j: Job, r: Rect)
    ensures var q := Request(j, r);
      Requests(j, [r])
      == if q.srcRect.w == 0 || q.srcRect.h == 0 || q.dstRect.w == 0 || q.dstRect.h == 0 then [] else [q]
  {
    assert [r][1..] == [] && Requests(j, []) == [];
  }
}
