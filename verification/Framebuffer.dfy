/** The double-buffered shared framebuffer: `publishFrame` of web/shared-framebuffer-cursor-overlay.ts
    writes, `capture` of web/cpu-worker-wasm-framebuffer-smoke.ts reads.

    Every step is one atomic load or store, or one cell of a slot; writer and reader interleave
    freely. A `fill` callback is any sequence of cell writes to the back slot. */
module Framebuffer {
  import opened Prelude

  type Cell = int

  datatype Writer =
    | WIdle
    | WFilling
    | WFilled
    | WNumbered(newSeq: int)
    | WTagged(newSeq: int)
    | WActivated(newSeq: int)
    | WSequenced(newSeq: int)
    | WDirtied(newSeq: int)

  /** `begun` is the highest frame whose filling had begun when the last cell was read. */
  datatype Reader =
    | RStart(attempt: nat)
    | RHaveSeq(attempt: nat, q: nat)
    | RHaveActive(attempt: nat, q: nat, a: int)
    | RReading(q: nat, a: int, got: seq<(nat, Cell)>)
    | RDone(q: nat, got: seq<(nat, Cell)>, begun: int)
    | RFailed

  const ATTEMPTS := 10

  /** Header words, the two slots, the writer's own `activeIndex`, and both program counters.
      `frames` records the contents of every frame when its fill ended; frame 0 is slot 0 initially. */
  datatype Shared = Shared(
    active: int,
    frameSeq: int,
    buf0Seq: int,
    buf1Seq: int,
    dirty: int,
    slot0: seq<Cell>,
    slot1: seq<Cell>,
    activeIndex: int,
    w: Writer,
    r: Reader,
    frames: seq<seq<Cell>>)

  function Initial(size: nat): Shared {
    var blank := seq(size, _ => 0);
    Shared(0, 0, 0, 0, 0, blank, blank, 0, WIdle, RStart(0), [blank])
  }

  function Slot(s: Shared, i: int): seq<Cell> {
    if i == 0 then s.slot0 else s.slot1
  }

  function BufSeq(s: Shared, i: int): int {
    if i == 0 then s.buf0Seq else s.buf1Seq
  }

  function Back(s: Shared): int {
    1 - s.activeIndex
  }

  function WithSlot(s: Shared, i: int, cells: seq<Cell>): Shared {
    if i == 0 then s.(slot0 := cells) else s.(slot1 := cells)
  }

  function WithBufSeq(s: Shared, i: int, n: int): Shared {
    if i == 0 then s.(buf0Seq := n) else s.(buf1Seq := n)
  }

  /** The highest frame whose filling has begun. */
  function Begun(s: Shared): int {
    |s.frames| - 1 + if s.w.WFilling? then 1 else 0
  }

  // ---- Steps ----------------------------------------------------------------------------------------

  datatype Act =
    | BeginFill
    | WriteCell(i: nat, v: Cell)
    | EndFill
    | LoadFrameSeq
    | StoreBufSeq
    | StoreActive
    | StoreFrameSeq
    | StoreDirty
    | EndPublish
    | ReadSeq
    | ReadActive
    | CheckBufSeq
    | ReadCell(i: nat)
    | EndCapture
    | NewCapture

  predicate Possible(s: Shared, a: Act) {
    match a
    case BeginFill => s.w.WIdle?
    case WriteCell(i, _) => s.w.WFilling? && i < |Slot(s, Back(s))|
    case EndFill => s.w.WFilling?
    case LoadFrameSeq => s.w.WFilled?
    case StoreBufSeq => s.w.WNumbered?
    case StoreActive => s.w.WTagged?
    case StoreFrameSeq => s.w.WActivated?
    case StoreDirty => s.w.WSequenced?
    case EndPublish => s.w.WDirtied?
    case ReadSeq => s.r.RStart?
    case ReadActive => s.r.RHaveSeq?
    case CheckBufSeq => s.r.RHaveActive?
    case ReadCell(i) => s.r.RReading? && i < |Slot(s, s.r.a)|
    case EndCapture => s.r.RReading?
    case NewCapture => s.r.RDone? || s.r.RFailed?
  }

  function Step(s: Shared, a: Act): Shared
    requires Possible(s, a)
  {
    match a
    case BeginFill => s.(w := WFilling)
    case WriteCell(i, v) => WithSlot(s, Back(s), Slot(s, Back(s))[i := v])
    case EndFill => s.(w := WFilled, frames := s.frames + [Slot(s, Back(s))])
    case LoadFrameSeq => s.(w := WNumbered(ToInt32(s.frameSeq + 1)))
    case StoreBufSeq => WithBufSeq(s, Back(s), s.w.newSeq).(w := WTagged(s.w.newSeq))
    case StoreActive => s.(active := Back(s), w := WActivated(s.w.newSeq))
    case StoreFrameSeq => s.(frameSeq := s.w.newSeq, w := WSequenced(s.w.newSeq))
    case StoreDirty => s.(dirty := 1, w := WDirtied(s.w.newSeq))
    case EndPublish => s.(activeIndex := Back(s), w := WIdle)
    case ReadSeq => s.(r := RHaveSeq(s.r.attempt, ToUint32(s.frameSeq)))
    case ReadActive => s.(r := RHaveActive(s.r.attempt, s.r.q, ToUint32(s.active)))
    case CheckBufSeq =>
      if BufSeq(s, s.r.a) == s.r.q then s.(r := RReading(s.r.q, s.r.a, []))
      else if s.r.attempt + 1 < ATTEMPTS then s.(r := RStart(s.r.attempt + 1))
      else s.(r := RFailed)
    case ReadCell(i) => s.(r := RReading(s.r.q, s.r.a, s.r.got + [(i, Slot(s, s.r.a)[i])]))
    case EndCapture => s.(r := RDone(s.r.q, s.r.got, Begun(s)))
    case NewCapture => s.(r := RStart(0))
  }

  function After(size: nat, acts: seq<Act>): Shared {
    if acts == [] then Initial(size) else
      var s := After(size, acts[..|acts| - 1]);
      if Possible(s, acts[|acts| - 1]) then Step(s, acts[|acts| - 1]) else s
  }

  // ---- The writer's invariant -------------------------------------------------------------------------

  /** The frame that FRAME_SEQ stands for, without wrap-around. */
  function Published(s: Shared): int {
    if s.w.WFilled? || s.w.WNumbered? || s.w.WTagged? || s.w.WActivated? then |s.frames| - 2 else |s.frames| - 1
  }

  /** The frame in the slot that ACTIVE_INDEX names. */
  function ActiveFrame(s: Shared): int {
    Published(s) + if s.w.WActivated? then 1 else 0
  }

  predicate Flipped(s: Shared) {
    s.w.WSequenced? || s.w.WDirtied?
  }

  ghost predicate WriterInv(s: Shared, size: nat) {
    var n := Published(s);
    var front, back := n % 2, 1 - n % 2;
    && n >= 0
    && |s.slot0| == |s.slot1| == size && (forall k :: 0 <= k < |s.frames| ==> |s.frames[k]| == size)
    && s.activeIndex == (if Flipped(s) then back else front)
    && s.active == (if s.w.WActivated? then back else front)
    && s.frameSeq == ToInt32(n)
    && (s.w.WNumbered? || s.w.WTagged? || s.w.WActivated? ==> s.w.newSeq == ToInt32(n + 1))
    && BufSeq(s, front) == ToInt32(n)
    && BufSeq(s, back) ==
       (if s.w.WTagged? || s.w.WActivated? then ToInt32(n + 1) else if n >= 1 then ToInt32(n - 1) else 0)
    && Slot(s, front) == s.frames[n]
    && (Flipped(s) ==> n >= 1)
    && s.dirty == (if n >= 2 || (n == 1 && !s.w.WSequenced?) then 1 else 0)
    && (s.w.WFilled? || s.w.WNumbered? || s.w.WTagged? || s.w.WActivated? ==> Slot(s, back) == s.frames[n + 1])
    && ((s.w.WIdle? || Flipped(s)) && n >= 1 ==> Slot(s, back) == s.frames[n - 1])
  }

  lemma NextNumber(n: int)
    ensures ToInt32(ToInt32(n) + 1) == ToInt32(n + 1)
  {
  }

  lemma FillKeepsWriter(s: Shared, a: Act, size: nat)
    requires WriterInv(s, size) && Possible(s, a) && (a.BeginFill? || a.WriteCell? || a.EndFill?)
    ensures WriterInv(Step(s, a), size)
  {
    var s' := Step(s, a);
    if a.EndFill? {
      assert Published(s') == Published(s);
      assert forall k :: 0 <= k < |s.frames| ==> s'.frames[k] == s.frames[k];
    }
  }

  lemma StoresKeepWriter(s: Shared, a: Act, size: nat)
    requires WriterInv(s, size) && Possible(s, a) && (a.LoadFrameSeq? || a.StoreBufSeq? || a.StoreActive?)
    ensures WriterInv(Step(s, a), size)
  {
    NextNumber(Published(s));
    assert Published(Step(s, a)) == Published(s);
  }

  lemma SequenceKeepsWriter(s: Shared, size: nat)
    requires WriterInv(s, size) && Possible(s, StoreFrameSeq)
    ensures WriterInv(Step(s, StoreFrameSeq), size)
  {
    var n := Published(s);
    assert Published(Step(s, StoreFrameSeq)) == n + 1;
    assert (n + 1) % 2 == 1 - n % 2;
  }

  lemma EndKeepsWriter(s: Shared, a: Act, size: nat)
    requires WriterInv(s, size) && Possible(s, a) && (a.StoreDirty? || a.EndPublish?)
    ensures WriterInv(Step(s, a), size)
  {
    assert Published(Step(s, a)) == Published(s);
  }

  predicate ByReader(a: Act) {
    a.ReadSeq? || a.ReadActive? || a.CheckBufSeq? || a.ReadCell? || a.EndCapture? || a.NewCapture?
  }

  lemma ReaderKeepsWriter(s: Shared, a: Act, size: nat)
    requires WriterInv(s, size) && Possible(s, a) && ByReader(a)
    ensures WriterInv(Step(s, a), size)
    ensures Step(s, a) == s.(r := Step(s, a).r)
  {
    ReaderChangesReader(s, a);
    OnlyReaderChanged(s, Step(s, a).r, size);
  }

  lemma ReaderChangesReader(s: Shared, a: Act)
    requires Possible(s, a) && ByReader(a)
    ensures Step(s, a) == s.(r := Step(s, a).r)
  {
  }

  lemma OnlyReaderChanged(s: Shared, r: Reader, size: nat)
    requires WriterInv(s, size)
    ensures WriterInv(s.(r := r), size)
  {
    var s' := s.(r := r);
    assert Published(s') == Published(s) && Flipped(s') == Flipped(s);
    assert Slot(s', 0) == Slot(s, 0) && Slot(s', 1) == Slot(s, 1);
    assert BufSeq(s', 0) == BufSeq(s, 0) && BufSeq(s', 1) == BufSeq(s, 1);
  }

  lemma StepKeepsWriter(s: Shared, a: Act, size: nat)
    requires WriterInv(s, size) && Possible(s, a)
    ensures WriterInv(Step(s, a), size)
  {
    if ByReader(a) {
      ReaderKeepsWriter(s, a, size);
    } else if a.BeginFill? || a.WriteCell? || a.EndFill? {
      FillKeepsWriter(s, a, size);
    } else if a.StoreFrameSeq? {
      SequenceKeepsWriter(s, size);
    } else if a.StoreDirty? || a.EndPublish? {
      EndKeepsWriter(s, a, size);
    } else {
      StoresKeepWriter(s, a, size);
    }
  }

  lemma {:induction false} WriterThroughout(size: nat, acts: seq<Act>)
    ensures WriterInv(After(size, acts), size)
  {
    if acts != [] {
      WriterThroughout(size, acts[..|acts| - 1]);
      var s := After(size, acts[..|acts| - 1]);
      if Possible(s, acts[|acts| - 1]) { StepKeepsWriter(s, acts[|acts| - 1], size); }
    }
  }

  /** In every interleaving the slot named by ACTIVE_INDEX is not being filled, holds a complete frame,
      and is numbered FRAME_SEQ or FRAME_SEQ + 1. */
  lemma ActiveSlotIsWhole(size: nat, acts: seq<Act>)
    ensures var s := After(size, acts);
            && (s.w.WFilling? ==> s.active != Back(s))
            && (BufSeq(s, s.active) == s.frameSeq || BufSeq(s, s.active) == ToInt32(s.frameSeq + 1))
            && var k := ActiveFrame(s);
               0 <= k < |s.frames| && Slot(s, s.active) == s.frames[k] && BufSeq(s, s.active) == ToInt32(k)
  {
    WriterThroughout(size, acts);
    NextNumber(Published(After(size, acts)));
  }

  // ---- The reader's invariant -------------------------------------------------------------------------

  /** Below 2^31 frames the numbers in the header are the frame numbers. */
  predicate Small(s: Shared) {
    |s.frames| <= TWO_31
  }

  predicate ReadsFrom(got: seq<(nat, Cell)>, frame: seq<Cell>) {
    forall k :: 0 <= k < |got| ==> got[k].0 < |frame| && got[k].1 == frame[got[k].0]
  }

  ghost predicate ReaderInv(s: Shared) {
    match s.r
    case RStart(_) => true
    case RHaveSeq(_, q) => q <= Published(s)
    case RHaveActive(_, q, a) => q <= Published(s) && (a == 0 || a == 1) && BufSeq(s, a) % 2 == a
    case RReading(q, a, got) =>
      && q <= Published(s) && q % 2 == a
      && (Begun(s) <= q + 1 ==> Slot(s, a) == s.frames[q] && ReadsFrom(got, s.frames[q]))
    case RDone(q, got, begun) =>
      q <= Published(s) && (begun <= q + 1 ==> ReadsFrom(got, s.frames[q]))
    case RFailed => true
  }

  /** The writer's invariant in plain numbers. */
  lemma PlainHeader(s: Shared, size: nat)
    requires WriterInv(s, size) && Small(s)
    ensures var n := Published(s);
            && s.frameSeq == n && ToUint32(s.frameSeq) == n
            && BufSeq(s, n % 2) == n
            && BufSeq(s, 1 - n % 2) == (if s.w.WTagged? || s.w.WActivated? then n + 1 else if n >= 1 then n - 1 else 0)
            && ToUint32(s.active) == s.active
  {
  }

  lemma ParityKept(s: Shared, a: Act, size: nat, slot: int)
    requires WriterInv(s, size) && Small(s) && Possible(s, a) && Small(Step(s, a)) && !ByReader(a)
    requires (slot == 0 || slot == 1) && BufSeq(s, slot) % 2 == slot
    ensures BufSeq(Step(s, a), slot) % 2 == slot
  {
    if a.StoreBufSeq? {
      StepKeepsWriter(s, a, size);
      PlainHeader(Step(s, a), size);
      var n := Published(s);
      assert (n + 1) % 2 == 1 - n % 2;
    }
  }

  lemma WriterGrows(s: Shared, a: Act, size: nat)
    requires WriterInv(s, size) && Possible(s, a) && !ByReader(a)
    ensures Published(s) <= Published(Step(s, a)) && Begun(s) <= Begun(Step(s, a))
    ensures s.frames <= Step(s, a).frames
  {
  }

  /** The slot a reader is on changes only once its next-but-one frame is being filled. */
  lemma SlotKept(s: Shared, a: Act, size: nat, q: nat)
    requires WriterInv(s, size) && Possible(s, a) && !ByReader(a) && q <= Published(s)
    requires Begun(Step(s, a)) <= q + 1
    ensures Slot(Step(s, a), q % 2) == Slot(s, q % 2)
  {
    if a.WriteCell? {
      var n := Published(s);
      assert Begun(s) == n + 1 && q == n && Back(s) == 1 - n % 2;
    }
  }

  lemma WriterKeepsReader(s: Shared, a: Act, size: nat)
    requires WriterInv(s, size) && ReaderInv(s) && Possible(s, a) && !ByReader(a) && Small(Step(s, a))
    ensures ReaderInv(Step(s, a))
  {
    WriterGrows(s, a, size);
    assert Step(s, a).r == s.r;
    match s.r
    case RHaveActive(_, _, slot) => ParityKept(s, a, size, slot);
    case RReading(q, slot, got) =>
      if Begun(Step(s, a)) <= q + 1 {
        SlotKept(s, a, size, q);
        assert Step(s, a).frames[q] == s.frames[q];
      }
    case RDone(q, got, begun) => assert Step(s, a).frames[q] == s.frames[q];
    case _ =>
  }

  /** A check that passes before frame q + 2 is begun has found frame q. */
  lemma CheckFindsFrame(s: Shared, size: nat)
    requires WriterInv(s, size) && ReaderInv(s) && Small(s) && s.r.RHaveActive? && BufSeq(s, s.r.a) == s.r.q
    ensures s.r.q % 2 == s.r.a
    ensures Begun(s) <= s.r.q + 1 ==> Slot(s, s.r.a) == s.frames[s.r.q]
  {
    PlainHeader(s, size);
    var n, q, a := Published(s), s.r.q, s.r.a;
    if Begun(s) <= q + 1 {
      if a == n % 2 {
        assert q == n;
      } else {
        assert a == 1 - n % 2;
        assert n >= 1 && q == n - 1;
      }
    }
  }

  lemma ReaderKeepsReader(s: Shared, a: Act, size: nat)
    requires WriterInv(s, size) && ReaderInv(s) && Possible(s, a) && Small(s) && ByReader(a)
    ensures ReaderInv(Step(s, a))
  {
    match a
    case ReadSeq => PlainHeader(s, size);
    case ReadActive => ActiveHasParity(s, size);
    case CheckBufSeq => if BufSeq(s, s.r.a) == s.r.q { CheckFindsFrame(s, size); }
    case ReadCell(i) => CellKeepsReader(s, i, size);
    case EndCapture =>
    case NewCapture =>
  }

  lemma ActiveHasParity(s: Shared, size: nat)
    requires WriterInv(s, size) && Small(s)
    ensures ToUint32(s.active) == s.active && (s.active == 0 || s.active == 1)
    ensures BufSeq(s, s.active) % 2 == s.active
  {
    PlainHeader(s, size);
    var n := Published(s);
    assert (n + 1) % 2 == 1 - n % 2;
  }

  lemma CellKeepsReader(s: Shared, i: nat, size: nat)
    requires WriterInv(s, size) && ReaderInv(s) && Possible(s, ReadCell(i))
    ensures ReaderInv(Step(s, ReadCell(i)))
  {
    var s' := Step(s, ReadCell(i));
    assert Slot(s', s.r.a) == Slot(s, s.r.a) && Begun(s') == Begun(s) && Published(s') == Published(s);
  }

  lemma FramesGrow(s: Shared, a: Act)
    requires Possible(s, a)
    ensures |s.frames| <= |Step(s, a).frames|
  {
  }

  lemma {:induction false} ReaderThroughout(size: nat, acts: seq<Act>)
    requires Small(After(size, acts))
    ensures ReaderInv(After(size, acts))
  {
    if acts != [] {
      var pre, a := acts[..|acts| - 1], acts[|acts| - 1];
      var s := After(size, pre);
      WriterThroughout(size, pre);
      if Possible(s, a) {
        FramesGrow(s, a);
        ReaderThroughout(size, pre);
        if ByReader(a) { ReaderKeepsReader(s, a, size); } else { WriterKeepsReader(s, a, size); }
      } else {
        ReaderThroughout(size, pre);
      }
    }
  }

  /** In every interleaving below 2^31 frames, a capture that passed its check for frame `q` and ended
      before frame q + 2 was begun saw cells of frame `q` only. */
  lemma CaptureSeesOneFrame(size: nat, acts: seq<Act>)
    requires Small(After(size, acts)) && After(size, acts).r.RDone?
    ensures var s := After(size, acts);
            s.r.begun <= s.r.q + 1 ==> s.r.q < |s.frames| && ReadsFrom(s.r.got, s.frames[s.r.q])
  {
    ReaderThroughout(size, acts);
    WriterThroughout(size, acts);
  }

  lemma AfterMore(size: nat, acts: seq<Act>, a: Act)
    requires Possible(After(size, acts), a)
    ensures After(size, acts + [a]) == Step(After(size, acts), a)
  {
    assert (acts + [a])[..|acts|] == acts;
  }

  /** A capture that is not disturbed by the writer, up to its check. */
  const OPENING := [ReadSeq, ReadActive, CheckBufSeq]

  lemma Opened(size: nat, acts: seq<Act>)
    requires After(size, acts).r.RStart?
    ensures var s := After(size, acts);
            var q, a := ToUint32(s.frameSeq), ToUint32(s.active);
            var s' := After(size, acts + OPENING);
            s' == s.(r := s'.r) && (if BufSeq(s, a) == q then s'.r == RReading(q, a, []) else !s'.r.RReading?)
  {
    AfterMore(size, acts, ReadSeq);
    AfterMore(size, acts + [ReadSeq], ReadActive);
    AfterMore(size, acts + [ReadSeq] + [ReadActive], CheckBufSeq);
    assert acts + OPENING == acts + [ReadSeq] + [ReadActive] + [CheckBufSeq];
  }

  /** Header words of frames `n` and `n + 1`, the first read unsigned and the second signed. */
  lemma SignedAgainstUnsigned(n: nat)
    ensures ToInt32(n) == ToUint32(ToInt32(n)) <==> n % TWO_32 < TWO_31
    ensures ToInt32(n + 1) != ToUint32(ToInt32(n))
  {
    var m := n % TWO_32;
    assert ToUint32(ToInt32(n)) == m;
    assert (n + 1) % TWO_32 == if m + 1 == TWO_32 then 0 else m + 1;
  }

  /** After every run, an undisturbed check passes if and only if the writer is not between its stores of
      ACTIVE_INDEX and FRAME_SEQ and the published frame number, modulo 2^32, is below 2^31: FRAME_SEQ is
      read as an unsigned word and the slot's number as a signed one. */
  lemma CheckPassesExactly(size: nat, acts: seq<Act>)
    requires After(size, acts).r.RStart?
    ensures var s := After(size, acts);
            After(size, acts + OPENING).r.RReading? <==> !s.w.WActivated? && Published(s) % TWO_32 < TWO_31
  {
    var s := After(size, acts);
    WriterThroughout(size, acts);
    Opened(size, acts);
    SignedAgainstUnsigned(Published(s));
    assert ToUint32(s.active) == s.active;
  }

  /** In every run, disturbed or not, a capture that has read a number of 2^31 or more is turned away. */
  lemma SignedNumbersNeverMatch(size: nat, acts: seq<Act>)
    requires After(size, acts).r.RHaveActive? && After(size, acts).r.q >= TWO_31
    ensures !After(size, acts + [CheckBufSeq]).r.RReading?
  {
    var s := After(size, acts);
    WriterThroughout(size, acts);
    AfterMore(size, acts, CheckBufSeq);
    assert -TWO_31 <= s.buf0Seq < TWO_31 && -TWO_31 <= s.buf1Seq < TWO_31 by {
      var n := Published(s);
      assert BufSeq(s, n % 2) == ToInt32(n);
    }
  }

  /** The writer publishes one frame, without touching a cell, while the reader stands still. */
  lemma PublishOnce(size: nat, acts: seq<Act>) returns (acts': seq<Act>)
    requires After(size, acts).w.WIdle?
    ensures acts <= acts'
    ensures var s, s' := After(size, acts), After(size, acts');
            && s'.w.WIdle? && s'.r == s.r && s.frames <= s'.frames && |s'.frames| == |s.frames| + 1
            && s'.activeIndex == 1 - s.activeIndex
  {
    var half := FillNothing(size, acts);
    AfterMore(size, half, StoreActive);
    var a1 := half + [StoreActive];
    AfterMore(size, a1, StoreFrameSeq);
    var a2 := a1 + [StoreFrameSeq];
    AfterMore(size, a2, StoreDirty);
    var a3 := a2 + [StoreDirty];
    AfterMore(size, a3, EndPublish);
    acts' := a3 + [EndPublish];
  }

  lemma FillNothing(size: nat, acts: seq<Act>) returns (acts': seq<Act>)
    requires After(size, acts).w.WIdle?
    ensures acts <= acts'
    ensures var s, s' := After(size, acts), After(size, acts');
            && s'.w.WTagged? && s'.r == s.r && s.frames <= s'.frames && |s'.frames| == |s.frames| + 1
            && s'.activeIndex == s.activeIndex
  {
    AfterMore(size, acts, BeginFill);
    var a1 := acts + [BeginFill];
    AfterMore(size, a1, EndFill);
    var a2 := a1 + [EndFill];
    AfterMore(size, a2, LoadFrameSeq);
    var a3 := a2 + [LoadFrameSeq];
    AfterMore(size, a3, StoreBufSeq);
    acts' := a3 + [StoreBufSeq];
  }

  /** The writer then begins the frame after that, in the slot being read, and the reader sees it. */
  lemma OverwriteAndRead(size: nat, acts: seq<Act>, v: Cell) returns (acts': seq<Act>)
    requires var s := After(size, acts);
             s.w.WIdle? && s.r.RReading? && s.r.a == Back(s) && size > 0
    ensures acts <= acts'
    ensures var s, s' := After(size, acts), After(size, acts');
            s'.r == RDone(s.r.q, s.r.got + [(0, v)], |s.frames|) && s'.frames == s.frames
  {
    WriterThroughout(size, acts);
    AfterMore(size, acts, BeginFill);
    var a1 := acts + [BeginFill];
    AfterMore(size, a1, WriteCell(0, v));
    var a2 := a1 + [WriteCell(0, v)];
    AfterMore(size, a2, ReadCell(0));
    var a3 := a2 + [ReadCell(0)];
    AfterMore(size, a3, EndCapture);
    acts' := a3 + [EndCapture];
  }

  /** The first cell of the latest frame. */
  function FirstCell(s: Shared): Cell {
    if s.frames == [] || s.frames[|s.frames| - 1] == [] then 0 else s.frames[|s.frames| - 1][0]
  }

  /** The bound is sharp. From every state that a run below 2^31 frames reaches with the writer idle and a
      capture about to start, a further run ends with that capture accepted, frame q + 2 just begun, and
      any value at all read in place of frame `q`. */
  lemma TornBeyondBound(size: nat, acts: seq<Act>, v: Cell) returns (acts': seq<Act>)
    requires size > 0 && Small(After(size, acts)) && After(size, acts).w.WIdle? && After(size, acts).r.RStart?
    requires v != FirstCell(After(size, acts))
    ensures acts <= acts'
    ensures var s, s' := After(size, acts), After(size, acts');
            && s'.r.RDone? && s'.r.q == |s.frames| - 1 && s'.r.got == [(0, v)] && s'.r.begun == s'.r.q + 2
            && s'.r.q < |s'.frames| && !ReadsFrom(s'.r.got, s'.frames[s'.r.q])
  {
    var s := After(size, acts);
    WriterThroughout(size, acts);
    PlainHeader(s, size);
    Opened(size, acts);
    var ready := acts + OPENING;
    var published := PublishOnce(size, ready);
    acts' := OverwriteAndRead(size, published, v);
    var s' := After(size, acts');
    assert s'.frames[|s.frames| - 1] == s.frames[|s.frames| - 1];
    assert s'.r.got[0] == (0, v);
  }

  /** How many checks in a row the present capture has failed. */
  function FailedChecks(size: nat, acts: seq<Act>): nat {
    if acts == [] then 0 else
      var pre, a := acts[..|acts| - 1], acts[|acts| - 1];
      var s := After(size, pre);
      if !Possible(s, a) then FailedChecks(size, pre)
      else if a.NewCapture? then 0
      else if a.CheckBufSeq? && BufSeq(s, s.r.a) != s.r.q then FailedChecks(size, pre) + 1
      else FailedChecks(size, pre)
  }

  /** In every run a capture gives up exactly when it has failed ten checks. */
  lemma {:induction false} GivesUpAfterTen(size: nat, acts: seq<Act>)
    ensures After(size, acts).r.RFailed? <==> FailedChecks(size, acts) == 10
    ensures FailedChecks(size, acts) <= 10
    ensures var r := After(size, acts).r;
            r.RStart? || r.RHaveSeq? || r.RHaveActive? ==> r.attempt == FailedChecks(size, acts)
  {
    if acts != [] { GivesUpAfterTen(size, acts[..|acts| - 1]); }
  }

  /** How many fillings the writer has begun. */
  function Fillings(size: nat, acts: seq<Act>): nat {
    if acts == [] then 0 else
      var pre := acts[..|acts| - 1];
      Fillings(size, pre) + if acts[|acts| - 1].BeginFill? && After(size, pre).w.WIdle? then 1 else 0
  }

  /** The frame that is `begun` is the latest the writer has begun to fill. */
  lemma {:induction false} BegunCounts(size: nat, acts: seq<Act>)
    ensures Begun(After(size, acts)) == Fillings(size, acts)
  {
    if acts != [] { BegunCounts(size, acts[..|acts| - 1]); }
  }

  /** Neither side ever waits for the other: at every point each has a step to take. */
  lemma NeitherIsStuck(s: Shared)
    ensures exists a :: ByReader(a) && Possible(s, a)
    ensures exists a :: !ByReader(a) && Possible(s, a)
  {
    var reader := match s.r
      case RStart(_) => ReadSeq
      case RHaveSeq(_, _) => ReadActive
      case RHaveActive(_, _, _) => CheckBufSeq
      case RReading(_, _, _) => EndCapture
      case RDone(_, _, _) => NewCapture
      case RFailed => NewCapture;
    var writer := match s.w
      case WIdle => BeginFill
      case WFilling => EndFill
      case WFilled => LoadFrameSeq
      case WNumbered(_) => StoreBufSeq
      case WTagged(_) => StoreActive
      case WActivated(_) => StoreFrameSeq
      case WSequenced(_) => StoreDirty
      case WDirtied(_) => EndPublish;
    assert ByReader(reader) && Possible(s, reader) && !ByReader(writer) && Possible(s, writer);
  }

  // ---- The two routines run without interference ----------------------------------------------------

  class SharedFramebuffer {
    var active: int
    var frameSeq: int
    var bufSeqs: array<int>
    var dirty: int
    var slots: array<seq<Cell>>
    var activeIndex: int

    ghost predicate Valid()
      reads this, bufSeqs, slots
    {
      bufSeqs.Length == 2 && slots.Length == 2 && (activeIndex == 0 || activeIndex == 1) && active == activeIndex
    }

    constructor (blank: seq<Cell>)
      ensures Valid() && active == 0 && frameSeq == 0 && bufSeqs[..] == [0, 0] && slots[..] == [blank, blank]
    {
      active, frameSeq, dirty, activeIndex := 0, 0, 0, 0;
      var seqs := new int[2](_ => 0);
      var cells := new seq<Cell>[2](_ => blank);
      bufSeqs, slots := seqs, cells;
      new;
      assert bufSeqs[..] == [0, 0] && slots[..] == [blank, blank];
    }

    method PublishFrame(frame: seq<Cell>) returns (newSeq: int)
      requires Valid() && |slots[1 - activeIndex]| == |frame|
      modifies this, bufSeqs, slots
      ensures Valid() && bufSeqs == old(bufSeqs) && slots == old(slots)
      ensures active == 1 - old(active) && frameSeq == newSeq == ToInt32(old(frameSeq) + 1) && dirty == 1
      ensures bufSeqs[active] == newSeq && bufSeqs[1 - active] == old(bufSeqs[active])
      ensures slots[active] == frame && slots[1 - active] == old(slots[active])
    {
      var back := 1 - activeIndex;
      for i := 0 to |frame|
        modifies slots
        invariant slots[1 - back] == old(slots[1 - back]) && |slots[back]| == |frame|
        invariant forall k :: 0 <= k < i ==> slots[back][k] == frame[k]
      {
        slots[back] := slots[back][i := frame[i]];
      }
      newSeq := ToInt32(frameSeq + 1);
      bufSeqs[back] := newSeq;
      active := back;
      frameSeq := newSeq;
      dirty := 1;
      activeIndex := back;
    }

    /** The retry loop of `capture`: it succeeds exactly when the header is consistent. */
    method Capture() returns (r: Option<(nat, seq<Cell>)>)
      requires Valid()
      ensures r == if bufSeqs[active] == ToUint32(frameSeq) then Some((ToUint32(frameSeq), slots[active])) else None
    {
      for attempt := 0 to ATTEMPTS
        invariant attempt > 0 ==> bufSeqs[active] != ToUint32(frameSeq)
      {
        var q := ToUint32(frameSeq);
        var a := active;
        if bufSeqs[a] != q { continue; }
        return Some((q, slots[a]));
      }
      return None;
    }
  }
}
