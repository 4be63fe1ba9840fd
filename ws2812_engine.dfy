/** The streaming engine of the WS2812 driver: a circular DMA buffer of two
    halves (`begin`, `end`), primed by `sendColors` and refilled by
    `handleISR` one half at a time until the pixels and two trailing zero
    frames have been queued. */
module Ws2812Engine {
  import opened LedTypes
  import opened Ws2812Encode

  /** Pixels per half of the DMA buffer (the source's default). */
  const LedPerHalf: nat := 1
  /** Bytes in one half: `LED_PER_HALF * 24`. */
  const HalfSize: nat := LedPerHalf * CodesPerLed
  /** Bytes in the whole circular buffer: `2 * LED_PER_HALF * 24`. */
  const DmaSize: nat := 2 * HalfSize

  /** The DMA interrupt flags pending when the handler runs. */
  datatype Event = HalfTransfer | TransferComplete | BothPending

  /** The engine's state: the cursor, the pixel count (0 = idle), the pixels
      being streamed, the DMA buffer bytes, the timer and DMA enable bits and
      the DMA transfer-count register. */
  datatype Engine = Engine(
    currentLed: int,
    totalLeds: int,
    colorLed: seq<Pixel>,
    dma: seq<byte>,
    timerOn: bool,
    dmaOn: bool,
    transferCount: int)

  /** Shape facts every reachable state has. */
  predicate Wf(e: Engine) {
    |e.dma| == DmaSize && 0 <= e.currentLed && 0 <= e.totalLeds <= |e.colorLed|
  }

  /** Idle: no transmission, timer and DMA stopped. */
  predicate Idle(e: Engine) {
    e.totalLeds == 0 && !e.timerOn && !e.dmaOn
  }

  /** The design's state machine invariant: the hardware runs exactly while a
      transmission is active, and an active cursor stays within the pixels
      plus two reset frames. */
  predicate Consistent(e: Engine) {
    Wf(e)
    && e.timerOn == (e.totalLeds > 0)
    && e.dmaOn == (e.totalLeds > 0)
    && (e.totalLeds > 0 ==> e.currentLed <= e.totalLeds + 2)
  }

  /** What slot k of the stream carries: pixel k while there are pixels, then
      a zero (reset) frame. */
  function Slot(colors: seq<Pixel>, total: int, k: int): (codes: seq<byte>)
    requires 0 <= k && total <= |colors|
    ensures |codes| == CodesPerLed
  {
    if k < total then EncodePixel(colors[k]) else Zeros(CodesPerLed)
  }

  /** Bytes of half h (0 = `begin`, 1 = `end`). */
  function Half(dma: seq<byte>, h: nat): (s: seq<byte>)
    requires |dma| == DmaSize && h < 2
    ensures |s| == HalfSize
  {
    if h == 0 then dma[..HalfSize] else dma[HalfSize..]
  }

  /** The source's slot loop over one half, from slot i on:
      `for (; i < LED_PER_HALF && CurrentLed < TotalLeds + 2; i++, CurrentLed++)`.
      Gives the new buffer and the new cursor. */
  function FillHalf(dma: seq<byte>, base: nat, i: nat, cur: int, total: int, colors: seq<Pixel>)
    : (r: (seq<byte>, int))
    requires base + HalfSize <= |dma| && i <= LedPerHalf && 0 <= cur && total <= |colors|
    ensures |r.0| == |dma|
    ensures cur <= r.1 <= cur + (LedPerHalf - i)
    ensures cur <= total + 2 ==> r.1 <= total + 2
    decreases LedPerHalf - i
  {
    if i < LedPerHalf && cur < total + 2 then
      FillHalf(Splice(dma, base + CodesPerLed * i, Slot(colors, total, cur)), base, i + 1, cur + 1, total, colors)
    else (dma, cur)
  }

  /** With one pixel per half the loop runs at most once. */
  lemma FillHalfOnce(dma: seq<byte>, base: nat, cur: int, total: int, colors: seq<Pixel>)
    requires base + HalfSize <= |dma| && 0 <= cur && total <= |colors|
    ensures FillHalf(dma, base, 0, cur, total, colors)
            == if cur < total + 2 then (Splice(dma, base, Slot(colors, total, cur)), cur + 1)
               else (dma, cur)
  {
  }

  /** `sendColors(color, len)`: nothing when len < 1; otherwise start a
      transmission of the first len pixels and prime both halves. */
  function AfterSendColors(e: Engine, color: seq<Pixel>, len: uint16): (r: Engine)
    requires Wf(e) && len as int <= |color|
    ensures Wf(r)
    ensures len < 1 ==> r == e
    ensures len >= 1 ==>
              r.totalLeds == len as int && r.colorLed == color
              && r.currentLed == 2
              && r.timerOn && r.dmaOn && r.transferCount == DmaSize
              && Half(r.dma, 0) == Slot(color, len as int, 0)
              && Half(r.dma, 1) == Slot(color, len as int, 1)
    ensures Consistent(r) <==> Consistent(e) || len >= 1
  {
    if len < 1 then e
    else
      var total := len as int;
      FillHalfOnce(e.dma, 0, 0, total, color);
      var (d1, c1) := FillHalf(e.dma, 0, 0, 0, total, color);
      FillHalfOnce(d1, HalfSize, c1, total, color);
      var (d2, c2) := FillHalf(d1, HalfSize, 0, c1, total, color);
      assert Half(d2, 0) == Half(d1, 0);
      Engine(c2, total, color, d2, true, true, DmaSize)
  }

  /** A buffer is its two halves. */
  lemma HalvesMakeBuffer(d: seq<byte>)
    requires |d| == DmaSize
    ensures d == Half(d, 0) + Half(d, 1)
  {
  }

  /** Starting a transmission overwrites all of the engine's state: sending
      the same pixels twice primes the same bytes, whatever ran before. A
      call made during a transmission resets the cursor and re-primes both
      halves while a DMA transfer may still be reading one of them. */
  lemma SendColorsForgetsPriorState(e1: Engine, e2: Engine, color: seq<Pixel>, len: uint16)
    requires Wf(e1) && Wf(e2) && 1 <= len as int <= |color|
    ensures AfterSendColors(e1, color, len) == AfterSendColors(e2, color, len)
  {
    var r1, r2 := AfterSendColors(e1, color, len), AfterSendColors(e2, color, len);
    HalvesMakeBuffer(r1.dma);
    HalvesMakeBuffer(r2.dma);
  }

  /** The half the handler refills: the one the DMA has just drained. The
      transfer-complete test comes second in the source, so it wins. */
  function RefillHalf(ev: Event): (h: nat)
    ensures h < 2
    ensures h == 0 <==> ev == HalfTransfer
  {
    if ev == HalfTransfer then 0 else 1
  }

  /** `handleISR` on event ev. What it does to the cursor and the enable bits
      is stated by `IsrCursor`, what it writes into the buffer by `IsrRefill`. */
  function AfterIsr(e: Engine, ev: Event): (r: Engine)
    requires Wf(e)
    ensures Wf(r) && r.colorLed == e.colorLed && r.transferCount == e.transferCount
  {
    var stopped := if e.totalLeds == 0 then e.(timerOn := false, dmaOn := false) else e;
    var base := if RefillHalf(ev) == 0 then 0 else HalfSize;
    var (d, c) := FillHalf(e.dma, base, 0, e.currentLed, e.totalLeds, e.colorLed);
    var filled := stopped.(dma := d, currentLed := c);
    if c >= filled.totalLeds + 2 then filled.(timerOn := false, dmaOn := false, totalLeds := 0)
    else filled
  }

  /** What `handleISR` does to the cursor and the enable bits: one slot per
      interrupt while slots remain; once the last one is queued the engine
      goes idle; a spurious interrupt while idle stops the hardware; the
      state machine invariant is kept. */
  lemma IsrCursor(e: Engine, ev: Event)
    requires Wf(e)
    ensures var r := AfterIsr(e, ev);
            && r.currentLed == (if e.currentLed < e.totalLeds + 2 then e.currentLed + 1 else e.currentLed)
            && (e.currentLed <= e.totalLeds + 2 ==> r.currentLed <= e.totalLeds + 2)
            && (r.currentLed >= e.totalLeds + 2 ==> Idle(r))
            && (r.currentLed < e.totalLeds + 2 ==>
                  r.totalLeds == e.totalLeds
                  && r.timerOn == (e.timerOn && e.totalLeds != 0)
                  && r.dmaOn == (e.dmaOn && e.totalLeds != 0))
            && (e.totalLeds == 0 ==> Idle(r))
            && (Consistent(e) ==> Consistent(r))
  {
    FillHalfOnce(e.dma, if RefillHalf(ev) == 0 then 0 else HalfSize, e.currentLed, e.totalLeds, e.colorLed);
  }

  /** What `handleISR` writes: only the half named by the event, which gets
      slot `CurrentLed` (the next pixel, or a zero frame once the pixels are
      used up) while `CurrentLed < TotalLeds + 2`; nothing otherwise. */
  lemma IsrRefill(e: Engine, ev: Event)
    requires Wf(e)
    ensures var r := AfterIsr(e, ev);
            Half(r.dma, 1 - RefillHalf(ev)) == Half(e.dma, 1 - RefillHalf(ev))
            && (e.currentLed < e.totalLeds + 2 ==>
                  Half(r.dma, RefillHalf(ev)) == Slot(e.colorLed, e.totalLeds, e.currentLed))
            && (e.currentLed >= e.totalLeds + 2 ==> r.dma == e.dma)
  {
    FillHalfOnce(e.dma, if RefillHalf(ev) == 0 then 0 else HalfSize, e.currentLed, e.totalLeds, e.colorLed);
  }

  /** The state after a sequence of interrupts. */
  function RunIsr(e: Engine, evs: seq<Event>): (r: Engine)
    requires Wf(e)
    ensures Wf(r)
    decreases |evs|
  {
    if evs == [] then e else RunIsr(AfterIsr(e, evs[0]), evs[1..])
  }

  /** Idle is absorbing: once idle, interrupts keep the engine idle. */
  lemma {:induction false} IdleStaysIdle(e: Engine, evs: seq<Event>)
    requires Wf(e) && Idle(e)
    ensures Idle(RunIsr(e, evs))
    decreases |evs|
  {
    if evs != [] {
      IsrCursor(e, evs[0]);
      IdleStaysIdle(AfterIsr(e, evs[0]), evs[1..]);
    }
  }

  /** An active transmission at cursor cur goes idle after exactly
      totalLeds + 2 - cur interrupts, whatever the events. */
  lemma {:induction false} StreamingRun(e: Engine, evs: seq<Event>)
    requires Consistent(e) && e.totalLeds > 0 && e.currentLed < e.totalLeds + 2
    ensures Idle(RunIsr(e, evs)) <==> |evs| >= e.totalLeds + 2 - e.currentLed
    decreases |evs|
  {
    if evs != [] {
      var e1 := AfterIsr(e, evs[0]);
      IsrCursor(e, evs[0]);
      if e.currentLed + 1 == e.totalLeds + 2 {
        IdleStaysIdle(e1, evs[1..]);
      } else {
        StreamingRun(e1, evs[1..]);
      }
    }
  }

  /** With one pixel per half, an N-pixel transmission (N >= 1) returns to
      idle after exactly N interrupts: two slots are primed by `sendColors`
      and the N pixel-or-zero slots left are queued one per interrupt. */
  lemma TransmissionLength(e: Engine, color: seq<Pixel>, len: uint16, evs: seq<Event>)
    requires Wf(e) && 1 <= len as int <= |color|
    ensures Idle(RunIsr(AfterSendColors(e, color, len), evs)) <==> |evs| >= len as int
  {
    StreamingRun(AfterSendColors(e, color, len), evs);
  }

  /** One more interrupt at the end of a run. */
  lemma {:induction false} RunSnoc(e: Engine, evs: seq<Event>, ev: Event)
    requires Wf(e)
    ensures RunIsr(e, evs + [ev]) == AfterIsr(RunIsr(e, evs), ev)
    decreases |evs|
  {
    if evs != [] {
      assert (evs + [ev])[1..] == evs[1..] + [ev];
      RunSnoc(AfterIsr(e, evs[0]), evs[1..], ev);
    } else {
      assert (evs + [ev])[1..] == [];
    }
  }

  /** The event the hardware raises when it has drained half h. */
  function DrainEvent(h: nat): Event {
    if h == 0 then HalfTransfer else TransferComplete
  }

  /** Mid-transmission, before the interrupt for slot k: the half h about
      to be drained holds slot k and the other half slot k + 1. */
  predicate Primed(e: Engine, k: nat, h: nat) {
    Consistent(e) && h < 2 && k < e.totalLeds && e.currentLed == k + 2
    && Half(e.dma, h) == Slot(e.colorLed, e.totalLeds, k)
    && Half(e.dma, 1 - h) == Slot(e.colorLed, e.totalLeds, k + 1)
  }

  /** The interrupt for slot k refills the drained half with slot k + 2, so
      the state is primed for slot k + 1, in the other half, while pixels
      remain. */
  lemma PrimedStep(e: Engine, k: nat, h: nat)
    requires Primed(e, k, h) && k + 1 < e.totalLeds
    ensures Primed(AfterIsr(e, DrainEvent(h)), k + 1, 1 - h)
    ensures AfterIsr(e, DrainEvent(h)).colorLed == e.colorLed
    ensures AfterIsr(e, DrainEvent(h)).totalLeds == e.totalLeds
  {
    assert RefillHalf(DrainEvent(h)) == h;
    IsrCursor(e, DrainEvent(h));
    IsrRefill(e, DrainEvent(h));
  }

  /** The half the DMA drains next after j alternating interrupts, the first
      of which named half h. */
  function HalfAfter(h: nat, j: nat): (g: nat)
    requires h < 2
    ensures g < 2
  {
    (h + j) % 2
  }

  /** The halves take turns. */
  lemma HalfAfterNext(h: nat, j: nat)
    requires h < 2
    ensures HalfAfter(h, j + 1) == 1 - HalfAfter(h, j)
  {
  }

  /** After i alternating interrupts from a state primed for slot k in half
      h: primed for slot k + i, with the same pixels. */
  predicate PrimedAt(e: Engine, k: nat, h: nat, a: Engine, i: nat) {
    h < 2 && Primed(a, k + i, HalfAfter(h, i))
    && a.colorLed == e.colorLed && a.totalLeds == e.totalLeds
  }

  /** One more alternating interrupt keeps `PrimedAt` while pixels remain. */
  lemma PrimedAtNext(e: Engine, k: nat, h: nat, a: Engine, i: nat)
    requires PrimedAt(e, k, h, a, i) && k + i + 1 < e.totalLeds
    ensures PrimedAt(e, k, h, AfterIsr(a, DrainEvent(HalfAfter(h, i))), i + 1)
  {
    var g := HalfAfter(h, i);
    PrimedStep(a, k + i, g);
    HalfAfterNext(h, i);
    assert k + (i + 1) == (k + i) + 1;
  }

  /** The driver object. `LedDma` stands for the file-level `led_dma` union:
      `begin` is bytes [0, HalfSize), `end` bytes [HalfSize, DmaSize). */
  class Ws2818 {
    var CurrentLed: int
    var TotalLeds: int
    var ColorLed: seq<Pixel>
    var TimerEnabled: bool
    var DmaEnabled: bool
    /** The DMA channel's transfer-count register (`CNDTR`). */
    var TransferCount: int
    const LedDma: array<byte>

    ghost predicate Valid()
      reads this
    {
      LedDma.Length == DmaSize && 0 <= CurrentLed && 0 <= TotalLeds <= |ColorLed|
    }

    function State(): (e: Engine)
      reads this, LedDma
    {
      Engine(CurrentLed, TotalLeds, ColorLed, LedDma[..], TimerEnabled, DmaEnabled, TransferCount)
    }

    /** Cursor and count start at 0 with no pixels; the DMA buffer starts
        zeroed, as a static buffer does before any object writes it; timer
        and DMA are stopped until a transmission starts. */
    constructor ()
      ensures Valid() && fresh(LedDma)
      ensures State() == Engine(0, 0, [], Zeros(DmaSize), false, false, 0)
      ensures Idle(State()) && Consistent(State())
    {
      CurrentLed, TotalLeds, ColorLed := 0, 0, [];
      TimerEnabled, DmaEnabled, TransferCount := false, false, 0;
      LedDma := new byte[DmaSize](_ => 0);
      new;
      assert LedDma[..] == Zeros(DmaSize);
    }

    /** The slot loop shared by the two priming passes and the handler: fill
        the half at `base`, slot by slot, advancing `CurrentLed`. */
    method FillSlots(base: nat)
      requires Valid() && base + HalfSize <= LedDma.Length
      modifies this`CurrentLed, LedDma
      ensures Valid()
      ensures (LedDma[..], CurrentLed)
              == FillHalf(old(LedDma[..]), base, 0, old(CurrentLed), TotalLeds, ColorLed)
    {
      ghost var goal := FillHalf(LedDma[..], base, 0, CurrentLed, TotalLeds, ColorLed);
      var i := 0;
      while i < LedPerHalf && CurrentLed < TotalLeds + 2
        invariant 0 <= i <= LedPerHalf && Valid()
        invariant FillHalf(LedDma[..], base, i, CurrentLed, TotalLeds, ColorLed) == goal
        decreases LedPerHalf - i
      {
        if CurrentLed < TotalLeds {
          FillLed(LedDma, base + CodesPerLed * i, ColorLed[CurrentLed]);
        } else {
          Bzero(LedDma, base + CodesPerLed * i, CodesPerLed);
        }
        i, CurrentLed := i + 1, CurrentLed + 1;
      }
    }

    /** `sendColors(color, len)`: the caller passes at least len pixels. */
    method SendColors(color: seq<Pixel>, len: uint16)
      requires Valid() && len as int <= |color|
      modifies this, LedDma
      ensures Valid()
      ensures State() == AfterSendColors(old(State()), color, len)
    {
      if len < 1 {
        return;
      }
      CurrentLed := 0;
      TotalLeds := len as int;
      ColorLed := color;
      FillSlots(0);
      FillSlots(HalfSize);
      TransferCount := DmaSize;
      DmaEnabled := true;
      TimerEnabled := true;
    }

    /** `handleISR`, with the pending DMA flags given as the event. */
    method HandleIsr(ev: Event)
      requires Valid()
      modifies this, LedDma
      ensures Valid()
      ensures State() == AfterIsr(old(State()), ev)
    {
      if TotalLeds == 0 {
        TimerEnabled := false;
        DmaEnabled := false;
      }
      var base := if ev == HalfTransfer then 0 else HalfSize;
      FillSlots(base);
      if CurrentLed >= TotalLeds + 2 {
        TimerEnabled := false;
        DmaEnabled := false;
        TotalLeds := 0;
      }
    }
  }
}
