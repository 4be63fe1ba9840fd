/** The stream the hardware sends: with the DMA draining the halves in turn
    and one interrupt per drained half, every pixel goes out whole and in
    order. The two zero frames are queued, but the N-th interrupt stops the
    timer and the DMA before they are drained. */
module Ws2812Stream {
  import opened LedTypes
  import opened Ws2812Encode
  import opened Ws2812Engine

  /** The state after j interrupts that alternate between the halves,
      the first one naming half h: each interrupt follows the draining of the
      half it names. */
  function Alternating(e: Engine, h: nat, j: nat): (r: Engine)
    requires Wf(e) && h < 2
    ensures Wf(r)
    decreases j
  {
    if j == 0 then e else AfterIsr(Alternating(e, h, j - 1), DrainEvent(HalfAfter(h, j - 1)))
  }

  /** Induction along an alternating run: a property of (state, interrupts
      taken) that holds at the start and survives each of the first j
      alternating interrupts holds after j of them. */
  lemma {:induction false} AlternatingInduction(P: (Engine, nat) -> bool, e: Engine, h: nat, j: nat)
    requires Wf(e) && h < 2 && P(e, 0)
    requires forall a: Engine, i: nat {:trigger P(a, i)} :: i < j && Wf(a) && P(a, i)
               ==> P(AfterIsr(a, DrainEvent(HalfAfter(h, i))), i + 1)
    ensures P(Alternating(e, h, j), j)
    decreases j
  {
    if j > 0 {
      AlternatingInduction(P, e, h, j - 1);
    }
  }

  /** From a state primed for slot k, after j more alternating interrupts
      (k + j still a pixel) the state is primed for slot k + j, with the
      same pixels. */
  lemma PrimedAlternating(e: Engine, k: nat, h: nat, j: nat)
    requires Primed(e, k, h) && k + j < e.totalLeds
    ensures PrimedAt(e, k, h, Alternating(e, h, j), j)
  {
    var P := (a: Engine, i: nat) => PrimedAt(e, k, h, a, i);
    assert HalfAfter(h, 0) == h && k + 0 == k;
    assert P(e, 0);
    forall a: Engine, i: nat | i < j && Wf(a) && P(a, i)
      ensures P(AfterIsr(a, DrainEvent(HalfAfter(h, i))), i + 1)
    {
      PrimedAtNext(e, k, h, a, i);
    }
    AlternatingInduction(P, e, h, j);
  }

  /** The stream the hardware sends: after `sendColors` of N >= 1 pixels, the
      half drained before the j-th alternating interrupt (j < N) holds exactly
      the encoding of pixel j, so the pixels go out complete and in order;
      after the N-th interrupt the engine is idle. */
  lemma TransmitsEveryPixel(e: Engine, color: seq<Pixel>, len: uint16, j: nat)
    requires Wf(e) && 1 <= len as int <= |color| && j < len as int
    ensures var s := AfterSendColors(e, color, len);
            Half(Alternating(s, 0, j).dma, HalfAfter(0, j)) == EncodePixel(color[j])
            && Idle(Alternating(s, 0, len as int))
  {
    var s := AfterSendColors(e, color, len);
    assert Primed(s, 0, 0);
    PrimedAlternating(s, 0, 0, j);
    AlternatingIsRun(s, 0, len as int);
    StreamingRun(s, AlternatingEvents(0, len as int));
  }

  /** The events of j alternating interrupts from half h. */
  function AlternatingEvents(h: nat, j: nat): (evs: seq<Event>)
    requires h < 2
    ensures |evs| == j
    decreases j
  {
    if j == 0 then [] else AlternatingEvents(h, j - 1) + [DrainEvent(HalfAfter(h, j - 1))]
  }

  /** An alternating run is an ordinary run of the handler on the
      alternating events. */
  lemma {:induction false} AlternatingIsRun(e: Engine, h: nat, j: nat)
    requires Wf(e) && h < 2
    ensures Alternating(e, h, j) == RunIsr(e, AlternatingEvents(h, j))
    decreases j
  {
    if j > 0 {
      AlternatingIsRun(e, h, j - 1);
      RunSnoc(e, AlternatingEvents(h, j - 1), DrainEvent(HalfAfter(h, j - 1)));
    }
  }
}
