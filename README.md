# WS2812 LED driver for STM32F1: a Dafny model

This project models the core of a driver for WS2812 ("NeoPixel") LED strips
on an STM32F1 microcontroller. Each bit of a pixel is sent as one period of
a PWM timer. The period's compare value is 17 for a 1-bit (long high pulse)
and 9 for a 0-bit (short high pulse). The compare values reach the timer
through a circular DMA buffer of two halves, `begin` and `end`, each one
pixel (24 codes) long. `sendColors` primes both halves and starts the timer
and the DMA. Each half-transfer or transfer-complete interrupt runs
`handleISR`, which refills the half the DMA has just drained. It writes the
next pixel, or a zero frame once the pixels run out. When the pixels and two
trailing zero frames have all been queued, it stops the timer and the DMA.

Modules, one per component:

- `LedTypes` (`led_types.dfy`): bytes and fixed-width integers, a pixel's
  three bytes (`uint8_t[3]`, index 0 red, 1 green, 2 blue), the `RGB`
  value and the `LedBuffer` view from `src/ws2812.h`.
- `BoundedStack` (`stack.dfy`): `Stack<T, D>` from `src/ws2812.h` as a class
  over an array. Its push and pop are proved against the functions `Pushed`
  and `Popped` over an abstract `StackState`.
- `Ws2812Encode` (`ws2812_encode.dfy`): `fillLed` as the function
  `EncodePixel` and the in-place method `FillLed` (three counted loops over
  the DMA array), plus `bzero`. The partner is `DecodePixel`: a strip's
  reading of the codes. It is proved to invert the encoding.
- `Ws2812Engine` (`ws2812_engine.dfy`): the streaming engine. The class
  `Ws2818` holds `CurrentLed`, `TotalLeds`, the pixels `ColorLed`, the
  timer and DMA enable bits, the DMA count register, and the 48-byte DMA
  buffer as an `array<byte>`. Its methods `SendColors` and `HandleIsr` are
  proved to produce exactly the states that the functions `AfterSendColors`
  and `AfterIsr` give for the datatype `Engine`. The lemmas about whole
  transmissions are stated over those functions.
- `Ws2812Stream` (`ws2812_stream.dfy`): the stream the hardware sends, when
  the DMA drains the two halves in turn and raises one interrupt per drained
  half. It proves that every pixel goes out whole and in order.

The handler receives the pending DMA flags as an `Event` parameter:
half-transfer, transfer-complete, or both. It does not read them from a
register. When both flags are pending, the `end` half is refilled, because
the source tests transfer-complete second. The case where neither flag is
set (the buffer pointer would stay null) cannot be expressed.

Where the header and the .cpp disagree, the model follows the .cpp:

- The header declares `bool sendColors(LedBuffer*, uint32_t timeOut)` and a
  field `ColorLeds` (src/ws2812.h:93,111).
- The .cpp defines `void sendColors(uint8_t (*)[3], uint16_t)`, which has no
  busy-wait and no timeout, and uses a field `ColorLed`
  (src/ws2812.cpp:156-186).

So a `sendColors` call made while a transmission is still running resets
the cursor and re-primes both halves, even though a DMA transfer may still
be reading one of them. The software state after the call does not depend
on the state before it (`SendColorsForgetsPriorState`). What reaches the
strip in this case is not modelled, because the model has no DMA read
position. Pixel k of the
.cpp's array is the same three bytes as `LedBuffer::getLed(k)`
(`LedBuffer.Pixels`).

When `TotalLeds == 0`, the guard in `handleISR` (src/ws2812.cpp:193-196)
stops the timer and the DMA, but the handler does not return there. The
refill loop and the termination check still run. On a fresh driver
(`CurrentLed == 0`), a spurious interrupt therefore zero-fills a half and
advances `CurrentLed`. The engine still stays idle (`IsrCursor`,
`IdleStaysIdle`).

An observation the proofs make precise: for N pixels, the N-th interrupt
arrives right after the half holding the last pixel has been drained
(`TransmitsEveryPixel`). That interrupt stops the timer and the DMA. So
every pixel is sent, in order. The two zero frames are queued, but the DMA
is stopped before it drains them. The reset gap on the wire comes from the
stopped timer, not from streamed zero codes.

## Model

| member | source | states |
|---|---|---|
| `LedTypes.RGB.GetR` | src/ws2812.h:21-23 | the red channel is byte 0 of the colour array |
| `LedTypes.RGB.GetG` | src/ws2812.h:24-26 | the green channel is byte 1 of the colour array |
| `LedTypes.RGB.GetB` | src/ws2812.h:27-29 | the blue channel is byte 2 of the colour array |
| `LedTypes.RgbRoundTrip` | src/ws2812.h:21-33 | the getters read back exactly the three channels a colour holds, and together they determine the colour |
| `LedTypes.LedBuffer.GetNumLeds` | src/ws2812.h:45 | the count the view reports is the number of pixels it yields |
| `LedTypes.LedBuffer.GetLed` | src/ws2812.h:44 | pixel `led` is bytes 3·led .. 3·led+2 of the data; an index past the data is reported (None) instead of read |
| `LedTypes.LedBuffer.Pixels` | src/ws2812.h:44-45 | the view's pixel sequence has `getNumLeds()` entries, and entry k is `getLed(k)` |
| `LedTypes.NewLedBuffer` | src/ws2812.h:38-48 | the 32-bit count given to the constructor is stored truncated to 16 bits (count mod 65536); counts below 65536 are kept exactly |
| `LedTypes.FlattenPixels` | src/ws2812.h:36-49 | laying the view's pixels out three bytes each gives back exactly the first 3·NumLeds data bytes |
| `BoundedStack.Pushed` | src/ws2812.h:56-64 | push succeeds iff the stack is not full; a refused push changes nothing; a successful one appends v to the contents, raises the position by one and leaves every other slot alone |
| `BoundedStack.Popped` | src/ws2812.h:65-71 | pop fails iff the stack is empty, and then changes nothing; otherwise it returns the top element and removes it from the contents, without touching the slots |
| `BoundedStack.PushThenPop` | src/ws2812.h:56-71 | a pop right after a successful push(v) returns v and restores the position and the contents |
| `BoundedStack.RunInBounds` | src/ws2812.h:54-75 | across any sequence of pushes and pops, the insertion position stays within 0..D and the slot array keeps D slots |
| `BoundedStack.LastInFirstOut` | src/ws2812.h:56-71 | pushing values that fit and then popping as many times returns them in reverse order and leaves the original contents |
| `BoundedStack.Stack.constructor` | src/ws2812.h:54 | a new stack has D slots and is empty |
| `BoundedStack.Stack.Push` | src/ws2812.h:56-64 | the array method's result and new state are exactly those of `Pushed` |
| `BoundedStack.Stack.Pop` | src/ws2812.h:65-71 | the array method's result and new state are exactly those of `Popped` |
| `Ws2812Encode.ShiftedBit` | src/ws2812.cpp:146 | the source's test `(c << i) & 0x80` reads bit 7 − i of c (nothing is shifted out, because c is promoted to int) |
| `Ws2812Encode.SlotCode` | src/ws2812.cpp:145-153 | each code is 17 or 9, and it is 17 exactly when bit 7 − i of the channel byte is set |
| `Ws2812Encode.EncodePixel` | src/ws2812.cpp:143-154 | `fillLed` as a function: a pixel becomes exactly 24 codes (their meaning is stated by `EncodePixelBits`, `EncodeChannels` and `DecodeEncode`) |
| `Ws2812Encode.EncodePixelBits` | src/ws2812.cpp:143-154 | a pixel encodes to exactly 24 codes, each 17 or 9; slot i is 17 iff the bit of its channel is set, with green (`color[1]`) in slots 0..7, red (`color[0]`) in 8..15 and blue (`color[2]`) in 16..23, MSB first |
| `Ws2812Encode.EncodeChannels` | src/ws2812.cpp:143-154 | the 24 codes are the green byte's 8 codes, then red's, then blue's, as the three loops write them |
| `Ws2812Encode.EncodeRgbChannels` | src/ws2812.h:21-29 | the `RGB` getters agree with the encoder: `getG` feeds slots 0..7, `getR` slots 8..15, `getB` slots 16..23 |
| `Ws2812Encode.DecodeEncode` | src/ws2812.cpp:143-154 | reading the 24 codes back gives exactly the encoded pixel (nothing is lost or reordered) |
| `Ws2812Encode.EncodeInjective` | src/ws2812.cpp:143-154 | two pixels with the same codes are the same pixel |
| `Ws2812Encode.FillLed` | src/ws2812.cpp:143-154 | the three loops write the pixel's 24 codes at the target offset; no byte outside those 24 changes |
| `Ws2812Encode.Bzero` | src/ws2812.cpp:173 | the n bytes from the offset become 0; nothing else changes |
| `Ws2812Engine.FillHalf` | src/ws2812.cpp:169-174 | the slot loop (shared by src/ws2812.cpp:176-181 and 208-213) keeps the buffer size, advances the cursor by at most one per remaining slot, and never carries it past `TotalLeds + 2` |
| `Ws2812Engine.RefillHalf` | src/ws2812.cpp:198-206 | a half-transfer event refills `begin`; transfer-complete, or both flags pending, refills `end` |
| `Ws2812Engine.FillHalfOnce` | src/ws2812.cpp:169-174 | with one pixel per half, the slot loop writes slot `CurrentLed` (the pixel, or zeros once pixels run out) and advances the cursor by one while `CurrentLed < TotalLeds + 2`, and otherwise does nothing |
| `Ws2812Engine.AfterSendColors` | src/ws2812.cpp:156-186 | len < 1 changes nothing; otherwise TotalLeds = len, CurrentLed = 2 (LED_PER_HALF = 1), `begin` holds slot 0 and `end` slot 1 (pixel k, or 24 zero bytes once k ≥ len), the transfer count is the 48-byte buffer size, timer and DMA are enabled, and the idle/streaming invariant holds |
| `Ws2812Engine.SendColorsForgetsPriorState` | src/ws2812.cpp:165-185 | a started transmission does not depend on the state before it, so sending the same pixels twice primes the same bytes |
| `Ws2812Engine.AfterIsr` | src/ws2812.cpp:188-222 | the handler never changes the pixels or the transfer count, and keeps the buffer at 48 bytes |
| `Ws2812Engine.IsrCursor` | src/ws2812.cpp:188-222 | the cursor rises by one while `CurrentLed < TotalLeds + 2` and never passes `TotalLeds + 2`; reaching it stops timer and DMA and sets TotalLeds = 0; entry with TotalLeds == 0 stops timer and DMA; otherwise the total and the enable bits are kept; the idle/streaming invariant is preserved |
| `Ws2812Engine.IsrRefill` | src/ws2812.cpp:198-213 | only the half named by the event is written; while `CurrentLed < TotalLeds + 2` it gets slot `CurrentLed` (the pixel, or zeros after the pixels); past that the buffer is unchanged |
| `Ws2812Engine.IdleStaysIdle` | src/ws2812.cpp:193-196 | once idle, any sequence of interrupts leaves the engine idle |
| `Ws2812Engine.StreamingRun` | src/ws2812.cpp:208-221 | an active transmission at cursor c goes idle after exactly TotalLeds + 2 − c interrupts, for any events |
| `Ws2812Engine.TransmissionLength` | src/ws2812.cpp:156-222 | after `sendColors` of N ≥ 1 pixels, the engine is idle after k interrupts iff k ≥ N |
| `Ws2812Engine.PrimedStep` | src/ws2812.cpp:198-213 | while pixels remain, the interrupt for slot k puts slot k + 2 into the drained half, so the other half now holds slot k + 1 and is drained next |
| `Ws2812Engine.RunSnoc` | src/ws2812.cpp:188-222 | running the handler on events then one more event is one more handler call after the run |
| `Ws2812Engine.PrimedAtNext` | src/ws2812.cpp:198-213 | one interrupt for the half drained next moves a state primed for slot k + i to one primed for slot k + i + 1, with the same pixels and total |
| `Ws2812Stream.PrimedAlternating` | src/ws2812.cpp:198-213 | from a state primed for slot k, after j alternating interrupts (k + j still a pixel) the half drained next holds pixel k + j and the other half slot k + j + 1; pixels and total are unchanged |
| `Ws2812Stream.AlternatingIsRun` | src/ws2812.cpp:188-222 | the alternating interrupts are an ordinary run of the handler on alternating half-transfer and transfer-complete events |
| `Ws2812Stream.TransmitsEveryPixel` | src/ws2812.cpp:156-222 | after `sendColors` of N ≥ 1 pixels, the half drained before the j-th alternating interrupt (j < N) holds exactly the encoding of pixel j, so the pixels go out whole and in order; after N interrupts the engine is idle |
| `Ws2812Engine.Ws2818.constructor` | src/ws2812.cpp:23-29 | cursor and count start at 0 with no pixels, the static DMA buffer is zeroed, and timer and DMA are stopped |
| `Ws2812Engine.Ws2818.FillSlots` | src/ws2812.cpp:169-174 | the shared slot loop changes the array and the cursor exactly as `FillHalf` says |
| `Ws2812Engine.Ws2818.SendColors` | src/ws2812.cpp:156-186 | the method leaves the object in exactly the state `AfterSendColors` gives |
| `Ws2812Engine.Ws2818.HandleIsr` | src/ws2812.cpp:188-222 | the method leaves the object in exactly the state `AfterIsr` gives |

## Left out

- `init`, `findRemap` and `PeripheralMap` (src/ws2812.cpp:35-141) are left out. They configure GPIO, clocks, the timer, the DMA channel and the NVIC through the vendor library. The timer and DMA appear only as two enable bits and the transfer-count register.
- Pulse timing (72 MHz clock, prescaler 2, period 29 for an 800 kHz carrier) is hardware behaviour. Only the compare values 17 and 9 are modelled.
- The `LED_PER_DMA_BUFFER` branch (src/ws2812.cpp:11-12) never defines `LED_PER_HALF`. Only the default `LED_PER_HALF = 1` is modelled. The loops are written for any value, but the lemmas use 1.
- Concurrency between `sendColors` and the interrupt is left out, along with the commented-out semaphore. The interrupt is a discrete call that preempts nothing.
- Reading and clearing the DMA interrupt-pending bits is not modelled. The pending flags arrive as the `Event` parameter. The source tests the flags of DMA1 channel 2 only (`DMA1_IT_HT2`, `DMA1_IT_TC2`, src/ws2812.cpp:198,203), whatever channel `LedDMAChannel` names; with any other channel neither test matches and `buffer` stays null, which the `Event` parameter hides.
- The timeout overload `bool sendColors(LedBuffer*, uint32_t)` (src/ws2812.h:93) is declared but has no definition here, so it is left out.
- The `RGB` constructors, the colour constants, `getArray` and `createRandomColor` are declared but not defined in the files, so they are left out. The getters are modelled as accessors.
- `LedBuffer::getLeds` only exposes the raw pointer. In the model that is the `LedData` field.
- The destructors do nothing and are not modelled.
- `main.cpp` is demo scaffolding (random colours, trace output, timers, the IRQ wiring) and is not modelled.
- LedTypes.LedBuffer.GetLed: an index past the data returns None. The source returns an unchecked pointer, so such a read is undefined behaviour there.
- BoundedStack.Popped: a pop on an empty stack returns None and changes nothing. The source's `return 0` into a `T&` is ill-formed, so the model cannot follow it.
- Ws2812Engine.Ws2818.constructor: each object gets its own DMA buffer, starting zeroed. In the source `led_dma` is one file-level static (src/ws2812.cpp:15-21) shared by every `WS2818`, so only the first object finds it zeroed, and two objects writing the one buffer is not modelled.
- Ws2812Engine.Ws2818.SendColors: the pixels are copied into the object when the call is made. The source keeps the caller's pointer (src/ws2812.cpp:167) and reads it at every refill, so a caller that rewrites its pixel array during a transmission changes what the source sends but not what the model sends.
- Ws2812Engine.Ws2818.SendColors: a call made while a transfer is running re-primes both halves while the DMA may be reading one of them. The model has no DMA read position, so what reaches the strip in that case is not modelled.
- LedTypes.LedBuffer.GetLed: returns a copy of the pixel. The source returns a writable pointer into the caller's memory (src/ws2812.h:44), so writes through it, and their effect on a running transmission, are not modelled.
- Ws2812Engine.Ws2818.SendColors: requires the caller to pass at least `len` pixels. The source reads past the caller's array otherwise.
- Ws2812Engine.Ws2818.HandleIsr: an interrupt with no flag pending cannot be expressed. The source would then write through a null pointer.
- Ws2812Stream.TransmitsEveryPixel: assumes the DMA raises half-transfer and transfer-complete alternately, starting from the beginning of the buffer after it is enabled. That is hardware behaviour and is not derived.
- `CurrentLed` and `TotalLeds` are C `int`s. `TotalLeds` is at most 65535 and the cursor at most `TotalLeds + 2`, so they cannot overflow, and the model uses unbounded integers for them. For the same reason, the stack's `uint8_t` position never wraps, because D is below 256.
