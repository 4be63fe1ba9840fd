/** The header's bounded LIFO `Stack<T, D>`: a fixed array of D slots and an
    8-bit insertion position. */
module BoundedStack {
  import opened LedTypes

  /** The abstract state of a stack: its slots and its insertion position. */
  datatype StackState<T> = StackState(mem: seq<T>, pos: nat)

  predicate InBounds<T>(s: StackState<T>) {
    s.pos <= |s.mem|
  }

  /** What the stack holds, bottom first. */
  function Contents<T>(s: StackState<T>): seq<T>
    requires InBounds(s)
  {
    s.mem[..s.pos]
  }

  /** `push`: refused on a full stack; otherwise stores v in the next free slot. */
  function Pushed<T>(s: StackState<T>, v: T): (r: (StackState<T>, bool))
    requires InBounds(s)
    ensures InBounds(r.0) && |r.0.mem| == |s.mem|
    ensures r.1 <==> s.pos < |s.mem|
    ensures !r.1 ==> r.0 == s
    ensures r.1 ==> Contents(r.0) == Contents(s) + [v] && r.0.pos == s.pos + 1
    ensures forall j :: 0 <= j < |s.mem| && j != s.pos ==> r.0.mem[j] == s.mem[j]
  {
    if s.pos == |s.mem| then (s, false)
    else (StackState(s.mem[s.pos := v], s.pos + 1), true)
  }

  /** `pop`: on an empty stack there is nothing to return (the source's
      `return 0` into a `T&` has no meaning), so None and no change;
      otherwise the top element, with the position lowered by one. */
  function Popped<T>(s: StackState<T>): (r: (StackState<T>, Option<T>))
    requires InBounds(s)
    ensures InBounds(r.0) && r.0.mem == s.mem
    ensures r.1.None? <==> Contents(s) == []
    ensures r.1.None? ==> r.0 == s
    ensures r.1.Some? ==> Contents(s) == Contents(r.0) + [r.1.value]
  {
    if s.pos == 0 then (s, None)
    else (StackState(s.mem, s.pos - 1), Some(s.mem[s.pos - 1]))
  }

  /** A pop right after a successful push returns the pushed value and
      restores the position and the contents. */
  lemma PushThenPop<T>(s: StackState<T>, v: T)
    requires InBounds(s) && s.pos < |s.mem|
    ensures var (p, ok) := Pushed(s, v);
            ok && Popped(p).1 == Some(v) && Popped(p).0.pos == s.pos
            && Contents(Popped(p).0) == Contents(s)
  {
  }

  datatype Op<T> = Push(v: T) | Pop

  function Step<T>(s: StackState<T>, op: Op<T>): StackState<T>
    requires InBounds(s)
  {
    match op
    case Push(v) => Pushed(s, v).0
    case Pop => Popped(s).0
  }

  /** The state after a whole sequence of operations. */
  function Run<T>(s: StackState<T>, ops: seq<Op<T>>): StackState<T>
    requires InBounds(s)
    decreases |ops|
  {
    if ops == [] then s else Run(Step(s, ops[0]), ops[1..])
  }

  /** The insertion position stays within 0..D whatever is pushed and popped,
      and the slot array keeps its size. */
  lemma {:induction false} RunInBounds<T>(s: StackState<T>, ops: seq<Op<T>>)
    requires InBounds(s)
    ensures InBounds(Run(s, ops)) && |Run(s, ops).mem| == |s.mem|
    decreases |ops|
  {
    if ops != [] {
      RunInBounds(Step(s, ops[0]), ops[1..]);
    }
  }

  function PushAll<T>(s: StackState<T>, vs: seq<T>): StackState<T>
    requires InBounds(s)
    decreases |vs|
  {
    if vs == [] then s else PushAll(Pushed(s, vs[0]).0, vs[1..])
  }

  /** The values popped by n pops, first popped first. */
  function PopN<T>(s: StackState<T>, n: nat): (r: (seq<T>, StackState<T>))
    requires InBounds(s)
    ensures InBounds(r.1)
    decreases n
  {
    if n == 0 then ([], s)
    else
      var (p, v) := Popped(s);
      var (rest, t) := PopN(p, n - 1);
      ((if v.Some? then [v.value] else []) + rest, t)
  }

  function Reverse<T>(xs: seq<T>): (r: seq<T>)
    ensures |r| == |xs|
  {
    if xs == [] then [] else Reverse(xs[1..]) + [xs[0]]
  }

  /** Pushing values that fit adds them on top, in order. */
  lemma {:induction false} PushAllContents<T>(s: StackState<T>, vs: seq<T>)
    requires InBounds(s) && s.pos + |vs| <= |s.mem|
    ensures InBounds(PushAll(s, vs)) && |PushAll(s, vs).mem| == |s.mem|
    ensures Contents(PushAll(s, vs)) == Contents(s) + vs
    decreases |vs|
  {
    if vs != [] {
      var p := Pushed(s, vs[0]).0;
      PushAllContents(p, vs[1..]);
      assert Contents(s) + vs == Contents(s) + [vs[0]] + vs[1..];
    }
  }

  /** Popping n values off contents c ++ xs (|xs| == n) yields xs reversed and
      leaves c. */
  lemma {:induction false} PopNContents<T>(s: StackState<T>, c: seq<T>, xs: seq<T>)
    requires InBounds(s) && Contents(s) == c + xs
    ensures PopN(s, |xs|).0 == Reverse(xs)
    ensures InBounds(PopN(s, |xs|).1) && Contents(PopN(s, |xs|).1) == c
    decreases |xs|
  {
    if xs != [] {
      var n := |xs|;
      var (p, v) := Popped(s);
      assert Contents(s) == (c + xs[..n - 1]) + [xs[n - 1]];
      assert v == Some(xs[n - 1]);
      assert Contents(p) == c + xs[..n - 1];
      PopNContents(p, c, xs[..n - 1]);
      ReverseSnoc(xs[..n - 1], xs[n - 1]);
      assert xs[..n - 1] + [xs[n - 1]] == xs;
    } else {
      assert c + xs == c;
    }
  }

  lemma {:induction false} ReverseSnoc<T>(xs: seq<T>, x: T)
    ensures Reverse(xs + [x]) == [x] + Reverse(xs)
    decreases |xs|
  {
    if xs != [] {
      assert (xs + [x])[1..] == xs[1..] + [x];
      ReverseSnoc(xs[1..], x);
    } else {
      assert xs + [x] == [x];
    }
  }

  /** Last in, first out: pushing vs (when they fit) and then popping |vs|
      times gives vs back in reverse order and the original contents. */
  lemma LastInFirstOut<T>(s: StackState<T>, vs: seq<T>)
    requires InBounds(s) && s.pos + |vs| <= |s.mem|
    ensures var t := PushAll(s, vs);
            InBounds(t) && PopN(t, |vs|).0 == Reverse(vs)
            && Contents(PopN(t, |vs|).1) == Contents(s)
  {
    PushAllContents(s, vs);
    PopNContents(PushAll(s, vs), Contents(s), vs);
  }

  /** The stack object: `StackMem` has D slots; `InsertionPos` is a `uint8_t`
      and D is a `uint8_t` template argument, so D < 256 keeps it in range. */
  class Stack<T(0)> {
    const D: nat
    const StackMem: array<T>
    var InsertionPos: nat

    ghost predicate Valid()
      reads this
    {
      StackMem.Length == D && D < 0x100 && InsertionPos <= D
    }

    function State(): (s: StackState<T>)
      reads this, StackMem
    {
      StackState(StackMem[..], InsertionPos)
    }

    constructor (d: nat)
      requires d < 0x100
      ensures Valid() && fresh(StackMem)
      ensures D == d && InsertionPos == 0 && Contents(State()) == []
    {
      D := d;
      // The source value-initialises the slots; here they are left unspecified,
      // which no push or pop can observe.
      StackMem := new T[d];
      InsertionPos := 0;
    }

    method Push(v: T) returns (ok: bool)
      requires Valid()
      modifies this, StackMem
      ensures Valid()
      ensures (State(), ok) == Pushed(old(State()), v)
    {
      if InsertionPos == D {
        return false;
      }
      StackMem[InsertionPos] := v;
      InsertionPos := InsertionPos + 1;
      return true;
    }

    method Pop() returns (r: Option<T>)
      requires Valid()
      modifies this
      ensures Valid()
      ensures (State(), r) == Popped(old(State()))
    {
      if InsertionPos == 0 {
        return None;
      } else {
        InsertionPos := InsertionPos - 1;
        return Some(StackMem[InsertionPos]);
      }
    }
  }
}
