/**
 Shift registers in general. A word can be added to another, halved, and asked for its last bit; a turn of
 the register drops the last bit and adds the polynomial if it was set. What holds of every such register
 is shown here from a few laws about its words, whatever their width.
 */
module LinearCode {

  datatype Words<!W> = Words(
    xor: (W, W) -> W,
    half: W -> W,
    isOdd: W -> bool,
    join: (W, bool) -> W,
    isHigh: W -> bool,
    zero: W,
    polynomial: W)

  // Each law is a predicate of its own, so that a proof takes the instances it needs.

  predicate Associates<W(==)>(k: Words<W>, a: W, b: W, c: W) { k.xor(k.xor(a, b), c) == k.xor(a, k.xor(b, c)) }
  predicate Commutes<W(==)>(k: Words<W>, a: W, b: W) { k.xor(a, b) == k.xor(b, a) }
  predicate Vanishes<W(==)>(k: Words<W>, a: W) { k.xor(a, a) == k.zero && k.xor(a, k.zero) == a }

  ghost predicate IsGroup<W(!new)>(k: Words<W>) {
    (forall a, b, c :: Associates(k, a, b, c)) && (forall a, b :: Commutes(k, a, b)) && (forall a :: Vanishes(k, a))
  }

  /** Adding is bit by bit. */
  predicate AddsBitwise<W(==)>(k: Words<W>, a: W, b: W) {
    k.half(k.xor(a, b)) == k.xor(k.half(a), k.half(b)) && k.isOdd(k.xor(a, b)) == (k.isOdd(a) != k.isOdd(b))
  }

  /** Halving loses the last bit only. */
  predicate Rejoins<W(==)>(k: Words<W>, a: W) {
    k.join(k.half(a), k.isOdd(a)) == a
  }

  /** The first bit tells whether the polynomial was added. */
  predicate MarksPolynomial<W>(k: Words<W>, a: W) {
    !k.isHigh(k.half(a)) && k.isHigh(k.xor(k.polynomial, k.half(a)))
  }

  ghost predicate Lawful<W(!new)>(k: Words<W>) {
    IsGroup(k)
    && (forall a, b :: AddsBitwise(k, a, b)) && (forall a :: Rejoins(k, a)) && (forall a :: MarksPolynomial(k, a))
  }

  /** One turn of the register. */
  function Step<W>(k: Words<W>, c: W): W {
    if k.isOdd(c) then k.xor(k.polynomial, k.half(c)) else k.half(c)
  }

  function Turn<W>(k: Words<W>, c: W, count: nat): W
    decreases count
  {
    if count == 0 then c else Turn(k, Step(k, c), count - 1)
  }

  lemma Cancels<W(!new)>(k: Words<W>, a: W, b: W, c: W)
    requires IsGroup(k) && k.xor(a, b) == k.xor(a, c)
    ensures b == c
  {
    assert Associates(k, a, a, b) && Associates(k, a, a, c) && Vanishes(k, a);
    assert Commutes(k, k.zero, b) && Commutes(k, k.zero, c) && Vanishes(k, b) && Vanishes(k, c);
  }

  /** A turn is linear over addition. */
  lemma StepIsLinear<W(!new)>(k: Words<W>, a: W, b: W)
    requires Lawful(k)
    ensures Step(k, k.xor(a, b)) == k.xor(Step(k, a), Step(k, b))
  {
    var p, x, y := k.polynomial, k.half(a), k.half(b);
    assert AddsBitwise(k, a, b);
    if k.isOdd(a) && k.isOdd(b) {
      assert Commutes(k, p, x) && Associates(k, x, p, k.xor(p, y)) && Associates(k, p, p, y);
      assert Vanishes(k, p) && Commutes(k, k.zero, y) && Vanishes(k, y);
    } else if k.isOdd(a) {
      assert Associates(k, p, x, y);
    } else if k.isOdd(b) {
      assert Commutes(k, x, k.xor(p, y)) && Associates(k, p, y, x) && Commutes(k, y, x);
    }
  }

  /** A turn loses nothing. */
  lemma StepIsInjective<W(!new)>(k: Words<W>, a: W, b: W)
    requires Lawful(k) && Step(k, a) == Step(k, b)
    ensures a == b
  {
    assert MarksPolynomial(k, a) && MarksPolynomial(k, b) && Rejoins(k, a) && Rejoins(k, b);
    if k.isOdd(a) {
      Cancels(k, k.polynomial, k.half(a), k.half(b));
    }
  }

  lemma {:induction false} TurnIsLinear<W(!new)>(k: Words<W>, a: W, b: W, count: nat)
    requires Lawful(k)
    ensures Turn(k, k.xor(a, b), count) == k.xor(Turn(k, a, count), Turn(k, b, count))
    decreases count
  {
    if count > 0 {
      StepIsLinear(k, a, b);
      TurnIsLinear(k, Step(k, a), Step(k, b), count - 1);
    }
  }

  /** However often it is turned, no two registers come to the same. */
  lemma {:induction false} TurnIsInjective<W(!new)>(k: Words<W>, a: W, b: W, count: nat)
    requires Lawful(k) && Turn(k, a, count) == Turn(k, b, count)
    ensures a == b
    decreases count
  {
    if count > 0 {
      TurnIsInjective(k, Step(k, a), Step(k, b), count - 1);
      StepIsInjective(k, a, b);
    }
  }

  lemma {:induction false} OneMoreTurn<W>(k: Words<W>, c: W, count: nat)
    ensures Turn(k, c, count + 1) == Step(k, Turn(k, c, count))
    decreases count
  {
    if count > 0 {
      OneMoreTurn(k, Step(k, c), count - 1);
    }
  }

  // ---------------------------------------------------------------- the bits of a word

  /** A word without its last `count` bits. */
  function Shifted<W>(k: Words<W>, v: W, count: nat): W
    decreases count
  {
    if count == 0 then v else Shifted(k, k.half(v), count - 1)
  }

  /** The last `count` bits of a word, lowest first. */
  function Bits<W>(k: Words<W>, v: W, count: nat): seq<bool>
    decreases count
  {
    if count == 0 then [] else [k.isOdd(v)] + Bits(k, k.half(v), count - 1)
  }

  /** One turn with a bit of the message fed in. */
  function SerialStep<W>(k: Words<W>, c: W, bit: bool): W {
    if k.isOdd(c) != bit then k.xor(k.polynomial, k.half(c)) else k.half(c)
  }

  /** The register after a message taken in bit by bit. */
  function Serial<W>(k: Words<W>, c: W, bits: seq<bool>): W
    decreases |bits|
  {
    if bits == [] then c else Serial(k, SerialStep(k, c, bits[0]), bits[1..])
  }

  lemma {:induction false} SerialAppend<W>(k: Words<W>, c: W, a: seq<bool>, b: seq<bool>)
    ensures Serial(k, c, a + b) == Serial(k, Serial(k, c, a), b)
    decreases |a|
  {
    if a == [] {
      assert a + b == b;
    } else {
      assert (a + b)[1..] == a[1..] + b;
      SerialAppend(k, SerialStep(k, c, a[0]), a[1..], b);
    }
  }

  lemma StepTakesBitIn<W(!new)>(k: Words<W>, c: W, v: W)
    requires Lawful(k)
    ensures Step(k, k.xor(c, v)) == k.xor(SerialStep(k, c, k.isOdd(v)), k.half(v))
  {
    var p, x, y := k.polynomial, k.half(c), k.half(v);
    assert AddsBitwise(k, c, v) && Associates(k, p, x, y);
  }

  /** Adding a word and then turning is taking its bits in one at a time; the bits left over stay added. */
  lemma {:induction false} TurnIsSerial<W(!new)>(k: Words<W>, c: W, v: W, count: nat)
    requires Lawful(k)
    ensures Turn(k, k.xor(c, v), count) == k.xor(Serial(k, c, Bits(k, v, count)), Shifted(k, v, count))
    decreases count
  {
    if count > 0 {
      StepTakesBitIn(k, c, v);
      var bits := Bits(k, v, count);
      assert bits[1..] == Bits(k, k.half(v), count - 1);
      TurnIsSerial(k, SerialStep(k, c, k.isOdd(v)), k.half(v), count - 1);
    }
  }

  /** The last `count` bits of a word are clear. */
  predicate EndsClear<W>(k: Words<W>, v: W, count: nat)
    decreases count
  {
    count == 0 || (!k.isOdd(v) && EndsClear(k, k.half(v), count - 1))
  }

  /** Turning a register whose last bits are clear only shifts it. */
  lemma {:induction false} TurnShifts<W>(k: Words<W>, v: W, count: nat)
    requires EndsClear(k, v, count)
    ensures Turn(k, v, count) == Shifted(k, v, count)
    decreases count
  {
    if count > 0 {
      TurnShifts(k, k.half(v), count - 1);
    }
  }

  /** `clear` speaks of a word's last bits. */
  predicate SpeaksOfEnd<W>(k: Words<W>, clear: (W, nat) -> bool, v: W, n: nat) {
    clear(v, n + 1) ==> !k.isOdd(v) && clear(k.half(v), n)
  }

  lemma {:induction false} ClearEnds<W(!new)>(k: Words<W>, clear: (W, nat) -> bool, v: W, n: nat)
    requires forall w, i :: SpeaksOfEnd(k, clear, w, i)
    requires clear(v, n)
    ensures EndsClear(k, v, n)
    decreases n
  {
    if n > 0 {
      assert SpeaksOfEnd(k, clear, v, n - 1);
      ClearEnds(k, clear, k.half(v), n - 1);
    }
  }

  lemma EightHalves<W>(k: Words<W>, v: W)
    ensures Shifted(k, v, BITS) == k.half(k.half(k.half(k.half(k.half(k.half(k.half(k.half(v))))))))
  {
    var w := k.half(k.half(k.half(k.half(v))));
    assert Shifted(k, v, 8) == Shifted(k, w, 4);
  }

  /** A register cut into high and low bits, the low ones turned and the high ones only shifted down. */
  lemma TurnInTwo<W(!new)>(k: Words<W>, low: W, high: W, count: nat)
    requires Lawful(k) && EndsClear(k, high, count)
    ensures Turn(k, k.xor(low, high), count) == k.xor(Turn(k, low, count), Shifted(k, high, count))
  {
    TurnIsLinear(k, low, high, count);
    TurnShifts(k, high, count);
  }

  // ---------------------------------------------------------------- messages

  const BITS: nat := 8

  /** The register after one more byte, which stands for the word `widen` gives. */
  function Feed<W, B>(k: Words<W>, widen: B -> W, c: W, b: B): W {
    Turn(k, k.xor(c, widen(b)), BITS)
  }

  function Run<W, B>(k: Words<W>, widen: B -> W, c: W, message: seq<B>): W
    decreases |message|
  {
    if message == [] then c else Run(k, widen, Feed(k, widen, c, message[0]), message[1..])
  }

  lemma RunFromThere<W, B>(k: Words<W>, widen: B -> W, c: W, message: seq<B>, i: nat)
    requires i < |message|
    ensures Run(k, widen, c, message[i..]) == Run(k, widen, Feed(k, widen, c, message[i]), message[i + 1..])
  {
    assert message[i..][0] == message[i] && message[i..][1..] == message[i + 1..];
  }

  lemma {:induction false} RunAppend<W, B>(k: Words<W>, widen: B -> W, c: W, a: seq<B>, b: seq<B>)
    ensures Run(k, widen, c, a + b) == Run(k, widen, Run(k, widen, c, a), b)
    decreases |a|
  {
    if a == [] {
      assert a + b == b;
    } else {
      assert (a + b)[1..] == a[1..] + b;
      RunAppend(k, widen, Feed(k, widen, c, a[0]), a[1..], b);
    }
  }

  /** Registers that differ still do after the same message. */
  lemma {:induction false} RunIsInjective<W(!new), B>(k: Words<W>, widen: B -> W, c: W, d: W, message: seq<B>)
    requires Lawful(k) && Run(k, widen, c, message) == Run(k, widen, d, message)
    ensures c == d
    decreases |message|
  {
    if message != [] {
      var w := widen(message[0]);
      RunIsInjective(k, widen, Feed(k, widen, c, message[0]), Feed(k, widen, d, message[0]), message[1..]);
      TurnIsInjective(k, k.xor(c, w), k.xor(d, w), BITS);
      assert Commutes(k, c, w) && Commutes(k, d, w);
      Cancels(k, w, c, d);
    }
  }

  /** The bits of a message, each byte's lowest first. */
  function MessageBits<W, B>(k: Words<W>, widen: B -> W, message: seq<B>): seq<bool> {
    if message == [] then [] else Bits(k, widen(message[0]), BITS) + MessageBits(k, widen, message[1..])
  }

  /** Whole bytes at a time, or bit by bit: the register comes to the same. */
  lemma {:induction false} RunIsSerial<W(!new), B(!new)>(k: Words<W>, widen: B -> W, c: W, message: seq<B>)
    requires Lawful(k) && forall b :: Shifted(k, widen(b), BITS) == k.zero
    ensures Run(k, widen, c, message) == Serial(k, c, MessageBits(k, widen, message))
    decreases |message|
  {
    if message != [] {
      var b := message[0];
      var w := widen(b);
      assert Shifted(k, widen(b), BITS) == k.zero;
      TurnIsSerial(k, c, w, BITS);
      assert Vanishes(k, Serial(k, c, Bits(k, w, BITS)));
      RunIsSerial(k, widen, Feed(k, widen, c, b), message[1..]);
      SerialAppend(k, c, Bits(k, w, BITS), MessageBits(k, widen, message[1..]));
    }
  }

  // ---------------------------------------------------------------- bursts

  /** How words of up to four bytes are made, a byte put under a shorter word, and taken apart again. */
  datatype Packing<!W, !B> = Packing(raise: W -> W, fits: (W, nat) -> bool, low: W -> B, rest: W -> W)

  /** The bytes as one word, the first lowest. */
  function Packed<W, B>(k: Words<W>, widen: B -> W, packing: Packing<W, B>, bytes: seq<B>): W {
    if bytes == [] then k.zero
    else k.xor(widen(bytes[0]), packing.raise(Packed(k, widen, packing, bytes[1..])))
  }

  /**
   A word of `n < 4` bytes, raised over another byte, makes one of `n + 1` bytes, from which both can be
   told; eight turns bring it back down.
   */
  ghost predicate Packs<W(!new), B(!new)>(k: Words<W>, widen: B -> W, packing: Packing<W, B>) {
    packing.fits(k.zero, 0) && forall b, v, n :: PacksOver(k, widen, packing, b, v, n)
  }

  predicate PacksOver<W(==), B(==)>(k: Words<W>, widen: B -> W, packing: Packing<W, B>, b: B, v: W, n: nat) {
    n < 4 && packing.fits(v, n) ==>
      (var packed := k.xor(widen(b), packing.raise(v));
       packing.fits(packed, n + 1) && packing.low(packed) == b && packing.rest(packed) == v
       && Turn(k, packing.raise(v), BITS) == v)
  }

  lemma {:induction false} PackedFits<W(!new), B(!new)>(
    k: Words<W>, widen: B -> W, packing: Packing<W, B>, bytes: seq<B>)
    requires Packs(k, widen, packing) && |bytes| <= 4
    ensures packing.fits(Packed(k, widen, packing, bytes), |bytes|)
  {
    if bytes != [] {
      PackedFits(k, widen, packing, bytes[1..]);
      assert PacksOver(k, widen, packing, bytes[0], Packed(k, widen, packing, bytes[1..]), |bytes| - 1);
    }
  }

  lemma {:induction false} PackedIsInjective<W(!new), B(!new)>(
    k: Words<W>, widen: B -> W, packing: Packing<W, B>, x: seq<B>, y: seq<B>)
    requires Packs(k, widen, packing) && |x| == |y| <= 4
    requires Packed(k, widen, packing, x) == Packed(k, widen, packing, y)
    ensures x == y
  {
    if x != [] {
      PackedFits(k, widen, packing, x[1..]);
      PackedFits(k, widen, packing, y[1..]);
      assert PacksOver(k, widen, packing, x[0], Packed(k, widen, packing, x[1..]), |x| - 1);
      assert PacksOver(k, widen, packing, y[0], Packed(k, widen, packing, y[1..]), |y| - 1);
      PackedIsInjective(k, widen, packing, x[1..], y[1..]);
      assert x == [x[0]] + x[1..] && y == [y[0]] + y[1..];
    }
  }

  /** A byte taken in before a word, or the word raised over the byte and both added at once. */
  lemma RaisedComesDown<W(!new), B>(k: Words<W>, widen: B -> W, c: W, b: B, raised: W, more: nat)
    requires Lawful(k)
    ensures Turn(k, k.xor(c, k.xor(widen(b), raised)), BITS + more)
      == Turn(k, k.xor(Feed(k, widen, c, b), Turn(k, raised, BITS)), more)
  {
    var first := k.xor(c, widen(b));
    assert Associates(k, c, widen(b), raised);
    TurnIsLinear(k, first, raised, BITS);
    TurnsAdd(k, k.xor(first, raised), BITS, more);
  }

  /** Up to four bytes taken in one after the other, or packed and added at once. */
  lemma {:induction false} RunIsPacked<W(!new), B(!new)>(
    k: Words<W>, widen: B -> W, packing: Packing<W, B>, c: W, bytes: seq<B>)
    requires Lawful(k) && Packs(k, widen, packing) && |bytes| <= 4
    ensures Run(k, widen, c, bytes) == Turn(k, k.xor(c, Packed(k, widen, packing, bytes)), Turns(bytes))
    decreases |bytes|
  {
    if bytes == [] {
      assert Vanishes(k, c);
    } else {
      var b, rest := bytes[0], bytes[1..];
      var v := Packed(k, widen, packing, rest);
      PackedFits(k, widen, packing, rest);
      assert PacksOver(k, widen, packing, b, v, |rest|);
      RunIsPacked(k, widen, packing, Feed(k, widen, c, b), rest);
      RaisedComesDown(k, widen, c, b, packing.raise(v), Turns(rest));
      assert Packed(k, widen, packing, bytes) == k.xor(widen(b), packing.raise(v));
      assert Turns(bytes) == BITS + Turns(rest);
      assert Run(k, widen, c, bytes) == Run(k, widen, Feed(k, widen, c, b), rest);
    }
  }

  /** How often a message turns the register. */
  function Turns<B>(message: seq<B>): nat {
    if message == [] then 0 else BITS + Turns(message[1..])
  }

  lemma {:induction false} TurnsOfLength<B>(x: seq<B>, y: seq<B>)
    requires |x| == |y|
    ensures Turns(x) == Turns(y)
  {
    if x != [] {
      TurnsOfLength(x[1..], y[1..]);
    }
  }

  lemma {:induction false} TurnsAdd<W>(k: Words<W>, c: W, m: nat, n: nat)
    ensures Turn(k, c, m + n) == Turn(k, Turn(k, c, m), n)
    decreases m
  {
    if m > 0 {
      TurnsAdd(k, Step(k, c), m - 1, n);
    }
  }

  /** Messages that differ only within four bytes never leave the register alike. */
  lemma BurstsAreSeen<W(!new), B(!new)>(
    k: Words<W>, widen: B -> W, packing: Packing<W, B>, c: W, before: seq<B>, x: seq<B>, y: seq<B>, after: seq<B>)
    requires Lawful(k) && Packs(k, widen, packing) && |x| == |y| <= 4
    requires Run(k, widen, c, before + x + after) == Run(k, widen, c, before + y + after)
    ensures x == y
  {
    var d := Run(k, widen, c, before);
    RunAppend(k, widen, c, before + x, after);
    RunAppend(k, widen, c, before + y, after);
    RunAppend(k, widen, c, before, x);
    RunAppend(k, widen, c, before, y);
    RunIsInjective(k, widen, Run(k, widen, d, x), Run(k, widen, d, y), after);
    RunIsPacked(k, widen, packing, d, x);
    RunIsPacked(k, widen, packing, d, y);
    var v, w := Packed(k, widen, packing, x), Packed(k, widen, packing, y);
    TurnsOfLength(x, y);
    TurnIsInjective(k, k.xor(d, v), k.xor(d, w), Turns(x));
    Cancels(k, d, v, w);
    PackedIsInjective(k, widen, packing, x, y);
  }
}
