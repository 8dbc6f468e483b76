/**
 The CRC of PNG chunks, driven by a table, against the bit-by-bit one of ISO/IEC 15948, section 5.5, and
 the errors it is sure to catch.
 */
module Crc {
  import opened LinearCode

  const POLYNOMIAL: bv32 := 0xedb8_8320
  const ALL_ONES: bv32 := 0xffff_ffff

  // ---------------------------------------------------------------- 32-bit words

  function Xor(a: bv32, b: bv32): bv32 { a ^ b }
  function Half(c: bv32): bv32 { c >> 1 }
  function IsOdd(c: bv32): bool { c & 1 != 0 }
  function Join(c: bv32, odd: bool): bv32 { if odd then (c << 1) | 1 else c << 1 }
  function IsHigh(c: bv32): bool { c & 0x8000_0000 != 0 }
  function Widen(b: bv8): bv32 { b as bv32 }
  function Raise(c: bv32): bv32 { c << 8 }

  function LowByte(c: bv32): bv8 { (c & 0xff) as bv8 }
  function Rest(c: bv32): bv32 { c >> 8 }

  /** `c` has no bits beyond its lowest `n` bytes. */
  function Fits(c: bv32, n: nat): bool {
    if n == 0 then c == 0 else if n == 1 then c & 0xffff_ff00 == 0 else if n == 2 then c & 0xffff_0000 == 0
    else if n == 3 then c & 0xff00_0000 == 0 else true
  }

  const WORDS := Words(Xor, Half, IsOdd, Join, IsHigh, 0 as bv32, POLYNOMIAL)
  const PACKING := Packing(Raise, Fits, LowByte, Rest)

  // The laws, one at a time, so that the solver sees few bits at once.

  lemma XorAssociates(a: bv32, b: bv32, c: bv32)
    ensures (a ^ b) ^ c == a ^ (b ^ c)
  {
  }

  lemma XorCommutes(a: bv32, b: bv32)
    ensures a ^ b == b ^ a
  {
  }

  lemma XorVanishes(a: bv32)
    ensures a ^ a == 0 && a ^ 0 == a
  {
  }

  lemma HalfAdds(a: bv32, b: bv32)
    ensures (a ^ b) >> 1 == (a >> 1) ^ (b >> 1)
  {
  }

  lemma OddAdds(a: bv32, b: bv32)
    ensures ((a ^ b) & 1 != 0) == ((a & 1 != 0) != (b & 1 != 0))
  {
  }

  lemma HalfIsLow(a: bv32)
    ensures (a >> 1) & 0x8000_0000 == 0
  {
  }

  lemma PolynomialIsHigh(a: bv32)
    ensures (POLYNOMIAL ^ (a >> 1)) & 0x8000_0000 != 0
  {
  }

  lemma OddRejoins(a: bv32)
    requires a & 1 != 0
    ensures ((a >> 1) << 1) | 1 == a
  {
  }

  lemma EvenRejoins(a: bv32)
    requires a & 1 == 0
    ensures (a >> 1) << 1 == a
  {
  }

  // The same laws of the functions.

  lemma AssociatesAsWords(a: bv32, b: bv32, c: bv32)
    ensures Xor(Xor(a, b), c) == Xor(a, Xor(b, c))
  {
    XorAssociates(a, b, c);
  }

  lemma RejoinsAsWords(a: bv32)
    ensures Join(Half(a), IsOdd(a)) == a
  {
    if a & 1 != 0 { OddRejoins(a); } else { EvenRejoins(a); }
  }

  lemma AddsAsWords(a: bv32, b: bv32)
    ensures AddsBitwise(WORDS, a, b)
  {
    HalfAdds(a, b);
    OddAdds(a, b);
  }

  lemma VanishesAsWords(a: bv32)
    ensures Vanishes(WORDS, a)
  {
    XorVanishes(a);
  }

  lemma CommutesAsWords(a: bv32, b: bv32)
    ensures Commutes(WORDS, a, b)
  {
    XorCommutes(a, b);
  }

  lemma MarksAsWords(a: bv32)
    ensures MarksPolynomial(WORDS, a)
  {
    HalfIsLow(a);
    PolynomialIsHigh(a);
  }

  /** 32-bit words with this polynomial make a register of the kind `LinearCode` is about. */
  lemma WordsAreLawful()
    ensures Lawful(WORDS)
  {
    forall a, b, c ensures Associates(WORDS, a, b, c) { AssociatesAsWords(a, b, c); }
    forall a, b ensures Commutes(WORDS, a, b) { CommutesAsWords(a, b); }
    forall a ensures Vanishes(WORDS, a) { VanishesAsWords(a); }
    forall a, b ensures AddsBitwise(WORDS, a, b) { AddsAsWords(a, b); }
    forall a ensures Rejoins(WORDS, a) { RejoinsAsWords(a); }
    forall a ensures MarksPolynomial(WORDS, a) { MarksAsWords(a); }
  }

  // ---------------------------------------------------------------- bytes in words

  lemma HalvedEightTimes(v: bv32)
    ensures Half(Half(Half(Half(Half(Half(Half(Half(v)))))))) == Rest(v)
  {
  }

  lemma ShiftedByByte(v: bv32)
    ensures Shifted(WORDS, v, BITS) == Rest(v)
  {
    EightHalves(WORDS, v);
    HalvedEightTimes(v);
  }

  /** A word of `n` set bits. */
  function Ones(n: nat): bv32 {
    if n == 0 then 0 else (Ones(n - 1) << 1) | 1
  }

  lemma OnesOfByte()
    ensures Ones(8) == 0xff
  {
    assert Ones(2) == 3;
    assert Ones(4) == 15;
    assert Ones(6) == 63;
  }

  lemma ClearBits(v: bv32, ones: bv32)
    requires v & ((ones << 1) | 1) == 0
    ensures v & 1 == 0 && (v >> 1) & ones == 0
  {
  }

  function IsClear(v: bv32, n: nat): bool {
    v & Ones(n) == 0
  }

  lemma ClearStep(v: bv32, ones: bv32)
    requires v & ((ones << 1) | 1) == 0
    ensures !IsOdd(v) && Half(v) & ones == 0
  {
    ClearBits(v, ones);
  }

  lemma ClearEnd(v: bv32, n: nat)
    requires IsClear(v, n + 1)
    ensures !IsOdd(v) && IsClear(Half(v), n)
  {
    ClearStep(v, Ones(n));
  }

  lemma ClearSpeaksOfEnd(v: bv32, n: nat)
    ensures SpeaksOfEnd(WORDS, IsClear, v, n)
  {
    if IsClear(v, n + 1) {
      ClearEnd(v, n);
    }
  }

  lemma EmptyByteEndsClear(v: bv32)
    requires v & 0xff == 0
    ensures EndsClear(WORDS, v, BITS)
  {
    forall w, n ensures SpeaksOfEnd(WORDS, IsClear, w, n) { ClearSpeaksOfEnd(w, n); }
    OnesOfByte();
    ClearEnds(WORDS, IsClear, v, BITS);
  }

  lemma ByteIsShort(b: bv8)
    ensures (b as bv32) >> 8 == 0 && (b as bv32) & 0xffff_ff00 == 0
  {
  }

  lemma RaiseEmptiesByte(v: bv32)
    ensures (v << 8) & 0xff == 0
  {
  }

  lemma RaiseThenLower(v: bv32)
    requires v & 0xff00_0000 == 0
    ensures (v << 8) >> 8 == v
  {
  }

  lemma OneByteFits(v: bv32)
    requires v & 0xffff_ff00 == 0
    ensures v & 0xff00_0000 == 0
  {
  }

  lemma TwoBytesFit(v: bv32)
    requires v & 0xffff_0000 == 0
    ensures v & 0xff00_0000 == 0
  {
  }

  lemma RaisedRest(v: bv32)
    requires v & 0xff00_0000 == 0
    ensures Rest(Raise(v)) == v
  {
    RaiseThenLower(v);
  }

  lemma RaisedIsEmpty(v: bv32)
    ensures Raise(v) & 0xff == 0
  {
    RaiseEmptiesByte(v);
  }

  lemma FitsThreeBytes(v: bv32, n: nat)
    requires n < 4 && Fits(v, n)
    ensures v & 0xff00_0000 == 0
  {
    if n == 0 {
    } else if n == 1 {
      OneByteFits(v);
    } else if n == 2 {
      TwoBytesFit(v);
    }
  }

  lemma RaisedComesBack(v: bv32)
    requires v & 0xff00_0000 == 0
    ensures Turn(WORDS, Raise(v), BITS) == v
  {
    RaisedIsEmpty(v);
    EmptyByteEndsClear(Raise(v));
    TurnShifts(WORDS, Raise(v), BITS);
    ShiftedByByte(Raise(v));
    RaisedRest(v);
  }

  lemma NoneGrows(b: bv32)
    requires b & 0xffff_ff00 == 0
    ensures (b ^ (0 << 8)) & 0xffff_ff00 == 0
  {
  }

  lemma OneGrows(b: bv32, v: bv32)
    requires b & 0xffff_ff00 == 0 && v & 0xffff_ff00 == 0
    ensures (b ^ (v << 8)) & 0xffff_0000 == 0
  {
  }

  lemma TwoGrow(b: bv32, v: bv32)
    requires b & 0xffff_ff00 == 0 && v & 0xffff_0000 == 0
    ensures (b ^ (v << 8)) & 0xff00_0000 == 0
  {
  }

  lemma FitsGrows(b: bv32, v: bv32, n: nat)
    requires n < 4 && b & 0xffff_ff00 == 0 && Fits(v, n)
    ensures Fits(Xor(b, Raise(v)), n + 1)
  {
    if n == 0 {
      NoneGrows(b);
    } else if n == 1 {
      OneGrows(b, v);
    } else if n == 2 {
      TwoGrow(b, v);
    }
  }

  lemma ByteComesBack(b: bv8, v: bv32)
    ensures (((b as bv32) ^ (v << 8)) & 0xff) as bv8 == b
  {
  }

  lemma WordComesBack(b: bv32, v: bv32)
    requires b & 0xffff_ff00 == 0 && v & 0xff00_0000 == 0
    ensures (b ^ (v << 8)) >> 8 == v
  {
  }

  lemma ByteAsWord(b: bv8, v: bv32)
    ensures LowByte(Xor(Widen(b), Raise(v))) == b
  {
    ByteComesBack(b, v);
  }

  lemma RestAsWord(b: bv32, v: bv32)
    requires b & 0xffff_ff00 == 0 && v & 0xff00_0000 == 0
    ensures Rest(Xor(b, Raise(v))) == v
  {
    WordComesBack(b, v);
  }

  lemma BytesPack(b: bv8, v: bv32, n: nat)
    ensures PacksOver(WORDS, Widen, PACKING, b, v, n)
  {
    if n < 4 && Fits(v, n) {
      FitsThreeBytes(v, n);
      ByteIsShort(b);
      FitsGrows(Widen(b), v, n);
      ByteAsWord(b, v);
      RestAsWord(Widen(b), v);
      RaisedComesBack(v);
    }
  }

  lemma WordsPackBytes()
    ensures Packs(WORDS, Widen, PACKING)
  {
    forall b, v, n ensures PacksOver(WORDS, Widen, PACKING, b, v, n) { BytesPack(b, v, n); }
  }

  // ---------------------------------------------------------------- the table

  /** What the table holds for a byte. */
  function Entry(i: int): bv32
    requires 0 <= i < 256
  {
    Turn(WORDS, i as bv32, BITS)
  }

  lemma OneStep(c: bv32)
    ensures Step(WORDS, c) == if c & 1 != 0 then POLYNOMIAL ^ (c >> 1) else c >> 1
  {
  }

  /** The table's first `n` entries. */
  function Entries(n: nat): (r: seq<bv32>)
    requires n <= 256
    ensures |r| == n
  {
    if n == 0 then [] else Entries(n - 1) + [Entry(n - 1)]
  }

  lemma {:induction false} EntriesAt(n: nat, i: nat)
    requires i < n <= 256
    ensures Entries(n)[i] == Entry(i)
  {
    if i < n - 1 {
      EntriesAt(n - 1, i);
    }
  }

  /** The whole table: for every byte, what eight turns make of it. */
  predicate IsTable(entries: seq<bv32>) {
    |entries| == 256 && forall i :: 0 <= i < 256 ==> entries[i] == Entry(i)
  }

  lemma EntriesAreTable(entries: seq<bv32>, n: nat)
    requires n == 256 && entries == Entries(n)
    ensures IsTable(entries)
  {
    forall i | 0 <= i < 256 ensures entries[i] == Entry(i) {
      EntriesAt(n, i);
    }
  }

  /** `CRC_TABLE`. */
  method MakeTable() returns (table: array<bv32>)
    ensures fresh(table) && IsTable(table[..])
  {
    table := new bv32[256];
    FillTable(table);
    EntriesAreTable(table[..], table.Length);
  }

  method FillTable(table: array<bv32>)
    requires table.Length <= 256
    modifies table
    ensures table[..] == Entries(table.Length)
  {
    var n := 0;
    while n < table.Length
      invariant 0 <= n <= table.Length && table[..n] == Entries(n)
    {
      FillEntry(table, n);
      n := n + 1;
    }
    assert table[..n] == table[..];
  }

  method FillEntry(table: array<bv32>, n: nat)
    requires n < table.Length <= 256 && table[..n] == Entries(n)
    modifies table
    ensures table[..n + 1] == Entries(n + 1)
  {
    var entry := MakeEntry(n);
    table[n] := entry;
    assert table[..n + 1] == table[..n] + [entry];
  }

  /** The inner loop over a byte's bits. */
  method MakeEntry(n: int) returns (c: bv32)
    requires 0 <= n < 256
    ensures c == Entry(n)
  {
    c := n as bv32;
    for k := 0 to 8
      invariant c == Turn(WORDS, n as bv32, k)
    {
      OneStep(c);
      OneMoreTurn(WORDS, n as bv32, k);
      c := if c & 1 != 0 then POLYNOMIAL ^ (c >> 1) else c >> 1;
    }
  }

  lemma IndexIsByte(v: bv32)
    requires v & 0xffff_ff00 == 0
    ensures 0 <= v as int < 256 && (v as int) as bv32 == v
  {
  }

  function Low(x: bv32): bv32 { x & 0xff }
  function High(x: bv32): bv32 { x & 0xffff_ff00 }

  lemma SplitWord(x: bv32)
    ensures (x & 0xff) ^ (x & 0xffff_ff00) == x
  {
  }

  lemma SplitAsWords(x: bv32)
    ensures Xor(Low(x), High(x)) == x
  {
    SplitWord(x);
  }

  lemma HighEndsEmpty(x: bv32)
    ensures (x & 0xffff_ff00) & 0xff == 0
  {
  }

  lemma HighAsWord(x: bv32)
    ensures High(x) & 0xff == 0
  {
    HighEndsEmpty(x);
  }

  lemma LowIsShort(x: bv32)
    ensures (x & 0xff) & 0xffff_ff00 == 0
  {
  }

  lemma RestOfHigh(c: bv32, b: bv8)
    ensures ((c ^ (b as bv32)) & 0xffff_ff00) >> 8 == c >> 8
  {
  }

  lemma RestAsWords(c: bv32, b: bv8)
    ensures Rest(High(Xor(c, Widen(b)))) == Rest(c)
  {
    RestOfHigh(c, b);
  }

  lemma HighEndsClear(x: bv32)
    ensures EndsClear(WORDS, High(x), BITS)
  {
    HighAsWord(x);
    EmptyByteEndsClear(High(x));
  }

  lemma TurnApart(low: bv32, high: bv32)
    requires EndsClear(WORDS, high, BITS)
    ensures Turn(WORDS, Xor(low, high), BITS) == Xor(Turn(WORDS, low, BITS), Shifted(WORDS, high, BITS))
  {
    WordsAreLawful();
    TurnInTwo(WORDS, low, high, BITS);
  }

  /** A register's high bits are only shifted while its low byte is turned. */
  lemma TurnByParts(x: bv32)
    ensures Turn(WORDS, x, BITS) == Xor(Turn(WORDS, Low(x), BITS), Rest(High(x)))
  {
    SplitAsWords(x);
    HighEndsClear(x);
    ShiftedByByte(High(x));
    TurnApart(Low(x), High(x));
  }

  /** Taking a byte in is one look into the table, and a shift. */
  lemma FeedIsTableStep(c: bv32, b: bv8)
    ensures Feed(WORDS, Widen, c, b) == Xor(Turn(WORDS, Low(Xor(c, Widen(b))), BITS), Rest(c))
  {
    TurnByParts(Xor(c, Widen(b)));
    RestAsWords(c, b);
  }

  lemma EntryOfLow(x: bv32)
    ensures 0 <= Low(x) as int < 256 && Entry(Low(x) as int) == Turn(WORDS, Low(x), BITS)
  {
    LowIsShort(x);
    IndexIsByte(Low(x));
  }

  /** The register the standard starts from and ends with inverted, after a message taken in bit by bit. */
  function SerialCrc(message: seq<bv8>): bv32 {
    Serial(WORDS, ALL_ONES, MessageBits(WORDS, Widen, message)) ^ ALL_ONES
  }

  /** `crc32`: a look into the table for every byte. */
  method Crc32(table: array<bv32>, message: seq<bv8>) returns (crc: bv32)
    requires IsTable(table[..])
    ensures crc == SerialCrc(message)
  {
    TableDrivenIsSerial(message);
    var c := ALL_ONES;
    for i := 0 to |message|
      invariant Run(WORDS, Widen, c, message[i..]) == Run(WORDS, Widen, ALL_ONES, message)
    {
      RunFromThere(WORDS, Widen, c, message, i);
      c := TableStep(table, c, message[i]);
    }
    crc := c ^ ALL_ONES;
  }

  method TableStep(table: array<bv32>, c: bv32, b: bv8) returns (next: bv32)
    requires IsTable(table[..])
    ensures next == Feed(WORDS, Widen, c, b)
  {
    var low := Low(Xor(c, Widen(b)));
    EntryOfLow(Xor(c, Widen(b)));
    assert table[low as int] == table[..][low as int];
    FeedIsTableStep(c, b);
    next := Xor(table[low as int], Rest(c));
  }

  /** The table-driven CRC is the bit-by-bit one, for messages of any length. */
  lemma TableDrivenIsSerial(message: seq<bv8>)
    ensures Run(WORDS, Widen, ALL_ONES, message) ^ ALL_ONES == SerialCrc(message)
  {
    WordsAreLawful();
    forall b ensures Shifted(WORDS, Widen(b), BITS) == WORDS.zero { BytesShiftOut(b); }
    RunIsSerial(WORDS, Widen, ALL_ONES, message);
  }

  lemma BytesShiftOut(b: bv8)
    ensures Shifted(WORDS, Widen(b), BITS) == 0
  {
    ShiftedByByte(Widen(b));
    ByteIsShort(b);
  }

  lemma Inverted(c: bv32, d: bv32)
    requires c ^ ALL_ONES == d ^ ALL_ONES
    ensures c == d
  {
  }

  /** Damage to no more than four bytes in a row, of a message of any length, always changes the CRC. */
  lemma BurstsChangeCrc(before: seq<bv8>, x: seq<bv8>, y: seq<bv8>, after: seq<bv8>)
    requires |x| == |y| <= 4 && x != y
    ensures SerialCrc(before + x + after) != SerialCrc(before + y + after)
  {
    if SerialCrc(before + x + after) == SerialCrc(before + y + after) {
      TableDrivenIsSerial(before + x + after);
      TableDrivenIsSerial(before + y + after);
      Inverted(Run(WORDS, Widen, ALL_ONES, before + x + after), Run(WORDS, Widen, ALL_ONES, before + y + after));
      WordsAreLawful();
      WordsPackBytes();
      BurstsAreSeen(WORDS, Widen, PACKING, ALL_ONES, before, x, y, after);
    }
  }

  /** Messages of the same length that differ in exactly one byte never share a CRC. */
  lemma OneByteChangesCrc(a: seq<bv8>, b: seq<bv8>, i: nat)
    requires |a| == |b| && i < |a| && a[i] != b[i]
    requires forall j :: 0 <= j < |a| && j != i ==> a[j] == b[j]
    ensures SerialCrc(a) != SerialCrc(b)
  {
    var before, after := a[..i], a[i + 1..];
    assert a == before + [a[i]] + after && b == before + [b[i]] + after;
    assert [a[i]][0] != [b[i]][0];
    BurstsChangeCrc(before, [a[i]], [b[i]], after);
  }
}
