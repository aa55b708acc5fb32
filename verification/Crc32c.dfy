/** The table-driven CRC32C against its bit-at-a-time definition, section 12.1 of
    RFC 3720: generator 0x11EDC6F41, bits taken in reflected order, register
    complemented before and after. */
module Crc32c {
  import opened Strides

  /** The generator without its leading term, reflected. */
  const POLY: bv32 := 0x82F63B78

  /** The terms x^31 to x^0 of the generator, the highest one first. */
  const GENERATOR: bv32 := 0x1EDC6F41

  /** The constant in the code is the generator with its bits in reverse order. */
  lemma PolyReflects(k: bv6)
    requires k < 32
    ensures (POLY >> k) & 1 == (GENERATOR >> (31 - k)) & 1
  {
  }

  function Xor(a: bv32, b: bv32): bv32 { a ^ b }

  function Half(c: bv32): bv32 { c >> 1 }

  function Low(c: bv32): bool { c & 1 == 1 }

  function Feedback(low: bool): bv32 { if low then POLY else 0 }

  /** One message bit enters the register: the definition of the code. */
  function BitStep(c: bv32, bit: bool): bv32 {
    Xor(Half(c), Feedback(Low(c) != bit))
  }

  /** Bit k of a byte, the least significant first. */
  function Bit(b: byte, k: nat): bool
    requires k < 8
  {
    (b >> k) & 1 == 1
  }

  /** The first n bits of a byte enter the register. */
  ghost function Bits(c: bv32, b: byte, n: nat): bv32
    requires n <= 8
  {
    if n == 0 then c else BitStep(Bits(c, b, n - 1), Bit(b, n - 1))
  }

  /** The register after a message, bit by bit. */
  ghost function Register(c: bv32, data: seq<byte>): bv32
    decreases |data|
  {
    if data == [] then c else Register(Bits(c, data[0], 8), data[1..])
  }

  /** The register moves on by one place without input. */
  function Shift(c: bv32): bv32 {
    BitStep(c, false)
  }

  ghost function Shifts(c: bv32, n: nat): bv32 {
    if n == 0 then c else Shift(Shifts(c, n - 1))
  }

  lemma XorCommutes(a: bv32, b: bv32)
    ensures Xor(a, b) == Xor(b, a)
  {
  }

  lemma XorOperator(a: bv32, b: bv32)
    ensures Xor(a, b) == a ^ b
  {
  }

  lemma OperatorGroups(a: bv32, b: bv32, c: bv32)
    ensures (a ^ b) ^ c == a ^ (b ^ c)
  {
  }

  lemma XorGroups(a: bv32, b: bv32, c: bv32)
    ensures Xor(Xor(a, b), c) == Xor(a, Xor(b, c))
  {
    hide Xor;
    XorOperator(a, b);
    XorOperator(b, c);
    XorOperator(a ^ b, c);
    XorOperator(a, b ^ c);
    OperatorGroups(a, b, c);
  }

  lemma XorCancels(a: bv32, b: bv32, c: bv32)
    requires Xor(a, b) == Xor(a, c)
    ensures b == c
  {
  }

  lemma XorMixed(a: bv32, b: bv32, p: bv32, q: bv32)
    ensures Xor(Xor(a, b), Xor(p, q)) == Xor(Xor(a, p), Xor(b, q))
  {
    hide Xor;
    XorGroups(a, b, Xor(p, q));
    XorGroups(b, p, q);
    XorCommutes(b, p);
    XorGroups(p, b, q);
    XorGroups(a, p, Xor(b, q));
  }

  lemma HalfXor(x: bv32, y: bv32)
    ensures Half(Xor(x, y)) == Xor(Half(x), Half(y))
  {
  }

  lemma LowXor(x: bv32, y: bv32)
    ensures Low(Xor(x, y)) <==> Low(x) != Low(y)
  {
  }

  lemma FeedbackXor(a: bool, b: bool)
    ensures Feedback(a != b) == Xor(Feedback(a), Feedback(b))
  {
  }

  /** The bit step is linear in the register and the bit. */
  lemma BitStepLinear(x: bv32, y: bv32, a: bool, b: bool)
    ensures BitStep(Xor(x, y), a != b) == Xor(BitStep(x, a), BitStep(y, b))
  {
    hide Feedback, Half, Low, Xor;
    HalfXor(x, y);
    LowXor(x, y);
    FeedbackXor(Low(x) != a, Low(y) != b);
    XorMixed(Half(x), Half(y), Feedback(Low(x) != a), Feedback(Low(y) != b));
  }

  lemma {:induction false} ShiftsLinear(x: bv32, y: bv32, n: nat)
    ensures Shifts(Xor(x, y), n) == Xor(Shifts(x, n), Shifts(y, n))
  {
    if n > 0 {
      hide BitStep, Xor;
      ShiftsLinear(x, y, n - 1);
      BitStepLinear(Shifts(x, n - 1), Shifts(y, n - 1), false, false);
    }
  }

  /** The register can be wound back: no two registers move to the same one. */
  lemma ShiftInjective(x: bv32, y: bv32)
    requires Shift(x) == Shift(y)
    ensures x == y
  {
  }

  lemma {:induction false} ShiftsInjective(x: bv32, y: bv32, n: nat)
    requires Shifts(x, n) == Shifts(y, n)
    ensures x == y
  {
    if n > 0 {
      hide Shift;
      ShiftInjective(Shifts(x, n - 1), Shifts(y, n - 1));
      ShiftsInjective(x, y, n - 1);
    }
  }

  lemma ShiftsEight(c: bv32)
    ensures Shifts(c, 8) == Shift(Shift(Shift(Shift(Shift(Shift(Shift(Shift(c))))))))
  {
    hide Shift;
    assert Shifts(c, 1) == Shift(c);
    assert Shifts(c, 2) == Shift(Shifts(c, 1));
    assert Shifts(c, 3) == Shift(Shifts(c, 2));
    assert Shifts(c, 4) == Shift(Shifts(c, 3));
    assert Shifts(c, 5) == Shift(Shifts(c, 4));
    assert Shifts(c, 6) == Shift(Shifts(c, 5));
    assert Shifts(c, 7) == Shift(Shifts(c, 6));
  }

  function Down(c: bv32, k: bv6): bv32
    requires k <= 8
  {
    c >> k
  }

  /** While the low byte is clear nothing is fed back. */
  lemma DownStep(c: bv32, k: bv6)
    requires c & 0xFF == 0 && k < 8
    ensures Shift(Down(c, k)) == Down(c, k + 1)
  {
    DownClear(c, k);
    DownFurther(c, k);
    XorZero(Half(Down(c, k)));
  }

  lemma DownClear(c: bv32, k: bv6)
    requires c & 0xFF == 0 && k < 8
    ensures !Low(Down(c, k))
  {
  }

  lemma DownFurther(c: bv32, k: bv6)
    requires k < 8
    ensures Half(Down(c, k)) == Down(c, k + 1)
  {
  }

  lemma DownEnds(c: bv32)
    ensures Down(c, 0) == c && Down(c, 8) == HighBytes(c)
  {
  }

  lemma ShiftsClear(c: bv32)
    requires c & 0xFF == 0
    ensures Shifts(c, 8) == HighBytes(c)
  {
    hide Shift, Shifts, Down, HighBytes;
    ShiftsEight(c);
    DownEnds(c);
    DownStep(c, 0);
    DownStep(c, 1);
    DownStep(c, 2);
    DownStep(c, 3);
    DownStep(c, 4);
    DownStep(c, 5);
    DownStep(c, 6);
    DownStep(c, 7);
  }

  function LowByte(c: bv32): bv32 { c & 0xFF }

  function HighBytes(c: bv32): bv32 { c >> 8 }

  lemma ByteSplit(c: bv32)
    ensures c == Xor(c & 0xFFFFFF00, LowByte(c))
    ensures HighBytes(c & 0xFFFFFF00) == HighBytes(c) && (c & 0xFFFFFF00) & 0xFF == 0
  {
  }

  /** Eight places at once: the low byte alone decides what is fed back. */
  lemma ShiftsByByte(c: bv32)
    ensures Shifts(c, 8) == Xor(HighBytes(c), Shifts(LowByte(c), 8))
  {
    hide Xor, Shifts, LowByte, HighBytes;
    ByteSplit(c);
    ShiftsLinear(c & 0xFFFFFF00, LowByte(c), 8);
    ShiftsClear(c & 0xFFFFFF00);
  }

  function Wide(b: byte): bv32 { b as bv32 }

  /** What is left of a byte when its first n bits have entered. */
  function Rest(b: byte, n: nat): byte
    requires n <= 8
  {
    b >> n
  }

  lemma RestStep(b: byte, n: nat)
    requires n < 8
    ensures BitStep(Wide(Rest(b, n)), Bit(b, n)) == Wide(Rest(b, n + 1))
  {
  }

  lemma RestEnds(b: byte)
    ensures Wide(Rest(b, 0)) == Wide(b) && Wide(Rest(b, 8)) == 0
  {
  }

  lemma XorZero(c: bv32)
    ensures Xor(c, 0) == c && Xor(0, c) == c
  {
  }

  /** Bits entering one by one are the same as the byte laid over the register first. */
  lemma {:induction false} BitsAreShifts(c: bv32, b: byte, n: nat)
    requires n <= 8
    ensures Shifts(Xor(c, Wide(b)), n) == Xor(Bits(c, b, n), Wide(Rest(b, n)))
  {
    hide Xor, BitStep, Wide, Rest;
    if n == 0 {
      RestEnds(b);
    } else {
      BitsAreShifts(c, b, n - 1);
      RestStep(b, n - 1);
      BitStepLinear(Bits(c, b, n - 1), Wide(Rest(b, n - 1)), Bit(b, n - 1), Bit(b, n - 1));
    }
  }

  /** One table step is eight bit steps. */
  lemma TableStep(c: bv32, b: byte)
    ensures Xor(HighBytes(c), Shifts(LowByte(Xor(c, Wide(b))), 8)) == Bits(c, b, 8)
  {
    hide Xor, BitStep, Wide, Rest, HighBytes, LowByte, Shifts, Bits;
    BitsAreShifts(c, b, 8);
    RestEnds(b);
    XorZero(Bits(c, b, 8));
    ShiftsByByte(Xor(c, Wide(b)));
    HighUntouched(c, b);
  }

  lemma HighUntouched(c: bv32, b: byte)
    ensures HighBytes(Xor(c, Wide(b))) == HighBytes(c)
  {
  }

  /** The code's branch-free form of a shift. */
  lemma MaskedShift(c: bv32)
    ensures (c >> 1) ^ (POLY & (0 - (c & 1))) == Shift(c)
  {
  }

  function Index(c: bv32): (i: nat)
    ensures i < 256 && i as bv32 == LowByte(c)
  {
    LowByte(c) as nat
  }

  class Checksums {
    const table: array<bv32>
    var inited: bool

    ghost predicate Valid()
      reads this, table
    {
      table.Length == 256 && (inited ==> Filled(256))
    }

    ghost predicate Filled(n: nat)
      requires n <= table.Length == 256
      reads table
    {
      forall i :: 0 <= i < n ==> table[i] == Shifts(i as bv32, 8)
    }

    constructor ()
      ensures Valid() && fresh(table)
    {
      table, inited := new bv32[256], false;
    }

    method Init()
      requires Valid()
      modifies this, table
      ensures Valid() && inited
    {
      hide Shift;
      for i := 0 to 256
        invariant Filled(i)
      {
        var c := i as bv32;
        for k := 0 to 8
          invariant Filled(i) && c == Shifts(i as bv32, k)
        {
          MaskedShift(c);
          c := (c >> 1) ^ (POLY & (0 - (c & 1)));
        }
        table[i] := c;
      }
      inited := true;
    }

    /** Feed data into a checksum: the table-driven loop computes the bitwise register. */
    method Execute(state: bv32, data: seq<byte>) returns (state': bv32)
      requires Valid() && |data| > 0
      modifies this, table
      ensures Valid() && state' == Checksum(state, data)
    {
      hide Shifts, Bits, HighBytes, Index, Xor, Wide, Complement;
      if !inited {
        Init();
      }
      var c := Complement(state);
      assert data[0..] == data;
      for i := 0 to |data|
        invariant Filled(256) && Register(c, data[i..]) == Register(Complement(state), data)
      {
        TableStep(c, data[i]);
        c := Xor(HighBytes(c), table[Index(Xor(c, Wide(data[i])))]);
      }
      state' := Complement(c);
    }
  }

  function Complement(c: bv32): bv32 { !c }

  /** The checksum of a message on top of an earlier checksum. */
  ghost function Checksum(state: bv32, data: seq<byte>): bv32 {
    Complement(Register(Complement(state), data))
  }

  lemma {:induction false} RegisterJoins(c: bv32, a: seq<byte>, b: seq<byte>)
    ensures Register(c, a + b) == Register(Register(c, a), b)
    decreases |a|
  {
    if a == [] {
      assert a + b == b;
    } else {
      assert (a + b)[1..] == a[1..] + b;
      RegisterJoins(Bits(c, a[0], 8), a[1..], b);
    }
  }

  lemma ComplementTwice(c: bv32)
    ensures Complement(Complement(c)) == c
  {
  }

  /** Checksumming in pieces is checksumming the whole. */
  lemma ChecksumJoins(state: bv32, a: seq<byte>, b: seq<byte>)
    ensures Checksum(state, a + b) == Checksum(Checksum(state, a), b)
  {
    hide Complement, Register;
    RegisterJoins(Complement(state), a, b);
    ComplementTwice(Register(Complement(state), a));
  }

  /** A byte that enters: a bijection of the register. */
  lemma BitsEight(c: bv32, b: byte)
    ensures Bits(c, b, 8) == Shifts(Xor(c, Wide(b)), 8)
  {
    hide Xor, Wide, Bits, Shifts, Rest;
    BitsAreShifts(c, b, 8);
    RestEnds(b);
    XorZero(Bits(c, b, 8));
  }

  lemma {:induction false} RegisterInjective(c: bv32, c': bv32, data: seq<byte>)
    requires Register(c, data) == Register(c', data)
    ensures c == c'
    decreases |data|
  {
    if data != [] {
      hide Bits, Shifts, Xor, Wide;
      var w := Wide(data[0]);
      RegisterInjective(Bits(c, data[0], 8), Bits(c', data[0], 8), data[1..]);
      BitsEight(c, data[0]);
      BitsEight(c', data[0]);
      ShiftsInjective(Xor(c, w), Xor(c', w), 8);
      XorCommutes(c, w);
      XorCommutes(c', w);
      XorCancels(w, c, c');
    }
  }

  function Up(c: bv32): bv32 { c << 8 }

  /** Up to four bytes as a register value, the first byte lowest. */
  ghost function Word(w: seq<byte>): bv32 {
    if w == [] then 0 else Xor(Wide(w[0]), Up(Word(w[1..])))
  }

  ghost function Lowered(c: bv32, n: nat): bv32 {
    if n == 0 then c else Lowered(HighBytes(c), n - 1)
  }

  /** c occupies the low n bytes only. */
  ghost predicate Narrow(c: bv32, n: nat) {
    Lowered(c, n) == 0
  }

  lemma {:induction false} NarrowMore(c: bv32, n: nat, m: nat)
    requires n <= m && Narrow(c, n)
    ensures Narrow(c, m)
    decreases m
  {
    ZeroLowered();
    if n > 0 {
      hide HighBytes;
      NarrowMore(HighBytes(c), n - 1, m - 1);
    } else if m > 0 {
      hide HighBytes;
      NarrowMore(c, 0, m - 1);
    }
  }

  lemma ZeroLowered()
    ensures HighBytes(0) == 0
  {
  }

  lemma {:induction false} WordNarrow(w: seq<byte>)
    requires |w| <= 3
    ensures Narrow(Word(w), |w|) && TopClear(Word(w))
  {
    hide Xor, Wide, Up, HighBytes, TopClear;
    if w != [] {
      WordNarrow(w[1..]);
      ByteBelow(w[0], Word(w[1..]));
    }
    NarrowMore(Word(w), |w|, 3);
    assert Lowered(Word(w), 3) == HighBytes(HighBytes(HighBytes(Word(w)))) by {
      assert Lowered(HighBytes(Word(w)), 2) == Lowered(HighBytes(HighBytes(Word(w))), 1);
    }
    TopMeaning(Word(w));
  }

  /** The topmost byte is free. */
  predicate TopClear(c: bv32) { c & 0xFF000000 == 0 }

  lemma TopMeaning(c: bv32)
    requires HighBytes(HighBytes(HighBytes(c))) == 0
    ensures TopClear(c)
  {
  }

  /** The bytes above come down unchanged. */
  lemma UpShifts(c: bv32)
    requires TopClear(c)
    ensures Shifts(Up(c), 8) == c
  {
    hide Up, HighBytes, Shifts, TopClear;
    UpDown(c);
    ShiftsClear(Up(c));
  }

  lemma UpDown(c: bv32)
    requires TopClear(c)
    ensures Up(c) & 0xFF == 0 && HighBytes(Up(c)) == c
  {
  }

  lemma WideInjective(b: byte, b': byte)
    requires Wide(b) == Wide(b')
    ensures b == b'
  {
  }

  /** A byte with a narrow word above it can be told apart again. */
  lemma ByteBelow(b: byte, c: bv32)
    requires TopClear(c)
    ensures LowByte(Xor(Wide(b), Up(c))) == Wide(b) && HighBytes(Xor(Wide(b), Up(c))) == c
  {
  }

  lemma {:induction false} WordInjective(w: seq<byte>, w': seq<byte>)
    requires |w| == |w'| <= 4 && Word(w) == Word(w')
    ensures w == w'
    decreases |w|
  {
    if w != [] {
      hide TopClear, Xor, Wide, Up, LowByte, HighBytes;
      WordNarrow(w[1..]);
      WordNarrow(w'[1..]);
      ByteBelow(w[0], Word(w[1..]));
      ByteBelow(w'[0], Word(w'[1..]));
      WideInjective(w[0], w'[0]);
      WordInjective(w[1..], w'[1..]);
      assert w == [w[0]] + w[1..];
    }
  }

  lemma {:induction false} ShiftsAdd(c: bv32, n: nat, m: nat)
    ensures Shifts(c, n + m) == Shifts(Shifts(c, n), m)
  {
    if m > 0 {
      hide Shift;
      ShiftsAdd(c, n, m - 1);
    }
  }

  /** Up to four bytes enter the register as one word. */
  lemma {:induction false} RegisterWord(c: bv32, w: seq<byte>)
    requires |w| <= 4
    ensures Register(c, w) == Shifts(Xor(c, Word(w)), 8 * |w|)
    decreases |w|
  {
    hide TopClear, Xor, Wide, Up, Bits, Shift;
    if w == [] {
      XorZero(c);
    } else {
      var rest, x := Word(w[1..]), Xor(c, Wide(w[0]));
      RegisterWord(Bits(c, w[0], 8), w[1..]);
      BitsEight(c, w[0]);
      WordNarrow(w[1..]);
      UpShifts(rest);
      ShiftsLinear(x, Up(rest), 8);
      XorGroups(c, Wide(w[0]), Up(rest));
      ShiftsAdd(Xor(c, Word(w)), 8, 8 * |w[1..]|);
    }
  }

  /** Damage confined to four neighbouring bytes of a message of any length always
      changes the checksum. */
  lemma BurstDetected(state: bv32, a: seq<byte>, w: seq<byte>, w': seq<byte>, z: seq<byte>)
    requires |w| == |w'| <= 4 && w != w'
    ensures Checksum(state, a + w + z) != Checksum(state, a + w' + z)
  {
    hide Complement, Register, Shifts, Xor, Word;
    if Checksum(state, a + w + z) == Checksum(state, a + w' + z) {
      var c := Register(Complement(state), a);
      RegisterJoins(Complement(state), a + w, z);
      RegisterJoins(Complement(state), a, w);
      RegisterJoins(Complement(state), a + w', z);
      RegisterJoins(Complement(state), a, w');
      ComplementTwice(Register(Complement(state), a + w + z));
      ComplementTwice(Register(Complement(state), a + w' + z));
      RegisterInjective(Register(c, w), Register(c, w'), z);
      RegisterWord(c, w);
      RegisterWord(c, w');
      ShiftsInjective(Xor(c, Word(w)), Xor(c, Word(w')), 8 * |w|);
      XorCancels(c, Word(w), Word(w'));
      WordInjective(w, w');
    }
  }

  // ------------------------------------------------------------------ residue

  /** The four bytes of a word, the lowest first. */
  ghost function LowFirst(c: bv32): seq<byte> {
    [(c & 0xFF) as byte, ((c >> 8) & 0xFF) as byte, ((c >> 16) & 0xFF) as byte, (c >> 24) as byte]
  }

  lemma ByteLaid(b: byte, c: bv32)
    ensures Xor(Wide(b), Up(c)) == (b as bv32) ^ (c << 8)
  {
  }

  lemma BytesOfWord(c: bv32)
    ensures var w3 := ((c >> 24) as byte as bv32) ^ (0 << 8);
            var w2 := (((c >> 16) & 0xFF) as byte as bv32) ^ (w3 << 8);
            var w1 := (((c >> 8) & 0xFF) as byte as bv32) ^ (w2 << 8);
            ((c & 0xFF) as byte as bv32) ^ (w1 << 8) == c
  {
  }

  lemma WordOfBytes(c: bv32)
    ensures Word(LowFirst(c)) == c
  {
    hide Xor, Wide, Up;
    var w := LowFirst(c);
    assert Word(w[4..]) == 0;
    assert Word(w[3..]) == Xor(Wide(w[3]), Up(Word(w[4..]))) by { assert w[3..][1..] == w[4..]; }
    assert Word(w[2..]) == Xor(Wide(w[2]), Up(Word(w[3..]))) by { assert w[2..][1..] == w[3..]; }
    assert Word(w[1..]) == Xor(Wide(w[1]), Up(Word(w[2..]))) by { assert w[1..][1..] == w[2..]; }
    ByteLaid(w[3], 0);
    ByteLaid(w[2], Word(w[3..]));
    ByteLaid(w[1], Word(w[2..]));
    ByteLaid(w[0], Word(w[1..]));
    BytesOfWord(c);
  }

  /** Thirty-two shifts of a register of ones, eight at a time. */
  lemma OnesShifted()
    ensures Shifts(0xFFFF_FFFF, 32) == 0xB798_B438
  {
    hide Shifts;
    EightShifts1();
    EightShifts2();
    EightShifts3();
    EightShifts4();
    ShiftsAdd(0xFFFF_FFFF, 8, 8);
    ShiftsAdd(0xFFFF_FFFF, 16, 8);
    ShiftsAdd(0xFFFF_FFFF, 24, 8);
  }

  lemma EightShifts1()
    ensures Shifts(0xFFFF_FFFF, 8) == 0xAD82_ACAE
  {
    hide Shift, Shifts;
    ShiftsEight(0xFFFF_FFFF);
    SingleShifts1();
  }

  lemma SingleShifts1()
    ensures Shift(0xFFFF_FFFF) == 0xFD09_C487 && Shift(0xFD09_C487) == 0xFC72_D93B
    ensures Shift(0xFC72_D93B) == 0xFCCF_57E5 && Shift(0xFCCF_57E5) == 0xFC91_908A
    ensures Shift(0xFC91_908A) == 0x7E48_C845 && Shift(0x7E48_C845) == 0xBDD2_5F5A
    ensures Shift(0xBDD2_5F5A) == 0x5EE9_2FAD && Shift(0x5EE9_2FAD) == 0xAD82_ACAE
  {
  }

  lemma EightShifts2()
    ensures Shifts(0xAD82_ACAE, 8) == 0x0E9E_882D
  {
    hide Shift, Shifts;
    ShiftsEight(0xAD82_ACAE);
    SingleShifts2();
  }

  lemma SingleShifts2()
    ensures Shift(0xAD82_ACAE) == 0x56C1_5657 && Shift(0x56C1_5657) == 0xA996_9053
    ensures Shift(0xA996_9053) == 0xD63D_7351 && Shift(0xD63D_7351) == 0xE9E8_82D0
    ensures Shift(0xE9E8_82D0) == 0x74F4_4168 && Shift(0x74F4_4168) == 0x3A7A_20B4
    ensures Shift(0x3A7A_20B4) == 0x1D3D_105A && Shift(0x1D3D_105A) == 0x0E9E_882D
  {
  }

  lemma EightShifts3()
    ensures Shifts(0x0E9E_882D, 8) == 0x9F9B_5C85
  {
    hide Shift, Shifts;
    ShiftsEight(0x0E9E_882D);
    SingleShifts3();
  }

  lemma SingleShifts3()
    ensures Shift(0x0E9E_882D) == 0x85B9_7F6E && Shift(0x85B9_7F6E) == 0x42DC_BFB7
    ensures Shift(0x42DC_BFB7) == 0xA398_64A3 && Shift(0xA398_64A3) == 0xD33A_0929
    ensures Shift(0xD33A_0929) == 0xEB6B_3FEC && Shift(0xEB6B_3FEC) == 0x75B5_9FF6
    ensures Shift(0x75B5_9FF6) == 0x3ADA_CFFB && Shift(0x3ADA_CFFB) == 0x9F9B_5C85
  {
  }

  lemma EightShifts4()
    ensures Shifts(0x9F9B_5C85, 8) == 0xB798_B438
  {
    hide Shift, Shifts;
    ShiftsEight(0x9F9B_5C85);
    SingleShifts4();
  }

  lemma SingleShifts4()
    ensures Shift(0x9F9B_5C85) == 0xCD3B_953A && Shift(0xCD3B_953A) == 0x669D_CA9D
    ensures Shift(0x669D_CA9D) == 0xB1B8_DE36 && Shift(0xB1B8_DE36) == 0x58DC_6F1B
    ensures Shift(0x58DC_6F1B) == 0xAE98_0CF5 && Shift(0xAE98_0CF5) == 0xD5BA_3D02
    ensures Shift(0xD5BA_3D02) == 0x6ADD_1E81 && Shift(0x6ADD_1E81) == 0xB798_B438
  {
  }

  lemma ComplementXor(c: bv32)
    ensures Xor(c, Complement(c)) == 0xFFFF_FFFF && Complement(0xB798_B438) == 0x4867_4BC7
  {
  }

  /** The residue law: a message followed by its own checksum, lowest byte first, always
      has the same checksum, whatever the message and the start state are. */
  lemma Residue(state: bv32, m: seq<byte>)
    ensures Checksum(state, m + LowFirst(Checksum(state, m))) == 0x4867_4BC7
  {
    hide Complement, Register, Shifts, Xor, Word, LowFirst;
    var c := Register(Complement(state), m);
    var w := LowFirst(Checksum(state, m));
    RegisterJoins(Complement(state), m, w);
    assert |w| == 4 by { FourBytes(Checksum(state, m)); }
    RegisterWord(c, w);
    WordOfBytes(Checksum(state, m));
    ComplementXor(c);
    OnesShifted();
  }

  lemma FourBytes(c: bv32)
    ensures |LowFirst(c)| == 4
  {
  }
}
