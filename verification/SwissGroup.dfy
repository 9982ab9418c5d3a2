/**
 The portable 8-byte probe group of include/sdb/cwisstable.h: control bytes,
 the 64-bit tricks that test eight of them at once, and what each trick says
 about every single byte.
 */
module SwissGroup {

  /** A control byte: empty 1000_0000, deleted 1111_1110, sentinel 1111_1111,
      full 0hhh_hhhh. */
  datatype Ctrl = Empty | Deleted | Sentinel | Full(h2: bv7)

  function Byte(c: Ctrl): bv8 {
    match c
    case Empty => 0x80
    case Deleted => 0xFE
    case Sentinel => 0xFF
    case Full(h) => h as bv8
  }

  const WIDTH: nat := 8
  const MSBS: bv64 := 0x8080_8080_8080_8080
  const LSBS: bv64 := 0x0101_0101_0101_0101

  /** `CWISS_Group_new`: eight control bytes, the first one lowest. */
  function Load(w: seq<Ctrl>): bv64
    requires |w| == 8
  {
    Word(Byte(w[0]), Byte(w[1]), Byte(w[2]), Byte(w[3]), Byte(w[4]), Byte(w[5]), Byte(w[6]), Byte(w[7]))
  }

  function Word(a: bv8, b: bv8, c: bv8, d: bv8, e: bv8, f: bv8, g: bv8, h: bv8): bv64 {
    a as bv64 | (b as bv64 << 8) | (c as bv64 << 16) | (d as bv64 << 24)
    | (e as bv64 << 32) | (f as bv64 << 40) | (g as bv64 << 48) | (h as bv64 << 56)
  }

  /** Lane `j` of a mask is its top bit. */
  predicate Lane(m: bv64, j: nat) {
    match j
    case 0 => m & 0x80 != 0
    case 1 => m & 0x8000 != 0
    case 2 => m & 0x80_0000 != 0
    case 3 => m & 0x8000_0000 != 0
    case 4 => m & 0x80_0000_0000 != 0
    case 5 => m & 0x8000_0000_0000 != 0
    case 6 => m & 0x80_0000_0000_0000 != 0
    case 7 => m & 0x8000_0000_0000_0000 != 0
    case _ => false
  }

  predicate IsMask(m: bv64) {
    m & !MSBS == 0
  }

  function MatchEmpty(g: bv64): bv64 {
    (g & (!g << 6)) & MSBS
  }

  function MatchEmptyOrDeleted(g: bv64): bv64 {
    (g & (!g << 7)) & MSBS
  }

  /** May report a lane that does not hold `h`, but never a special byte. */
  function Match(g: bv64, h: bv7): bv64 {
    Agree(g, LSBS * (h as bv64))
  }

  lemma Spread(k: bv7)
    ensures LSBS * (k as bv64)
            == Word(k as bv8, k as bv8, k as bv8, k as bv8, k as bv8, k as bv8, k as bv8, k as bv8)
  {
  }

  /** `x` with byte `j` moved to the bottom. */
  function Shift(x: bv64, j: nat): bv64 {
    match j
    case 0 => x
    case 1 => x >> 8
    case 2 => x >> 16
    case 3 => x >> 24
    case 4 => x >> 32
    case 5 => x >> 40
    case 6 => x >> 48
    case _ => x >> 56
  }

  function Low(x: bv64): bv64 {
    x & 0xFF
  }

  function ByteOf(x: bv64, j: nat): bv64 {
    Low(Shift(x, j))
  }

  /** The top bit is clear. */
  predicate Clear(b: bv64) {
    b & 0x80 == 0
  }

  /** Lane `j` of `m` is set where `g` and `s` agree and clear where `g` has a
      top bit that `s` lacks. */
  predicate Shows(g: bv64, s: bv64, m: bv64, j: nat) {
    && (ByteOf(g, j) == ByteOf(s, j) ==> Lane(m, j))
    && (Lane(m, j) && Clear(ByteOf(s, j)) ==> Clear(ByteOf(g, j)))
  }

  function Agree(g: bv64, s: bv64): bv64 {
    var x := g ^ s;
    (x - LSBS) & !x & MSBS
  }

  /** The zero-byte trick: a zero byte always shows, a byte with its top bit set
      never does. */
  predicate ShowsZero(x: bv64, m: bv64, j: nat) {
    (Lane(m, j) ==> Clear(ByteOf(x, j))) && (ByteOf(x, j) == 0 ==> Lane(m, j))
  }

  lemma ZeroLanes(x: bv64)
    ensures IsMask((x - LSBS) & !x & MSBS)
    ensures ShowsZero(x, (x - LSBS) & !x & MSBS, 0)
    ensures ShowsZero(x, (x - LSBS) & !x & MSBS, 1)
    ensures ShowsZero(x, (x - LSBS) & !x & MSBS, 2)
    ensures ShowsZero(x, (x - LSBS) & !x & MSBS, 3)
    ensures ShowsZero(x, (x - LSBS) & !x & MSBS, 4)
    ensures ShowsZero(x, (x - LSBS) & !x & MSBS, 5)
    ensures ShowsZero(x, (x - LSBS) & !x & MSBS, 6)
    ensures ShowsZero(x, (x - LSBS) & !x & MSBS, 7)
  {
  }

  /** Byte `j` of the xor is zero where the bytes agree, and has `g`'s top bit
      where `s` has none. */
  predicate Differs(g: bv64, s: bv64, j: nat) {
    && (ByteOf(g, j) == ByteOf(s, j) ==> ByteOf(g ^ s, j) == 0)
    && (Clear(ByteOf(s, j)) && Clear(ByteOf(g ^ s, j)) ==> Clear(ByteOf(g, j)))
  }

  lemma SameByte(g: bv64, s: bv64, j: nat)
    requires j < 8 && ByteOf(g, j) == ByteOf(s, j)
    ensures ByteOf(g ^ s, j) == 0
  {
    hide ByteOf;
    match j {
      case 0 => SameAt0(g, s);
      case 1 => SameAt1(g, s);
      case 2 => SameAt2(g, s);
      case 3 => SameAt3(g, s);
      case 4 => SameAt4(g, s);
      case 5 => SameAt5(g, s);
      case 6 => SameAt6(g, s);
      case _ => SameAt7(g, s);
    }
  }

  lemma SameAt0(g: bv64, s: bv64)
    requires ByteOf(g, 0) == ByteOf(s, 0)
    ensures ByteOf(g ^ s, 0) == 0
  {
  }

  lemma SameAt1(g: bv64, s: bv64)
    requires ByteOf(g, 1) == ByteOf(s, 1)
    ensures ByteOf(g ^ s, 1) == 0
  {
  }

  lemma SameAt2(g: bv64, s: bv64)
    requires ByteOf(g, 2) == ByteOf(s, 2)
    ensures ByteOf(g ^ s, 2) == 0
  {
  }

  lemma SameAt3(g: bv64, s: bv64)
    requires ByteOf(g, 3) == ByteOf(s, 3)
    ensures ByteOf(g ^ s, 3) == 0
  {
  }

  lemma SameAt4(g: bv64, s: bv64)
    requires ByteOf(g, 4) == ByteOf(s, 4)
    ensures ByteOf(g ^ s, 4) == 0
  {
  }

  lemma SameAt5(g: bv64, s: bv64)
    requires ByteOf(g, 5) == ByteOf(s, 5)
    ensures ByteOf(g ^ s, 5) == 0
  {
  }

  lemma SameAt6(g: bv64, s: bv64)
    requires ByteOf(g, 6) == ByteOf(s, 6)
    ensures ByteOf(g ^ s, 6) == 0
  {
  }

  lemma SameAt7(g: bv64, s: bv64)
    requires ByteOf(g, 7) == ByteOf(s, 7)
    ensures ByteOf(g ^ s, 7) == 0
  {
  }

  lemma SameTop(g: bv64, s: bv64, j: nat)
    requires j < 8 && Clear(ByteOf(s, j)) && Clear(ByteOf(g ^ s, j))
    ensures Clear(ByteOf(g, j))
  {
  }

  lemma DiffersAt(g: bv64, s: bv64, j: nat)
    requires j < 8
    ensures Differs(g, s, j)
  {
    if ByteOf(g, j) == ByteOf(s, j) {
      SameByte(g, s, j);
    }
    if Clear(ByteOf(s, j)) && Clear(ByteOf(g ^ s, j)) {
      SameTop(g, s, j);
    }
  }

  predicate IsByte(x: bv64, j: nat, b: bv8) {
    ByteOf(x, j) == b as bv64
  }

  lemma WordBytes(a: bv8, b: bv8, c: bv8, d: bv8, e: bv8, f: bv8, g: bv8, h: bv8)
    ensures var x := Word(a, b, c, d, e, f, g, h);
            && IsByte(x, 0, a) && IsByte(x, 1, b) && IsByte(x, 2, c) && IsByte(x, 3, d)
            && IsByte(x, 4, e) && IsByte(x, 5, f) && IsByte(x, 6, g) && IsByte(x, 7, h)
  {
  }

  /** Each byte of a loaded group is the byte of its control state. */
  lemma LoadBytes(w: seq<Ctrl>, j: nat)
    requires |w| == 8 && j < 8
    ensures IsByte(Load(w), j, Byte(w[j]))
  {
    hide Word, IsByte, Byte;
    WordBytes(Byte(w[0]), Byte(w[1]), Byte(w[2]), Byte(w[3]), Byte(w[4]), Byte(w[5]), Byte(w[6]), Byte(w[7]));
    if j == 0 {
    } else if j == 1 {
    } else if j == 2 {
    } else if j == 3 {
    } else if j == 4 {
    } else if j == 5 {
    } else if j == 6 {
    } else {
      assert j == 7;
    }
  }

  // --- what the three tests say about a lane ---

  /** The two bits that tell an empty or deleted byte. */
  predicate RoomByte(b: bv64) {
    b & 0x81 == 0x80
  }

  /** The two bits that tell an empty byte. */
  predicate EmptyByte(b: bv64) {
    b & 0x82 == 0x80
  }

  lemma EmptyOrDeletedBits(g: bv64)
    ensures IsMask(MatchEmptyOrDeleted(g))
    ensures Lane(MatchEmptyOrDeleted(g), 0) <==> RoomByte(ByteOf(g, 0))
    ensures Lane(MatchEmptyOrDeleted(g), 1) <==> RoomByte(ByteOf(g, 1))
    ensures Lane(MatchEmptyOrDeleted(g), 2) <==> RoomByte(ByteOf(g, 2))
    ensures Lane(MatchEmptyOrDeleted(g), 3) <==> RoomByte(ByteOf(g, 3))
    ensures Lane(MatchEmptyOrDeleted(g), 4) <==> RoomByte(ByteOf(g, 4))
    ensures Lane(MatchEmptyOrDeleted(g), 5) <==> RoomByte(ByteOf(g, 5))
    ensures Lane(MatchEmptyOrDeleted(g), 6) <==> RoomByte(ByteOf(g, 6))
    ensures Lane(MatchEmptyOrDeleted(g), 7) <==> RoomByte(ByteOf(g, 7))
  {
  }

  lemma EmptyBits(g: bv64)
    ensures IsMask(MatchEmpty(g))
    ensures Lane(MatchEmpty(g), 0) <==> EmptyByte(ByteOf(g, 0))
    ensures Lane(MatchEmpty(g), 1) <==> EmptyByte(ByteOf(g, 1))
    ensures Lane(MatchEmpty(g), 2) <==> EmptyByte(ByteOf(g, 2))
    ensures Lane(MatchEmpty(g), 3) <==> EmptyByte(ByteOf(g, 3))
    ensures Lane(MatchEmpty(g), 4) <==> EmptyByte(ByteOf(g, 4))
    ensures Lane(MatchEmpty(g), 5) <==> EmptyByte(ByteOf(g, 5))
    ensures Lane(MatchEmpty(g), 6) <==> EmptyByte(ByteOf(g, 6))
    ensures Lane(MatchEmpty(g), 7) <==> EmptyByte(ByteOf(g, 7))
  {
  }

  lemma RoomLane(g: bv64, j: nat)
    requires j < 8
    ensures IsMask(MatchEmptyOrDeleted(g)) && (Lane(MatchEmptyOrDeleted(g), j) <==> RoomByte(ByteOf(g, j)))
  {
    hide MatchEmptyOrDeleted, Lane, ByteOf, RoomByte, IsMask;
    EmptyOrDeletedBits(g);
    if j == 0 {
    } else if j == 1 {
    } else if j == 2 {
    } else if j == 3 {
    } else if j == 4 {
    } else if j == 5 {
    } else if j == 6 {
    } else {
      assert j == 7;
    }
  }

  lemma EmptyLane(g: bv64, j: nat)
    requires j < 8
    ensures IsMask(MatchEmpty(g)) && (Lane(MatchEmpty(g), j) <==> EmptyByte(ByteOf(g, j)))
  {
    hide MatchEmpty, Lane, ByteOf, EmptyByte, IsMask;
    EmptyBits(g);
    if j == 0 {
    } else if j == 1 {
    } else if j == 2 {
    } else if j == 3 {
    } else if j == 4 {
    } else if j == 5 {
    } else if j == 6 {
    } else {
      assert j == 7;
    }
  }

  lemma ByteKinds(c: Ctrl)
    ensures RoomByte(Byte(c) as bv64) <==> c.Empty? || c.Deleted?
    ensures EmptyByte(Byte(c) as bv64) <==> c.Empty?
  {
  }

  lemma LoadByte(w: seq<Ctrl>, j: nat)
    requires |w| == 8 && j < 8
    ensures ByteOf(Load(w), j) == Byte(w[j]) as bv64
  {
    hide Load, ByteOf, Byte;
    LoadBytes(w, j);
  }

  lemma EmptyOrDeletedLanes(w: seq<Ctrl>, j: nat)
    requires |w| == 8 && j < 8
    ensures IsMask(MatchEmptyOrDeleted(Load(w)))
    ensures Lane(MatchEmptyOrDeleted(Load(w)), j) <==> w[j].Empty? || w[j].Deleted?
  {
    hide Load, MatchEmptyOrDeleted, Lane, ByteOf, Byte, RoomByte, IsMask;
    LoadByte(w, j);
    RoomLane(Load(w), j);
    ByteKinds(w[j]);
  }

  lemma EmptyLanes(w: seq<Ctrl>, j: nat)
    requires |w| == 8 && j < 8
    ensures IsMask(MatchEmpty(Load(w)))
    ensures Lane(MatchEmpty(Load(w)), j) <==> w[j].Empty?
  {
    hide Load, MatchEmpty, Lane, ByteOf, Byte, EmptyByte, IsMask;
    LoadByte(w, j);
    EmptyLane(Load(w), j);
    ByteKinds(w[j]);
  }

  /** Every byte equal to `h` is reported, and nothing but full bytes is. */
  lemma MatchLanes(w: seq<Ctrl>, h: bv7, j: nat)
    requires |w| == 8 && j < 8
    ensures IsMask(Match(Load(w), h))
    ensures w[j] == Full(h) ==> Lane(Match(Load(w), h), j)
    ensures Lane(Match(Load(w), h), j) ==> w[j].Full?
  {
    hide Load, Lane, ByteOf, Agree, Clear;
    var g, s := Load(w), LSBS * (h as bv64);
    SpreadByte(h, j);
    LoadBytes(w, j);
    AgreeLanes(g, s, j);
    ByteTop(w[j], h);
  }

  lemma ByteTop(c: Ctrl, h: bv7)
    ensures Clear(Byte(c) as bv64) <==> c.Full?
    ensures Clear((h as bv8) as bv64)
    ensures c == Full(h) ==> Byte(c) as bv64 == (h as bv8) as bv64
  {
  }

  lemma AgreeLanes(g: bv64, s: bv64, j: nat)
    requires j < 8
    ensures IsMask(Agree(g, s)) && Shows(g, s, Agree(g, s), j)
  {
    hide Differs, ShowsZero, Shows, IsMask;
    DiffersAt(g, s, j);
    ZeroLane(g ^ s, j);
    ShowsBoth(g, s, Agree(g, s), j);
  }

  lemma ZeroLane(x: bv64, j: nat)
    requires j < 8
    ensures IsMask((x - LSBS) & !x & MSBS) && ShowsZero(x, (x - LSBS) & !x & MSBS, j)
  {
    hide ShowsZero, IsMask;
    ZeroLanes(x);
  }

  lemma ShowsBoth(g: bv64, s: bv64, m: bv64, j: nat)
    requires Differs(g, s, j) && ShowsZero(g ^ s, m, j)
    ensures Shows(g, s, m, j)
  {
    hide Lane, ByteOf, Clear;
  }

  lemma SpreadByte(h: bv7, j: nat)
    requires j < 8
    ensures IsByte(LSBS * (h as bv64), j, h as bv8)
  {
    hide IsByte, Word;
    var k := h as bv8;
    Spread(h);
    WordBytes(k, k, k, k, k, k, k, k);
    if j == 0 {
    } else if j == 1 {
    } else if j == 2 {
    } else if j == 3 {
    } else if j == 4 {
    } else if j == 5 {
    } else if j == 6 {
    } else {
      assert j == 7;
    }
  }

  // --- walking over a mask ---

  /** `CWISS_TrailingZeroes64`, portable form. */
  function TrailingZeros(x0: bv64): nat {
    var x := x0 & (!x0 + 1);
    63 - (if x & 0x0000_0000_FFFF_FFFF != 0 then 32 else 0) - (if x & 0x0000_FFFF_0000_FFFF != 0 then 16 else 0)
    - (if x & 0x00FF_00FF_00FF_00FF != 0 then 8 else 0) - (if x & 0x0F0F_0F0F_0F0F_0F0F != 0 then 4 else 0)
    - (if x & 0x3333_3333_3333_3333 != 0 then 2 else 0) - (if x & 0x5555_5555_5555_5555 != 0 then 1 else 0)
  }

  /** `CWISS_LeadingZeroes64`, portable form. */
  function LeadingZeros(x: bv64): nat {
    var a := if x >> 32 != 0 then (28, x >> 32) else (60, x);
    var b := if a.1 >> 16 != 0 then (a.0 - 16, a.1 >> 16) else a;
    var c := if b.1 >> 8 != 0 then (b.0 - 8, b.1 >> 8) else b;
    var d := if c.1 >> 4 != 0 then (c.0 - 4, c.1 >> 4) else c;
    d.0 + if d.1 == 0 then 4 else if d.1 == 1 then 3 else if d.1 < 4 then 2 else if d.1 < 8 then 1 else 0
  }

  /** Index of the lowest reported lane. */
  function Lowest(m: bv64): nat {
    TrailingZeros(m) / 8
  }

  /** Index of the highest reported lane. */
  function Highest(m: bv64): nat
    requires m != 0
  {
    HighestBit(m);
    (63 - LeadingZeros(m)) / 8
  }

  /** How many lanes lie above the highest reported one. */
  function LeadingLanes(m: bv64): nat {
    LeadingZeros(m) / 8
  }

  lemma HighestBit(m: bv64)
    requires m != 0
    ensures LeadingZeros(m) <= 63
  {
  }

  lemma LowestIs(m: bv64)
    requires IsMask(m) && m != 0
    ensures Lowest(m) < 8 && Lane(m, Lowest(m)) && forall j :: 0 <= j < Lowest(m) ==> !Lane(m, j)
  {
    if Lane(m, 0) {
    } else if Lane(m, 1) {
    } else if Lane(m, 2) {
    } else if Lane(m, 3) {
    } else if Lane(m, 4) {
    } else if Lane(m, 5) {
    } else if Lane(m, 6) {
    } else {
    }
  }

  lemma HighestIs(m: bv64)
    requires IsMask(m) && m != 0
    ensures Highest(m) < 8 && Lane(m, Highest(m)) && forall j :: Highest(m) < j < 8 ==> !Lane(m, j)
    ensures LeadingLanes(m) == 7 - Highest(m)
  {
    if Lane(m, 7) {
    } else if Lane(m, 6) {
    } else if Lane(m, 5) {
    } else if Lane(m, 4) {
    } else if Lane(m, 3) {
    } else if Lane(m, 2) {
    } else if Lane(m, 1) {
    } else {
    }
  }

  lemma SomeLane(m: bv64)
    requires IsMask(m)
    ensures m != 0 <==> exists j :: 0 <= j < 8 && Lane(m, j)
  {
    if m != 0 {
      LowestIs(m);
    } else {
      forall j | 0 <= j < 8
        ensures !Lane(m, j)
      {
      }
    }
  }

  /** `CWISS_BitMask_next` drops the lowest lane and keeps the others. */
  function Drop(m: bv64): bv64 {
    m & (m - 1)
  }

  lemma NextLanes(m: bv64, j: nat)
    requires IsMask(m) && m != 0 && j < 8
    ensures IsMask(Drop(m))
    ensures Lane(Drop(m), j) <==> Lane(m, j) && j != Lowest(m)
  {
    if Lane(m, 0) {
    } else if Lane(m, 1) {
    } else if Lane(m, 2) {
    } else if Lane(m, 3) {
    } else if Lane(m, 4) {
    } else if Lane(m, 5) {
    } else if Lane(m, 6) {
    } else {
    }
  }

  // --- turning full into deleted and everything else into empty ---

  function Converted(c: Ctrl): Ctrl {
    if c.Full? then Deleted else Empty
  }

  /** `CWISS_Group_ConvertSpecialToEmptyAndFullToDeleted`. */
  function ConvertSpecial(g: bv64): bv64 {
    var x := g & MSBS;
    (!x + (x >> 7)) & !LSBS
  }

  lemma ConvertBits(g: bv64)
    ensures ByteOf(ConvertSpecial(g), 0) == if ByteOf(g, 0) & 0x80 != 0 then 0x80 else 0xFE
    ensures ByteOf(ConvertSpecial(g), 1) == if ByteOf(g, 1) & 0x80 != 0 then 0x80 else 0xFE
    ensures ByteOf(ConvertSpecial(g), 2) == if ByteOf(g, 2) & 0x80 != 0 then 0x80 else 0xFE
    ensures ByteOf(ConvertSpecial(g), 3) == if ByteOf(g, 3) & 0x80 != 0 then 0x80 else 0xFE
    ensures ByteOf(ConvertSpecial(g), 4) == if ByteOf(g, 4) & 0x80 != 0 then 0x80 else 0xFE
    ensures ByteOf(ConvertSpecial(g), 5) == if ByteOf(g, 5) & 0x80 != 0 then 0x80 else 0xFE
    ensures ByteOf(ConvertSpecial(g), 6) == if ByteOf(g, 6) & 0x80 != 0 then 0x80 else 0xFE
    ensures ByteOf(ConvertSpecial(g), 7) == if ByteOf(g, 7) & 0x80 != 0 then 0x80 else 0xFE
  {
  }

  /** The converted word is the encoding of the converted states. */
  lemma ConvertLanes(w: seq<Ctrl>, j: nat)
    requires |w| == 8 && j < 8
    ensures ByteOf(ConvertSpecial(Load(w)), j) == Byte(Converted(w[j])) as bv64
  {
    hide Load, ConvertSpecial, ByteOf;
    LoadBytes(w, j);
    ConvertBits(Load(w));
  }

  /** A word is its eight bytes. */
  lemma BytesDecide(x: bv64, y: bv64)
    requires ByteOf(x, 0) == ByteOf(y, 0) && ByteOf(x, 1) == ByteOf(y, 1) && ByteOf(x, 2) == ByteOf(y, 2)
             && ByteOf(x, 3) == ByteOf(y, 3)
    requires ByteOf(x, 4) == ByteOf(y, 4) && ByteOf(x, 5) == ByteOf(y, 5) && ByteOf(x, 6) == ByteOf(y, 6)
             && ByteOf(x, 7) == ByteOf(y, 7)
    ensures x == y
  {
  }

  lemma SameByteOf(w: seq<Ctrl>, v: seq<Ctrl>, j: nat)
    requires |w| == 8 && |v| == 8 && j < 8 && v[j] == Converted(w[j])
    ensures ByteOf(Load(v), j) == ByteOf(ConvertSpecial(Load(w)), j)
  {
    hide Load, ConvertSpecial, ByteOf, Byte, Converted;
    ConvertLanes(w, j);
    LoadBytes(v, j);
  }

  /** The converted word is the word of the converted states. */
  lemma ConvertWord(w: seq<Ctrl>, v: seq<Ctrl>)
    requires |w| == 8 && |v| == 8 && forall j :: 0 <= j < 8 ==> v[j] == Converted(w[j])
    ensures Load(v) == ConvertSpecial(Load(w))
  {
    hide Load, ConvertSpecial, ByteOf, Converted;
    forall j | 0 <= j < 8
      ensures ByteOf(Load(v), j) == ByteOf(ConvertSpecial(Load(w)), j)
    {
      SameByteOf(w, v, j);
    }
    BytesDecide(Load(v), ConvertSpecial(Load(w)));
  }
}
