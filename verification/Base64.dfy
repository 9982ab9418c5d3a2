/**
 src/base64.c: encoding three octets as four characters of the alphabet of section 4
 of RFC 4648, and back.
 */
module Base64 {
  import opened Bytes

  const PAD: byte := 61

  /** The table `cb64`: A-Z, a-z, 0-9, + and /. */
  function Encoded(n: int): (c: byte)
    requires 0 <= n < 64
    ensures 43 <= c <= 122 && c != PAD
  {
    if n < 26 then 65 + n
    else if n < 52 then 97 + (n - 26)
    else if n < 62 then 48 + (n - 52)
    else if n == 62 then 43
    else 47
  }

  /** The table `cd64`, indexed from '+': the value plus 62, or '$'. */
  function Looked(c: byte): (r: byte)
    requires 43 <= c <= 122
  {
    if c == 43 then 124
    else if c == 47 then 125
    else if 48 <= c <= 57 then 114 + (c - 48)
    else if 65 <= c <= 90 then 62 + (c - 65)
    else if 97 <= c <= 122 then 88 + (c - 97)
    else 36
  }

  lemma TablesAgree(n: int)
    requires 0 <= n < 64
    ensures Looked(Encoded(n)) != 36 && Looked(Encoded(n)) - 62 == n
  {
  }

  const UPPER := "ABCDEFGHIJKLMNOPQRSTUVWXYZ"
  const LOWER := "abcdefghijklmnopqrstuvwxyz"
  const DIGITS := "0123456789"
  const ALPHABET := UPPER + LOWER + DIGITS + "+/"

  predicate UpperAt(n: int) { 0 <= n < |UPPER| && UPPER[n] as int == 65 + n }

  predicate LowerAt(n: int) { 0 <= n < |LOWER| && LOWER[n] as int == 97 + n }

  predicate DigitAt(n: int) { 0 <= n < |DIGITS| && DIGITS[n] as int == 48 + n }

  lemma Uppers()
    ensures UpperAt(0) && UpperAt(1) && UpperAt(2) && UpperAt(3) && UpperAt(4) && UpperAt(5) && UpperAt(6)
            && UpperAt(7) && UpperAt(8)
    ensures UpperAt(9) && UpperAt(10) && UpperAt(11) && UpperAt(12) && UpperAt(13) && UpperAt(14) && UpperAt(15)
            && UpperAt(16) && UpperAt(17)
    ensures UpperAt(18) && UpperAt(19) && UpperAt(20) && UpperAt(21) && UpperAt(22) && UpperAt(23) && UpperAt(24)
            && UpperAt(25)
  {
  }

  lemma Lowers()
    ensures LowerAt(0) && LowerAt(1) && LowerAt(2) && LowerAt(3) && LowerAt(4) && LowerAt(5) && LowerAt(6)
            && LowerAt(7) && LowerAt(8)
    ensures LowerAt(9) && LowerAt(10) && LowerAt(11) && LowerAt(12) && LowerAt(13) && LowerAt(14) && LowerAt(15)
            && LowerAt(16) && LowerAt(17)
    ensures LowerAt(18) && LowerAt(19) && LowerAt(20) && LowerAt(21) && LowerAt(22) && LowerAt(23) && LowerAt(24)
            && LowerAt(25)
  {
  }

  lemma Digits()
    ensures DigitAt(0) && DigitAt(1) && DigitAt(2) && DigitAt(3) && DigitAt(4) && DigitAt(5) && DigitAt(6)
            && DigitAt(7) && DigitAt(8)
    ensures DigitAt(9)
  {
  }

  /** The characters are those of the alphabet, in its order. */
  lemma AlphabetIs(n: int)
    requires 0 <= n < 64
    ensures |ALPHABET| == 64 && Encoded(n) == ALPHABET[n] as int
  {
    if n < 26 {
      UpperIs(n);
    } else if n < 52 {
      LowerIs(n - 26);
    } else if n < 62 {
      DigitIs(n - 52);
    }
  }

  lemma UpperIs(n: int)
    requires 0 <= n < 26
    ensures UpperAt(n)
  {
    hide UpperAt;
    Uppers();
  }

  lemma LowerIs(n: int)
    requires 0 <= n < 26
    ensures LowerAt(n)
  {
    hide LowerAt;
    Lowers();
  }

  lemma DigitIs(n: int)
    requires 0 <= n < 10
    ensures DigitAt(n)
  {
    hide DigitAt;
    Digits();
  }

  /** Exactly the characters of the alphabet have a value in the decoding table. */
  lemma LookedIs(c: byte)
    requires 43 <= c <= 122
    ensures Looked(c) != 36 <==> 0 <= Looked(c) - 62 < 64 && Encoded(Looked(c) - 62) == c
  {
  }

  /** The character of a six-bit value. */
  function Letter(v: bv8): (c: byte)
    requires v < 64
    ensures 43 <= c <= 122 && c != PAD
  {
    SixBits(v);
    Encoded(v as int)
  }

  lemma SixBits(v: bv8)
    requires v < 64
    ensures 0 <= v as int < 64
  {
  }

  lemma ThereAndBack(v: bv8)
    ensures (v as int) as bv8 == v
  {
  }

  lemma LetterRead(v: bv8)
    requires v < 64
    ensures Looked(Letter(v)) != 36 && 0 <= Looked(Letter(v)) - 62 < 64 && (Looked(Letter(v)) - 62) as bv8 == v
  {
    hide Looked, Encoded;
    SixBits(v);
    TablesAgree(v as int);
    ThereAndBack(v);
  }

  datatype Group = Group(len: int, out: seq<bv8>)

  function At(s: seq<bv8>, i: nat): bv8 {
    if i < |s| then s[i] else 0
  }

  // The bit formulas: three octets as four values of six bits, and back.

  function First(a: bv8): (v: bv8)
    ensures v < 64
  {
    a >> 2
  }

  function Second(a: bv8, b: bv8): (v: bv8)
    ensures v < 64
  {
    ((a & 3) << 4) | ((b & 0xf0) >> 4)
  }

  function Third(b: bv8, c: bv8): (v: bv8)
    ensures v < 64
  {
    ((b & 0x0f) << 2) | ((c & 0xc0) >> 6)
  }

  function Fourth(c: bv8): (v: bv8)
    ensures v < 64
  {
    c & 0x3f
  }

  function OctetA(v0: bv8, v1: bv8): bv8 {
    (v0 << 2) | (v1 >> 4)
  }

  function OctetB(v1: bv8, v2: bv8): bv8 {
    (v1 << 4) | (v2 >> 2)
  }

  function OctetC(v2: bv8, v3: bv8): bv8 {
    ((v2 << 6) & 0xc0) | v3
  }

  lemma Bits(a: bv8, b: bv8, c: bv8)
    ensures OctetA(First(a), Second(a, b)) == a
    ensures OctetB(Second(a, b), Third(b, c)) == b
    ensures OctetC(Third(b, c), Fourth(c)) == c
  {
  }

  // The formulas as arithmetic.

  lemma HighBits(a: bv8)
    ensures (a >> 2) as int == a as int / 4
  {
  }

  lemma LowTwo(a: bv8)
    ensures ((a & 3) << 4) as int == a as int % 4 * 16 && ((a & 3) << 4) & 0x0f == 0 && ((a & 3) << 4) <= 48
  {
  }

  lemma HighFour(b: bv8)
    ensures ((b & 0xf0) >> 4) as int == b as int / 16 && ((b & 0xf0) >> 4) <= 15
  {
  }

  lemma LowFour(b: bv8)
    ensures ((b & 0x0f) << 2) as int == b as int % 16 * 4 && ((b & 0x0f) << 2) & 3 == 0 && ((b & 0x0f) << 2) <= 60
  {
  }

  lemma HighTwo(c: bv8)
    ensures ((c & 0xc0) >> 6) as int == c as int / 64 && ((c & 0xc0) >> 6) <= 3
  {
  }

  lemma LowSix(c: bv8)
    ensures (c & 0x3f) as int == c as int % 64
  {
  }

  lemma Apart(x: bv8, y: bv8)
    requires (x & 0x0f == 0 && y <= 15 && x <= 48) || (x & 3 == 0 && y <= 3 && x <= 60)
    ensures x | y == x + y
  {
  }

  lemma Sum(x: bv8, y: bv8)
    requires x <= 60 && y <= 15
    ensures (x + y) as int == x as int + y as int
  {
  }

  function Num(v: bv8): (n: nat)
    ensures n < 256
  {
    Octet(v);
    v as int
  }

  lemma Octet(v: bv8)
    ensures 0 <= v as int < 256
  {
  }

  lemma SixBitValues(a: bv8, b: bv8, c: bv8)
    ensures Num(First(a)) == Num(a) / 4 && Num(Second(a, b)) == Num(a) % 4 * 16 + Num(b) / 16
    ensures Num(Third(b, c)) == Num(b) % 16 * 4 + Num(c) / 64 && Num(Fourth(c)) == Num(c) % 64
  {
    HighBits(a);
    LowTwo(a);
    HighFour(b);
    Apart((a & 3) << 4, (b & 0xf0) >> 4);
    Sum((a & 3) << 4, (b & 0xf0) >> 4);
    LowFour(b);
    HighTwo(c);
    Apart((b & 0x0f) << 2, (c & 0xc0) >> 6);
    Sum((b & 0x0f) << 2, (c & 0xc0) >> 6);
    LowSix(c);
  }

  /** Digit `i` of a number in base 64. */
  function Digit(x: nat, i: nat): (d: nat)
    requires i < 4
    ensures d < 64
  {
    x / (if i == 3 then 262144 else if i == 2 then 4096 else if i == 1 then 64 else 1) % 64
  }

  /** A group is the base-64 digits of its 24-bit number, highest first, in the letters of
      the alphabet; what no octet contributes to is written as `=`. */
  lemma GroupDigits(s: seq<bv8>)
    requires 1 <= |s| <= 3
    ensures |ALPHABET| == 64
    ensures var x := Num(s[0]) * 65536 + Num(At(s, 1)) * 256 + Num(At(s, 2));
            EncodeGroup(s) == [ ALPHABET[Digit(x, 3)] as int, ALPHABET[Digit(x, 2)] as int,
                                if |s| > 1 then ALPHABET[Digit(x, 1)] as int else 61,
                                if |s| > 2 then ALPHABET[Digit(x, 0)] as int else 61 ]
  {
    hide First, Second, Third, Fourth, Letter, Digit, ALPHABET, At, Num;
    var a, b, c := s[0], At(s, 1), At(s, 2);
    var x := Num(a) * 65536 + Num(b) * 256 + Num(c);
    SixBitValues(a, b, c);
    DigitsOf(Num(a), Num(b), Num(c));
    LetterIs(First(a), Digit(x, 3));
    LetterIs(Second(a, b), Digit(x, 2));
    LetterIs(Third(b, c), Digit(x, 1));
    LetterIs(Fourth(c), Digit(x, 0));
  }

  lemma LetterIs(v: bv8, d: nat)
    requires v < 64 && Num(v) == d
    ensures |ALPHABET| == 64 && d < 64 && Letter(v) == ALPHABET[d] as int
  {
    hide Encoded, ALPHABET;
    SixBits(v);
    AlphabetIs(d);
  }

  lemma DigitsOf(a: nat, b: nat, c: nat)
    requires a < 256 && b < 256 && c < 256
    ensures var x := a * 65536 + b * 256 + c;
            && Digit(x, 3) == a / 4 && Digit(x, 2) == a % 4 * 16 + b / 16
            && Digit(x, 1) == b % 16 * 4 + c / 64 && Digit(x, 0) == c % 64
  {
    TopDigits(a, b, c);
    LastDigits(a, b, c);
  }

  lemma TopDigits(a: nat, b: nat, c: nat)
    requires a < 256 && b < 256 && c < 256
    ensures var x := a * 65536 + b * 256 + c;
            x / 262144 % 64 == a / 4 && x / 4096 % 64 == a % 4 * 16 + b / 16
  {
    var x := a * 65536 + b * 256 + c;
    assert x / 262144 == a / 4;
    assert x / 4096 == a * 16 + b / 16;
  }

  lemma LastDigits(a: nat, b: nat, c: nat)
    requires a < 256 && b < 256 && c < 256
    ensures var x := a * 65536 + b * 256 + c;
            x / 64 % 64 == b % 16 * 4 + c / 64 && x % 64 == c % 64
  {
    var x := a * 65536 + b * 256 + c;
    var y := a * 1024 + b * 4 + c / 64;
    By64(x, y, c % 64);
    By64(y, a * 16 + b / 16, b % 16 * 4 + c / 64);
  }

  lemma By64(x: nat, q: nat, r: nat)
    requires x == 64 * q + r && r < 64
    ensures x / 64 == q && x % 64 == r
  {
  }

  /** `sdb_b64_encode` of one to three octets; a missing octet counts as 0. */
  function EncodeGroup(s: seq<bv8>): (r: seq<byte>)
    requires 1 <= |s| <= 3
    ensures |r| == 4
  {
    var a, b, c := s[0], At(s, 1), At(s, 2);
    [ Letter(First(a)), Letter(Second(a, b)),
      if |s| > 1 then Letter(Third(b, c)) else PAD,
      if |s| > 2 then Letter(Fourth(c)) else PAD ]
  }

  /** The values of the characters up to the first that is not in the alphabet, which
      keeps its table entry; the rest stay 0. A character outside the table makes the group invalid. */
  function Values(q: seq<byte>, i: nat): (r: Reading)
    requires |q| == 4 && i <= 4
    decreases 4 - i
  {
    if i == 4 then Reading([], 3)
    else if q[i] < 43 || q[i] > 122 then Invalid
    else if Looked(q[i]) == 36 then Reading([36], if i == 0 then -1 else i - 1)
    else match Values(q, i + 1)
         case Invalid => Invalid
         case Reading(vs, len) => Reading([(Looked(q[i]) - 62) as bv8] + vs, len)
  }

  datatype Reading = Invalid | Reading(vs: seq<bv8>, len: int)

  /** `sdb_b64_decode`. */
  function DecodeGroup(q: seq<byte>): Group
    requires |q| == 4
  {
    match Values(q, 0)
    case Invalid => Group(-1, [])
    case Reading(vs, len) =>
      var v0, v1, v2, v3 := At(vs, 0), At(vs, 1), At(vs, 2), At(vs, 3);
      Group(len, [OctetA(v0, v1), OctetB(v1, v2), OctetC(v2, v3)])
  }

  lemma ValuesFrom(q: seq<byte>, i: nat, v: bv8)
    requires |q| == 4 && i < 4 && v < 64 && q[i] == Letter(v) && Values(q, i + 1).Reading?
    ensures Values(q, i) == Reading([v] + Values(q, i + 1).vs, Values(q, i + 1).len)
  {
    LetterRead(v);
  }

  lemma ValuesPad(q: seq<byte>, i: nat)
    requires |q| == 4 && 0 < i < 4 && q[i] == PAD
    ensures Values(q, i) == Reading([36], i - 1)
  {
  }

  lemma ValuesEnd(q: seq<byte>)
    requires |q| == 4
    ensures Values(q, 4) == Reading([], 3)
  {
  }

  lemma ValuesThree(v0: bv8, v1: bv8, v2: bv8, v3: bv8)
    requires v0 < 64 && v1 < 64 && v2 < 64 && v3 < 64
    ensures Values([Letter(v0), Letter(v1), Letter(v2), Letter(v3)], 0) == Reading([v0, v1, v2, v3], 3)
  {
    hide Values, Letter;
    var q := [Letter(v0), Letter(v1), Letter(v2), Letter(v3)];
    ValuesEnd(q);
    ValuesFrom(q, 3, v3);
    ValuesFrom(q, 2, v2);
    ValuesFrom(q, 1, v1);
    ValuesFrom(q, 0, v0);
    assert [v0] + ([v1] + ([v2] + ([v3] + []))) == [v0, v1, v2, v3];
  }

  lemma ValuesTwo(v0: bv8, v1: bv8, v2: bv8)
    requires v0 < 64 && v1 < 64 && v2 < 64
    ensures Values([Letter(v0), Letter(v1), Letter(v2), PAD], 0) == Reading([v0, v1, v2, 36], 2)
  {
    hide Values, Letter;
    var q := [Letter(v0), Letter(v1), Letter(v2), PAD];
    ValuesPad(q, 3);
    ValuesFrom(q, 2, v2);
    ValuesFrom(q, 1, v1);
    ValuesFrom(q, 0, v0);
    assert [v0] + ([v1] + ([v2] + [36])) == [v0, v1, v2, 36];
  }

  lemma ValuesOne(v0: bv8, v1: bv8)
    requires v0 < 64 && v1 < 64
    ensures Values([Letter(v0), Letter(v1), PAD, PAD], 0) == Reading([v0, v1, 36], 1)
  {
    hide Values, Letter;
    var q := [Letter(v0), Letter(v1), PAD, PAD];
    ValuesPad(q, 2);
    ValuesFrom(q, 1, v1);
    ValuesFrom(q, 0, v0);
    assert [v0] + ([v1] + [36]) == [v0, v1, 36];
  }

  lemma ThreeRoundTrip(a: bv8, b: bv8, c: bv8)
    ensures DecodeGroup(EncodeGroup([a, b, c])) == Group(3, [a, b, c])
  {
    hide Values, Looked, Letter, First, Second, Third, Fourth, OctetA, OctetB, OctetC;
    ValuesThree(First(a), Second(a, b), Third(b, c), Fourth(c));
    Bits(a, b, c);
  }

  lemma TwoRoundTrip(a: bv8, b: bv8)
    ensures var g := DecodeGroup(EncodeGroup([a, b])); g.len == 2 && |g.out| == 3 && g.out[..2] == [a, b]
  {
    hide Values, Looked, Letter, First, Second, Third, Fourth, OctetA, OctetB, OctetC;
    ValuesTwo(First(a), Second(a, b), Third(b, 0));
    Bits(a, b, 0);
  }

  lemma OneRoundTrip(a: bv8)
    ensures var g := DecodeGroup(EncodeGroup([a])); g.len == 1 && |g.out| == 3 && g.out[..1] == [a]
  {
    hide Values, Looked, Letter, First, Second, Third, Fourth, OctetA, OctetB, OctetC;
    ValuesOne(First(a), Second(a, 0));
    Bits(a, 0, 0);
  }

  /** One group survives the round trip. */
  lemma GroupRoundTrip(s: seq<bv8>)
    requires 1 <= |s| <= 3
    ensures var g := DecodeGroup(EncodeGroup(s)); g.len == |s| && |g.out| == 3 && g.out[..g.len] == s
  {
    hide DecodeGroup, EncodeGroup;
    if |s| == 1 {
      assert s == [s[0]];
      OneRoundTrip(s[0]);
    } else if |s| == 2 {
      assert s == [s[0], s[1]];
      TwoRoundTrip(s[0], s[1]);
    } else {
      assert s == [s[0], s[1], s[2]];
      ThreeRoundTrip(s[0], s[1], s[2]);
    }
  }

  /** `sdb_encode_raw`: group after group, the last one padded. */
  function Encode(s: seq<bv8>): seq<byte> {
    if s == [] then []
    else if |s| <= 3 then EncodeGroup(s)
    else EncodeGroup(s[..3]) + Encode(s[3..])
  }

  /** Four characters, with zeros past the end of the string. */
  function Four(text: seq<byte>): (q: seq<byte>)
    ensures |q| == 4
  {
    if |text| >= 4 then text[..4] else text + seq(4 - |text|, _ => 0)
  }

  /** `sdb_decode_raw`: until the end or the first bad group. */
  function Decode(text: seq<byte>): seq<bv8> {
    if text == [] then [] else
    var g := DecodeGroup(Four(text));
    if g.len < 1 || |g.out| < g.len then []
    else g.out[..g.len] + if |text| <= 4 then [] else Decode(text[4..])
  }

  method EncodeRaw(bin: seq<bv8>) returns (out: seq<byte>)
    ensures out == Encode(bin)
  {
    hide EncodeGroup;
    out := [];
    var in_ := 0;
    assert bin[0..] == bin;
    while in_ < |bin|
      invariant 0 <= in_ <= |bin| + 2
      invariant out + Encode(if in_ <= |bin| then bin[in_..] else []) == Encode(bin)
    {
      var len := if |bin| - in_ > 3 then 3 else |bin| - in_;
      var group := EncodeGroup(bin[in_..in_ + len]);
      EncodeStep(out, bin[in_..]);
      assert bin[in_..][..len] == bin[in_..in_ + len];
      assert |bin| - in_ > 3 ==> bin[in_..][3..] == bin[in_ + 3..];
      out := out + group;
      in_ := in_ + 3;
    }
  }

  lemma EncodeStep(out: seq<byte>, s: seq<bv8>)
    requires s != []
    ensures |s| <= 3 ==> out + Encode(s) == out + EncodeGroup(s[..|s|]) + Encode([])
    ensures |s| > 3 ==> out + Encode(s) == out + EncodeGroup(s[..3]) + Encode(s[3..])
  {
    hide EncodeGroup, Encode;
    EncodeUnfold(s);
    assert s[..|s|] == s;
    if |s| > 3 {
      Assoc(out, EncodeGroup(s[..3]), Encode(s[3..]));
    }
  }

  lemma EncodeUnfold(s: seq<bv8>)
    requires s != []
    ensures Encode([]) == []
    ensures |s| <= 3 ==> Encode(s) == EncodeGroup(s)
    ensures |s| > 3 ==> Encode(s) == EncodeGroup(s[..3]) + Encode(s[3..])
  {
    hide EncodeGroup;
  }

  method DecodeRaw(text: seq<byte>) returns (out: seq<bv8>)
    ensures out == Decode(text)
  {
    hide DecodeGroup, Four;
    out := [];
    var in_ := 0;
    assert text[0..] == text;
    while in_ < |text|
      invariant 0 <= in_ <= |text| + 3
      invariant out + (if in_ < |text| then Decode(text[in_..]) else []) == Decode(text)
    {
      var g := DecodeGroup(Four(text[in_..]));
      DecodeStep(out, text[in_..]);
      if g.len < 1 || |g.out| < g.len {
        break;
      }
      assert |text| - in_ > 4 ==> text[in_..][4..] == text[in_ + 4..];
      out := out + g.out[..g.len];
      in_ := in_ + 4;
    }
  }

  lemma DecodeStep(out: seq<bv8>, text: seq<byte>)
    requires text != []
    ensures var g := DecodeGroup(Four(text));
            out + Decode(text) == if g.len < 1 || |g.out| < g.len then out
                                  else out + g.out[..g.len] + if |text| <= 4 then [] else Decode(text[4..])
  {
    hide DecodeGroup, Four;
  }

  /** Decoding undoes encoding, for every octet string. */
  lemma {:induction false} RoundTrip(s: seq<bv8>)
    ensures Decode(Encode(s)) == s
  {
    hide EncodeGroup, DecodeGroup;
    if s != [] {
      var k := if |s| <= 3 then |s| else 3;
      var first := EncodeGroup(s[..k]);
      GroupRoundTrip(s[..k]);
      if |s| <= 3 {
        assert s[..k] == s;
        assert Four(first) == first;
      } else {
        RoundTrip(s[3..]);
        var text := Encode(s);
        assert text[..4] == first && text[4..] == Encode(s[3..]);
        assert Encode(s[3..]) != [];
        assert s == s[..3] + s[3..];
      }
    }
  }

  /** Four characters for every three octets, the last group padded to four. */
  lemma {:induction false} EncodedLength(s: seq<bv8>)
    ensures |Encode(s)| == (|s| + 2) / 3 * 4
  {
    hide EncodeGroup;
    if |s| > 3 {
      EncodedLength(s[3..]);
    }
  }
}
