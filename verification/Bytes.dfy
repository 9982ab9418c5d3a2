/**
 Machine integers and the little-endian packing helpers of include/sdb/types.h, and
 the octets and bounds that several files share.
 */
module Bytes {

  const TWO32: int := 0x1_0000_0000

  type byte = b: int | 0 <= b < 256
  type u32 = u: int | 0 <= u < 0x1_0000_0000
  type Str = seq<byte>

  // octets that texts are cut at
  const TAB: byte := 9
  const LF: byte := 10
  const CR: byte := 13
  const SPACE: byte := 32
  const SLASH: byte := 47
  const EQUALS: byte := 61
  const BACKSLASH: byte := 92

  // `SDB_KSZ` and `SDB_VSZ`: bounds of keys and values
  const KSZ: nat := 0xff
  const VSZ: nat := 0xffffff

  /** A sum of two `ut32` values, wrapped to 32 bits. */
  function Wrap(x: nat): (r: nat)
    ensures x < TWO32 ==> r == x
    ensures x < 2 * TWO32 ==> r < TWO32
  {
    if x < TWO32 then x else x - TWO32
  }

  /** `ut32_pack`: least significant byte first. */
  function Pack32(u: u32): (s: seq<byte>)
    ensures |s| == 4
  {
    [u % 256, u / 256 % 256, u / 65536 % 256, u / 16777216]
  }

  /** `ut32_unpack` of the four bytes at `k`. */
  function U32At(s: seq<byte>, k: nat): (u: u32)
    requires k + 4 <= |s|
  {
    ((s[k + 3] as int * 256 + s[k + 2]) * 256 + s[k + 1]) * 256 + s[k]
  }

  /** Reading back four packed bytes gives the number that was packed. */
  lemma PackRoundTrip(s: seq<byte>, k: nat, u: u32)
    requires k + 4 <= |s| && s[k..k + 4] == Pack32(u)
    ensures U32At(s, k) == u
  {
    var p := s[k..k + 4];
    assert s[k] == p[0] && s[k + 1] == p[1] && s[k + 2] == p[2] && s[k + 3] == p[3];
    var a, b, c := u / 256, u / 65536, u / 16777216;
    assert b == a / 256 && c == b / 256;
  }

  lemma Assoc<T>(a: seq<T>, b: seq<T>, c: seq<T>)
    ensures a + (b + c) == a + b + c
  {
  }

  /** `strchr`: the first occurrence, the length when there is none. */
  function IndexOf(s: seq<byte>, c: byte): (i: nat)
    ensures i <= |s| && c !in s[..i] && (i < |s| ==> s[i] == c)
  {
    if s == [] || s[0] == c then 0 else
    var i := IndexOf(s[1..], c) + 1;
    assert s[..i] == [s[0]] + s[1..][..i - 1];
    i
  }

  lemma {:induction false} IndexUnique(s: seq<byte>, c: byte, i: nat)
    requires i < |s| && s[i] == c && c !in s[..i]
    ensures IndexOf(s, c) == i
  {
    if i > 0 {
      assert s[..i] == [s[0]] + s[1..][..i - 1];
      IndexUnique(s[1..], c, i - 1);
    }
  }

  lemma {:induction false} IndexNone(s: seq<byte>, c: byte)
    requires c !in s
    ensures IndexOf(s, c) == |s|
  {
    if s != [] {
      IndexNone(s[1..], c);
    }
  }
}

module Options {
  datatype Option<T> = None | Some(value: T)
}

/** Cardinality of nested sets and maps. */
module Collections {
  lemma {:induction false} SubsetCard<T>(a: set<T>, b: set<T>)
    requires a <= b
    ensures |a| <= |b|
  {
    if a != {} {
      var x :| x in a;
      SubsetCard(a - {x}, b - {x});
    }
  }

  lemma FewerKeys<K, V, W>(a: map<K, V>, b: map<K, W>, x: K)
    requires a.Keys <= b.Keys && x in b && x !in a
    ensures |a| < |b|
  {
    SubsetCard(a.Keys + {x}, b.Keys);
  }
}
