/** Fixed-width integers, byte strings and their big- and little-endian encodings.

    Bytes and machine integers are subset types of `int`, so that shifts, masks and
    concatenations of disjoint bit fields appear as division, remainder and addition. */
module Wire {

  datatype Option<+T> = None | Some(value: T)

  datatype Result<+T, +E> = Ok(value: T) | Err(error: E)

  type Byte = b: int | 0 <= b < 0x100
  type U16 = n: int | 0 <= n < 0x1_0000
  type U32 = n: int | 0 <= n < 0x1_0000_0000
  type U64 = n: int | 0 <= n < 0x1_0000_0000_0000_0000

  type Bytes = seq<Byte>

  /** Two bytes as one 16-bit number, most significant first. */
  function Pair(hi: int, lo: int): (n: int)
    ensures 0 <= hi < 0x100 && 0 <= lo < 0x100 ==> 0 <= n < 0x1_0000
  {
    hi * 0x100 + lo
  }

  /** Two 16-bit numbers as one 32-bit number, most significant first. */
  function Quad(hi: int, lo: int): (n: int)
    ensures 0 <= hi < 0x1_0000 && 0 <= lo < 0x1_0000 ==> 0 <= n < 0x1_0000_0000
  {
    hi * 0x1_0000 + lo
  }

  function Min(a: nat, b: nat): nat { if a < b then a else b }

  /** The number whose base-256 digits are the bytes, most significant first. */
  function BigEndian(s: Bytes): nat {
    if s == [] then 0 else 0x100 * BigEndian(s[..|s| - 1]) + s[|s| - 1]
  }

  lemma BigNext(s: Bytes, b: Byte)
    ensures BigEndian(s + [b]) == 0x100 * BigEndian(s) + b
  {
    assert (s + [b])[..|s|] == s;
  }

  lemma BigNothing()
    ensures BigEndian([]) == 0
  {
  }

  lemma BigTwo(s: Bytes)
    requires |s| == 2
    ensures BigEndian(s) == Pair(s[0], s[1])
  {
    hide BigEndian;
    assert s == [] + [s[0]] + [s[1]];
    BigNext([], s[0]);
    BigNext([] + [s[0]], s[1]);
    BigNothing();
  }

  lemma BigFour(s: Bytes)
    requires |s| == 4
    ensures BigEndian(s) == Quad(Pair(s[0], s[1]), Pair(s[2], s[3]))
  {
    hide BigEndian;
    assert s == s[..2] + [s[2]] + [s[3]];
    BigTwo(s[..2]);
    BigNext(s[..2], s[2]);
    BigNext(s[..2] + [s[2]], s[3]);
  }

  /** Numbers of two or four bytes have one encoding. */
  lemma BigUnique(s: Bytes, t: Bytes)
    requires |s| == |t| && (|s| == 2 || |s| == 4) && BigEndian(s) == BigEndian(t)
    ensures s == t
  {
    hide BigEndian;
    if |s| == 2 {
      BigTwo(s);
      BigTwo(t);
    } else {
      BigFour(s);
      BigFour(t);
      QuadSplit(Pair(s[0], s[1]), Pair(s[2], s[3]));
      QuadSplit(Pair(t[0], t[1]), Pair(t[2], t[3]));
    }
  }

  lemma QuadSplit(hi: U16, lo: U16)
    ensures Quad(hi, lo) / 0x1_0000 == hi && Quad(hi, lo) % 0x1_0000 == lo
  {
  }

  lemma TwoBytesFor(v: U16)
    ensures exists b: Bytes :: |b| == 2 && BigEndian(b) == v
    ensures forall b: Bytes, c: Bytes :: |b| == 2 && |c| == 2 && BigEndian(b) == v && BigEndian(c) == v ==> b == c
  {
    hide BigEndian;
    var b := [v / 0x100, v % 0x100];
    BigTwo(b);
    assert |b| == 2 && BigEndian(b) == v;
    forall b: Bytes, c: Bytes | |b| == 2 && |c| == 2 && BigEndian(b) == v && BigEndian(c) == v ensures b == c {
      BigUnique(b, c);
    }
  }

  lemma FourBytesFor(v: U32)
    ensures exists b: Bytes :: |b| == 4 && BigEndian(b) == v
    ensures forall b: Bytes, c: Bytes :: |b| == 4 && |c| == 4 && BigEndian(b) == v && BigEndian(c) == v ==> b == c
  {
    hide BigEndian;
    var hi, lo := v / 0x1_0000, v % 0x1_0000;
    var b := [hi / 0x100, hi % 0x100, lo / 0x100, lo % 0x100];
    assert Pair(b[0], b[1]) == hi && Pair(b[2], b[3]) == lo;
    BigFour(b);
    assert |b| == 4 && BigEndian(b) == v;
    forall b: Bytes, c: Bytes | |b| == 4 && |c| == 4 && BigEndian(b) == v && BigEndian(c) == v ensures b == c {
      BigUnique(b, c);
    }
  }

  /** `u16::to_be_bytes`: the two bytes that make up the number. */
  function Be16(v: U16): (b: Bytes)
    ensures |b| == 2
  {
    TwoBytesFor(v);
    var b: Bytes :| |b| == 2 && BigEndian(b) == v;
    b
  }

  /** `u32::to_be_bytes`: the four bytes that make up the number. */
  function Be32(v: U32): (b: Bytes)
    ensures |b| == 4
  {
    FourBytesFor(v);
    var b: Bytes :| |b| == 4 && BigEndian(b) == v;
    b
  }

  /** `u16::from_be_bytes` of the two bytes at `i`. */
  function U16At(s: Bytes, i: nat): U16
    requires i + 2 <= |s|
  {
    BigTwo(s[i..i + 2]);
    BigEndian(s[i..i + 2])
  }

  /** `u32::from_be_bytes` of the four bytes at `i`. */
  function U32At(s: Bytes, i: nat): U32
    requires i + 4 <= |s|
  {
    BigFour(s[i..i + 4]);
    BigEndian(s[i..i + 4])
  }

  /** The number whose base-256 digits are the bytes, least significant first. */
  function LittleEndian(s: Bytes): (n: nat)
    ensures |s| <= 1 ==> n < 0x100
    ensures |s| <= 2 ==> n < 0x1_0000
    ensures |s| <= 3 ==> n < 0x100_0000
    ensures |s| <= 4 ==> n < 0x1_0000_0000
  {
    if s == [] then 0 else s[0] + 0x100 * LittleEndian(s[1..])
  }

  /** `u16::from_ne_bytes` on a little-endian host. */
  function NativeU16At(s: Bytes, i: nat): U16
    requires i + 2 <= |s|
  {
    LittleEndian(s[i..i + 2])
  }

  /** `u32::from_ne_bytes` on a little-endian host. */
  function NativeU32At(s: Bytes, i: nat): U32
    requires i + 4 <= |s|
  {
    LittleEndian(s[i..i + 4])
  }

  /** The smallest multiple of four that is at least `length`. */
  function Align4(length: nat): (a: nat)
    ensures length <= a < length + 4 && a % 4 == 0
  {
    length + 3 - (length + 3) % 4
  }

  lemma LittlePair(s: Bytes)
    requires |s| == 2
    ensures LittleEndian(s) == Pair(s[1], s[0])
  {
    assert LittleEndian(s[1..]) == s[1] + 0x100 * LittleEndian(s[1..][1..]);
  }

  lemma BigPair(s: Bytes, i: nat)
    requires i + 2 <= |s|
    ensures U16At(s, i) == Pair(s[i], s[i + 1])
  {
    hide BigEndian;
    BigTwo(s[i..i + 2]);
  }

  lemma BigQuad(s: Bytes, i: nat)
    requires i + 4 <= |s|
    ensures U32At(s, i) == Quad(U16At(s, i), U16At(s, i + 2))
  {
    hide BigEndian;
    BigFour(s[i..i + 4]);
    BigTwo(s[i..i + 2]);
    BigTwo(s[i + 2..i + 4]);
  }

  lemma U16Here(s: Bytes, i: nat, v: U16)
    requires i + 2 <= |s| && s[i..i + 2] == Be16(v)
    ensures U16At(s, i) == v
  {
    hide BigEndian;
    TwoBytesFor(v);
  }

  lemma U32Here(s: Bytes, i: nat, v: U32)
    requires i + 4 <= |s| && s[i..i + 4] == Be32(v)
    ensures U32At(s, i) == v
  {
    hide BigEndian;
    FourBytesFor(v);
  }

  lemma Be16Inverse(s: Bytes, i: nat)
    requires i + 2 <= |s|
    ensures Be16(U16At(s, i)) == s[i..i + 2]
  {
    hide BigEndian;
    TwoBytesFor(U16At(s, i));
  }

  lemma Be32Inverse(s: Bytes, i: nat)
    requires i + 4 <= |s|
    ensures Be32(U32At(s, i)) == s[i..i + 4]
  {
    hide BigEndian;
    FourBytesFor(U32At(s, i));
  }

  lemma Be16Pair(hi: Byte, lo: Byte)
    ensures Be16(Pair(hi, lo)) == [hi, lo]
  {
    hide BigEndian;
    BigTwo([hi, lo]);
    TwoBytesFor(Pair(hi, lo));
  }

  lemma Be16Zero()
    ensures Be16(0) == [0, 0]
  {
    hide Be16;
    Be16Pair(0, 0);
  }

  lemma Word32(s: Bytes, i: nat, v: U32)
    requires i + 4 <= |s|
    ensures s[i..i + 4] == Be32(v) <==> U32At(s, i) == v
  {
    hide Be32, U32At;
    Be32Inverse(s, i);
    if s[i..i + 4] == Be32(v) { U32Here(s, i, v); }
  }

  lemma Word16(s: Bytes, i: nat, v: U16)
    requires i + 2 <= |s|
    ensures s[i..i + 2] == Be16(v) <==> U16At(s, i) == v
  {
    hide Be16, U16At;
    Be16Inverse(s, i);
    if s[i..i + 2] == Be16(v) { U16Here(s, i, v); }
  }

  /** The bytes with the two at `k` replaced. */
  function WithWord(s: Bytes, k: nat, word: U16): (t: Bytes)
    requires k + 2 <= |s|
    ensures |t| == |s|
  {
    s[..k] + Be16(word) + s[k + 2..]
  }

  predicate AllZero(s: Bytes) { forall i :: 0 <= i < |s| ==> s[i] == 0 }

  method IsZero(s: Bytes) returns (zero: bool)
    ensures zero == AllZero(s)
  {
    for i := 0 to |s|
      invariant AllZero(s[..i])
    {
      if s[i] != 0 { return false; }
    }
    assert s[..|s|] == s;
    zero := true;
  }

  function Zeros(n: nat): (s: Bytes)
    ensures |s| == n && AllZero(s)
  {
    seq(n, _ => 0)
  }

  /** Pieces laid end to end. */
  function Join(tiles: seq<Bytes>): Bytes {
    if tiles == [] then [] else tiles[0] + Join(tiles[1..])
  }

  lemma JoinParts(t: Bytes, rest: seq<Bytes>)
    ensures Join([t] + rest) == t + Join(rest)
  {
    assert ([t] + rest)[1..] == rest;
  }
}
