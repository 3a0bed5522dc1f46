/** The streaming Internet checksum of RFC 1071 (crates/nodenet-protocols/src/checksum.rs). */
module Checksum {
  import opened Wire

  /** The accumulator as a value. */
  datatype Accumulator = Accumulator(sum: nat, pending: Option<Byte>)

  const EMPTY := Accumulator(0, None)

  /** End-around carry, once. */
  function Fold(x: nat): nat { x % 0x1_0000 + x / 0x1_0000 }

  /** End-around carry until the sum is 16-bit. */
  function Settled(x: nat): (r: nat)
    ensures r <= 0xffff && (x <= 0xffff ==> r == x)
  {
    if x / 0x1_0000 == 0 then x else Settled(Fold(x))
  }

  function AddWord(sum: nat, word: U16): nat { Fold(sum + word) }

  function FeedByte(a: Accumulator, b: Byte): Accumulator {
    match a.pending
    case None => a.(pending := Some(b))
    case Some(high) => Accumulator(AddWord(a.sum, Pair(high, b)), None)
  }

  function Feed(a: Accumulator, s: Bytes): Accumulator {
    if s == [] then a else FeedByte(Feed(a, s[..|s| - 1]), s[|s| - 1])
  }

  /** The running sum with a waiting odd byte padded by a zero. */
  function Padded(a: Accumulator): nat {
    match a.pending
    case None => a.sum
    case Some(high) => AddWord(a.sum, Pair(high, 0))
  }

  /** Feeding in pieces is feeding the whole. */
  lemma {:induction false} FeedAppend(a: Accumulator, s: Bytes, t: Bytes)
    ensures Feed(Feed(a, s), t) == Feed(a, s + t)
    decreases |t|
  {
    if t == [] {
      assert s + t == s;
    } else {
      FeedAppend(a, s, t[..|t| - 1]);
      assert (s + t)[..|s + t| - 1] == s + t[..|t| - 1];
    }
  }

  // ---------------------------------------------------------------------------------------
  // Closed form.

  /** What a byte contributes at its position. */
  function Weight(b: Byte, position: nat): nat {
    if position % 2 == 0 then Pair(b, 0) else b
  }

  /** The plain sum of the big-endian words of `s`, an odd last byte padded by a zero. */
  function WordSum(s: Bytes): nat {
    if s == [] then 0
    else WordSum(s[..|s| - 1]) + Weight(s[|s| - 1], |s| - 1)
  }

  /** The one's-complement representative of a sum: zero only for zero. */
  function Residue(n: nat): (r: nat)
    ensures r <= 0xffff && (r == 0 <==> n == 0)
  {
    if n == 0 then 0 else (n - 1) % 0xffff + 1
  }

  lemma ResidueStep(n: nat, word: U16)
    ensures AddWord(Residue(n), word) == Residue(n + word)
  {
    if n > 0 {
      var q, r := (n - 1) / 0xffff, (n - 1) % 0xffff;
      if r + word < 0xffff {
        ModUnique(n - 1 + word, q, r + word);
      } else if r + word < 2 * 0xffff {
        ModUnique(n - 1 + word, q + 1, r + word - 0xffff);
      }
    }
  }

  lemma ModUnique(n: nat, q: nat, r: nat)
    requires n == 0xffff * q + r && r < 0xffff
    ensures n % 0xffff == r
  {
  }

  lemma WordSumLast(s: Bytes)
    requires s != []
    ensures WordSum(s) == WordSum(s[..|s| - 1]) + Weight(s[|s| - 1], |s| - 1)
  {
  }

  lemma WordSumEven(s: Bytes)
    requires |s| > 0 && |s| % 2 == 0
    ensures WordSum(s) == WordSum(s[..|s| - 2]) + Pair(s[|s| - 2], s[|s| - 1])
  {
    hide WordSum;
    var t := s[..|s| - 1];
    assert t[..|t| - 1] == s[..|s| - 2];
    WordSumLast(s);
    WordSumLast(t);
  }

  /** The accumulator holds the residue of the words fed so far. */
  lemma {:induction false} FeedResidue(s: Bytes)
    ensures Feed(EMPTY, s) == if |s| % 2 == 0 then Accumulator(Residue(WordSum(s)), None)
                              else Accumulator(Residue(WordSum(s[..|s| - 1])), Some(s[|s| - 1]))
    decreases |s|
  {
    hide Residue, WordSum, AddWord, Pair;
    if s == [] {
      NoWords();
    } else {
      var t := s[..|s| - 1];
      FeedResidue(t);
      if |s| % 2 == 0 {
        assert t[..|t| - 1] == s[..|s| - 2];
        WordSumEven(s);
        ResidueStep(WordSum(s[..|s| - 2]), Pair(s[|s| - 2], s[|s| - 1]));
      }
    }
  }

  lemma NoWords()
    ensures Residue(WordSum([])) == 0
  {
  }

  /** Whatever the split, finishing gives the residue of the whole; the running sum stays 16-bit. */
  lemma PaddedResidue(s: Bytes)
    ensures Padded(Feed(EMPTY, s)) == Residue(WordSum(s)) && Feed(EMPTY, s).sum <= 0xffff
  {
    hide WordSum, Feed, Residue, AddWord;
    FeedResidue(s);
    if |s| % 2 == 1 {
      var t := s[..|s| - 1];
      WordSumLast(s);
      ResidueStep(WordSum(t), Pair(s[|s| - 1], 0));
    }
  }

  /** The value of the checksum field. */
  function Checksum(s: Bytes): U16 {
    0xffff - Residue(WordSum(s))
  }

  // ---------------------------------------------------------------------------------------
  // The accumulator of the source.

  class InternetChecksumAccumulator {
    var sum: nat
    var pending: Option<Byte>

    function State(): Accumulator
      reads this
    {
      Accumulator(sum, pending)
    }

    constructor ()
      ensures State() == EMPTY
    {
      sum, pending := 0, None;
    }

    /** Neither the 32-bit addition nor the shift loses a bit: the sum before folding fits 17 bits. */
    method AddWordToSum(word: U16)
      modifies this`sum
      ensures sum == AddWord(old(sum), word) && (old(sum) <= 0xffff ==> sum <= 0xffff)
    {
      sum := sum + word;
      sum := sum % 0x1_0000 + sum / 0x1_0000;
    }

    method Update(input: Bytes)
      requires sum <= 0xffff
      modifies this
      ensures State() == Feed(old(State()), input) && sum <= 0xffff
    {
      hide AddWord;
      var i: nat := 0;
      if pending.Some? {
        if input == [] { return; }
        assert input[..1][..0] == [];
        AddWordToSum(Pair(pending.value, input[0]));
        pending := None;
        i := 1;
      }
      while i + 2 <= |input|
        invariant i <= |input| && sum <= 0xffff && pending.None?
        invariant State() == Feed(old(State()), input[..i])
      {
        FeedTwo(old(State()), input, i);
        AddWordToSum(Pair(input[i], input[i + 1]));
        i := i + 2;
      }
      assert input[..|input|] == input;
      if i < |input| { pending := Some(input[i]); }
    }

    method Finish() returns (c: U16)
      modifies this`sum
      ensures c == 0xffff - Settled(Padded(old(State())))
    {
      if pending.Some? { AddWordToSum(Pair(pending.value, 0)); }
      while sum / 0x1_0000 != 0
        invariant Settled(sum) == Settled(Padded(old(State())))
        decreases sum
      {
        sum := sum % 0x1_0000 + sum / 0x1_0000;
      }
      c := 0xffff - sum;
    }
  }

  lemma FeedTwo(a: Accumulator, input: Bytes, i: nat)
    requires i + 2 <= |input| && Feed(a, input[..i]).pending.None?
    ensures Feed(a, input[..i + 2])
            == Accumulator(AddWord(Feed(a, input[..i]).sum, Pair(input[i], input[i + 1])), None)
  {
    assert input[..i + 2][..i + 1] == input[..i + 1] && input[..i + 1][..i] == input[..i];
  }

  method ComputeInternetChecksum(input: Bytes) returns (c: U16)
    ensures c == Checksum(input)
  {
    var accumulator := new InternetChecksumAccumulator();
    accumulator.Update(input);
    PaddedResidue(input);
    c := accumulator.Finish();
  }

  // ---------------------------------------------------------------------------------------
  // Pseudo-headers.

  datatype Context =
    | Ipv4(source: Bytes, destination: Bytes)
    | Ipv6(source: Bytes, destination: Bytes)

  predicate WellFormed(c: Context) {
    match c
    case Ipv4(source, destination) => |source| == 4 && |destination| == 4
    case Ipv6(source, destination) => |source| == 16 && |destination| == 16
  }

  /** Whether the pseudo-header can represent the segment's length. */
  predicate Representable(c: Context, length: nat) {
    match c
    case Ipv4(_, _) => length <= 0xffff
    case Ipv6(_, _) => length <= 0xffff_ffff
  }

  function PseudoHeader(c: Context, protocol: Byte, length: nat): (s: Bytes)
    requires Representable(c, length)
    ensures WellFormed(c) ==> |s| % 2 == 0
  {
    match c
    case Ipv4(source, destination) => source + destination + [0, protocol] + Be16(length)
    case Ipv6(source, destination) => source + destination + Be32(length) + [0, 0, 0, protocol]
  }

  function TransportChecksum(c: Context, protocol: Byte, segment: Bytes): Option<U16> {
    if Representable(c, |segment|) then Some(Checksum(PseudoHeader(c, protocol, |segment|) + segment)) else None
  }

  /** The pieces are fed one by one; the result is that of their concatenation. */
  method ComputeTransportChecksum(c: Context, protocol: Byte, segment: Bytes) returns (r: Option<U16>)
    ensures r == TransportChecksum(c, protocol, segment)
  {
    hide Feed, Padded, Checksum;
    var accumulator := new InternetChecksumAccumulator();
    match c {
      case Ipv4(source, destination) =>
        if |segment| > 0xffff { return None; }
        accumulator.Update(source);
        accumulator.Update(destination);
        accumulator.Update([0, protocol]);
        accumulator.Update(Be16(|segment|));
        FeedFour(source, destination, [0, protocol], Be16(|segment|));
      case Ipv6(source, destination) =>
        if |segment| > 0xffff_ffff { return None; }
        accumulator.Update(source);
        accumulator.Update(destination);
        accumulator.Update(Be32(|segment|));
        accumulator.Update([0, 0, 0, protocol]);
        FeedFour(source, destination, Be32(|segment|), [0, 0, 0, protocol]);
    }
    ghost var header := PseudoHeader(c, protocol, |segment|);
    accumulator.Update(segment);
    FeedAppend(EMPTY, header, segment);
    FinishedChecksum(header + segment);
    var sum := accumulator.Finish();
    r := Some(sum);
  }

  lemma FeedFour(a: Bytes, b: Bytes, c: Bytes, d: Bytes)
    ensures Feed(Feed(Feed(Feed(EMPTY, a), b), c), d) == Feed(EMPTY, a + b + c + d)
  {
    FeedAppend(EMPTY, a, b);
    FeedAppend(EMPTY, a + b, c);
    FeedAppend(EMPTY, a + b + c, d);
  }

  lemma FinishedChecksum(s: Bytes)
    ensures 0xffff - Settled(Padded(Feed(EMPTY, s))) == Checksum(s)
  {
    PaddedResidue(s);
  }

  // ---------------------------------------------------------------------------------------
  // What a valid checksum means.

  predicate Validates(s: Bytes) { Checksum(s) == 0 }

  lemma ValidatesExact(s: Bytes)
    ensures Validates(s) <==> WordSum(s) > 0 && WordSum(s) % 0xffff == 0
  {
    var n := WordSum(s);
    if n > 0 {
      var q, r := (n - 1) / 0xffff, (n - 1) % 0xffff;
      if r == 0xfffe { ModUnique(n, q + 1, 0); } else { ModUnique(n, q, r + 1); }
    }
  }

  lemma WeightShift(b: Byte, even: nat, position: nat)
    requires even % 2 == 0
    ensures Weight(b, even + position) == Weight(b, position)
  {
  }

  lemma {:induction false} WordSumAppend(s: Bytes, t: Bytes)
    requires |s| % 2 == 0
    ensures WordSum(s + t) == WordSum(s) + WordSum(t)
    decreases |t|
  {
    if t == [] {
      assert s + t == s;
    } else {
      hide WordSum, Weight;
      WordSumAppend(s, t[..|t| - 1]);
      assert (s + t)[..|s + t| - 1] == s + t[..|t| - 1];
      WordSumLast(s + t);
      WordSumLast(t);
      WeightShift(t[|t| - 1], |s|, |t| - 1);
    }
  }

  lemma WordBytes(word: U16)
    ensures Pair(Be16(word)[0], Be16(word)[1]) == word
  {
    hide BigEndian;
    TwoBytesFor(word);
    BigTwo(Be16(word));
  }

  lemma WordSumAround(head: Bytes, mid: Bytes, tail: Bytes)
    requires |head| % 2 == 0 && |mid| == 2
    ensures WordSum(head + mid + tail) == WordSum(head) + Pair(mid[0], mid[1]) + WordSum(tail)
  {
    hide WordSum, Pair;
    WordSumAppend(head, mid);
    WordSumAppend(head + mid, tail);
    TwoBytes(mid);
  }

  lemma WordSumSplit(s: Bytes, k: nat)
    requires k % 2 == 0 && k + 2 <= |s|
    ensures WordSum(s) == WordSum(s[..k]) + Pair(s[k], s[k + 1]) + WordSum(s[k + 2..])
  {
    hide WordSum, Pair;
    var mid: Bytes := [s[k], s[k + 1]];
    assert s == s[..k] + mid + s[k + 2..];
    WordSumAround(s[..k], mid, s[k + 2..]);
  }

  lemma WordSumWith(s: Bytes, k: nat, word: U16)
    requires k % 2 == 0 && k + 2 <= |s|
    ensures WordSum(WithWord(s, k, word)) == WordSum(s) - Pair(s[k], s[k + 1]) + word
    ensures WordSum(s) >= Pair(s[k], s[k + 1])
  {
    hide WordSum, Be16, Pair;
    WordSumSplit(s, k);
    WordBytes(word);
    WordSumAround(s[..k], Be16(word), s[k + 2..]);
  }

  lemma TwoBytes(s: Bytes)
    requires |s| == 2
    ensures WordSum(s) == Pair(s[0], s[1])
  {
    WordSumEven(s);
    assert s[..0] == [];
  }

  /** The value a builder writes into a cleared field: the checksum, or for UDP all ones instead of zero. */
  function FieldValue(s: Bytes, udp: bool): U16 {
    if udp && Checksum(s) == 0 then 0xffff else Checksum(s)
  }

  /** Writing the computed value into its even-offset field always validates. */
  lemma WrittenValidates(s: Bytes, k: nat, udp: bool)
    requires k % 2 == 0 && k + 2 <= |s| && s[k] == 0 && s[k + 1] == 0
    ensures Validates(WithWord(s, k, FieldValue(s, udp)))
    ensures udp ==> FieldValue(s, udp) != 0
  {
    var n := WordSum(s);
    var t := WithWord(s, k, FieldValue(s, udp));
    WordSumWith(s, k, FieldValue(s, udp));
    ValidatesExact(t);
    ValidatesExact(s);
    if Checksum(s) != 0 && n > 0 {
      var q := (n - 1) / 0xffff;
      ModUnique(WordSum(t), q + 1, 0);
    } else if n > 0 {
      ModUnique(WordSum(t), n / 0xffff + (if udp then 1 else 0), 0);
    }
  }

  /** Changing one aligned word of a valid sequence goes unnoticed exactly when it swaps 0x0000 and 0xffff
      and leaves something nonzero behind. */
  lemma WordChangeDetected(s: Bytes, k: nat, word: U16)
    requires k % 2 == 0 && k + 2 <= |s| && Validates(s) && word != Pair(s[k], s[k + 1])
    ensures var t := WithWord(s, k, word);
            Validates(t) <==> (Pair(s[k], s[k + 1]) == 0 && word == 0xffff)
                              || (Pair(s[k], s[k + 1]) == 0xffff && word == 0 && WordSum(t) > 0)
  {
    var t, was := WithWord(s, k, word), Pair(s[k], s[k + 1]);
    WordSumWith(s, k, word);
    ValidatesExact(s);
    ValidatesExact(t);
    var q := WordSum(s) / 0xffff;
    assert WordSum(t) == 0xffff * q + (word - was);
    if word > was {
      if word - was < 0xffff { ModUnique(WordSum(t), q, word - was); } else { ModUnique(WordSum(t), q + 1, 0); }
    } else {
      if was - word < 0xffff {
        ModUnique(WordSum(t), q - 1, 0xffff + word - was);
      } else {
        ModUnique(WordSum(t), q - 1, 0);
      }
    }
  }

  /** A field that validates holds what a builder writes there, or the other representation of zero. One that is not
      zero holds what the UDP builder writes. */
  lemma FieldUnique(s: Bytes, k: nat, word: U16)
    requires k % 2 == 0 && k + 2 <= |s| && s[k] == 0 && s[k + 1] == 0 && Validates(WithWord(s, k, word))
    ensures word == FieldValue(s, false) || (word == 0xffff && FieldValue(s, false) == 0)
    ensures word != 0 ==> word == FieldValue(s, true)
  {
    var n := WordSum(s);
    WordSumWith(s, k, word);
    ValidatesExact(WithWord(s, k, word));
    if n > 0 {
      var q, r := (n - 1) / 0xffff, (n - 1) % 0xffff + 1;
      assert n + word == 0xffff * q + (r + word);
      if r + word < 0xffff {
        ModUnique(n + word, q, r + word);
      } else if 0xffff < r + word < 2 * 0xffff {
        ModUnique(n + word, q + 1, r + word - 0xffff);
      }
    }
  }

  /** The word sum over pseudo-header and segment is a positive multiple of 0xffff. */
  predicate Balanced(c: Context, protocol: Byte, segment: Bytes) {
    && Representable(c, |segment|)
    && var sum := WordSum(PseudoHeader(c, protocol, |segment|) + segment);
    sum > 0 && sum % 0xffff == 0
  }

  lemma BalancedExact(c: Context, protocol: Byte, segment: Bytes)
    ensures TransportChecksum(c, protocol, segment) == Some(0) <==> Balanced(c, protocol, segment)
  {
    hide Checksum, WordSum, PseudoHeader;
    if Representable(c, |segment|) { ValidatesExact(PseudoHeader(c, protocol, |segment|) + segment); }
  }

  lemma TransportFieldUnique(c: Context, protocol: Byte, segment: Bytes, k: nat, word: U16)
    requires WellFormed(c) && Representable(c, |segment|)
    requires k % 2 == 0 && k + 2 <= |segment| && segment[k] == 0 && segment[k + 1] == 0
    requires TransportChecksum(c, protocol, WithWord(segment, k, word)) == Some(0)
    ensures var whole := PseudoHeader(c, protocol, |segment|) + segment;
            && (word == FieldValue(whole, false) || (word == 0xffff && FieldValue(whole, false) == 0))
            && (word != 0 ==> word == FieldValue(whole, true))
  {
    hide Checksum, Be16, Be32;
    var header := PseudoHeader(c, protocol, |segment|);
    assert |header| % 2 == 0;
    assert WithWord(header + segment, |header| + k, word) == header + WithWord(segment, k, word);
    FieldUnique(header + segment, |header| + k, word);
  }

  /** Such a change exists. */
  lemma UnnoticedChange()
    ensures var s: Bytes := [0, 0, 0xff, 0xff];
            Validates(s) && Validates(WithWord(s, 0, 0xffff)) && WithWord(s, 0, 0xffff) != s
  {
    hide Validates, WordSum, Be16;
    var s: Bytes := [0, 0, 0xff, 0xff];
    Be16Pair(0xff, 0xff);
    WordSumSplit(s, 0);
    TwoBytes(s[2..]);
    NoWords();
    ValidatesExact(s);
    WordChangeDetected(s, 0, 0xffff);
  }

  /** A segment checksummed with its pseudo-header validates with it, whatever the parity of its length. */
  lemma TransportWrittenValidates(c: Context, protocol: Byte, segment: Bytes, k: nat, udp: bool)
    requires WellFormed(c) && Representable(c, |segment|)
    requires k % 2 == 0 && k + 2 <= |segment| && segment[k] == 0 && segment[k + 1] == 0
    ensures var v := FieldValue(PseudoHeader(c, protocol, |segment|) + segment, udp);
            TransportChecksum(c, protocol, WithWord(segment, k, v)) == Some(0)
  {
    hide Checksum, Be16, Be32;
    var header := PseudoHeader(c, protocol, |segment|);
    var whole := header + segment;
    var v := FieldValue(whole, udp);
    assert |header| % 2 == 0;
    WrittenValidates(whole, |header| + k, udp);
    assert WithWord(whole, |header| + k, v) == header + WithWord(segment, k, v);
  }
}
