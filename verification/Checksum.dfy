/**
 * The arithmetic of the Internet checksum: the 16-bit word sum that ipv6_packet.h accumulates, the
 * ones' complement sum of section 1 of RFC 1071, and how far one is from the other.
 */
module Checksum {
  import opened Bytes

  const WORD := 0x1_0000
  const ALL_ONES := 0xFFFF

  // ---------------------------------------------------------------------------------------------
  // What the code sums
  // ---------------------------------------------------------------------------------------------

  /** A 16-bit word from its high and its low byte. */
  function Word(high: nat, low: nat): nat {
    high * 256 + low
  }

  /** The sum of the big-endian 16-bit words; an odd last byte is padded with zero. */
  function WordSum(b: seq<Byte>): nat {
    if b == [] then 0
    else if |b| == 1 then Word(b[0], 0)
    else Word(b[0], b[1]) + WordSum(b[2..])
  }

  /** The same, when the first byte completes a word begun before. */
  function OddSum(b: seq<Byte>): nat {
    if b == [] then 0 else b[0] + WordSum(b[1..])
  }

  function PartSum(b: seq<Byte>, startOdd: bool): nat {
    if startOdd then OddSum(b) else WordSum(b)
  }

  /** One folding of the carries, then the complement of the low 16 bits. */
  function Fold(sum: nat): nat {
    sum % WORD + sum / WORD
  }

  function Complement(sum: nat): nat {
    ALL_ONES - sum % WORD
  }

  function CodeChecksum(b: seq<Byte>): nat {
    Complement(Fold(WordSum(b)))
  }

  // ---------------------------------------------------------------------------------------------
  // What the standard asks for
  // ---------------------------------------------------------------------------------------------

  function Words(b: seq<Byte>): seq<nat> {
    if b == [] then []
    else if |b| == 1 then [Word(b[0], 0)]
    else [Word(b[0], b[1])] + Words(b[2..])
  }

  /** Ones' complement addition: the carry out of the top comes back in at the bottom. */
  function OnesAdd(x: nat, y: nat): nat {
    if x + y >= WORD then x + y - WORD + 1 else x + y
  }

  function OnesSum(words: seq<nat>): nat {
    if words == [] then 0 else OnesAdd(words[0], OnesSum(words[1..]))
  }

  function RfcChecksum(b: seq<Byte>): int {
    ALL_ONES - OnesSum(Words(b))
  }

  function Padded(b: seq<Byte>): seq<Byte> {
    if |b| % 2 == 0 then b else b + [0]
  }

  // ---------------------------------------------------------------------------------------------
  // How they are related
  // ---------------------------------------------------------------------------------------------

  lemma {:induction false} WordSumBound(b: seq<Byte>)
    ensures 2 * WordSum(b) <= ALL_ONES * (|b| + |b| % 2)
    decreases |b|
  {
    if |b| > 1 {
      WordSumBound(b[2..]);
    }
  }

  /** Summing `a` and then `b`, with the odd flag set iff `a` has odd length, sums `a + b`. */
  lemma {:induction false} SumSplits(a: seq<Byte>, b: seq<Byte>)
    ensures WordSum(a + b) == WordSum(a) + PartSum(b, |a| % 2 == 1)
    decreases |a|
  {
    if a == [] {
      assert a + b == b;
    } else if |a| == 1 {
      if b != [] {
        assert (a + b)[2..] == b[1..];
      } else {
        assert a + b == a;
      }
    } else {
      assert (a + b)[2..] == a[2..] + b;
      SumSplits(a[2..], b);
    }
  }

  lemma PaddingAddsNothing(b: seq<Byte>)
    ensures WordSum(Padded(b)) == WordSum(b)
  {
    if |b| % 2 == 1 {
      var rest, last := b[..|b| - 1], b[|b| - 1..];
      assert b == rest + last && Padded(b) == rest + (last + [0]);
      SumSplits(rest, last);
      SumSplits(rest, last + [0]);
      assert (last + [0])[2..] == [];
      assert WordSum(last + [0]) == Word(last[0], 0) == WordSum(last);
    }
  }

  lemma ValueOfWord(w: seq<Byte>)
    requires |w| == 2
    ensures Value(w) == WordSum(w) == Word(w[0], w[1])
  {
    assert Value(w) == Value(w[..1]) * 256 + w[1];
    assert Value(w[..1]) == Value(w[..1][..0]) * 256 + w[0];
    assert w[..1][..0] == [] && w[2..] == [];
  }

  lemma {:induction false} EvenSumIsValueModulo(b: seq<Byte>)
    requires |b| % 2 == 0
    ensures WordSum(b) % ALL_ONES == Value(b) % ALL_ONES
    decreases |b|
  {
    if b != [] {
      var head, last := b[..|b| - 2], b[|b| - 2..];
      EvenSumIsValueModulo(head);
      assert b == head + last;
      SumSplits(head, last);
      ValueAppend(head, last);
      ValueOfWord(last);
      assert Pow256(2) == 256 * Pow256(1) == WORD;
      ShiftModulo(Value(head), WordSum(head), WordSum(last));
    }
  }

  /** The word sum stands for the big-endian number modulo 2^16 - 1. */
  lemma SumIsValueModulo(b: seq<Byte>)
    ensures WordSum(b) % ALL_ONES == Value(Padded(b)) % ALL_ONES
  {
    hide WordSum, Value;
    PaddingAddsNothing(b);
    EvenSumIsValueModulo(Padded(b));
  }

  lemma ShiftModulo(v: nat, s: nat, w: nat)
    requires v % ALL_ONES == s % ALL_ONES
    ensures (v * WORD + w) % ALL_ONES == (s + w) % ALL_ONES
  {
    var q, r := v / ALL_ONES, s / ALL_ONES;
    assert v * WORD + w == s + w + ALL_ONES * (v + q - r);
    AddMultiple(s + w, v + q - r);
  }

  lemma AddMultiple(x: int, k: int)
    ensures (x + ALL_ONES * k) % ALL_ONES == x % ALL_ONES
  {
  }

  /** The ones' complement sum is the representative of the word sum in 1..2^16-1 (0 only for 0). */
  lemma {:induction false} OnesSumRepresents(b: seq<Byte>)
    ensures OnesSum(Words(b)) <= ALL_ONES
    ensures OnesSum(Words(b)) % ALL_ONES == WordSum(b) % ALL_ONES
    ensures OnesSum(Words(b)) == 0 <==> WordSum(b) == 0
    decreases |b|
  {
    if |b| > 1 {
      OnesSumRepresents(b[2..]);
      assert Words(b)[1..] == Words(b[2..]);
      RepresentsSum(Word(b[0], b[1]), OnesSum(Words(b[2..])), WordSum(b[2..]));
    } else if |b| == 1 {
      assert Words(b)[1..] == [];
      assert OnesSum(Words(b)) == OnesAdd(Word(b[0], 0), 0);
    }
  }

  lemma RepresentsSum(w: nat, o: nat, s: nat)
    requires w <= ALL_ONES && o <= ALL_ONES && o % ALL_ONES == s % ALL_ONES
    ensures OnesAdd(w, o) % ALL_ONES == (w + s) % ALL_ONES
  {
    var k := s / ALL_ONES - o / ALL_ONES;
    assert s == o + ALL_ONES * k;
    AddMultiple(w + o, k);
    AddMultiple(w + o - ALL_ONES, 1);
  }

  /** One folding keeps the class modulo 2^16 - 1, and a 32-bit sum folds to at most 2^17 - 2. */
  lemma FoldRepresents(sum: nat)
    requires sum < 0x1_0000_0000
    ensures Fold(sum) % ALL_ONES == sum % ALL_ONES
    ensures Fold(sum) <= 2 * ALL_ONES
    ensures Fold(sum) == 0 <==> sum == 0
  {
    AddMultiple(Fold(sum), sum / WORD);
  }

  lemma SameRepresentative(x: nat, y: nat)
    requires x <= ALL_ONES && y <= ALL_ONES && x % ALL_ONES == y % ALL_ONES
    requires x == 0 <==> y == 0
    ensures x == y
  {
  }

  /** For every byte string whose word sum fits 32 bits: the folded and complemented sum is the checksum
      of RFC 1071 exactly when the one folding leaves no carry, and otherwise it is one too large. */
  lemma CodeAgainstRfc(b: seq<Byte>)
    requires WordSum(b) < 0x1_0000_0000
    ensures CodeChecksum(b) == RfcChecksum(b) <==> Fold(WordSum(b)) < WORD
    ensures Fold(WordSum(b)) >= WORD ==> CodeChecksum(b) == RfcChecksum(b) + 1
  {
    OnesSumRepresents(b);
    FoldRepresents(WordSum(b));
    FoldedAgainst(Fold(WordSum(b)), OnesSum(Words(b)));
  }

  lemma FoldedAgainst(f: nat, o: nat)
    requires f <= 2 * ALL_ONES && o <= ALL_ONES && f % ALL_ONES == o % ALL_ONES
    requires f == 0 <==> o == 0
    ensures f < WORD ==> Complement(f) == ALL_ONES - o
    ensures f >= WORD ==> Complement(f) == ALL_ONES - o + 1
  {
    if f < WORD {
      SameRepresentative(f, o);
    } else {
      AddMultiple(f - ALL_ONES, 1);
      SameRepresentative(f - ALL_ONES, o);
    }
  }
}
