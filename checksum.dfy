/** The Internet checksum of RFC 1071: the 16-bit one's complement sum of a
    byte string read as big-endian 16-bit words, as the header codec computes it. */
module InternetChecksum {

  /** An octet. */
  type byte = x: int | 0 <= x < 256

  /** All sixteen bits set: the one's complement "negative zero", and the modulus
      of one's complement arithmetic on 16-bit words. */
  const AllOnes: nat := 0xFFFF

  /** Plain (not yet folded) sum of the big-endian 16-bit words of `s`. A trailing odd
      byte is the high-order byte of a word whose low-order byte is zero. */
  function WordSum(s: seq<byte>): nat
    decreases |s|
  {
    if |s| == 0 then 0
    else if |s| == 1 then s[0] * 256
    else s[0] * 256 + s[1] + WordSum(s[2..])
  }

  /** The one's complement value of a sum: zero for zero, and otherwise the number in
      1..0xFFFF congruent to `v` modulo 0xFFFF (one's complement has no positive zero). */
  function Fold(v: nat): (r: nat)
    ensures r <= AllOnes
    ensures r == 0 <==> v == 0
  {
    if v == 0 then 0 else (v - 1) % AllOnes + 1
  }

  /** Folding keeps the value modulo 0xFFFF. */
  lemma FoldResidue(v: nat)
    ensures Fold(v) % AllOnes == v % AllOnes
  {
    if v > 0 {
      var q := (v - 1) / AllOnes;
      assert v == AllOnes * q + (Fold(v) - 1) + 1;
      ModAddMultiple(Fold(v), q);
    }
  }

  /** The end-around carry fold of RFC 1071: add the carries above bit 15 back in until
      the value fits in 16 bits; the reference `Fold` is proved equal to. */
  function Carry(v: nat): (r: nat)
    ensures r <= AllOnes
    decreases v
  {
    if v <= AllOnes then v
    else
      CarryStep(v);
      Carry(v / 0x10000 + v % 0x10000)
  }

  /** The carry loop computes exactly the one's complement value. */
  lemma {:induction false} CarryIsFold(v: nat)
    ensures Carry(v) == Fold(v)
    decreases v
  {
    if v > AllOnes {
      var w := v / 0x10000 + v % 0x10000;
      CarryStep(v);
      CarryIsFold(w);
      FoldResidue(v);
      FoldResidue(w);
      FoldedUnique(Fold(v), Fold(w));
    }
  }

  /** `Checksum(buf, initial)`: the one's complement sum of `initial` and the words of `buf`. */
  function Checksum(buf: seq<byte>, initial: nat): (r: nat)
    ensures r <= AllOnes
    ensures r % AllOnes == (initial + WordSum(buf)) % AllOnes
    ensures r == 0 <==> initial == 0 && WordSum(buf) == 0
  {
    FoldResidue(initial + WordSum(buf));
    Fold(initial + WordSum(buf))
  }

  /** `^x` on a 16-bit value. */
  function Complement(x: nat): (r: nat)
    requires x <= AllOnes
    ensures r <= AllOnes && x + r == AllOnes
  {
    AllOnes - x
  }

  lemma ModAddMultiple(a: nat, k: nat)
    ensures (a + AllOnes * k) % AllOnes == a % AllOnes
    decreases k
  {
    if k > 0 {
      ModAddMultiple(a, k - 1);
      assert a + AllOnes * k == (a + AllOnes * (k - 1)) + AllOnes;
    }
  }

  /** One carry step shrinks the value and keeps its residue. */
  lemma CarryStep(v: nat)
    requires v > AllOnes
    ensures 0 < v / 0x10000 + v % 0x10000 < v
    ensures (v / 0x10000 + v % 0x10000) % AllOnes == v % AllOnes
  {
    var q, m := v / 0x10000, v % 0x10000;
    assert v == 0x10000 * q + m;
    assert q >= 1;
    assert v == (q + m) + AllOnes * q;
    ModAddMultiple(q + m, q);
  }

  /** Residues modulo 0xFFFF are preserved by adding the same amount. */
  lemma ModAddCongruent(a: nat, c: nat, b: nat)
    requires c % AllOnes == a % AllOnes
    ensures (c + b) % AllOnes == (a + b) % AllOnes
  {
    assert c == c % AllOnes + AllOnes * (c / AllOnes);
    assert a == a % AllOnes + AllOnes * (a / AllOnes);
    ModAddMultiple(c % AllOnes + b, c / AllOnes);
    ModAddMultiple(a % AllOnes + b, a / AllOnes);
    assert c + b == (c % AllOnes + b) + AllOnes * (c / AllOnes);
    assert a + b == (a % AllOnes + b) + AllOnes * (a / AllOnes);
  }

  /** Two folded values agree when their residues agree and they are zero together. */
  lemma FoldedUnique(x: nat, y: nat)
    requires x <= AllOnes && y <= AllOnes
    requires x % AllOnes == y % AllOnes
    requires x == 0 <==> y == 0
    ensures x == y
  {
  }

  /** Folding an intermediate sum does not change the final folded sum: the codec may
      chain `Checksum` calls over consecutive pieces of a message. */
  lemma {:induction false} FoldFold(a: nat, b: nat)
    ensures Fold(Fold(a) + b) == Fold(a + b)
  {
    FoldResidue(a);
    FoldResidue(Fold(a) + b);
    FoldResidue(a + b);
    ModAddCongruent(a, Fold(a), b);
    FoldedUnique(Fold(Fold(a) + b), Fold(a + b));
  }

  /** Continuing a checksum from a folded partial sum is folding the whole sum. */
  lemma ChecksumContinue(buf: seq<byte>, partial: nat, total: nat)
    requires partial == Fold(total)
    ensures Checksum(buf, partial) == Fold(total + WordSum(buf))
  {
    FoldFold(total, WordSum(buf));
  }

  /** The words of a concatenation add up when the first part has an even length. */
  lemma {:induction false} WordSumAppend(a: seq<byte>, b: seq<byte>)
    requires |a| % 2 == 0
    ensures WordSum(a + b) == WordSum(a) + WordSum(b)
    decreases |a|
  {
    if |a| == 0 {
      assert a + b == b;
    } else {
      assert (a + b)[2..] == a[2..] + b;
      WordSumAppend(a[2..], b);
    }
  }

  /** The check of RFC 1071: a sum `s` with the complement of its own fold added in
      folds to all ones, which is how a receiver verifies the stored checksum. */
  lemma ComplementVerifies(s: nat)
    ensures Fold(s + Complement(Fold(s))) == AllOnes
  {
    var c := Fold(s);
    var v := s + Complement(c);
    FoldResidue(s);
    ModAddCongruent(c, s, AllOnes - c);
    assert v % AllOnes == 0;
  }
}
