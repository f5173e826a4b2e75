/** The Internet checksum of RFC 1071, as `ip_sum` computes it for the IPv4
    header checksum of section 3.1 of RFC 791.

    The function appears twice in the source, identically
    (src/c++/apps/echo/dpdk_common.cpp and libos/liblwip/lwip-queue.cc);
    it is modelled once here.  Its 16-bit loads (`*hdr++` through an
    `unaligned_uint16_t *`) read two bytes least significant first. */
module InternetChecksum {
  import opened Bytes

  /** The 16-bit word that starts at byte `2 * i`. */
  function Word(b: seq<u8>, i: nat): (w: u16)
    requires 2 * i + 2 <= |b|
  {
    WordOf(b[2 * i], b[2 * i + 1])
  }

  /** The 16-bit word whose low byte is `lo` and high byte is `hi`. */
  function WordOf(lo: u8, hi: u8): u16
  {
    lo as int + 256 * (hi as int)
  }

  /** The plain (unbounded) sum of the 16-bit words of `b`, taken from the
      end two bytes at a time.  It is applied to strings of even length
      only: `ip_sum` leaves out an odd last byte (see `IpSum`). */
  function WordSum(b: seq<u8>): nat
    decreases |b|
  {
    if |b| < 2 then 0
    else WordSum(b[..|b| - 2]) + WordOf(b[|b| - 2], b[|b| - 1])
  }

  /** What end-around carry folding makes of a sum: the value in
      [1, 0xFFFF] congruent to it modulo 0xFFFF, or 0 for the sum 0. */
  function Fold(t: nat): (s: u16)
  {
    if t == 0 then 0 else (t - 1) % 0xFFFF + 1
  }

  /** The checksum of a byte string: the one's complement of the folded
      sum of its words. */
  function Checksum(b: seq<u8>): u16
  {
    0xFFFF - Fold(WordSum(b))
  }

  /** Reference definition: one's complement addition, word by word. */
  function OnesAdd(a: u16, w: u16): u16
  {
    if a + w > 0xFFFF then a + w - 0xFFFF else a + w
  }

  function OnesSum(b: seq<u8>): u16
    decreases |b|
  {
    if |b| < 2 then 0
    else OnesAdd(OnesSum(b[..|b| - 2]), WordOf(b[|b| - 2], b[|b| - 1]))
  }

  /** The number of words the first loop of `ip_sum` reads for `hdr_len`. */
  function WordCount(hdrLen: int): nat
  {
    if hdrLen > 1 then hdrLen / 2 else 0
  }

  /** Adding multiples of 0xFFFF does not change a value modulo 0xFFFF. */
  lemma ModMultiple(a: nat, k: nat)
    ensures (k * 0xFFFF + a) % 0xFFFF == a % 0xFFFF
  {
  }

  /** One folding step `(s & 0xFFFF) + (s >> 16)` keeps the value modulo
      0xFFFF, keeps it non-zero, and shrinks it once it has a carry. */
  lemma FoldStep(s: nat)
    ensures s % 0x10000 + s / 0x10000 <= s
    ensures s >= 0x10000 ==> s % 0x10000 + s / 0x10000 < s
    ensures (s % 0x10000 + s / 0x10000) % 0xFFFF == s % 0xFFFF
    ensures s > 0 ==> s % 0x10000 + s / 0x10000 > 0
  {
    var q, m := s / 0x10000, s % 0x10000;
    assert s == q * 0xFFFF + (q + m);
    ModMultiple(q + m, q);
  }

  /** A value below 2^16 that agrees with `t` modulo 0xFFFF and on being
      zero is the folded sum of `t`. */
  lemma FoldUnique(s: nat, t: nat)
    requires s < 0x10000
    requires s % 0xFFFF == t % 0xFFFF
    requires (s == 0) == (t == 0)
    ensures s == Fold(t)
  {
    if t > 0 {
      var q := t / 0xFFFF;
      assert t == q * 0xFFFF + s % 0xFFFF;
      if s == 0xFFFF {
        assert t == (q - 1) * 0xFFFF + 0xFFFF;
        assert t - 1 == (q - 1) * 0xFFFF + 0xFFFE;
        ModMultiple(0xFFFE, q - 1);
      } else {
        assert t - 1 == q * 0xFFFF + (s - 1);
        ModMultiple(s - 1, q);
      }
    }
  }

  lemma WordSumSnoc(b: seq<u8>, i: nat)
    requires 2 * i + 2 <= |b|
    ensures WordSum(b[..2 * i + 2]) == WordSum(b[..2 * i]) + Word(b, i)
  {
    assert b[..2 * i + 2][..2 * i] == b[..2 * i];
  }

  /** Appending a word adds its value to the sum. */
  lemma WordSumPush(b: seq<u8>, lo: u8, hi: u8)
    ensures WordSum(b + [lo, hi]) == WordSum(b) + WordOf(lo, hi)
  {
    assert (b + [lo, hi])[..|b|] == b;
  }

  /** Adding the same word to two values that agree modulo 0xFFFF and on
      being zero keeps them so. */
  lemma AddWord(s: nat, t: nat, w: u16)
    requires s % 0xFFFF == t % 0xFFFF
    requires (s == 0) == (t == 0)
    ensures (s + w) % 0xFFFF == (t + w) % 0xFFFF
    ensures (s + w == 0) == (t + w == 0)
  {
    ModMultiple(s % 0xFFFF + w, s / 0xFFFF);
    ModMultiple(t % 0xFFFF + w, t / 0xFFFF);
  }

  /** One pass of the first loop of `ip_sum` keeps the accumulator below
      2^31 (so the 32-bit addition never wraps) and in step with the plain
      sum `t` once the word `w` is added to both. */
  lemma AccumulateStep(sum: nat, t: nat, w: u16)
    requires sum < 0x8000_0000
    requires sum % 0xFFFF == t % 0xFFFF && (sum == 0) == (t == 0)
    ensures (sum + w) % 0x1_0000_0000 == sum + w
    ensures var s := sum + w;
      var s' := if s >= 0x8000_0000 then s % 0x10000 + s / 0x10000 else s;
      && s' < 0x8000_0000
      && s' % 0xFFFF == (t + w) % 0xFFFF && (s' == 0) == (t + w == 0)
  {
    AddWord(sum, t, w);
    FoldStep(sum + w);
  }

  /** The low 16 bits of the 32-bit complement of a 16-bit value are its
      16-bit complement. */
  lemma LowHalfOfComplement(s: nat)
    requires s < 0x10000
    ensures (0xFFFF_FFFF - s) % 0x10000 == 0xFFFF - s
  {
    assert 0xFFFF_FFFF - s == 0xFFFF * 0x10000 + (0xFFFF - s);
  }

  /** `ip_sum(hdr, hdr_len)`.  The accumulator is a `uint32_t`: additions
      are taken modulo 2^32 as in C, and the proof shows they never wrap. */
  method IpSum(hdr: seq<u8>, hdrLen: int) returns (r: u16)
    requires hdrLen <= |hdr|
    ensures r == Checksum(hdr[..2 * WordCount(hdrLen)])
  {
    var sum: nat := 0;
    var len := hdrLen;
    var i: nat := 0;
    while len > 1
      invariant len == hdrLen - 2 * i
      invariant i <= WordCount(hdrLen)
      invariant len > 1 ==> i < WordCount(hdrLen)
      invariant len <= 1 ==> i == WordCount(hdrLen)
      invariant sum < 0x8000_0000
      invariant sum % 0xFFFF == WordSum(hdr[..2 * i]) % 0xFFFF
      invariant (sum == 0) == (WordSum(hdr[..2 * i]) == 0)
    {
      WordSumSnoc(hdr, i);
      AccumulateStep(sum, WordSum(hdr[..2 * i]), Word(hdr, i));
      sum := (sum + Word(hdr, i)) % 0x1_0000_0000;
      if sum >= 0x8000_0000 {
        FoldStep(sum);
        sum := sum % 0x10000 + sum / 0x10000;
      }
      len := len - 2;
      i := i + 1;
    }
    ghost var t := WordSum(hdr[..2 * i]);
    while sum / 0x10000 != 0
      invariant sum < 0x1_0000_0000
      invariant sum % 0xFFFF == t % 0xFFFF
      invariant (sum == 0) == (t == 0)
      decreases sum
    {
      FoldStep(sum);
      sum := sum % 0x10000 + sum / 0x10000;
    }
    FoldUnique(sum, t);
    // `~sum` is a uint32_t; returning it as uint16_t keeps the low 16 bits.
    LowHalfOfComplement(sum);
    r := (0xFFFF_FFFF - sum) % 0x10000;
  }

  /** The reference one's complement sum agrees with folding the plain sum. */
  lemma {:induction false} OnesSumIsFold(b: seq<u8>)
    ensures OnesSum(b) == Fold(WordSum(b))
    decreases |b|
  {
    if |b| >= 2 {
      var p := b[..|b| - 2];
      var w := WordOf(b[|b| - 2], b[|b| - 1]);
      OnesSumIsFold(p);
      var t := WordSum(p);
      var a := Fold(t);
      var s := OnesAdd(a, w);
      // `s` agrees with `t + w` modulo 0xFFFF and on being zero.
      if t == 0 {
        assert s == w;
      } else {
        var q := (t - 1) / 0xFFFF;
        assert t == q * 0xFFFF + a;
        assert t + w == q * 0xFFFF + (a as int + w);
        ModMultiple(a as int + w, q);
        if a + w > 0xFFFF {
          ModMultiple(s, 1);
        }
      }
      FoldUnique(s, t + w);
    }
  }

  /** The word sum of a two-byte string is its one word. */
  lemma WordSumPair(w: seq<u8>)
    requires |w| == 2
    ensures WordSum(w) == WordOf(w[0], w[1])
  {
    assert w[..0] == [];
  }

  /** A host-order store of `c` is the word `c`. */
  lemma WordSumLE16(c: u16)
    ensures WordSum(LE16(c)) == c
  {
    var w := LE16(c);
    WordSumPair(w);
    assert LeValue(w) == w[0] + 256 * LeValue(w[1..]);
    assert LeValue(w[1..]) == w[1] + 256 * LeValue(w[2..]);
    assert w[2..] == [];
  }

  /** Division by 2^16 of a value given by its two halves. */
  lemma Halves(v: nat, lo: nat, hi: nat)
    requires lo < 0x10000 && v == lo + 0x10000 * hi
    ensures v % 0x10000 == lo && v / 0x10000 == hi
  {
  }

  /** A host-order store of a 32-bit value is its low word, then its
      high word. */
  lemma WordSumLE32(v: u32)
    ensures WordSum(LE32(v)) == v % 0x10000 + v / 0x10000
  {
    var s := LE32(v);
    assert LeValue(s) == s[0] + 256 * LeValue(s[1..]);
    assert LeValue(s[1..]) == s[1] + 256 * LeValue(s[2..]);
    assert LeValue(s[2..]) == s[2] + 256 * LeValue(s[3..]);
    assert LeValue(s[3..]) == s[3] + 256 * LeValue(s[4..]);
    assert s[4..] == [];
    var w0: nat, w1: nat := WordOf(s[0], s[1]), WordOf(s[2], s[3]);
    assert v == w0 + 0x10000 * w1;
    Halves(v, w0, w1);
    assert s == s[..2] + [s[2], s[3]];
    WordSumPush(s[..2], s[2], s[3]);
    WordSumPair(s[..2]);
  }

  /** With an even-length prefix, the words of a concatenation are those
      of its parts. */
  lemma {:induction false} WordSumConcat(a: seq<u8>, b: seq<u8>)
    requires |a| % 2 == 0 && |b| % 2 == 0
    ensures WordSum(a + b) == WordSum(a) + WordSum(b)
    decreases |b|
  {
    if b == [] {
      assert a + b == a;
    } else {
      var init := b[..|b| - 2];
      WordSumConcat(a, init);
      assert (a + b)[..|a + b| - 2] == a + init;
    }
  }

  /** Two strings that differ only in the word at byte `k` have word sums
      that differ by the difference of those words. */
  lemma {:induction false} ReplaceWord(b: seq<u8>, c: seq<u8>, k: nat)
    requires |b| == |c| && |b| % 2 == 0 && k % 2 == 0 && k + 2 <= |b|
    requires forall i :: 0 <= i < |b| && i != k && i != k + 1 ==> b[i] == c[i]
    ensures WordSum(c) + WordOf(b[k], b[k + 1]) == WordSum(b) + WordOf(c[k], c[k + 1])
    decreases |b|
  {
    var n := |b| - 2;
    var b', c' := b[..n], c[..n];
    if k == n {
      assert b' == c' by {
        forall i | 0 <= i < n ensures b'[i] == c'[i] {
          assert b[i] == c[i];
        }
      }
    } else {
      assert b[n] == c[n] && b[n + 1] == c[n + 1];
      ReplaceWord(b', c', k);
    }
  }

  /** A sum plus the complement of its folded value folds to 0xFFFF. */
  lemma AddComplement(t: nat)
    ensures Fold(t + (0xFFFF - Fold(t))) == 0xFFFF
  {
    var t' := t + (0xFFFF - Fold(t));
    if t == 0 {
      assert t' == 0xFFFF;
    } else {
      var q := (t - 1) / 0xFFFF;
      assert t - 1 == q * 0xFFFF + (Fold(t) - 1);
      assert t' - 1 == q * 0xFFFF + 0xFFFE;
      ModMultiple(0xFFFE, q);
    }
  }

  /** Storing a word into a zero word field adds it to the word sum. */
  lemma StoreWord(b: seq<u8>, k: nat, v: u16)
    requires |b| % 2 == 0 && k % 2 == 0 && k + 2 <= |b|
    requires b[k] == 0 && b[k + 1] == 0
    ensures WordSum(b[..k] + LE16(v) + b[k + 2..]) == WordSum(b) + v
  {
    var w := LE16(v);
    var c := b[..k] + w + b[k + 2..];
    forall i | 0 <= i < |b| && i != k && i != k + 1 ensures b[i] == c[i] {
      if i > k + 1 {
        assert c[i] == b[k + 2..][i - k - 2];
      }
    }
    ReplaceWord(b, c, k);
    assert c[k] == w[0] && c[k + 1] == w[1];
    WordSumLE16(v);
    WordSumPair(w);
  }

  /** The self-verification identity: with the checksum written (as the
      same host-order 16-bit store that read the words) into a checksum
      field that was zero, the checksum of the result is 0. */
  lemma ChecksumVerifies(b: seq<u8>, k: nat)
    requires |b| % 2 == 0 && k % 2 == 0 && k + 2 <= |b|
    requires b[k] == 0 && b[k + 1] == 0
    ensures Checksum(b[..k] + LE16(Checksum(b)) + b[k + 2..]) == 0
  {
    StoreWord(b, k, Checksum(b));
    ChecksumOfComplementedSum(b[..k] + LE16(Checksum(b)) + b[k + 2..], WordSum(b));
  }

  /** A string whose words add up to `t` plus the complement of `t`'s
      folded value checks to 0. */
  lemma ChecksumOfComplementedSum(c: seq<u8>, t: nat)
    requires WordSum(c) == t + (0xFFFF - Fold(t))
    ensures Checksum(c) == 0
  {
    AddComplement(t);
  }

  // Storing the checksum byte-swapped (`htons(ip_sum(..))` on a
  // little-endian host) instead of as the words were read.

  /** A sum folds to 0xFFFF exactly when it is a non-zero multiple of
      0xFFFF. */
  lemma FoldFull(x: nat)
    ensures Fold(x) == 0xFFFF <==> x > 0 && x % 0xFFFF == 0
  {
    if x > 0 {
      var q, r := (x - 1) / 0xFFFF, (x - 1) % 0xFFFF;
      assert x - 1 == q * 0xFFFF + r;
      if r == 0xFFFE {
        assert x == (q + 1) * 0xFFFF + 0;
        ModMultiple(0, q + 1);
      } else {
        assert x == q * 0xFFFF + (r + 1);
        ModMultiple(r + 1, q);
      }
    }
  }

  /** Adding the byte-swapped word `256 * lo + hi` instead of `256 * hi +
      lo` to a multiple of 0xFFFF gives a multiple of 0xFFFF exactly when
      the two bytes are equal. */
  lemma SwapResidue(m: nat, hi: nat, lo: nat)
    requires hi < 256 && lo < 256 && 256 * hi + lo <= m * 0xFFFF
    ensures (m * 0xFFFF - (256 * hi + lo) + (256 * lo + hi)) % 0xFFFF == 0 <==> hi == lo
  {
    if lo >= hi {
      assert m * 0xFFFF - (256 * hi + lo) + (256 * lo + hi) == m * 0xFFFF + 255 * (lo - hi);
      ModMultiple(255 * (lo - hi), m);
    } else {
      assert m >= 1;
      assert m * 0xFFFF - (256 * hi + lo) + (256 * lo + hi) == (m - 1) * 0xFFFF + (0xFFFF - 255 * (hi - lo));
      ModMultiple(0xFFFF - 255 * (hi - lo), m - 1);
    }
  }

  /** The two bytes of a 16-bit value, and of its `htons`. */
  lemma HtonsBytes(v: u16)
    ensures v == 256 * (v / 256) + v % 256
    ensures Htons(v) == 256 * (v % 256) + v / 256
  {
  }

  /** For any word sum `t` with checksum `c`, adding `htons(c)` to `t`
      folds to 0xFFFF exactly when the two bytes of `c` are equal. */
  lemma SwappedSum(t: nat)
    ensures var c := 0xFFFF - Fold(t);
      Fold(t + Htons(c)) == 0xFFFF <==> c / 256 == c % 256
  {
    var c := 0xFFFF - Fold(t);
    AddComplement(t);
    FoldFull(t + c);
    FoldFull(t + Htons(c));
    var m := (t + c) / 0xFFFF;
    assert t + c == m * 0xFFFF;
    HtonsBytes(c);
    SwapResidue(m, c / 256, c % 256);
  }

  /** With the checksum written byte-swapped into the zero checksum field,
      the result checks to 0 exactly when the checksum's two bytes are
      equal. */
  lemma SwappedChecksumVerifies(b: seq<u8>, k: nat)
    requires |b| % 2 == 0 && k % 2 == 0 && k + 2 <= |b|
    requires b[k] == 0 && b[k + 1] == 0
    ensures var c := Checksum(b);
      Checksum(b[..k] + LE16(Htons(c)) + b[k + 2..]) == 0 <==> c / 256 == c % 256
  {
    StoreWord(b, k, Htons(Checksum(b)));
    SwappedSum(WordSum(b));
  }
}
