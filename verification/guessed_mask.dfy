/**
 * The packed "guessed" mask of GameState.java, as values: bit `i % 8` of byte `i / 8` marks word
 * `i` of the word list. How findGuessedWords reads it back (byte by byte, bit by bit, with Java's
 * sign-extending shift) and how addGuessedWord sets one bit of it.
 *
 * Java bytes are modelled as `bv8`: only their bit patterns matter here, except for the
 * arithmetic right shift of findGuessedWords, which is written out as `Sar1`.
 */
module GuessMask {
  import opened Wrappers
  import opened JavaInts

  // ---------------------------------------------------------------------------------------------
  // Bits

  /** The byte `1 << j`, for a bit position `j` of a byte. */
  function BitOf(j: int): (r: bv8)
    requires 0 <= j < 8
  {
    match j
    case 0 => 0x01
    case 1 => 0x02
    case 2 => 0x04
    case 3 => 0x08
    case 4 => 0x10
    case 5 => 0x20
    case 6 => 0x40
    case _ => 0x80
  }

  predicate BitSet(b: bv8, j: nat)
    requires j < 8
  {
    b & BitOf(j) != 0
  }

  /** `(byte) (b >> 1)` on a Java byte: the shift copies the sign bit. */
  function Sar1(b: bv8): (r: bv8)
  {
    (b >> 1) | (b & 0x80)
  }

  /** The byte after `j` shifts. */
  function Shifted(b: bv8, j: nat): (r: bv8)
  {
    if j == 0 then b else Sar1(Shifted(b, j - 1))
  }

  lemma Sar1Bits(x: bv8, k: nat)
    requires k < 7
    ensures BitSet(Sar1(x), k) <==> BitSet(x, k + 1)
  {
  }

  lemma {:induction false} ShiftedBits(b: bv8, j: nat, k: nat)
    requires k + j < 8
    ensures BitSet(Shifted(b, j), k) <==> BitSet(b, k + j)
  {
    if j > 0 {
      Sar1Bits(Shifted(b, j - 1), k);
      ShiftedBits(b, j - 1, k + 1);
    }
  }

  /** After `j` shifts the low bit is bit `j` of the original byte, the sign bit included. */
  lemma LowBit(b: bv8, j: nat)
    requires j < 8
    ensures (Shifted(b, j) & 1 == 1) <==> BitSet(b, j)
  {
    ShiftedBits(b, j, 0);
  }

  lemma OrBit(b: bv8, r: nat, j: nat)
    requires r < 8 && j < 8
    ensures BitSet(b | BitOf(r), j) <==> BitSet(b, j) || j == r
  {
  }

  /** Word `x` is marked: bit `x % 8` of byte `x / 8` is set. */
  predicate Bit(mask: seq<bv8>, x: int)
  {
    0 <= x && x / 8 < |mask| && BitSet(mask[x / 8], x % 8)
  }

  /** The marked word indices below `k`, in increasing order. */
  function MarkedIndices(mask: seq<bv8>, k: nat): (r: seq<int>)
    ensures forall a :: 0 <= a < |r| ==> 0 <= r[a] < k
  {
    if k == 0 then []
    else
      var front := MarkedIndices(mask, k - 1);
      front + (if Bit(mask, k - 1) then [k - 1] else [])
  }

  predicate Increasing(r: seq<int>)
  {
    forall a, b :: 0 <= a < b < |r| ==> r[a] < r[b]
  }

  /** The marked indices are exactly the indices below `k` whose bit is set, in increasing order. */
  lemma MarkedIndicesExact(mask: seq<bv8>, k: nat)
    ensures forall x :: x in MarkedIndices(mask, k) <==> 0 <= x < k && Bit(mask, x)
    ensures Increasing(MarkedIndices(mask, k))
  {
    MarkedMembers(mask, k);
    MarkedIncreasing(mask, k);
  }

  lemma {:induction false} MarkedMembers(mask: seq<bv8>, k: nat)
    ensures forall x :: x in MarkedIndices(mask, k) <==> 0 <= x < k && Bit(mask, x)
  {
    if k > 0 {
      MarkedMembers(mask, k - 1);
      FilterStep(MarkedIndices(mask, k - 1), MarkedIndices(mask, k), k - 1, x => Bit(mask, x));
    }
  }

  /** Appending `k` when `p` holds of it extends "the `x` below `k` where `p` holds" by one. */
  lemma FilterStep(front: seq<int>, r: seq<int>, k: nat, p: int -> bool)
    requires r == front + (if p(k) then [k] else [])
    requires forall x :: x in front <==> 0 <= x < k && p(x)
    ensures forall x :: x in r <==> 0 <= x < k + 1 && p(x)
  {
    forall x ensures x in r <==> 0 <= x < k + 1 && p(x) {
      assert x in r <==> x in front || (p(k) && x == k);
    }
  }

  lemma {:induction false} MarkedIncreasing(mask: seq<bv8>, k: nat)
    ensures Increasing(MarkedIndices(mask, k))
  {
    if k > 0 {
      MarkedIncreasing(mask, k - 1);
      var front := MarkedIndices(mask, k - 1);
      var last := if Bit(mask, k - 1) then [k - 1] else [];
      var r := MarkedIndices(mask, k);
      assert r == front + last;
      forall a, b | 0 <= a < b < |r| ensures r[a] < r[b] {
        assert r[a] == front[a];
        if b < |front| {
          assert r[b] == front[b];
        } else {
          assert r[b] == k - 1 && front[a] < k - 1;
        }
      }
    }
  }

  lemma MarkedStep(mask: seq<bv8>, k: nat)
    ensures MarkedIndices(mask, k + 1) == MarkedIndices(mask, k) + (if Bit(mask, k) then [k] else [])
  {
  }

  /** Word `x = i * 8 + j` is marked exactly when bit `j` of byte `i` is set. */
  lemma BitAt(mask: seq<bv8>, i: nat, j: nat, x: int)
    requires i < |mask| && j < 8 && x == i * 8 + j
    ensures Bit(mask, x) <==> BitSet(mask[i], j)
  {
    assert x / 8 == i && x % 8 == j;
  }

  /** The words at the given indices. */
  function Pick(words: seq<string>, idx: seq<int>): (r: seq<string>)
    requires forall k :: 0 <= k < |idx| ==> 0 <= idx[k] < |words|
    ensures |r| == |idx| && forall k :: 0 <= k < |idx| ==> r[k] == words[idx[k]]
  {
    seq(|idx|, k requires 0 <= k < |idx| => words[idx[k]])
  }

  lemma PickSnoc(words: seq<string>, idx: seq<int>, x: int)
    requires forall k :: 0 <= k < |idx| ==> 0 <= idx[k] < |words|
    requires 0 <= x < |words|
    ensures Pick(words, idx + [x]) == Pick(words, idx) + [words[x]]
  {
  }

  /** The words among the first `k` whose bits are set, in index order. */
  function Recovered(words: seq<string>, mask: seq<bv8>, k: nat): (r: seq<string>)
  {
    if k == 0 then []
    else
      var front := Recovered(words, mask, k - 1);
      front + (if k - 1 < |words| && Bit(mask, k - 1) then [words[k - 1]] else [])
  }

  /** The bits below `j` of `b` are all clear. */
  predicate ClearUpTo(b: bv8, j: nat)
    requires j <= 8
  {
    forall j' :: 0 <= j' < j ==> !BitSet(b, j')
  }

  /**
   * The words of one byte `b` whose first word is `base`: those of its bits below `j` that are set
   * and stand for a word.
   */
  function ByteWords(words: seq<string>, b: bv8, base: nat, j: nat): (r: seq<string>)
    requires j <= 8
  {
    if j == 0 then []
    else ByteWords(words, b, base, j - 1) +
         (if base + j - 1 < |words| && BitSet(b, j - 1) then [words[base + j - 1]] else [])
  }

  /** Recovered one index further, where `top` is `k + 1`. */
  lemma RecoveredSnoc(words: seq<string>, mask: seq<bv8>, k: nat, top: nat)
    requires top == k + 1
    ensures Recovered(words, mask, top) ==
            Recovered(words, mask, k) + (if k < |words| && Bit(mask, k) then [words[k]] else [])
  {
  }

  /**
   * Byte by byte, the words of byte `i` continue the words recovered from the bytes before it:
   * `base` is the first word of the byte and `top` is `base + j`.
   */
  lemma {:induction false} ByteWordsFlat(words: seq<string>, mask: seq<bv8>, i: nat, base: nat, j: nat, top: nat)
    requires i < |mask| && j <= 8 && base == i * 8 && top == base + j
    ensures Recovered(words, mask, top) == Recovered(words, mask, base) + ByteWords(words, mask[i], base, j)
  {
    if j > 0 {
      var k := top - 1;
      ByteWordsFlat(words, mask, i, base, j - 1, k);
      BitAt(mask, i, j - 1, k);
      var tail := if k < |words| && BitSet(mask[i], j - 1) then [words[k]] else [];
      RecoveredSnoc(words, mask, k, top);
      Assoc(Recovered(words, mask, base), ByteWords(words, mask[i], base, j - 1), tail);
    }
  }

  lemma Assoc<T>(a: seq<T>, b: seq<T>, c: seq<T>)
    ensures (a + b) + c == a + (b + c)
  {
  }

  /** Bits past the last word add nothing. */
  lemma {:induction false} ByteWordsPast(words: seq<string>, b: bv8, base: nat, j: nat, l: nat)
    requires j <= l <= 8 && base + j >= |words|
    ensures ByteWords(words, b, base, l) == ByteWords(words, b, base, j)
  {
    if l > j {
      ByteWordsPast(words, b, base, j, l - 1);
    }
  }

  /** The words of the bytes below `i`, byte after byte: what findGuessedWords has appended by then. */
  function MaskWords(words: seq<string>, mask: seq<bv8>, i: nat): (r: seq<string>)
    requires i <= |mask|
  {
    if i == 0 then [] else MaskWords(words, mask, i - 1) + ByteWords(words, mask[i - 1], (i - 1) * 8, 8)
  }

  lemma {:induction false} MaskWordsFlat(words: seq<string>, mask: seq<bv8>, i: nat, top: nat)
    requires i <= |mask| && top == i * 8
    ensures MaskWords(words, mask, i) == Recovered(words, mask, top)
  {
    if i > 0 {
      var base := (i - 1) * 8;
      MaskWordsFlat(words, mask, i - 1, base);
      ByteWordsFlat(words, mask, i - 1, base, 8, top);
    }
  }

  /** Up to a byte wholly past the words, the bytes scanned hold every word there is to recover. */
  lemma MaskWordsPast(words: seq<string>, mask: seq<bv8>, i: nat)
    requires i < |mask| && i * 8 > |words|
    ensures MaskWords(words, mask, i + 1) == Recovered(words, mask, |words|)
  {
    MaskWordsFlat(words, mask, i + 1, (i + 1) * 8);
    RecoveredFrom(words, mask, |words|, (i + 1) * 8);
  }

  /** All the bytes scanned: every word is recovered. */
  lemma MaskWordsAll(words: seq<string>, mask: seq<bv8>)
    ensures MaskWords(words, mask, |mask|) == Recovered(words, mask, |words|)
  {
    MaskWordsFlat(words, mask, |mask|, |mask| * 8);
    RecoveredWhole(words, mask);
  }

  /** Below the word count the recovered words are the words at the marked indices. */
  lemma {:induction false} RecoveredPicks(words: seq<string>, mask: seq<bv8>, k: nat)
    requires k <= |words|
    ensures Recovered(words, mask, k) == Pick(words, MarkedIndices(mask, k))
  {
    if k > 0 {
      RecoveredPicks(words, mask, k - 1);
      var front := MarkedIndices(mask, k - 1);
      MarkedStep(mask, k - 1);
      if Bit(mask, k - 1) {
        PickSnoc(words, front, k - 1);
        assert MarkedIndices(mask, k) == front + [k - 1];
        assert Pick(words, MarkedIndices(mask, k)) == Pick(words, front) + [words[k - 1]];
        assert Recovered(words, mask, k) == Recovered(words, mask, k - 1) + [words[k - 1]];
      } else {
        assert MarkedIndices(mask, k) == front;
        assert Pick(words, MarkedIndices(mask, k)) == Pick(words, front);
        assert Recovered(words, mask, k) == Recovered(words, mask, k - 1);
      }
    }
  }

  /** Past the words, or past the mask, no further word is recovered. */
  lemma {:induction false} RecoveredFrom(words: seq<string>, mask: seq<bv8>, m: nat, k: nat)
    requires m <= k && (m >= |words| || m >= 8 * |mask|)
    ensures Recovered(words, mask, k) == Recovered(words, mask, m)
  {
    if k > m {
      RecoveredFrom(words, mask, m, k - 1);
      assert (k - 1) / 8 >= |mask| ==> !Bit(mask, k - 1);
    }
  }

  /** Counted over all the bytes of the mask, the recovered words are those among all the words. */
  lemma RecoveredWhole(words: seq<string>, mask: seq<bv8>)
    ensures Recovered(words, mask, |mask| * 8) == Recovered(words, mask, |words|)
  {
    if |mask| * 8 >= |words| {
      RecoveredFrom(words, mask, |words|, |mask| * 8);
    } else {
      RecoveredFrom(words, mask, |mask| * 8, |words|);
    }
  }

  /**
   * A set bit in a byte that lies wholly past the `n` words: findGuessedWords looks that word up
   * and the lookup throws.
   */
  predicate StrayBit(mask: seq<bv8>, n: int)
  {
    exists i, j :: 0 <= i < |mask| && 0 <= j < 8 && i * 8 > n && BitSet(mask[i], j)
  }

  /** No byte below `i` that lies wholly past the `n` words has a bit set. */
  predicate ClearBelow(mask: seq<bv8>, n: int, i: nat)
    requires i <= |mask|
  {
    forall i' :: 0 <= i' < i && i' * 8 > n ==> ClearUpTo(mask[i'], 8)
  }

  lemma ClearStep(mask: seq<bv8>, n: int, i: nat)
    requires i < |mask| && ClearBelow(mask, n, i)
    requires i * 8 > n ==> ClearUpTo(mask[i], 8)
    ensures ClearBelow(mask, n, i + 1)
  {
  }

  /** A stray bit is exactly a set bit in some clear-required byte. */
  lemma ClearNoStray(mask: seq<bv8>, n: int)
    ensures ClearBelow(mask, n, |mask|) <==> !StrayBit(mask, n)
  {
  }

  lemma StrayAt(mask: seq<bv8>, n: int, i: nat)
    requires i < |mask| && i * 8 > n && !ClearUpTo(mask[i], 8)
    ensures StrayBit(mask, n)
  {
    var j :| 0 <= j < 8 && BitSet(mask[i], j);
  }

  function Zeros(n: nat): (r: seq<bv8>)
    ensures |r| == n && forall k :: 0 <= k < n ==> r[k] == 0
  {
    seq(n, _ => 0)
  }

  /** A mask of `n / 8 + 1` bytes has a bit for each of `n` words. */
  lemma EnoughBits(n: nat, x: int)
    requires 0 <= x < n
    ensures x / 8 < n / 8 + 1
  {
  }

  // ---------------------------------------------------------------------------------------------
  // Marking a word

  /**
   * The low byte of Java's `1 << r` for a remainder `r` of a division by 8: Java reduces the
   * shift distance modulo 32, so a negative `r` shifts the bit out of the low byte.
   */
  function ShiftMask(r: int): (m: bv8)
    requires -8 < r < 8
  {
    if r >= 0 then BitOf(r) else 0
  }

  /**
   * addGuessedWord's update of the mask for the search result `idx`; None where the array access
   * throws.
   */
  function MarkWord(mask: seq<bv8>, idx: int): (r: Option<seq<bv8>>)
  {
    var byteIndex := JavaDiv(idx, 8);
    if 0 <= byteIndex < |mask| then Some(mask[byteIndex := mask[byteIndex] | ShiftMask(JavaRem(idx, 8))])
    else None
  }

  /** For a word that was found, exactly its bit is set and every other bit is kept. */
  lemma MarkWordFound(mask: seq<bv8>, idx: int)
    requires 0 <= idx < 8 * |mask|
    ensures MarkWord(mask, idx).Some?
    ensures var m := MarkWord(mask, idx).value;
            |m| == |mask| && (forall x :: Bit(m, x) <==> Bit(mask, x) || x == idx) &&
            forall i :: 0 <= i < |mask| && i != idx / 8 ==> m[i] == mask[i]
  {
    var m := MarkWord(mask, idx).value;
    forall x ensures Bit(m, x) <==> Bit(mask, x) || x == idx {
      if 0 <= x && x / 8 == idx / 8 {
        OrBit(mask[idx / 8], idx % 8, x % 8);
      }
    }
  }

  /**
   * For a word that is missing, the search result is negative: the call throws when it is -8 or
   * less, or the mask is empty, and otherwise leaves the mask as it was.
   */
  lemma MarkWordMissing(mask: seq<bv8>, idx: int)
    requires idx < 0
    ensures MarkWord(mask, idx).Some? <==> -8 < idx && |mask| > 0
    ensures MarkWord(mask, idx).Some? ==> MarkWord(mask, idx).value == mask
  {
    if -8 < idx && |mask| > 0 {
      assert mask[0] | 0 == mask[0];
      assert mask[0 := mask[0]] == mask;
    }
  }

  /** Successive addGuessedWord calls for the word indices `idxs`. */
  function MarkAll(mask: seq<bv8>, idxs: seq<int>): (r: Option<seq<bv8>>)
    decreases |idxs|
  {
    if idxs == [] then Some(mask)
    else match MarkWord(mask, idxs[0])
      case None => None
      case Some(m) => MarkAll(m, idxs[1..])
  }

  lemma {:induction false} MarkAllRecovers(mask: seq<bv8>, n: nat, idxs: seq<int>)
    requires n < 8 * |mask|
    requires forall k :: 0 <= k < |idxs| ==> 0 <= idxs[k] < n
    ensures MarkAll(mask, idxs).Some? && |MarkAll(mask, idxs).value| == |mask|
    ensures forall x :: x in MarkedIndices(MarkAll(mask, idxs).value, n) <==>
                        x in MarkedIndices(mask, n) || x in idxs
    ensures !StrayBit(mask, n) ==> !StrayBit(MarkAll(mask, idxs).value, n)
    decreases |idxs|
  {
    if idxs != [] {
      var idx := idxs[0];
      MarkWordFound(mask, idx);
      var m := MarkWord(mask, idx).value;
      if !StrayBit(mask, n) {
        forall i, j | 0 <= i < |m| && 0 <= j < 8 && i * 8 > n ensures !BitSet(m[i], j) {
          assert i != idx / 8;
        }
      }
      MarkAllRecovers(m, n, idxs[1..]);
      assert MarkAll(mask, idxs) == MarkAll(m, idxs[1..]);
      MarkedIndicesExact(mask, n);
      MarkedIndicesExact(m, n);
      MarkedIndicesExact(MarkAll(mask, idxs).value, n);
      forall x ensures x in idxs <==> x == idx || x in idxs[1..] {
        assert idxs == [idx] + idxs[1..];
      }
    }
  }

  /**
   * The round trip: the words marked one by one on the mask findAllWords allocates are exactly
   * the words a later findGuessedWords recovers, and that call does not throw.
   */
  lemma GuessedRoundTrip(n: nat, idxs: seq<int>)
    requires forall k :: 0 <= k < |idxs| ==> 0 <= idxs[k] < n
    ensures MarkAll(Zeros(n / 8 + 1), idxs).Some?
    ensures forall x :: x in MarkedIndices(MarkAll(Zeros(n / 8 + 1), idxs).value, n) <==> x in idxs
    ensures !StrayBit(MarkAll(Zeros(n / 8 + 1), idxs).value, n)
  {
    var zeros := Zeros(n / 8 + 1);
    forall x ensures !Bit(zeros, x) {
      if 0 <= x && x / 8 < |zeros| {
        assert zeros[x / 8] == 0;
      }
    }
    assert !StrayBit(zeros, n) by {
      forall i, j | 0 <= i < |zeros| && 0 <= j < 8 ensures !BitSet(zeros[i], j) {
        assert zeros[i] == 0;
      }
    }
    MarkAllRecovers(zeros, n, idxs);
    MarkedIndicesExact(zeros, n);
  }
}
