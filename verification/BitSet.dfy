/** The 64-bit words of a bit set and their single-bit masks. */
module Words {

  const BITS_IN_A_WORD := 64

  const ALL_ONES: bv64 := 0xFFFF_FFFF_FFFF_FFFF

  // The machine operations are named so that proofs about masks can treat them as unknown.

  function And(x: bv64, y: bv64): bv64 {
    x & y
  }

  function Or(x: bv64, y: bv64): bv64 {
    x | y
  }

  function Double(x: bv64): bv64 {
    x << 1
  }

  function Half(x: bv64): bv64 {
    x >> 1
  }

  /** 1 shifted left `i` times. */
  function Mask(i: nat): bv64 {
    if i == 0 then 1 else Double(Mask(i - 1))
  }

  predicate TestBit(w: bv64, i: nat) {
    And(w, Mask(i)) != 0
  }

  function Halves(w: bv64, n: nat): bv64 {
    if n == 0 then w else Halves(Half(w), n - 1)
  }

  lemma OneAndDouble(y: bv64)
    ensures And(1, Double(y)) == 0
  {
  }

  lemma AndOfDoubles(x: bv64, y: bv64)
    requires And(x, y) == 0
    ensures And(Double(x), Double(y)) == 0
  {
    assert (x << 1) & (y << 1) == (x & y) << 1;
  }

  lemma AndOfHalf(x: bv64, y: bv64)
    ensures And(Half(x), y) != 0 <==> And(x, Double(y)) != 0
  {
  }

  lemma AndCommutes(x: bv64, y: bv64)
    ensures And(x, y) == And(y, x)
  {
  }

  lemma AndOrApart(w: bv64, m: bv64, k: bv64)
    requires And(m, k) == 0
    ensures And(Or(w, m), k) == And(w, k)
  {
  }

  lemma AndOrSame(w: bv64, m: bv64)
    requires m != 0
    ensures And(Or(w, m), m) != 0
  {
  }

  lemma AndUnits(m: bv64)
    ensures And(0, m) == 0 && And(ALL_ONES, m) == m
  {
  }

  lemma DoubleZero()
    ensures Double(0) == 0
  {
  }

  /** Doubling reaches the top bit after 63 steps, and halving empties a word after 64. */
  lemma TopMask()
    ensures Mask(63) != 0
  {
    assert Mask(8) == 0x100;
    assert Mask(16) == 0x1_0000;
    assert Mask(24) == 0x100_0000;
    assert Mask(32) == 0x1_0000_0000;
    assert Mask(40) == 0x100_0000_0000;
    assert Mask(48) == 0x1_0000_0000_0000;
    assert Mask(56) == 0x100_0000_0000_0000;
    assert Mask(63) == 0x8000_0000_0000_0000;
  }

  lemma {:induction false} MaskShiftsOut(i: nat, j: nat)
    requires i <= j && Mask(i) == 0
    ensures Mask(j) == 0
    decreases j - i
  {
    hide Double;
    if i < j {
      DoubleZero();
      MaskShiftsOut(i + 1, j);
    }
  }

  lemma MaskNonZero(i: nat)
    requires i < BITS_IN_A_WORD
    ensures Mask(i) != 0
  {
    hide Mask;
    TopMask();
    if Mask(i) == 0 {
      MaskShiftsOut(i, 63);
      assert false;
    }
  }

  lemma {:induction false} MasksDisjoint(i: nat, j: nat)
    requires i < j
    ensures And(Mask(i), Mask(j)) == 0
  {
    hide And, Double;
    if i == 0 {
      OneAndDouble(Mask(j - 1));
    } else {
      MasksDisjoint(i - 1, j - 1);
      AndOfDoubles(Mask(i - 1), Mask(j - 1));
    }
  }

  /** Or-ing in a mask sets its bit and no other. */
  lemma SetExact(w: bv64, p: nat, q: nat)
    requires p < BITS_IN_A_WORD && q < BITS_IN_A_WORD
    ensures TestBit(Or(w, Mask(p)), q) <==> q == p || TestBit(w, q)
  {
    hide And, Or, Mask;
    if p == q {
      MaskNonZero(p);
      AndOrSame(w, Mask(p));
    } else {
      if p < q {
        MasksDisjoint(p, q);
      } else {
        MasksDisjoint(q, p);
        AndCommutes(Mask(q), Mask(p));
      }
      AndOrApart(w, Mask(p), Mask(q));
    }
  }

  /** The two words that the searches skip have no bit set and no bit unset. */
  lemma UniformWords(i: nat)
    requires i < BITS_IN_A_WORD
    ensures !TestBit(0, i) && TestBit(ALL_ONES, i)
  {
    hide And, Mask;
    AndUnits(Mask(i));
    MaskNonZero(i);
  }

  lemma EightHalves(w: bv64)
    ensures Half(Half(Half(Half(Half(Half(Half(Half(w)))))))) == w >> 8
  {
  }

  lemma HalvesEight(w: bv64, n: nat)
    ensures Halves(w, n + 8) == Halves(w >> 8, n)
  {
    hide Half;
    EightHalves(w);
    assert Halves(w, n + 8) == Halves(Half(Half(w)), n + 6);
    assert Halves(Half(Half(w)), n + 6) == Halves(Half(Half(Half(Half(w)))), n + 4);
    var v := Half(Half(Half(Half(w))));
    assert Halves(v, n + 4) == Halves(Half(Half(v)), n + 2);
    assert Halves(Half(Half(v)), n + 2) == Halves(Half(Half(Half(Half(v)))), n);
  }

  lemma EightBytes(w: bv64)
    ensures Bytes(w, 8) == 0
  {
    assert Bytes(w, 8) == Bytes(w >> 8 >> 8, 6);
    assert Bytes(w >> 8 >> 8, 6) == Bytes(w >> 16 >> 8 >> 8, 4);
    assert Bytes(w >> 32, 4) == Bytes(w >> 32 >> 8 >> 8, 2);
    assert Bytes(w >> 48, 2) == Bytes(w >> 48 >> 8 >> 8, 0);
    assert w >> 48 >> 8 >> 8 == 0;
  }

  lemma HalvesOut(w: bv64)
    ensures Halves(w, 64) == 0
  {
    EightBytes(w);
    HalvesBytes(w, 8);
  }

  function Bytes(w: bv64, n: nat): bv64 {
    if n == 0 then w else Bytes(w >> 8, n - 1)
  }

  lemma {:induction false} HalvesBytes(w: bv64, n: nat)
    ensures Halves(w, 8 * n) == Bytes(w, n)
    decreases n
  {
    if n > 0 {
      hide Halves;
      HalvesEight(w, 8 * (n - 1));
      HalvesBytes(w >> 8, n - 1);
    }
  }

  lemma LowBits(a: bv64, b: bv64)
    ensures a != b && (And(a, 1) != 0) == (And(b, 1) != 0) ==> Half(a) != Half(b)
  {
  }

  /** Words that differ do so in some bit. */
  lemma {:induction false} SomeBitDiffers(a: bv64, b: bv64, n: nat) returns (i: nat)
    requires a != b && Halves(a, n) == 0 && Halves(b, n) == 0
    ensures i < n && TestBit(a, i) != TestBit(b, i)
    decreases n
  {
    hide And, Double, Half;
    LowBits(a, b);
    if (And(a, 1) != 0) != (And(b, 1) != 0) {
      i := 0;
    } else {
      i := SomeBitDiffers(Half(a), Half(b), n - 1);
      AndOfHalf(a, Mask(i));
      AndOfHalf(b, Mask(i));
      i := i + 1;
    }
  }

  lemma WordsEqual(a: bv64, b: bv64)
    requires forall i :: 0 <= i < BITS_IN_A_WORD ==> TestBit(a, i) == TestBit(b, i)
    ensures a == b
  {
    hide TestBit, Halves;
    if a != b {
      HalvesOut(a);
      HalvesOut(b);
      var i := SomeBitDiffers(a, b, 64);
      assert false;
    }
  }
}

/**
 A growable set of bit positions. Bits at or past the length are zero, also in the spare words.
 */
module BitSets {
  import opened Words

  function WordNumber(pos: nat): nat {
    pos / BITS_IN_A_WORD
  }

  function WordsNecessary(length: nat): nat {
    (length + (BITS_IN_A_WORD - 1)) / BITS_IN_A_WORD
  }

  function CapacityNecessary(length: nat): nat {
    WordsNecessary(length + length / 2)
  }

  function Min(a: int, b: int): int {
    if a < b then a else b
  }

  function Max(a: int, b: int): int {
    if a < b then b else a
  }

  predicate BitOf(words: seq<bv64>, pos: nat) {
    WordNumber(pos) < |words| && TestBit(words[WordNumber(pos)], pos % BITS_IN_A_WORD)
  }

  function WordOf(words: seq<bv64>, w: nat): bv64 {
    if w < |words| then words[w] else 0
  }

  lemma BitOfWord(words: seq<bv64>, w: nat, i: nat)
    requires i < BITS_IN_A_WORD
    ensures BitOf(words, w * BITS_IN_A_WORD + i) == TestBit(WordOf(words, w), i)
  {
    hide TestBit;
    UniformWords(i);
    assert WordNumber(w * BITS_IN_A_WORD + i) == w;
  }

  ghost predicate SameBits(a: seq<bv64>, b: seq<bv64>) {
    forall pos: nat :: BitOf(a, pos) == BitOf(b, pos)
  }

  /** Two word arrays hold the same bits exactly when their words agree, counting missing words as 0. */
  lemma SameBitsByWords(a: seq<bv64>, b: seq<bv64>)
    ensures SameBits(a, b) <==> forall w: nat :: WordOf(a, w) == WordOf(b, w)
  {
    if SameBits(a, b) {
      forall w: nat
        ensures WordOf(a, w) == WordOf(b, w)
      {
        forall i | 0 <= i < BITS_IN_A_WORD
          ensures TestBit(WordOf(a, w), i) == TestBit(WordOf(b, w), i)
        {
          BitOfWord(a, w, i);
          BitOfWord(b, w, i);
        }
        WordsEqual(WordOf(a, w), WordOf(b, w));
      }
    }
    if forall w: nat :: WordOf(a, w) == WordOf(b, w) {
      forall pos: nat
        ensures BitOf(a, pos) == BitOf(b, pos)
      {
        assert pos == WordNumber(pos) * BITS_IN_A_WORD + pos % BITS_IN_A_WORD;
        BitOfWord(a, WordNumber(pos), pos % BITS_IN_A_WORD);
        BitOfWord(b, WordNumber(pos), pos % BITS_IN_A_WORD);
      }
    }
  }

  /** A word without set bits is 0. */
  lemma EmptyWord(words: seq<bv64>, w: nat)
    requires forall pos: nat :: w * BITS_IN_A_WORD <= pos < (w + 1) * BITS_IN_A_WORD ==> !BitOf(words, pos)
    ensures WordOf(words, w) == 0
  {
    forall i | 0 <= i < BITS_IN_A_WORD
      ensures TestBit(WordOf(words, w), i) == TestBit(0, i)
    {
      BitOfWord(words, w, i);
      UniformWords(i);
      assert !BitOf(words, w * BITS_IN_A_WORD + i);
    }
    WordsEqual(WordOf(words, w), 0);
  }

  class XanBitSet {
    var data: array<bv64>
    var length: nat

    ghost predicate Valid()
      reads this, data
    {
      && WordsNecessary(length) <= data.Length
      && forall pos :: length <= pos < data.Length * BITS_IN_A_WORD ==> !BitOf(data[..], pos)
    }

    /** The positions that are set. */
    ghost function Members(): set<nat>
      reads this, data
    {
      set pos: nat | 0 <= pos < length && BitOf(data[..], pos)
    }

    constructor (length: nat)
      ensures Valid() && fresh(data)
      ensures this.length == length && Members() == {}
    {
      this.length := length;
      data := new bv64[CapacityNecessary(length)](_ => 0);
      new;
      forall pos: nat
        ensures !BitOf(data[..], pos)
      {
        UniformWords(pos % BITS_IN_A_WORD);
      }
    }

    /** Growing keeps the members; the new positions are unset. */
    method Expand(newLength: nat)
      requires Valid() && newLength > length
      modifies this
      ensures Valid() && length == newLength && Members() == old(Members())
      ensures data == old(data) || fresh(data)
    {
      var oldWords, newWords := WordsNecessary(length), WordsNecessary(newLength);
      if newWords <= data.Length {
        length := newLength;
        return;
      }
      assert oldWords <= newWords <= CapacityNecessary(newLength);
      var newData := new bv64[CapacityNecessary(newLength)](_ => 0);
      for i := 0 to oldWords
        modifies newData
        invariant newData[..i] == data[..i]
        invariant forall k :: i <= k < newData.Length ==> newData[k] == 0
      {
        newData[i] := data[i];
      }
      forall pos: nat
        ensures BitOf(newData[..], pos) == BitOf(data[..], pos)
      {
        UniformWords(pos % BITS_IN_A_WORD);
        if WordNumber(pos) < oldWords {
          assert newData[..oldWords][WordNumber(pos)] == data[..oldWords][WordNumber(pos)];
        } else {
          assert pos >= length;
          assert pos < data.Length * BITS_IN_A_WORD ==> !BitOf(data[..], pos);
        }
      }
      data, length := newData, newLength;
    }

    method SetBit(pos: nat)
      requires Valid()
      modifies this, data
      ensures Valid() && Members() == old(Members()) + {pos} && length == Max(old(length), pos + 1)
      ensures data == old(data) || fresh(data)
    {
      hide TestBit;
      if pos >= length {
        Expand(pos + 1);
      }
      ghost var before := data[..];
      data[WordNumber(pos)] := Or(data[WordNumber(pos)], Mask(pos % BITS_IN_A_WORD));
      forall q: nat
        ensures BitOf(data[..], q) <==> q == pos || BitOf(before, q)
      {
        if WordNumber(q) == WordNumber(pos) {
          SetExact(before[WordNumber(pos)], pos % BITS_IN_A_WORD, q % BITS_IN_A_WORD);
        }
      }
    }

    /** Words past those in use are 0. */
    lemma SpareWords(w: nat)
      requires Valid() && WordsNecessary(length) <= w
      ensures WordOf(data[..], w) == 0
    {
      hide TestBit;
      forall pos: nat | w * BITS_IN_A_WORD <= pos
        ensures !BitOf(data[..], pos)
      {
        assert pos >= length;
      }
      EmptyWord(data[..], w);
    }

    lemma MembersAreBits(other: XanBitSet)
      requires Valid() && other.Valid()
      ensures Members() == other.Members() <==> SameBits(data[..], other.data[..])
    {
      hide TestBit;
      forall pos: nat
        ensures pos in Members() <==> BitOf(data[..], pos)
        ensures pos in other.Members() <==> BitOf(other.data[..], pos)
      {
      }
    }

    /** Equality of the sets, whatever the two lengths. */
    method Equal(other: XanBitSet) returns (r: bool)
      requires Valid() && other.Valid()
      ensures r <==> Members() == other.Members()
    {
      hide BitOf, TestBit, SameBits;
      MembersAreBits(other);
      other.MembersAreBits(this);
      var shorter, longer := this, other;
      if other.length < length {
        shorter, longer := other, this;
      }
      ghost var a, b := shorter.data[..], longer.data[..];
      SameBitsByWords(a, b);
      SameBitsByWords(b, a);
      var wordsShort, wordsLong := WordsNecessary(shorter.length), WordsNecessary(longer.length);
      for i := 0 to wordsShort
        invariant forall w :: 0 <= w < i ==> WordOf(a, w) == WordOf(b, w)
      {
        if shorter.data[i] != longer.data[i] {
          assert WordOf(a, i) != WordOf(b, i);
          return false;
        }
      }
      for i := wordsShort to wordsLong
        invariant forall w :: 0 <= w < i ==> WordOf(a, w) == WordOf(b, w)
      {
        shorter.SpareWords(i);
        if longer.data[i] != 0 {
          assert WordOf(a, i) != WordOf(b, i);
          return false;
        }
      }
      forall w: nat
        ensures WordOf(a, w) == WordOf(b, w)
      {
        if w >= wordsLong {
          shorter.SpareWords(w);
          longer.SpareWords(w);
        }
      }
      return true;
    }

    /** The first bit from `from` to `to` that has the wanted value, past `to` if there is none. */
    method SearchWord(w: nat, from: nat, to: nat, wanted: bool) returns (pos: nat)
      requires w < data.Length && w * BITS_IN_A_WORD <= from && to < (w + 1) * BITS_IN_A_WORD
      ensures from <= pos && forall q: nat :: from <= q < pos && q <= to ==> BitOf(data[..], q) == !wanted
      ensures pos <= to ==> BitOf(data[..], pos) == wanted
    {
      hide TestBit;
      pos := from;
      while pos <= to
        invariant from <= pos && forall q: nat :: from <= q < pos && q <= to ==> BitOf(data[..], q) == !wanted
      {
        assert WordNumber(pos) == w;
        if TestBit(data[w], pos % BITS_IN_A_WORD) == wanted {
          return;
        }
        pos := pos + 1;
      }
    }

    /** The first member in the range, -1 if there is none. An empty bit set must not be searched. */
    method GetFirstBitSetInRange(start: nat, end: nat) returns (r: int)
      requires Valid() && length > 0
      ensures r == -1 <==> forall pos :: start <= pos <= end ==> pos !in Members()
      ensures r != -1 ==> start <= r <= end && r in Members() && forall pos :: start <= pos < r ==> pos !in Members()
    {
      hide BitOf;
      var last := Min(end, length - 1);
      var w, eWord := WordNumber(start), WordNumber(last);
      while w <= eWord
        invariant w >= WordNumber(start)
        invariant forall pos: nat :: start <= pos < w * BITS_IN_A_WORD && pos <= last ==> !BitOf(data[..], pos)
      {
        if data[w] != 0 {
          var wordEnd := Min(w * BITS_IN_A_WORD + BITS_IN_A_WORD - 1, last);
          var pos := SearchWord(w, Max(w * BITS_IN_A_WORD, start), wordEnd, true);
          if pos <= wordEnd {
            assert pos in Members();
            return pos;
          }
        } else {
          ZeroWord(data[..], w);
        }
        w := w + 1;
      }
      return -1;
    }

    /** The first non-member in the range; positions past the length count as one non-member at the length. */
    method GetFirstBitUnsetInRange(start: nat, end: nat) returns (r: int)
      requires Valid() && length > 0
      ensures r == -1 ==> end < length && forall pos :: start <= pos <= end ==> pos in Members()
      ensures r != -1 ==> r !in Members() && forall pos :: start <= pos < r && pos < length ==> pos in Members()
      ensures r != -1 ==> (start <= r <= end && r < length) || (r == length <= end)
    {
      hide BitOf;
      var last := Min(end, length - 1);
      var w, eWord := WordNumber(start), WordNumber(last);
      while w <= eWord
        invariant w >= WordNumber(start)
        invariant forall pos: nat :: start <= pos < w * BITS_IN_A_WORD && pos <= last ==> BitOf(data[..], pos)
      {
        if data[w] != ALL_ONES {
          var wordEnd := Min(w * BITS_IN_A_WORD + BITS_IN_A_WORD - 1, last);
          var pos := SearchWord(w, Max(w * BITS_IN_A_WORD, start), wordEnd, false);
          if pos <= wordEnd {
            return pos;
          }
        } else {
          FullWord(data[..], w);
        }
        w := w + 1;
      }
      if end >= length {
        return length;
      }
      return -1;
    }
  }

  lemma ZeroWord(words: seq<bv64>, w: nat)
    requires w < |words| && words[w] == 0
    ensures forall pos: nat :: WordNumber(pos) == w ==> !BitOf(words, pos)
  {
    forall pos: nat | WordNumber(pos) == w
      ensures !BitOf(words, pos)
    {
      UniformWords(pos % BITS_IN_A_WORD);
    }
  }

  lemma FullWord(words: seq<bv64>, w: nat)
    requires w < |words| && words[w] == ALL_ONES
    ensures forall pos: nat :: WordNumber(pos) == w ==> BitOf(words, pos)
  {
    forall pos: nat | WordNumber(pos) == w
      ensures BitOf(words, pos)
    {
      UniformWords(pos % BITS_IN_A_WORD);
    }
  }
}
