/** The occupied and deleted bitmaps of a table page, 64 slots to a word, and the two searches that skip whole words
    (src/page/table_page.cpp). A word is the vector of its bits, lowest first. */
module SlotBitmaps {

  const BITMAP_WORD_BITS := 64
  const BITMAP_WORD_COUNT := 8
  const BITMAP_SLOT_CAPACITY := 512

  type Word = seq<bool>

  ghost predicate IsWord(w: Word) { |w| == BITMAP_WORD_BITS }

  function Not(w: Word): Word { seq(|w|, i requires 0 <= i < |w| => !w[i]) }

  function And(v: Word, w: Word): Word
    requires |v| == |w|
  {
    seq(|w|, i requires 0 <= i < |w| => v[i] && w[i])
  }

  function Or(v: Word, w: Word): Word
    requires |v| == |w|
  {
    seq(|w|, i requires 0 <= i < |w| => v[i] || w[i])
  }

  /** One shifted left by n, less one. */
  function LowMask(n: nat): Word { seq(BITMAP_WORD_BITS, i => i < n) }

  /** All ones shifted left by n. */
  function HighMask(n: nat): Word { seq(BITMAP_WORD_BITS, i => i >= n) }

  predicate IsZero(w: Word) { forall i :: 0 <= i < |w| ==> !w[i] }

  type Bitmap = seq<Word>

  ghost predicate IsBitmap(m: Bitmap) {
    |m| == BITMAP_WORD_COUNT && forall k :: 0 <= k < |m| ==> IsWord(m[k])
  }

  /** The bit of slot i. */
  predicate Marked(m: Bitmap, i: nat)
    requires IsBitmap(m) && i < BITMAP_SLOT_CAPACITY
  {
    m[i / BITMAP_WORD_BITS][i % BITMAP_WORD_BITS]
  }

  /** The occupied slots of one word, with every bit past the slot count set. */
  function PaddedWord(occupied: Word, valid: nat): (r: Word)
    requires IsWord(occupied)
    ensures IsWord(r)
    ensures forall b :: 0 <= b < BITMAP_WORD_BITS ==> (r[b] <==> b >= valid || occupied[b])
  {
    if valid < BITMAP_WORD_BITS then Or(occupied, Not(LowMask(valid))) else occupied
  }

  lemma FullWord(w: Word)
    requires IsZero(Not(w))
    ensures forall b :: 0 <= b < |w| ==> w[b]
  {
    forall b | 0 <= b < |w| ensures w[b] {
      assert !Not(w)[b];
    }
  }

  /** The first free slot below `count`, or `count` when there is none. */
  method FindReusableSlot(occupied: Bitmap, count: nat) returns (r: nat)
    requires IsBitmap(occupied) && count <= BITMAP_SLOT_CAPACITY
    ensures r <= count
    ensures r < count ==> !Marked(occupied, r)
    ensures forall j :: 0 <= j < r ==> Marked(occupied, j)
  {
    for k := 0 to BITMAP_WORD_COUNT
      invariant forall j :: 0 <= j < k * BITMAP_WORD_BITS && j < count ==> Marked(occupied, j)
    {
      var base := k * BITMAP_WORD_BITS;
      if base >= count {
        break;
      }
      var valid := count - base;
      var word := PaddedWord(occupied[k], valid);
      if !IsZero(Not(word)) {
        for bit := 0 to BITMAP_WORD_BITS
          invariant forall b :: 0 <= b < bit && b < valid ==> word[b]
        {
          if base + bit >= count {
            break;
          }
          if !word[bit] {
            OneWordMore(occupied, k, bit, count);
            return base + bit;
          }
        }
      } else {
        FullWord(word);
      }
      OneWordMore(occupied, k, BITMAP_WORD_BITS, count);
    }
    r := count;
  }

  lemma OneWordMore(m: Bitmap, k: nat, bit: nat, count: nat)
    requires IsBitmap(m) && k < BITMAP_WORD_COUNT && bit <= BITMAP_WORD_BITS && count <= BITMAP_SLOT_CAPACITY
    requires forall j :: 0 <= j < k * BITMAP_WORD_BITS && j < count ==> Marked(m, j)
    requires forall b :: 0 <= b < bit && k * BITMAP_WORD_BITS + b < count ==> m[k][b]
    ensures forall j :: 0 <= j < k * BITMAP_WORD_BITS + bit && j < count ==> Marked(m, j)
  {
    forall j | 0 <= j < k * BITMAP_WORD_BITS + bit && j < count ensures Marked(m, j) {
      if j >= k * BITMAP_WORD_BITS {
        assert j / BITMAP_WORD_BITS == k && j % BITMAP_WORD_BITS == j - k * BITMAP_WORD_BITS;
      }
    }
  }

  predicate Live(occupied: Bitmap, deleted: Bitmap, i: nat)
    requires IsBitmap(occupied) && IsBitmap(deleted) && i < BITMAP_SLOT_CAPACITY
  {
    Marked(occupied, i) && !Marked(deleted, i)
  }

  /** The first live slot from `start` on, below `count`, or -1 when there is none. */
  method FindLiveSlot(occupied: Bitmap, deleted: Bitmap, count: nat, start: nat) returns (r: int)
    requires IsBitmap(occupied) && IsBitmap(deleted) && count <= BITMAP_SLOT_CAPACITY
    ensures r == -1 || start <= r < count
    ensures r != -1 ==> Live(occupied, deleted, r)
    ensures forall j :: start <= j < (if r == -1 then count else r) ==> !Live(occupied, deleted, j)
  {
    if start >= count {
      return -1;
    }
    var startWord := start / BITMAP_WORD_BITS;
    for k := startWord to BITMAP_WORD_COUNT
      invariant forall j :: start <= j < k * BITMAP_WORD_BITS && j < count ==> !Live(occupied, deleted, j)
    {
      var base := k * BITMAP_WORD_BITS;
      if base >= count {
        break;
      }
      var startBit := if k == startWord then start % BITMAP_WORD_BITS else 0;
      var word := LiveWord(occupied[k], deleted[k], startBit, count - base);
      if !IsZero(word) {
        for bit := startBit to BITMAP_WORD_BITS
          invariant forall b :: startBit <= b < bit && b < count - base ==> !word[b]
        {
          if base + bit >= count {
            break;
          }
          if word[bit] {
            DeadWord(occupied, deleted, k, startBit, bit, start, count);
            assert Live(occupied, deleted, base + bit);
            return base + bit;
          }
        }
      }
      DeadWord(occupied, deleted, k, startBit, BITMAP_WORD_BITS, start, count);
    }
    r := -1;
  }

  /** The occupied, undeleted slots of one word, from bit `start` on and below the slot count. */
  function LiveWord(occupied: Word, deleted: Word, start: nat, valid: nat): (r: Word)
    requires IsWord(occupied) && IsWord(deleted)
    ensures IsWord(r)
    ensures forall b :: 0 <= b < BITMAP_WORD_BITS ==> (r[b] <==> start <= b < valid && occupied[b] && !deleted[b])
  {
    var live := And(occupied, Not(deleted));
    var from := if start != 0 then And(live, HighMask(start)) else live;
    if valid < BITMAP_WORD_BITS then And(from, LowMask(valid)) else from
  }

  lemma DeadWord(occupied: Bitmap, deleted: Bitmap, k: nat, startBit: nat, bit: nat, start: nat, count: nat)
    requires IsBitmap(occupied) && IsBitmap(deleted) && k < BITMAP_WORD_COUNT && startBit <= bit <= BITMAP_WORD_BITS
    requires count <= BITMAP_SLOT_CAPACITY && start <= k * BITMAP_WORD_BITS + startBit
    requires startBit == 0 || start == k * BITMAP_WORD_BITS + startBit
    requires forall j :: start <= j < k * BITMAP_WORD_BITS && j < count ==> !Live(occupied, deleted, j)
    requires forall b :: startBit <= b < bit && k * BITMAP_WORD_BITS + b < count ==> !(occupied[k][b] && !deleted[k][b])
    ensures forall j :: start <= j < k * BITMAP_WORD_BITS + bit && j < count ==> !Live(occupied, deleted, j)
  {
    forall j | start <= j < k * BITMAP_WORD_BITS + bit && j < count ensures !Live(occupied, deleted, j) {
      if j >= k * BITMAP_WORD_BITS {
        assert j / BITMAP_WORD_BITS == k && j % BITMAP_WORD_BITS == j - k * BITMAP_WORD_BITS;
      }
    }
  }
}
