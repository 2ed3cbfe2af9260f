/**
 The word bitmap of kernel/lib/bitmap.c.

 The abstract value of a bitmap is a sequence of booleans, one per bit.  Every
 search is specified on that sequence, and every update is a function of it, so
 that word boundaries, masks and shifts disappear from the callers' view.
 */
module Bitmaps {
  import opened Words

  // ------------------------------------------------------------ the abstract value

  function WordView(w: Word): seq<bool>
  {
    seq(WORD_BITS, i requires 0 <= i < WORD_BITS => Bit(w, i))
  }

  function ViewOf(ws: seq<Word>): (v: seq<bool>)
    ensures |v| == WORD_BITS * |ws|
  {
    if |ws| == 0 then [] else WordView(ws[0]) + ViewOf(ws[1..])
  }

  /** `n` consecutive set bits starting at `i`. */
  ghost predicate RunAt(v: seq<bool>, i: int, n: nat)
  {
    0 <= i && i + n <= |v| && forall j :: i <= j < i + n ==> v[j]
  }

  /** The run length that a search for `minlen` bits looks for: a request for none asks for one. */
  ghost function RunLength(minlen: nat): (n: nat)
    ensures n >= 1 && n >= minlen
  {
    if minlen == 0 then 1 else minlen
  }

  /** `v` with the part of [offset, offset+len) that lies inside it set to `b`. */
  ghost function Filled(v: seq<bool>, offset: nat, len: nat, b: bool): (r: seq<bool>)
    ensures |r| == |v|
  {
    seq(|v|, i requires 0 <= i < |v| => if offset <= i < offset + len then b else v[i])
  }

  lemma {:induction false} ViewAt(ws: seq<Word>, k: nat, i: nat)
    requires k < |ws| && i < WORD_BITS
    ensures ViewOf(ws)[k * WORD_BITS + i] == Bit(ws[k], i)
  {
    if k > 0 {
      ViewAt(ws[1..], k - 1, i);
    }
  }

  /** Writing one word changes the view exactly in the bits that the word changes. */
  lemma ViewUpdate(ws: seq<Word>, k: nat, w: Word, lo: nat, len: nat, b: bool)
    requires k < |ws| && lo + len <= WORD_BITS
    requires forall i: nat :: i < WORD_BITS ==> Bit(w, i) == if lo <= i < lo + len then b else Bit(ws[k], i)
    ensures ViewOf(ws[k := w]) == Filled(ViewOf(ws), k * WORD_BITS + lo, len, b)
  {
    var v, v' := ViewOf(ws), ViewOf(ws[k := w]);
    forall j: nat | j < |v|
      ensures v'[j] == Filled(v, k * WORD_BITS + lo, len, b)[j]
    {
      var q, r := j / WORD_BITS, j % WORD_BITS;
      ViewAt(ws, q, r);
      ViewAt(ws[k := w], q, r);
    }
  }

  lemma ViewWord(ws: seq<Word>, k: nat)
    requires k < |ws|
    ensures forall j :: k * WORD_BITS <= j < (k + 1) * WORD_BITS ==> ViewOf(ws)[j] == Bit(ws[k], j - k * WORD_BITS)
  {
    forall j | k * WORD_BITS <= j < (k + 1) * WORD_BITS
      ensures ViewOf(ws)[j] == Bit(ws[k], j - k * WORD_BITS)
    {
      ViewAt(ws, k, j - k * WORD_BITS);
    }
  }

  /** A run inside one word, by the bits of the word. */
  lemma RunInWord(ws: seq<Word>, k: nat, lo: nat, len: nat)
    requires k < |ws| && lo + len <= WORD_BITS
    ensures RunAt(ViewOf(ws), k * WORD_BITS + lo, len) <==> forall i :: lo <= i < lo + len ==> Bit(ws[k], i)
  {
    ViewWord(ws, k);
    var v, at := ViewOf(ws), k * WORD_BITS + lo;
    assert |v| == WORD_BITS * |ws|;
    hide ViewOf, Bit;
    if RunAt(v, at, len) {
      forall i | lo <= i < lo + len
        ensures Bit(ws[k], i)
      {
        assert v[k * WORD_BITS + i];
      }
    } else {
      var j :| at <= j < at + len && !v[j];
      assert !Bit(ws[k], j - k * WORD_BITS);
    }
  }

  lemma NoRunAcross(v: seq<bool>, i: nat, n: nat, stop: nat)
    requires i <= stop < i + n
    requires stop >= |v| || !v[stop]
    ensures !RunAt(v, i, n)
  {}

  lemma FilledTwice(v: seq<bool>, offset: nat, n: nat, m: nat, b: bool)
    ensures Filled(Filled(v, offset, n, b), offset + n, m, b) == Filled(v, offset, n + m, b)
  {}

  lemma FilledOne(v: seq<bool>, offset: nat, b: bool)
    requires offset < |v|
    ensures Filled(v, offset, 1, b) == v[offset := b]
  {}

  function NeededWordCount(bits: nat): (n: nat)
    ensures bits <= WORD_BITS * n < bits + WORD_BITS
  {
    if bits % WORD_BITS == 0 then bits / WORD_BITS else bits / WORD_BITS + 1
  }

  // ------------------------------------------------------------ searches in one word

  method FindFirstSetBit(word: Word, startpos: int) returns (index: int)
    ensures index == -1 || startpos <= index < WORD_BITS
    ensures index >= 0 ==> 0 <= startpos && Bit(word, index)
    ensures 0 <= startpos ==>
              forall i :: startpos <= i < (if index == -1 then WORD_BITS else index) ==> !Bit(word, i)
  {
    if startpos < 0 || WORD_BITS <= startpos {
      return -1;
    }
    var shifted := ShrWord(word, startpos);
    if shifted == 0 {
      forall i | startpos <= i < WORD_BITS
        ensures !Bit(word, i)
      {
        BitOfShr(word, startpos, i - startpos);
        BitOfZero(i - startpos);
      }
      return -1;
    }
    index := startpos;
    while shifted % 2 == 0
      invariant startpos <= index < WORD_BITS
      invariant shifted == Shr(word, index)
      invariant forall i :: startpos <= i < index ==> !Bit(word, i)
      decreases WORD_BITS - index
    {
      if index == WORD_BITS - 1 {
        return -1;
      }
      ShrShr(word, index, 1);
      shifted := ShrWord(shifted, 1);
      index := index + 1;
    }
  }

  method FindLastContiguousBit(word: Word, startpos: int) returns (index: int)
    ensures index == -1 || startpos <= index < WORD_BITS
    ensures index == -1 <==> !(0 <= startpos < WORD_BITS) || !Bit(word, startpos)
    ensures index >= 0 ==> forall i :: 0 <= startpos <= i <= index ==> Bit(word, i)
    ensures index >= 0 ==> index + 1 == WORD_BITS || !Bit(word, index + 1)
  {
    if startpos < 0 || WORD_BITS <= startpos {
      return -1;
    }
    if word == ALL_ONES {
      forall i: nat | i < WORD_BITS ensures Bit(word, i) { BitOfAllOnes(i); }
      return WORD_BITS - 1;
    }
    var shifted := ShrWord(word, startpos);
    if shifted % 2 == 0 {
      return -1;
    }
    index := startpos;
    while shifted % 2 != 0
      invariant startpos <= index <= WORD_BITS
      invariant shifted == Shr(word, index)
      invariant forall i :: startpos <= i < index ==> Bit(word, i)
      decreases WORD_BITS - index
    {
      BitInRange(word, index);
      ShrShr(word, index, 1);
      shifted := ShrWord(shifted, 1);
      index := index + 1;
    }
    index := index - 1;
  }

  /** The mask of `len` ones at `offset`. */
  function MakeBitmask(offset: nat, len: nat): Word
    requires offset + len <= WORD_BITS
  {
    if len == 0 then 0 else Shl(ShrWord(ALL_ONES, WORD_BITS - len), offset)
  }

  lemma BitOfBitmask(offset: nat, len: nat, i: nat)
    requires offset + len <= WORD_BITS && i < WORD_BITS
    ensures Bit(MakeBitmask(offset, len), i) == (offset <= i < offset + len)
  {
    if len == 0 {
      BitOfZero(i);
    } else {
      WordLimitIsPow2();
      ShrOfOnes(WORD_BITS, WORD_BITS - len);
      BitOfShl(ShrWord(ALL_ONES, WORD_BITS - len), offset, i);
      if offset <= i {
        BitOfOnes(len, i - offset);
      }
    }
  }

  /** Testing a word against a mask tests every bit under the mask. */
  lemma MaskTest(word: Word, offset: nat, len: nat)
    requires offset + len <= WORD_BITS
    ensures (And(word, MakeBitmask(offset, len)) == MakeBitmask(offset, len))
       <==> forall i :: offset <= i < offset + len ==> Bit(word, i)
  {
    var mask := MakeBitmask(offset, len);
    forall i: nat | i < WORD_BITS
      ensures Bit(mask, i) == (offset <= i < offset + len)
      ensures Bit(And(word, mask), i) == (Bit(word, i) && Bit(mask, i))
    {
      BitOfBitmask(offset, len, i);
      BitAnd(word, mask, i);
    }
    if forall i :: offset <= i < offset + len ==> Bit(word, i) {
      WordsEqual(And(word, mask), mask);
    }
  }

  lemma SingleBitTest(word: Word, p: nat)
    requires p < WORD_BITS
    ensures And(word, Shl(1, p)) != 0 <==> Bit(word, p)
  {
    var w := And(word, Shl(1, p));
    BitAnd(word, Shl(1, p), p);
    BitOfSingle(p, p);
    BitOfZero(p);
    if w != 0 {
      NonZeroHasBit(w);
      var i: nat :| i < WORD_BITS && Bit(w, i);
      BitAnd(word, Shl(1, p), i);
      BitOfSingle(p, i);
    }
  }

  lemma OrMask(word: Word, offset: nat, len: nat)
    requires offset + len <= WORD_BITS
    ensures forall i: nat :: i < WORD_BITS ==>
              Bit(Or(word, MakeBitmask(offset, len)), i) == if offset <= i < offset + len then true else Bit(word, i)
  {
    forall i: nat | i < WORD_BITS
      ensures Bit(Or(word, MakeBitmask(offset, len)), i) == if offset <= i < offset + len then true else Bit(word, i)
    {
      BitOr(word, MakeBitmask(offset, len), i);
      BitOfBitmask(offset, len, i);
    }
  }

  lemma AndNotMask(word: Word, offset: nat, len: nat)
    requires offset + len <= WORD_BITS
    ensures forall i: nat :: i < WORD_BITS ==>
              Bit(And(word, Not(MakeBitmask(offset, len))), i) == if offset <= i < offset + len then false else Bit(word, i)
  {
    forall i: nat | i < WORD_BITS
      ensures Bit(And(word, Not(MakeBitmask(offset, len))), i) == if offset <= i < offset + len then false else Bit(word, i)
    {
      BitAnd(word, Not(MakeBitmask(offset, len)), i);
      BitNot(MakeBitmask(offset, len), i);
      BitOfBitmask(offset, len, i);
    }
  }

  /** Setting a single bit is setting a one-bit range. */
  lemma SingleIsMask(k: nat)
    requires k < WORD_BITS
    ensures Shl(1, k) == MakeBitmask(k, 1)
  {
    forall i: nat | i < WORD_BITS
      ensures Bit(Shl(1, k), i) == Bit(MakeBitmask(k, 1), i)
    {
      BitOfSingle(k, i);
      BitOfBitmask(k, 1, i);
    }
    WordsEqual(Shl(1, k), MakeBitmask(k, 1));
  }

  // ------------------------------------------------------------ the bitmap

  class Bitmap {
    const words: array<Word>

    ghost function View(): (v: seq<bool>)
      reads words
      ensures |v| == WORD_BITS * words.Length
    {
      ViewOf(words[..])
    }

    /** The bitmap with `wordCount` words, all bits clear. */
    constructor (wordCount: nat)
      ensures fresh(words) && words.Length == wordCount
      ensures forall i :: 0 <= i < |View()| ==> !View()[i]
    {
      words := new Word[wordCount](_ => 0);
      new;
      forall i: nat | i < WORD_BITS * wordCount
        ensures !View()[i]
      {
        ViewAt(words[..], i / WORD_BITS, i % WORD_BITS);
        BitOfZero(i % WORD_BITS);
      }
    }

    /** bitmap_find_first_set_bit */
    method FindFirstSet(startpos: int) returns (r: int)
      ensures r == -1 || (0 <= startpos <= r < |View()| && View()[r])
      ensures 0 <= startpos ==>
                forall i :: startpos <= i < (if r == -1 then |View()| else r) ==> !View()[i]
    {
      if startpos < 0 {
        return -1;
      }
      var wordIdx := startpos / WORD_BITS;
      var bitoffset := startpos % WORD_BITS;
      while wordIdx < words.Length
        invariant 0 <= wordIdx && 0 <= bitoffset < WORD_BITS
        invariant startpos <= wordIdx * WORD_BITS + bitoffset
        invariant bitoffset != 0 ==> startpos == wordIdx * WORD_BITS + bitoffset
        invariant forall i :: startpos <= i < wordIdx * WORD_BITS + bitoffset && i < |View()| ==> !View()[i]
      {
        var idx := FindFirstSetBit(words[wordIdx], bitoffset);
        ViewWord(words[..], wordIdx);
        if 0 <= idx {
          return wordIdx * WORD_BITS + idx;
        }
        wordIdx := wordIdx + 1;
        bitoffset := 0;
      }
      return -1;
    }

    /** bitmap_find_last_contiguous_bit */
    method FindLastContiguous(startpos: int) returns (r: int)
      ensures r == -1 <==> !(0 <= startpos < |View()|) || !View()[startpos]
      ensures r != -1 ==> startpos <= r < |View()| && RunAt(View(), startpos, r - startpos + 1)
      ensures r != -1 ==> r + 1 == |View()| || !View()[r + 1]
    {
      if startpos < 0 {
        return -1;
      }
      var wordIdx := startpos / WORD_BITS;
      var bitoffset := startpos % WORD_BITS;
      if words.Length <= wordIdx {
        return -1;
      }
      while wordIdx < words.Length
        invariant 0 <= bitoffset < WORD_BITS && 0 <= wordIdx <= words.Length
        invariant startpos <= wordIdx * WORD_BITS + bitoffset
        invariant bitoffset != 0 ==> startpos == wordIdx * WORD_BITS + bitoffset
        invariant startpos < wordIdx * WORD_BITS + bitoffset ==>
                    wordIdx < words.Length ==> Bit(words[wordIdx], 0)
        invariant wordIdx == words.Length ==> startpos < |View()| && bitoffset == 0
        invariant RunAt(View(), startpos, wordIdx * WORD_BITS + bitoffset - startpos)
      {
        var idx := FindLastContiguousBit(words[wordIdx], bitoffset);
        ViewAt(words[..], wordIdx, bitoffset);
        if idx < 0 {
          return -1;
        }
        forall j | wordIdx * WORD_BITS + bitoffset <= j <= wordIdx * WORD_BITS + idx
          ensures View()[j]
        {
          ViewAt(words[..], wordIdx, j - wordIdx * WORD_BITS);
        }
        if idx + 1 < WORD_BITS {
          ViewAt(words[..], wordIdx, idx + 1);
        } else if wordIdx + 1 < words.Length {
          ViewAt(words[..], wordIdx + 1, 0);
        }
        if idx != WORD_BITS - 1 ||
           (idx == WORD_BITS - 1 && wordIdx + 1 < words.Length && words[wordIdx + 1] % 2 == 0)
        {
          return wordIdx * WORD_BITS + idx;
        }
        wordIdx := wordIdx + 1;
        bitoffset := 0;
      }
      return words.Length * WORD_BITS - 1;
    }

    /** bitmap_find_set_bits: the first run of at least `minlen` set bits at or after `startpos`. */
    method FindSetBits(startpos: int, minlen: nat) returns (r: int)
      ensures r == -1 || (0 <= startpos <= r && RunAt(View(), r, RunLength(minlen)))
      ensures 0 <= startpos ==>
                forall i :: startpos <= i && (r == -1 || i < r) ==> !RunAt(View(), i, RunLength(minlen))
    {
      if startpos < 0 {
        return -1;
      }
      ghost var need := RunLength(minlen);
      var first := startpos;
      while true
        invariant startpos <= first
        invariant forall i :: startpos <= i < first ==> !RunAt(View(), i, need)
        decreases |View()| - first
      {
        ghost var from := first;
        first := FindFirstSet(first);
        if first < 0 {
          forall i | from <= i
            ensures !RunAt(View(), i, need)
          {
            NoRunAcross(View(), i, need, i);
          }
          return -1;
        }
        forall i | from <= i < first
          ensures !RunAt(View(), i, need)
        {
          NoRunAcross(View(), i, need, i);
        }
        var last := FindLastContiguous(first);
        var foundlen := last - first + 1;
        if minlen <= foundlen {
          return first;
        }
        forall i | first <= i <= last
          ensures !RunAt(View(), i, need)
        {
          NoRunAcross(View(), i, need, last + 1);
        }
        first := last + 1;
      }
    }

    /** The zero test and the mask test of bitmap_are_bits_set, for one word. */
    method TestWord(k: nat, lo: nat, len: nat) returns (r: bool, ghost missing: nat)
      requires k < words.Length && 0 < len && lo + len <= WORD_BITS
      ensures r <==> RunAt(View(), k * WORD_BITS + lo, len)
      ensures !r ==> 0 <= missing - (k * WORD_BITS + lo) < len && !View()[missing]
    {
      hide Bit, And, MakeBitmask, RunAt, ViewOf;
      var word := words[k];
      RunInWord(words[..], k, lo, len);
      ViewWord(words[..], k);
      missing := k * WORD_BITS + lo;
      if word == 0 {
        BitOfZero(lo);
        return false, missing;
      }
      var mask := MakeBitmask(lo, len);
      MaskTest(word, lo, len);
      r := And(word, mask) == mask;
      if !r {
        ghost var i :| lo <= i < lo + len && !Bit(word, i);
        missing := k * WORD_BITS + i;
      }
    }

    /** bitmap_are_bits_set */
    method AreBitsSet(offset: int, len: nat) returns (r: bool)
      ensures r <==> len != 0 && RunAt(View(), offset, len)
    {
      if offset < 0 || len == 0 {
        return false;
      }
      var wordIdx := offset / WORD_BITS;
      var bitoffset := offset % WORD_BITS;
      var remaining := len;
      ghost var v := View();
      while remaining != 0
        invariant 0 <= bitoffset < WORD_BITS && 0 <= wordIdx && 0 <= remaining <= len
        invariant remaining != 0 ==> wordIdx * WORD_BITS + bitoffset == offset + (len - remaining)
        invariant remaining < len ==> RunAt(v, offset, len - remaining)
        decreases remaining
      {
        ghost var pos := offset + (len - remaining);
        if words.Length <= wordIdx {
          NoRunAcross(v, offset, len, pos);
          return false;
        }
        var current := remaining;
        if WORD_BITS < bitoffset + current {
          current := WORD_BITS - bitoffset;
        }
        var inWord, missing := TestWord(wordIdx, bitoffset, current);
        if !inWord {
          NoRunAcross(v, offset, len, missing);
          return false;
        }
        remaining := remaining - current;
        wordIdx := wordIdx + 1;
        bitoffset := 0;
      }
      return true;
    }

    /** `self->words[k] |= mask` */
    method OrIntoWord(k: nat, mask: Word, ghost lo: nat, ghost len: nat)
      requires k < words.Length && lo + len <= WORD_BITS && mask == MakeBitmask(lo, len)
      modifies words
      ensures View() == Filled(old(View()), k * WORD_BITS + lo, len, true)
    {
      ghost var before := words[..];
      OrMask(words[k], lo, len);
      words[k] := Or(words[k], mask);
      assert words[..] == before[k := words[k]];
      ViewUpdate(before, k, words[k], lo, len, true);
    }

    /** `self->words[k] &= ~mask` */
    method ClearFromWord(k: nat, mask: Word, ghost lo: nat, ghost len: nat)
      requires k < words.Length && lo + len <= WORD_BITS && mask == MakeBitmask(lo, len)
      modifies words
      ensures View() == Filled(old(View()), k * WORD_BITS + lo, len, false)
    {
      ghost var before := words[..];
      AndNotMask(words[k], lo, len);
      words[k] := And(words[k], Not(mask));
      assert words[..] == before[k := words[k]];
      ViewUpdate(before, k, words[k], lo, len, false);
    }

    /** bitmap_set_bits; the part of the range beyond the last word is ignored. */
    method SetBits(offset: nat, len: nat)
      modifies words
      ensures View() == Filled(old(View()), offset, len, true)
    {
      if len == 0 {
        return;
      }
      var wordIdx := offset / WORD_BITS;
      var bitoffset := offset % WORD_BITS;
      var remaining := len;
      ghost var v := View();
      while remaining != 0
        invariant 0 <= bitoffset < WORD_BITS && 0 <= wordIdx && 0 <= remaining <= len
        invariant remaining != 0 ==> wordIdx * WORD_BITS + bitoffset == offset + (len - remaining)
        invariant View() == Filled(v, offset, len - remaining, true)
        decreases remaining
      {
        if words.Length <= wordIdx {
          assert Filled(v, offset, len - remaining, true) == Filled(v, offset, len, true);
          break;
        }
        var current := remaining;
        if WORD_BITS < bitoffset + current {
          current := WORD_BITS - bitoffset;
        }
        OrIntoWord(wordIdx, MakeBitmask(bitoffset, current), bitoffset, current);
        FilledTwice(v, offset, len - remaining, current, true);
        remaining := remaining - current;
        wordIdx := wordIdx + 1;
        bitoffset := 0;
      }
    }

    /** bitmap_clear_bits; the part of the range beyond the last word is ignored. */
    method ClearBits(offset: nat, len: nat)
      modifies words
      ensures View() == Filled(old(View()), offset, len, false)
    {
      if len == 0 {
        return;
      }
      var wordIdx := offset / WORD_BITS;
      var bitoffset := offset % WORD_BITS;
      var remaining := len;
      ghost var v := View();
      while remaining != 0
        invariant 0 <= bitoffset < WORD_BITS && 0 <= wordIdx && 0 <= remaining <= len
        invariant remaining != 0 ==> wordIdx * WORD_BITS + bitoffset == offset + (len - remaining)
        invariant View() == Filled(v, offset, len - remaining, false)
        decreases remaining
      {
        if words.Length <= wordIdx {
          assert Filled(v, offset, len - remaining, false) == Filled(v, offset, len, false);
          break;
        }
        var current := remaining;
        if WORD_BITS < bitoffset + current {
          current := WORD_BITS - bitoffset;
        }
        ClearFromWord(wordIdx, MakeBitmask(bitoffset, current), bitoffset, current);
        FilledTwice(v, offset, len - remaining, current, false);
        remaining := remaining - current;
        wordIdx := wordIdx + 1;
        bitoffset := 0;
      }
    }

    /**
     The single-bit operations guard with `word_count < offset / 32`, which lets the word
     just past the end through: exactly these offsets make them use memory behind the words.
     */
    ghost predicate Past(offset: int)
    {
      0 <= offset && offset / WORD_BITS == words.Length
    }

    /** bitmap_set_bit */
    method SetBit(offset: int) returns (ghost past: bool)
      modifies words
      ensures past <==> Past(offset)
      ensures View() == if 0 <= offset < |old(View())| then old(View())[offset := true] else old(View())
    {
      past := Past(offset);
      if offset < 0 || words.Length < offset / WORD_BITS {
        return;
      }
      if offset / WORD_BITS == words.Length {
        return;
      }
      var k, p := offset / WORD_BITS, offset % WORD_BITS;
      ghost var v := View();
      SingleIsMask(p);
      OrIntoWord(k, Shl(1, p), p, 1);
      FilledOne(v, offset, true);
    }

    /** bitmap_clear_bit */
    method ClearBit(offset: int) returns (ghost past: bool)
      modifies words
      ensures past <==> Past(offset)
      ensures View() == if 0 <= offset < |old(View())| then old(View())[offset := false] else old(View())
    {
      past := Past(offset);
      if offset < 0 || words.Length < offset / WORD_BITS {
        return;
      }
      if offset / WORD_BITS == words.Length {
        return;
      }
      var k, p := offset / WORD_BITS, offset % WORD_BITS;
      ghost var v := View();
      SingleIsMask(p);
      ClearFromWord(k, Shl(1, p), p, 1);
      FilledOne(v, offset, false);
    }

    /** bitmap_is_bit_set; behind the words the answer is whatever is there. */
    method IsBitSet(offset: int) returns (r: bool, ghost past: bool)
      ensures past <==> Past(offset)
      ensures !Past(offset) ==> (r <==> 0 <= offset < |View()| && View()[offset])
    {
      hide And, Shl, Bit, ViewOf, Bitmap.View;
      ViewSize();
      past := Past(offset);
      if offset < 0 || words.Length < offset / WORD_BITS {
        return false, past;
      }
      if offset / WORD_BITS == words.Length {
        r := *;
        return;
      }
      var k, p := offset / WORD_BITS, offset % WORD_BITS;
      r := And(words[k], Shl(1, p)) != 0;
      SingleBitTest(words[k], p);
      ViewBit(offset);
    }

    lemma ViewSize()
      ensures |View()| == WORD_BITS * words.Length
    {}

    lemma ViewBit(i: nat)
      requires i / WORD_BITS < words.Length
      ensures |View()| == WORD_BITS * words.Length && i < |View()|
      ensures View()[i] == Bit(words[i / WORD_BITS], i % WORD_BITS)
    {
      ViewAt(words[..], i / WORD_BITS, i % WORD_BITS);
    }
  }
}
