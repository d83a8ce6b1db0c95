/** Bitmaps stored in machine words, and the masked word scan. */
module Bitmap {
  import opened Memory
  import opened FiniteSets

  const WORD_BITS: nat := 64

  /** A machine word, bit 0 first. */
  type Word = w: seq<bool> | |w| == WORD_BITS witness seq(WORD_BITS, _ => false)

  function WordsFor(bits: nat): nat { (bits + WORD_BITS - 1) / WORD_BITS }

  // ----- words -----

  function LowMask(n: nat): Word { seq(WORD_BITS, i => i < n) }
  function Or(a: Word, b: Word): Word { seq(WORD_BITS, i requires 0 <= i < WORD_BITS => a[i] || b[i]) }
  function And(a: Word, b: Word): Word { seq(WORD_BITS, i requires 0 <= i < WORD_BITS => a[i] && b[i]) }
  function Not(a: Word): Word { seq(WORD_BITS, i requires 0 <= i < WORD_BITS => !a[i]) }

  predicate IsZero(w: Word) { forall i :: 0 <= i < WORD_BITS ==> !w[i] }

  /** The number of zero bits below the lowest one bit. */
  method TrailingZeros(w: Word) returns (n: nat)
    requires !IsZero(w)
    ensures n < WORD_BITS && w[n] && forall i :: 0 <= i < n ==> !w[i]
  {
    n := 0;
    while !w[n]
      invariant n < WORD_BITS && forall i :: 0 <= i < n ==> !w[i]
      decreases WORD_BITS - n
    {
      assert n + 1 == WORD_BITS ==> IsZero(w);
      n := n + 1;
    }
  }

  // ----- bits of a slice of words -----

  function BitAt(words: seq<Word>, i: nat): bool
    requires i < |words| * WORD_BITS
  {
    words[i / WORD_BITS][i % WORD_BITS]
  }

  function SetBit(words: seq<Word>, i: nat, v: bool): (r: seq<Word>)
    requires i < |words| * WORD_BITS
    ensures |r| == |words|
  {
    words[i / WORD_BITS := words[i / WORD_BITS][i % WORD_BITS := v]]
  }

  lemma SetBitAt(words: seq<Word>, i: nat, v: bool, j: nat)
    requires i < |words| * WORD_BITS && j < |words| * WORD_BITS
    ensures BitAt(SetBit(words, i, v), j) == if j == i then v else BitAt(words, j)
  {
    assert i == i / WORD_BITS * WORD_BITS + i % WORD_BITS && j == j / WORD_BITS * WORD_BITS + j % WORD_BITS;
  }

  /** A bit the scan looks at: in the last word of the slice the bits past the remainder are masked. */
  predicate Looked(words: seq<Word>, bits: nat, i: nat) {
    i < |words| * WORD_BITS
        && !(i / WORD_BITS == |words| - 1 && bits % WORD_BITS != 0 && i % WORD_BITS >= bits % WORD_BITS)
  }

  predicate Wanted(words: seq<Word>, bits: nat, wantFree: bool, i: nat) {
    Looked(words, bits, i) && BitAt(words, i) != wantFree
  }

  /** What the scan finds: the first wanted bit among those it looks at. */
  ghost predicate FirstWanted(words: seq<Word>, bits: nat, start: nat, wantFree: bool, r: Option<nat>) {
    match r
    case None => forall i: nat :: start <= i ==> !Wanted(words, bits, wantFree, i)
    case Some(j) => start <= j && Wanted(words, bits, wantFree, j) && forall i: nat :: start <= i < j ==>
        !Wanted(words, bits, wantFree, i)
  }

  /** The word as the scan sees it. */
  function Masked(words: seq<Word>, bits: nat, wantFree: bool, word: nat, low: nat): Word
    requires word < |words|
  {
    var w := if wantFree then Not(Or(words[word], LowMask(low))) else And(words[word], Not(LowMask(low)));
    if word == |words| - 1 && bits % WORD_BITS != 0 then And(w, LowMask(bits % WORD_BITS)) else w
  }

  lemma MaskedBit(words: seq<Word>, bits: nat, wantFree: bool, word: nat, low: nat, i: nat)
    requires word < |words| && i < WORD_BITS
    ensures Masked(words, bits, wantFree, word, low)[i] <==>
              low <= i && Wanted(words, bits, wantFree, word * WORD_BITS + i)
  {
    var j := word * WORD_BITS + i;
    assert j / WORD_BITS == word && j % WORD_BITS == i;
  }

  /** `scan_words`: word by word from the word of `start` on. */
  method ScanWords(words: seq<Word>, bits: nat, start: nat, wantFree: bool) returns (r: Option<nat>)
    requires |words| >= WordsFor(bits)
    ensures start >= bits ==> r == None
    ensures start < bits ==> FirstWanted(words, bits, start, wantFree, r)
  {
    hide Masked, Wanted;
    if words == [] || start >= bits {
      return None;
    }
    var last := |words| - 1;
    var word: nat, low: nat := start / WORD_BITS, start % WORD_BITS;
    while true
      invariant word <= last && low < WORD_BITS && start <= word * WORD_BITS + low
      invariant forall i: nat :: start <= i < word * WORD_BITS + low ==> !Wanted(words, bits, wantFree, i)
      decreases last - word
    {
      var w := Masked(words, bits, wantFree, word, low);
      forall i: nat | i < WORD_BITS ensures w[i] <==> low <= i && Wanted(words, bits, wantFree, word * WORD_BITS + i) {
        MaskedBit(words, bits, wantFree, word, low, i);
      }
      if !IsZero(w) {
        var bit := TrailingZeros(w);
        InThisWord(words, bits, start, wantFree, word, low, w, bit);
        return Some(word * WORD_BITS + bit);
      }
      NotInThisWord(words, bits, start, wantFree, word, low, w);
      if word == last {
        PastTheEnd(words, bits, wantFree);
        return None;
      }
      word, low := word + 1, 0;
    }
  }

  lemma InThisWord(words: seq<Word>, bits: nat, start: nat, wantFree: bool, word: nat, low: nat, w: Word, bit: nat)
    requires forall i: nat :: i < WORD_BITS ==>
              (w[i] <==> low <= i && Wanted(words, bits, wantFree, word * WORD_BITS + i))
    requires bit < WORD_BITS && w[bit] && (forall i :: 0 <= i < bit ==> !w[i]) && start <= word * WORD_BITS + low
    requires forall i: nat :: start <= i < word * WORD_BITS + low ==> !Wanted(words, bits, wantFree, i)
    ensures FirstWanted(words, bits, start, wantFree, Some(word * WORD_BITS + bit))
  {
    hide Wanted;
    var j := word * WORD_BITS + bit;
    forall i: nat | start <= i < j ensures !Wanted(words, bits, wantFree, i) {
      if i >= word * WORD_BITS + low {
        var k: nat := i - word * WORD_BITS;
        assert !w[k] && word * WORD_BITS + k == i;
      }
    }
  }

  lemma NotInThisWord(words: seq<Word>, bits: nat, start: nat, wantFree: bool, word: nat, low: nat, w: Word)
    requires forall i: nat :: i < WORD_BITS ==>
              (w[i] <==> low <= i && Wanted(words, bits, wantFree, word * WORD_BITS + i))
    requires IsZero(w) && low < WORD_BITS
    requires forall i: nat :: start <= i < word * WORD_BITS + low ==> !Wanted(words, bits, wantFree, i)
    ensures forall i: nat :: start <= i < (word + 1) * WORD_BITS ==> !Wanted(words, bits, wantFree, i)
  {
    hide Wanted;
    forall i: nat | start <= i < (word + 1) * WORD_BITS ensures !Wanted(words, bits, wantFree, i) {
      if i >= word * WORD_BITS + low {
        var k: nat := i - word * WORD_BITS;
        assert !w[k] && word * WORD_BITS + k == i;
      }
    }
  }

  lemma PastTheEnd(words: seq<Word>, bits: nat, wantFree: bool)
    ensures forall i: nat :: i >= |words| * WORD_BITS ==> !Wanted(words, bits, wantFree, i)
  {
  }

  // ----- when the scan is the plain search -----

  /** The plain search: the first bit below `bits` with the wanted value. */
  ghost predicate PlainSearch(words: seq<Word>, bits: nat, start: nat, wantFree: bool, r: Option<nat>)
    requires bits <= |words| * WORD_BITS
  {
    match r
    case None => forall i: nat :: start <= i < bits ==> BitAt(words, i) == wantFree
    case Some(j) => start <= j < bits && BitAt(words, j) != wantFree && forall i: nat :: start <= i < j ==>
        BitAt(words, i) == wantFree
  }

  lemma BitsFit(words: seq<Word>, bits: nat)
    requires |words| >= WordsFor(bits)
    ensures bits <= |words| * WORD_BITS
  {
  }

  /** Every bit below `bits` is looked at. */
  lemma BelowBits(words: seq<Word>, bits: nat, i: nat)
    requires |words| >= WordsFor(bits) && i < bits
    ensures Looked(words, bits, i)
  {
  }

  /** With exactly as many words as needed, nothing past `bits` is looked at. */
  lemma ExactWords(words: seq<Word>, bits: nat, i: nat)
    requires |words| == WordsFor(bits) && i >= bits
    ensures !Looked(words, bits, i)
  {
  }

  /** No padding bit that the scan looks at has the wanted value. */
  ghost predicate NothingBehind(words: seq<Word>, bits: nat, wantFree: bool) {
    forall i: nat :: i >= bits ==> !Wanted(words, bits, wantFree, i)
  }

  /** Writing a bit in front of the padding does not change that. */
  lemma BehindKept(words: seq<Word>, bits: nat, i: nat, v: bool, wantFree: bool)
    requires i < bits <= |words| * WORD_BITS
    ensures NothingBehind(SetBit(words, i, v), bits, wantFree) <==> NothingBehind(words, bits, wantFree)
  {
    hide BitAt, SetBit, Looked;
    forall j: nat | j >= bits ensures Wanted(SetBit(words, i, v), bits, wantFree, j) <==>
        Wanted(words, bits, wantFree, j) {
      SameLooked(words, SetBit(words, i, v), bits, j);
      if Looked(words, bits, j) {
        LookedInside(words, bits, j);
        SetBitAt(words, i, v, j);
      }
    }
  }

  lemma LookedInside(words: seq<Word>, bits: nat, i: nat)
    requires Looked(words, bits, i)
    ensures i < |words| * WORD_BITS
  {
  }

  lemma SameLooked(words: seq<Word>, words': seq<Word>, bits: nat, i: nat)
    requires |words| == |words'|
    ensures Looked(words, bits, i) <==> Looked(words', bits, i)
  {
  }

  /**
   The scan is the plain search exactly if there is something to find below `bits`, or no padding
   bit that is looked at has the wanted value.
   */
  lemma ScanIsPlainIff(words: seq<Word>, bits: nat, start: nat, wantFree: bool, r: Option<nat>)
    requires |words| >= WordsFor(bits) && start < bits && FirstWanted(words, bits, start, wantFree, r)
    ensures bits <= |words| * WORD_BITS
    ensures PlainSearch(words, bits, start, wantFree, r) <==>
              || (exists i: nat :: start <= i < bits && BitAt(words, i) != wantFree)
              || NothingBehind(words, bits, wantFree)
  {
    BitsFit(words, bits);
    hide Looked;
    forall i: nat | i < bits ensures Wanted(words, bits, wantFree, i) <==> BitAt(words, i) != wantFree {
      BelowBits(words, bits, i);
    }
    if i: nat :| start <= i < bits && BitAt(words, i) != wantFree {
      assert Wanted(words, bits, wantFree, i);
      assert r.Some? && r.value <= i;
    }
  }

  /** With exactly as many words as needed it always is. */
  lemma ScanIsPlain(words: seq<Word>, bits: nat, start: nat, wantFree: bool, r: Option<nat>)
    requires |words| == WordsFor(bits) && start < bits && FirstWanted(words, bits, start, wantFree, r)
    ensures bits <= |words| * WORD_BITS && PlainSearch(words, bits, start, wantFree, r)
  {
    forall i: nat | i >= bits ensures !Wanted(words, bits, wantFree, i) {
      ExactWords(words, bits, i);
    }
    ScanIsPlainIff(words, bits, start, wantFree, r);
  }

  /** One word too many: with all ten bits in use the scan for a free one finds bit 10. */
  lemma ScanFindsPadding()
    ensures var words := [LowMask(10), LowMask(0)];
            FirstWanted(words, 10, 0, true, Some(10)) && !PlainSearch(words, 10, 0, true, Some(10))
  {
    var words := [LowMask(10), LowMask(0)];
    assert Wanted(words, 10, true, 10);
    forall i: nat | i < 10 ensures !Wanted(words, 10, true, i) {
      assert BitAt(words, i);
    }
  }

  // ----- bitmaps with a counter -----

  predicate Marked(words: seq<Word>, bits: nat, i: nat) { i < bits && i < |words| * WORD_BITS && BitAt(words, i) }

  ghost function UsedSet(words: seq<Word>, bits: nat): set<nat> { set i: nat | i < bits && Marked(words, bits, i) }

  lemma {:induction false} UsedSize(words: seq<Word>, bits: nat)
    ensures |UsedSet(words, bits)| <= bits
              && (|UsedSet(words, bits)| == bits ==> UsedSet(words, bits) == Range(0, bits))
  {
    RangeSize(0, bits);
    assert UsedSet(words, bits) <= Range(0, bits);
    SubsetSize(UsedSet(words, bits), Range(0, bits));
  }

  /** Setting or clearing a bit changes the set by that bit. */
  lemma UsedAfter(words: seq<Word>, bits: nat, i: nat, v: bool)
    requires bits <= |words| * WORD_BITS && i < bits
    ensures UsedSet(SetBit(words, i, v), bits) == if v then UsedSet(words, bits) + {i} else UsedSet(words, bits) - {i}
  {
    hide BitAt, SetBit;
    forall j: nat | j < bits ensures BitAt(SetBit(words, i, v), j) == if j == i then v else BitAt(words, j) {
      SetBitAt(words, i, v, j);
    }
  }

  lemma UsedNext(words: seq<Word>, i: nat)
    requires i < |words| * WORD_BITS
    ensures UsedSet(words, i + 1) == UsedSet(words, i) + if BitAt(words, i) then {i} else {}
  {
    hide BitAt;
    forall j: nat | j < i ensures Marked(words, i + 1, j) <==> Marked(words, i, j) {}
  }

  /** `count_used`: the one bits of all words, word after word. */
  method CountUsed(words: seq<Word>) returns (n: nat)
    ensures n == |UsedSet(words, |words| * WORD_BITS)|
  {
    hide UsedSet, BitAt;
    n := 0;
    UsedNone(words);
    var word: nat := 0;
    while word < |words|
      invariant word <= |words| && n == |UsedSet(words, word * WORD_BITS)|
    {
      var bit: nat := 0;
      while bit < WORD_BITS
        invariant bit <= WORD_BITS && n == |UsedSet(words, word * WORD_BITS + bit)|
      {
        var i := word * WORD_BITS + bit;
        UsedNext(words, i);
        NotYetUsed(words, i);
        BitInWord(words, word, bit);
        if words[word][bit] {
          n := n + 1;
        }
        bit := bit + 1;
      }
      word := word + 1;
    }
  }

  lemma UsedNone(words: seq<Word>)
    ensures UsedSet(words, 0) == {}
  {
  }

  lemma NotYetUsed(words: seq<Word>, i: nat)
    ensures i !in UsedSet(words, i)
  {
  }

  lemma BitInWord(words: seq<Word>, word: nat, bit: nat)
    requires word < |words| && bit < WORD_BITS
    ensures BitAt(words, word * WORD_BITS + bit) == words[word][bit]
  {
    var i := word * WORD_BITS + bit;
    assert i / WORD_BITS == word && i % WORD_BITS == bit;
  }

  datatype BitError = Fine | OutOfRange | AlreadySet | AlreadyFree

  class BitMap {
    const bits: nat
    var words: seq<Word>
    var used: nat

    ghost predicate Valid()
      reads this
    {
      |words| == WordsFor(bits) && used == |UsedSet(words, bits)|
    }

    /** The occupied indices. */
    ghost function Used(): set<nat>
      reads this
    {
      UsedSet(words, bits)
    }

    constructor (bits: nat)
      ensures Valid() && this.bits == bits && Used() == {}
    {
      this.bits := bits;
      words := seq(WordsFor(bits), _ => LowMask(0));
      used := 0;
      new;
      assert UsedSet(words, bits) == {};
    }

    /** A map made from words as they are. */
    constructor FromWords(words: seq<Word>)
      ensures Valid() && bits == |words| * WORD_BITS && this.words == words
    {
      this.bits := |words| * WORD_BITS;
      this.words := words;
      var n := CountUsed(words);
      this.used := n;
    }

    method IsAllocated(i: nat) returns (r: bool)
      requires Valid()
      ensures r <==> i in Used()
    {
      r := i < bits && BitAt(words, i);
    }

    /** `find_free_from`: the first free index from `start` on. */
    method FindFreeFrom(start: nat) returns (r: Option<nat>)
      requires Valid()
      ensures r.None? ==> forall i :: start <= i < bits ==> i in Used()
      ensures r.Some? ==> start <= r.value < bits && r.value !in Used() && forall i :: start <= i < r.value ==>
                i in Used()
    {
      hide Looked, BitAt;
      BitsFit(words, bits);
      UsedSize(words, bits);
      if used == bits {
        assert forall i :: 0 <= i < bits ==> Between(0, i, bits);
        return None;
      }
      r := ScanWords(words, bits, start, true);
      if start < bits {
        ScanIsPlain(words, bits, start, true, r);
      }
    }

    /** `find_used_from`: the first occupied index from `start` on. */
    method FindUsedFrom(start: nat) returns (r: Option<nat>)
      requires Valid()
      ensures r.None? ==> forall i :: start <= i < bits ==> i !in Used()
      ensures r.Some? ==> start <= r.value < bits && r.value in Used() && forall i :: start <= i < r.value ==>
                i !in Used()
    {
      hide Looked, BitAt;
      BitsFit(words, bits);
      if used == 0 {
        return None;
      }
      r := ScanWords(words, bits, start, false);
      if start < bits {
        ScanIsPlain(words, bits, start, false, r);
      }
    }

    /** `alloc_from`: occupy the first free index from `start` on. */
    method AllocFrom(start: nat) returns (r: Option<nat>)
      requires Valid()
      modifies this
      ensures Valid()
      ensures r.None? ==> words == old(words) && forall i :: start <= i < bits ==> i in Used()
      ensures r.Some? ==>
                && start <= r.value < bits && r.value !in old(Used()) && Used() == old(Used()) + {r.value}
                && forall i :: start <= i < r.value ==> i in old(Used())
    {
      r := FindFreeFrom(start);
      if r.Some? {
        BitsFit(words, bits);
        UsedAfter(words, bits, r.value, true);
        words := SetBit(words, r.value, true);
        used := used + 1;
      }
    }

    /** `set`: occupy an index, whether it was free or not. */
    method Set(i: nat) returns (e: BitError)
      requires Valid()
      modifies this
      ensures Valid() && e == (if i < bits then Fine else OutOfRange) && Used() == if i < bits then old(Used()) + {i}
                else old(Used())
    {
      if i >= bits {
        return OutOfRange;
      }
      var there := IsAllocated(i);
      if !there {
        BitsFit(words, bits);
        UsedAfter(words, bits, i, true);
        words := SetBit(words, i, true);
        used := used + 1;
      }
      return Fine;
    }

    /** `clear`: free an index, whether it was occupied or not. */
    method Clear(i: nat) returns (e: BitError)
      requires Valid()
      modifies this
      ensures Valid() && e == (if i < bits then Fine else OutOfRange) && Used() == if i < bits then old(Used()) - {i}
                else old(Used())
    {
      if i >= bits {
        return OutOfRange;
      }
      var there := IsAllocated(i);
      if there {
        BitsFit(words, bits);
        UsedAfter(words, bits, i, false);
        words := SetBit(words, i, false);
        used := used - 1;
      }
      return Fine;
    }

    /** `alloc_specific`: occupy a free index. */
    method AllocSpecific(i: nat) returns (e: BitError)
      requires Valid()
      modifies this
      ensures Valid() && e == if i >= bits then OutOfRange else if i in old(Used()) then AlreadySet else Fine
      ensures Used() == if e == Fine then old(Used()) + {i} else old(Used())
    {
      if i >= bits {
        return OutOfRange;
      }
      var there := IsAllocated(i);
      if there {
        return AlreadySet;
      }
      BitsFit(words, bits);
      UsedAfter(words, bits, i, true);
      words := SetBit(words, i, true);
      used := used + 1;
      return Fine;
    }

    /** `free`: free an occupied index. */
    method Free(i: nat) returns (e: BitError)
      requires Valid()
      modifies this
      ensures Valid() && e == if i >= bits then OutOfRange else if i in old(Used()) then Fine else AlreadyFree
      ensures Used() == if e == Fine then old(Used()) - {i} else old(Used())
    {
      if i >= bits {
        return OutOfRange;
      }
      var there := IsAllocated(i);
      if !there {
        return AlreadyFree;
      }
      BitsFit(words, bits);
      UsedAfter(words, bits, i, false);
      words := SetBit(words, i, false);
      used := used - 1;
      return Fine;
    }

    /** `reset`: everything is free again. */
    method Reset()
      requires Valid()
      modifies this
      ensures Valid() && Used() == {}
    {
      words := seq(|words|, _ => LowMask(0));
      used := 0;
      assert UsedSet(words, bits) == {};
    }

    /** `alloc_range`: occupy the lowest run of `n` free indices. */
    method AllocRange(n: nat) returns (r: Option<nat>)
      requires Valid()
      modifies this
      ensures Valid()
      ensures r.None? ==> words == old(words) && (n == 0 || forall a: nat :: !FreeRun(words, bits, n, a))
      ensures r.Some? ==>
                && n > 0 && FreeRun(old(words), bits, n, r.value)
                && (forall a: nat :: a < r.value ==> !FreeRun(old(words), bits, n, a))
                && Used() == old(Used()) + Range(r.value, r.value + n)
    {
      hide UsedSet, FreeRun;
      if n == 0 || n > bits - used {
        TooFew(words, bits, n);
        return None;
      }
      BitsFit(words, bits);
      var words';
      words', r := AllocRangeIn(words, bits, n);
      if r.Some? {
        RunIsNew(words, bits, n, r.value);
        words := words';
        used := used + n;
      }
    }

    /** `free_range`: free a whole run of occupied indices, or nothing. */
    method FreeRange(lo: nat, hi: nat) returns (e: BitError)
      requires Valid()
      modifies this
      ensures Valid()
      ensures e == if lo > hi || hi > bits then OutOfRange else if Range(lo, hi) <= old(Used()) then Fine
                else AlreadyFree
      ensures Used() == if e == Fine then old(Used()) - Range(lo, hi) else old(Used())
    {
      BitsFit(words, bits);
      var words';
      words', e := FreeRangeIn(words, bits, lo, hi);
      if e == Fine {
        RangeSize(lo, hi);
        assert UsedSet(words, bits) == UsedSet(words', bits) + Range(lo, hi);
        words := words';
        used := used - (hi - lo);
      }
    }
  }

  /** The `n` indices from `a` on are all free. */
  ghost predicate FreeRun(words: seq<Word>, bits: nat, n: nat, a: nat) {
    a + n <= bits && Range(a, a + n) !! UsedSet(words, bits)
  }

  lemma TooFew(words: seq<Word>, bits: nat, n: nat)
    ensures n > 0 && n > bits - |UsedSet(words, bits)| ==> forall a: nat :: !FreeRun(words, bits, n, a)
  {
    forall a: nat | FreeRun(words, bits, n, a) ensures n <= bits - |UsedSet(words, bits)| {
      RangeSize(a, a + n);
      RangeSize(0, bits);
      var all := UsedSet(words, bits) + Range(a, a + n);
      assert all <= Range(0, bits);
      SubsetSize(all, Range(0, bits));
    }
  }

  lemma RunIsNew(words: seq<Word>, bits: nat, n: nat, a: nat)
    requires FreeRun(words, bits, n, a)
    ensures |UsedSet(words, bits) + Range(a, a + n)| == |UsedSet(words, bits)| + n
  {
    RangeSize(a, a + n);
  }

  /** The `len` indices before `i` are the free run that ends there, and no run of `n` ends by `i`. */
  ghost predicate Counting(words: seq<Word>, bits: nat, n: nat, i: nat, len: nat) {
    && len <= i && (forall j: nat :: i - len <= j < i ==> !Marked(words, bits, j))
    && (i > len ==> Marked(words, bits, i - len - 1))
    && forall a: nat :: a + n <= i ==> !FreeRun(words, bits, n, a)
  }

  lemma CountingStep(words: seq<Word>, bits: nat, n: nat, i: nat, len: nat)
    requires bits <= |words| * WORD_BITS && Counting(words, bits, n, i, len) && len < n && i < bits
    ensures Marked(words, bits, i) ==> Counting(words, bits, n, i + 1, 0)
    ensures !Marked(words, bits, i) && len + 1 < n ==> Counting(words, bits, n, i + 1, len + 1)
    ensures !Marked(words, bits, i) && len + 1 == n ==>
              FreeRun(words, bits, n, i + 1 - n) && forall a: nat :: a < i + 1 - n ==> !FreeRun(words, bits, n, a)
  {
    hide Marked;
    if Marked(words, bits, i) {
      NoRunAcross(words, bits, n, i + 1, i);
    } else if len + 1 < n {
      if i > len {
        NoRunAcross(words, bits, n, i + 1, i - len - 1);
      }
    } else {
      forall j: nat | j in Range(i + 1 - n, i + 1) ensures j !in UsedSet(words, bits) {
        assert !Marked(words, bits, j);
      }
    }
  }

  /** A marked index among the last `n` before `end` rules out a run that ends there. */
  lemma NoRunAcross(words: seq<Word>, bits: nat, n: nat, end: nat, p: nat)
    requires Marked(words, bits, p) && p < end <= p + n
    ensures forall a: nat :: a + n == end ==> !FreeRun(words, bits, n, a)
  {
    forall a: nat | a + n == end ensures !FreeRun(words, bits, n, a) {
      assert p in Range(a, a + n) && p in UsedSet(words, bits);
    }
  }

  /** `alloc_range_in`: count free bits, and occupy the first run that is long enough. */
  method AllocRangeIn(words: seq<Word>, bits: nat, n: nat) returns (out: seq<Word>, r: Option<nat>)
    requires bits <= |words| * WORD_BITS
    ensures |out| == |words|
    ensures r.None? ==> out == words && (n == 0 || forall a: nat :: !FreeRun(words, bits, n, a))
    ensures r.Some? ==>
              && n > 0 && FreeRun(words, bits, n, r.value)
              && (forall a: nat :: a < r.value ==> !FreeRun(words, bits, n, a))
              && UsedSet(out, bits) == UsedSet(words, bits) + Range(r.value, r.value + n)
  {
    hide FreeRun, UsedSet, Range;
    if n == 0 {
      return words, None;
    }
    var runStart: nat, runLen: nat := 0, 0;
    var i: nat := 0;
    NothingCounted(words, bits, n);
    while i < bits
      invariant i <= bits && runLen < n && Counting(words, bits, n, i, runLen)
                && (runLen > 0 ==> runStart == i - runLen)
    {
      CountingStep(words, bits, n, i, runLen);
      if BitAt(words, i) {
        runLen := 0;
      } else {
        if runLen == 0 {
          runStart := i;
        }
        runLen := runLen + 1;
        if runLen == n {
          RunFits(words, bits, n, runStart);
          out := FillRange(words, bits, runStart, runStart + n, true);
          return out, Some(runStart);
        }
      }
      i := i + 1;
    }
    NoRunAtAll(words, bits, n, runLen);
    return words, None;
  }

  lemma NothingCounted(words: seq<Word>, bits: nat, n: nat)
    requires n > 0
    ensures Counting(words, bits, n, 0, 0)
  {
  }

  lemma RunFits(words: seq<Word>, bits: nat, n: nat, a: nat)
    requires FreeRun(words, bits, n, a)
    ensures a + n <= bits
  {
  }

  lemma NoRunAtAll(words: seq<Word>, bits: nat, n: nat, len: nat)
    requires Counting(words, bits, n, bits, len)
    ensures forall a: nat :: !FreeRun(words, bits, n, a)
  {
  }

  /** Set all bits of [lo, hi) to `v`. */
  method FillRange(words: seq<Word>, bits: nat, lo: nat, hi: nat, v: bool) returns (out: seq<Word>)
    requires lo <= hi <= bits <= |words| * WORD_BITS
    ensures |out| == |words| && UsedSet(out, bits) == if v then UsedSet(words, bits) + Range(lo, hi)
              else UsedSet(words, bits) - Range(lo, hi)
  {
    hide UsedSet, SetBit;
    out := words;
    var j := lo;
    assert Range(lo, lo) == {};
    while j < hi
      invariant lo <= j <= hi && |out| == |words|
      invariant UsedSet(out, bits) == if v then UsedSet(words, bits) + Range(lo, j)
                else UsedSet(words, bits) - Range(lo, j)
    {
      UsedAfter(out, bits, j, v);
      assert Range(lo, j + 1) == Range(lo, j) + {j};
      out := SetBit(out, j, v);
      j := j + 1;
    }
  }

  /** `free_range_in`: check every bit first, then clear them all. */
  method FreeRangeIn(words: seq<Word>, bits: nat, lo: nat, hi: nat) returns (out: seq<Word>, e: BitError)
    requires bits <= |words| * WORD_BITS
    ensures |out| == |words|
    ensures e == if lo > hi || hi > bits then OutOfRange else if Range(lo, hi) <= UsedSet(words, bits) then Fine
              else AlreadyFree
    ensures UsedSet(out, bits) == if e == Fine then UsedSet(words, bits) - Range(lo, hi) else UsedSet(words, bits)
    ensures e != Fine ==> out == words
  {
    if lo > hi || hi > bits {
      return words, OutOfRange;
    }
    var i := lo;
    while i < hi
      invariant lo <= i <= hi && forall j: nat :: lo <= j < i ==> Marked(words, bits, j)
    {
      if !BitAt(words, i) {
        assert i in Range(lo, hi) && i !in UsedSet(words, bits);
        return words, AlreadyFree;
      }
      i := i + 1;
    }
    out := FillRange(words, bits, lo, hi, false);
    e := Fine;
  }

  // ----- iteration -----

  /** `BitIter`: the indices with the wanted value, from `next` on. */
  class BitIter {
    const words: seq<Word>
    const bits: nat
    const wantFree: bool
    var next: nat

    constructor (words: seq<Word>, bits: nat, wantFree: bool)
      ensures this.words == words && this.bits == bits && this.wantFree == wantFree && next == 0
    {
      this.words, this.bits, this.wantFree, this.next := words, bits, wantFree, 0;
    }

    method Next() returns (r: Option<nat>)
      requires |words| == WordsFor(bits)
      modifies this
      ensures r.None? ==> next == old(next) && forall i: nat :: next <= i < bits ==>
                (Marked(words, bits, i) == wantFree)
      ensures r.Some? ==>
                && old(next) <= r.value < bits && Marked(words, bits, r.value) != wantFree && next == r.value + 1
                && forall i: nat :: old(next) <= i < r.value ==> (Marked(words, bits, i) == wantFree)
    {
      hide Looked, BitAt;
      BitsFit(words, bits);
      r := ScanWords(words, bits, next, wantFree);
      if next < bits {
        ScanIsPlain(words, bits, next, wantFree, r);
      }
      if r.Some? {
        next := r.value + 1;
      }
    }
  }

  /** Draining the iterator lists exactly the wanted indices, in ascending order. */
  method Indices(words: seq<Word>, bits: nat, wantFree: bool) returns (out: seq<nat>)
    requires |words| == WordsFor(bits)
    ensures forall i, j :: 0 <= i < j < |out| ==> out[i] < out[j]
    ensures forall i: nat :: i in out <==> i < bits && Marked(words, bits, i) != wantFree
  {
    hide Marked, WordsFor;
    var it := new BitIter(words, bits, wantFree);
    out := [];
    while true
      invariant it.words == words && it.bits == bits && it.wantFree == wantFree
      invariant forall i, j :: 0 <= i < j < |out| ==> out[i] < out[j]
      invariant forall i :: 0 <= i < |out| ==> out[i] < it.next
      invariant forall i: nat :: i in out <==> i < it.next && i < bits && Marked(words, bits, i) != wantFree
      invariant it.next <= bits
      decreases bits - it.next
    {
      var r := it.Next();
      if r.None? {
        return;
      }
      out := out + [r.value];
    }
  }
}
