/**
 Ring pointers (co/ring.h): a free-running unsigned counter of a fixed word size, corrected so that it also
 yields an offset into a ring whose length need not divide the word size.

 `word` is the number of values of the counter type (2^32 for uint32_t, 2^64 for size_t) and `num` the ring length.
 */
module Ring {
  import opened Arithmetic

  /** RingPtr: the wrapping counter and the correction accumulated at its wrap-arounds. */
  datatype Pointer = Pointer(value: nat, adjust: nat)

  const START := Pointer(0, 0)

  /** Unsigned arithmetic of the counter type. */
  function AddWord(a: int, b: int, word: nat): (r: nat)
    requires word > 0
    ensures r < word
  {
    (a + b) % word
  }

  function Incr(p: Pointer, amount: nat, num: nat, word: nat): Pointer
    requires num > 0 && word > 0
  {
    var value := AddWord(p.value, amount, word);
    if value < p.value then
      Pointer(value, AddWord(AddWord(p.adjust, (word - 1) % num, word), 1, word) % num)
    else
      Pointer(value, p.adjust)
  }

  function Offset(p: Pointer, num: nat, word: nat): (r: nat)
    requires num > 0 && word > 0
    ensures r < num
  {
    AddWord(p.value % num, p.adjust, word) % num
  }

  function Available(ahead: Pointer, behind: Pointer, word: nat): nat
    requires word > 0
  {
    AddWord(ahead.value, 0 - behind.value, word)
  }

  function NegAvailable(ahead: Pointer, behind: Pointer, num: nat, word: nat): nat
    requires word > 0
  {
    AddWord(num, 0 - Available(ahead, behind, word), word)
  }

  /** The pointer stands for the unbounded total `total`. */
  ghost predicate Represents(p: Pointer, total: nat, num: nat, word: nat)
    requires num > 0 && word > 0
  {
    p.value == total % word && p.adjust == (total - total % word) % num
  }

  function IncrAll(p: Pointer, amounts: seq<nat>, num: nat, word: nat): Pointer
    requires num > 0 && word > 0
    decreases |amounts|
  {
    if amounts == [] then p else IncrAll(Incr(p, amounts[0], num, word), amounts[1..], num, word)
  }

  function Sum(amounts: seq<nat>): nat {
    if amounts == [] then 0 else amounts[0] + Sum(amounts[1..])
  }

  lemma StartRepresents(num: nat, word: nat)
    requires num > 0 && word > 0
    ensures Represents(START, 0, num, word)
  {
    SmallMod(0, word);
    SmallMod(0, num);
  }

  /** The correction computed at a wrap-around does not itself overflow, for every ring length below the word size. */
  lemma CorrectionDoesNotOverflow(adjust: nat, num: nat, word: nat)
    requires 0 < num < word && adjust < num
    ensures adjust + (word - 1) % num + 1 < word
    ensures AddWord(AddWord(adjust, (word - 1) % num, word), 1, word) % num == (adjust + word) % num
  {
    var rem := (word - 1) % num;
    if 2 * num > word {
      DivModUnique(word - 1, num, 1, word - 1 - num);
    }
    SmallMod(adjust + rem, word);
    SmallMod(adjust + rem + 1, word);
    ModAdd(adjust + 1, word - 1, num);
    ModAdd(adjust + 1, rem, num);
    SmallMod(rem, num);
  }

  lemma IncrRepresents(p: Pointer, total: nat, amount: nat, num: nat, word: nat)
    requires 0 < num < word && amount < word && Represents(p, total, num, word)
    ensures Represents(Incr(p, amount, num, word), total + amount, num, word)
  {
    var base := total - total % word;
    if p.value + amount < word {
      SmallMod(p.value + amount, word);
      DivModUnique(total + amount, word, total / word, p.value + amount);
    } else {
      DivModUnique(p.value + amount, word, 1, p.value + amount - word);
      DivModUnique(total + amount, word, total / word + 1, p.value + amount - word);
      CorrectionDoesNotOverflow(p.adjust, num, word);
      ModAdd(base, word, num);
      ModAdd(p.adjust, word, num);
      SmallMod(p.adjust, num);
    }
  }

  /** Through any number of increments and wrap-arounds the pointer stands for the true total. */
  lemma {:induction false} IncrAllRepresents(p: Pointer, total: nat, amounts: seq<nat>, num: nat, word: nat)
    requires 0 < num < word && Represents(p, total, num, word)
    requires forall i :: 0 <= i < |amounts| ==> amounts[i] < word
    ensures Represents(IncrAll(p, amounts, num, word), total + Sum(amounts), num, word)
    decreases |amounts|
  {
    if amounts != [] {
      IncrRepresents(p, total, amounts[0], num, word);
      IncrAllRepresents(Incr(p, amounts[0], num, word), total + amounts[0], amounts[1..], num, word);
    }
  }

  /** No overflow in the offset computation of a ring of at most half the word size. */
  lemma OffsetIsTotalModNum(p: Pointer, total: nat, num: nat, word: nat)
    requires 0 < num && 2 * num <= word && Represents(p, total, num, word)
    ensures p.value % num + p.adjust < word
    ensures Offset(p, num, word) == total % num
  {
    SmallMod(p.value % num + p.adjust, word);
    ModAdd(total % word, total - total % word, num);
  }

  lemma AvailableIsDifference(ahead: Pointer, behind: Pointer, a: nat, b: nat, num: nat, word: nat)
    requires 0 < num < word && b <= a && a - b < word
    requires Represents(ahead, a, num, word) && Represents(behind, b, num, word)
    ensures Available(ahead, behind, word) == a - b
    ensures a - b <= num ==> NegAvailable(ahead, behind, num, word) == num - (a - b)
  {
    DivModUnique(a % word - b % word, word, b / word - a / word, a - b);
    if a - b <= num {
      SmallMod(num - (a - b), word);
    }
  }

  /** The pointer reached by counting up to `total` from START, whatever the increments were. */
  function PointerFor(total: nat, num: nat, word: nat): Pointer
    requires num > 0 && word > 0
  {
    Pointer(total % word, (total - total % word) % num)
  }

  /** The correction accumulated when a counter of num + spare values has wrapped q + 2 times. */
  lemma BreakingCorrection(num: nat, spare: nat, q: nat, r: nat)
    requires spare < num && q * (num - spare) + r == spare && r < num - spare
    ensures (q + 2) * (num + spare) % num == r + spare && (q + 2) * (num + spare) % (num + spare) == 0
  {
    assert (q + 2) * (num + spare) == (2 * q + 2) * num + (r + spare) by {
      assert (q + 2) * (num + spare) == (q + 2) * num + (q + 2) * spare;
      assert q * (num - spare) == q * num - q * spare;
    }
    DivModUnique((q + 2) * (num + spare), num, 2 * q + 2, r + spare);
    DivModUnique((q + 2) * (num + spare), num + spare, q + 2, 0);
  }

  /** A correction of more than the spare values overflows at the end of the ring. */
  lemma OffsetOverflows(num: nat, spare: nat, r: nat)
    requires 0 < spare < num && 0 < r < num - spare
    ensures Offset(Pointer(num - 1, r + spare), num, num + spare) == r - 1
  {
    SmallMod(num - 1, num);
    DivModUnique(num - 1 + (r + spare), num + spare, 1, r - 1);
    SmallMod(r - 1, num);
  }

  lemma OffsetBreaks(num: nat, spare: nat, base: nat, r: nat)
    requires 0 < spare < num && 0 < r < num - spare
    requires base % (num + spare) == 0 && base % num == r + spare
    ensures Offset(PointerFor(base + num - 1, num, num + spare), num, num + spare) != (base + num - 1) % num
  {
    hide Offset;
    OffsetOverflows(num, spare, r);
    DivModUnique(base + num - 1, num + spare, base / (num + spare), num - 1);
    DivModUnique(base + num - 1, num, base / num + 1, r + spare - 1);
  }

  lemma GapDoesNotDivideSpare(num: nat, k: nat)
    requires num < Pow2(k) < 2 * num
    ensures (Pow2(k) - num) % (2 * num - Pow2(k)) != 0
  {
    var spare, gap := Pow2(k) - num, 2 * num - Pow2(k);
    if spare % gap == 0 {
      var q := spare / gap;
      assert Pow2(k) == (2 * q + 1) * gap;
      OddDivisorOfPow2(q, gap, k);
    }
  }

  /**
   The header claims arbitrary ring lengths. Exactly when the offset is right: a ring length below the word size yields the true total modulo the length
   for every total if and only if it is at most half the word size.
   */
  lemma OffsetExactIffHalfWord(num: nat, k: nat)
    requires 0 < num < Pow2(k)
    ensures (forall total: nat :: Offset(PointerFor(total, num, Pow2(k)), num, Pow2(k)) == total % num)
       <==> 2 * num <= Pow2(k)
  {
    var word := Pow2(k);
    if 2 * num <= word {
      forall total: nat ensures Offset(PointerFor(total, num, word), num, word) == total % num {
        OffsetIsTotalModNum(PointerFor(total, num, word), total, num, word);
      }
    } else {
      var spare, gap := word - num, 2 * num - word;
      GapDoesNotDivideSpare(num, k);
      BreakingCorrection(num, spare, spare / gap, spare % gap);
      OffsetBreaks(num, spare, (spare / gap + 2) * word, spare % gap);
    }
  }

  /** The `count` elements of a ring-shaped buffer that follow position `start`, wrapping at the end. */
  function Slice<T>(buffer: seq<T>, start: nat, count: nat): seq<T>
    requires |buffer| > 0
  {
    seq(count, i requires 0 <= i < count => buffer[(start + i) % |buffer|])
  }

  /** Writing behind a slice that does not fill the ring extends the slice and disturbs nothing in it. */
  lemma SliceAppend<T>(buffer: seq<T>, start: nat, count: nat, x: T)
    requires count < |buffer|
    ensures Slice(buffer[(start + count) % |buffer| := x], start, count + 1) == Slice(buffer, start, count) + [x]
  {
    var after := buffer[(start + count) % |buffer| := x];
    var all, before := Slice(after, start, count + 1), Slice(buffer, start, count);
    forall i | 0 <= i < count ensures all[i] == before[i] {
      ModDistinct(start + i, start + count, |buffer|);
    }
  }

  lemma SliceSplit<T>(buffer: seq<T>, start: nat, count: nat, k: nat)
    requires |buffer| > 0 && k <= count
    ensures Slice(buffer, start, count) == Slice(buffer, start, k) + Slice(buffer, start + k, count - k)
  {
    forall i | k <= i < count
      ensures Slice(buffer, start, count)[i] == Slice(buffer, start + k, count - k)[i - k]
    {
      assert start + i == start + k + (i - k);
    }
  }

  /** A slice that does not pass the end of the buffer is a plain range of it. */
  lemma SliceContiguous<T>(buffer: seq<T>, start: nat, count: nat)
    requires |buffer| > 0 && start % |buffer| + count <= |buffer|
    ensures Slice(buffer, start, count) == buffer[start % |buffer|..start % |buffer| + count]
  {
    var s := Slice(buffer, start, count);
    forall i | 0 <= i < count ensures s[i] == buffer[start % |buffer| + i] {
      ModStep(start, i, |buffer|);
    }
  }

  /** Only the position of the slice's start modulo the ring length matters. */
  lemma SliceModStart<T>(buffer: seq<T>, start: nat, count: nat)
    requires |buffer| > 0
    ensures Slice(buffer, start % |buffer|, count) == Slice(buffer, start, count)
  {
    var a, b := Slice(buffer, start % |buffer|, count), Slice(buffer, start, count);
    forall i | 0 <= i < count ensures a[i] == b[i] {
      ModShift(start % |buffer| + i, |buffer|, start / |buffer|);
      assert start + i == start % |buffer| + i + start / |buffer| * |buffer|;
    }
  }

  /** Writing at a position past the slice but less than one lap from its start leaves the slice alone. */
  lemma SliceUntouched<T>(buffer: seq<T>, start: nat, count: nat, at: nat, x: T)
    requires start + count <= at < start + |buffer|
    ensures Slice(buffer[at % |buffer| := x], start, count) == Slice(buffer, start, count)
  {
    var a, b := Slice(buffer[at % |buffer| := x], start, count), Slice(buffer, start, count);
    forall i | 0 <= i < count ensures a[i] == b[i] {
      ModDistinct(start + i, at, |buffer|);
    }
  }

  /** Replaces the range of a buffer that starts at `at`. */
  function Overlay<T>(buffer: seq<T>, at: nat, data: seq<T>): (r: seq<T>)
    requires at + |data| <= |buffer|
    ensures |r| == |buffer|
  {
    buffer[..at] + data + buffer[at + |data|..]
  }

  lemma OverlayOneMore<T>(buffer: seq<T>, at: nat, data: seq<T>)
    requires at + |data| <= |buffer| && data != []
    ensures var n := |data| - 1;
      Overlay(buffer, at, data) == Overlay(buffer, at, data[..n])[at + n := data[n]]
  {
  }

  lemma PlaceAfter(start: nat, count: nat, k: nat, n: nat)
    requires n > 0 && (start + count) % n + k < n
    ensures (start + (count + k)) % n == (start + count) % n + k
  {
    ModStep(start + count, k, n);
    assert start + count + k == start + (count + k);
  }

  /** Copying a contiguous run behind a slice extends the slice by that run, as long as both fit one lap. */
  lemma {:induction false} SliceOverlay<T>(buffer: seq<T>, start: nat, count: nat, data: seq<T>)
    requires |buffer| > 0 && count + |data| <= |buffer|
    requires (start + count) % |buffer| + |data| <= |buffer|
    ensures Slice(Overlay(buffer, (start + count) % |buffer|, data), start, count + |data|)
         == Slice(buffer, start, count) + data
    decreases |data|
  {
    hide Overlay, Slice;
    var at := (start + count) % |buffer|;
    if data == [] {
      OverlayNone(buffer, at);
      assert Slice(buffer, start, count) + data == Slice(buffer, start, count);
    } else {
      var init, last := data[..|data| - 1], data[|data| - 1];
      SliceOverlay(buffer, start, count, init);
      PlaceAfter(start, count, |init|, |buffer|);
      SliceExtend(Overlay(buffer, at, init), start, count + |init|, last, at + |init|);
      OverlayOneMore(buffer, at, data);
      assert Slice(buffer, start, count) + init + [last] == Slice(buffer, start, count) + data;
    }
  }

  lemma OverlayNone<T>(buffer: seq<T>, at: nat)
    requires at <= |buffer|
    ensures Overlay(buffer, at, []) == buffer
  {
  }

  lemma SliceExtend<T>(buffer: seq<T>, start: nat, count: nat, x: T, at: nat)
    requires count < |buffer| && at == (start + count) % |buffer|
    ensures Slice(buffer[at := x], start, count + 1) == Slice(buffer, start, count) + [x]
  {
    SliceAppend(buffer, start, count, x);
  }

  /**
   BufferQ: a fixed-size queue over a ring; put writes at the tail, get takes at the head. Any length below the word is
   accepted, but beyond half a word the offsets, and with them the contents, can be wrong.
   */
  class BufferQ<T(0)> {
    const word: nat
    const num: nat
    var head: Pointer
    var tail: Pointer
    const buffer: array<T>
    ghost var taken: nat
    ghost var added: nat

    ghost predicate Valid()
      reads this
    {
      && 0 < num < word && buffer.Length == num
      && taken <= added <= taken + num
      && Represents(head, taken, num, word) && Represents(tail, added, num, word)
    }

    /** The queued elements, oldest first. */
    ghost function Contents(): seq<T>
      reads this, buffer
      requires Valid()
    {
      Slice(buffer[..], taken, added - taken)
    }

    constructor (num: nat, word: nat)
      requires 0 < num < word
      ensures Valid() && fresh(buffer) && this.num == num && this.word == word
      ensures Contents() == []
    {
      this.word, this.num := word, num;
      head, tail := START, START;
      taken, added := 0, 0;
      buffer := new T[num];
      new;
      StartRepresents(num, word);
    }

    method Put(x: T)
      requires Valid() && |Contents()| < num
      modifies this, buffer
      ensures Valid() && |Contents()| == |old(Contents())| + 1
      ensures 2 * num <= word ==> Contents() == old(Contents()) + [x]
    {
      if 2 * num <= word {
        OffsetIsTotalModNum(tail, added, num, word);
        SliceAppend(buffer[..], taken, added - taken, x);
      }
      IncrRepresents(tail, added, 1, num, word);
      buffer[Offset(tail, num, word)] := x;
      tail := Incr(tail, 1, num, word);
      added := added + 1;
    }

    method Get() returns (x: T)
      requires Valid() && Contents() != []
      modifies this
      ensures Valid() && |Contents()| == |old(Contents())| - 1
      ensures 2 * num <= word ==> [x] + Contents() == old(Contents())
    {
      x := buffer[Offset(head, num, word)];
      if 2 * num <= word {
        OffsetIsTotalModNum(head, taken, num, word);
        SliceSplit(buffer[..], taken, added - taken, 1);
        assert Slice(buffer[..], taken, 1) == [x];
      }
      IncrRepresents(head, taken, 1, num, word);
      head := Incr(head, 1, num, word);
      taken := taken + 1;
    }
  }
}
