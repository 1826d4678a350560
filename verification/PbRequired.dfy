/** The bitmap pb_decode_noinit (lib/nanopb-0.3.9.3/pb_decode.c) keeps of the required fields it has
    seen: two 32-bit words, bit n for the required field with index n. */
module PbRequired {
  import Bytes
  import opened Powers
  import opened PbWire
  import opened PbTypes
  import opened PbCommon
  import opened PbDecode

  const ALL_BITS: nat := 0xFFFF_FFFF

  // ----- Bits of a word -----

  predicate Bit(n: nat, j: nat)
    decreases j
  {
    if j == 0 then n % 2 == 1 else Bit(n / 2, j - 1)
  }

  lemma {:induction false} BitOrBit(a: nat, b: nat, j: nat)
    ensures Bit(BitOr(a, b), j) <==> Bit(a, j) || Bit(b, j)
    decreases j
  {
    NoBits(j);
    if j > 0 && a > 0 && b > 0 {
      BitOrBit(a / 2, b / 2, j - 1);
    }
  }

  lemma {:induction false} NoBits(j: nat)
    ensures !Bit(0, j)
    decreases j
  {
    if j > 0 {
      NoBits(j - 1);
    }
  }

  lemma {:induction false} PowBit(i: nat, j: nat)
    ensures Bit(Pow2(i), j) <==> i == j
    decreases j
  {
    if i == 0 && j > 0 {
      NoBits(j - 1);
    } else if i > 0 && j > 0 {
      PowBit(i - 1, j - 1);
    }
  }

  lemma {:induction false} OnesBit(r: nat, j: nat)
    ensures Bit(Pow2(r) - 1, j) <==> j < r
    decreases r
  {
    if r == 0 {
      NoBits(j);
    } else if j > 0 {
      assert (Pow2(r) - 1) / 2 == Pow2(r - 1) - 1;
      OnesBit(r - 1, j - 1);
    }
  }

  /** Numbers with the same bits are the same. */
  lemma {:induction false} SameBits(m: nat, n: nat)
    requires forall j: nat :: Bit(m, j) <==> Bit(n, j)
    ensures m == n
    decreases m + n
  {
    assert Bit(m, 0) <==> Bit(n, 0);
    if m + n > 0 {
      forall j: nat ensures Bit(m / 2, j) <==> Bit(n / 2, j) { assert Bit(m, j + 1) <==> Bit(n, j + 1); }
      SameBits(m / 2, n / 2);
    }
  }

  /** The bits of n are the r lowest. */
  ghost predicate LowBits(n: nat, r: nat) { forall j: nat :: Bit(n, j) <==> j < r }

  /** A number is r ones exactly if its bits say so. */
  lemma Ones(n: nat, r: nat)
    ensures n == Pow2(r) - 1 <==> LowBits(n, r)
  {
    hide Bit, Pow2;
    var p: nat := Pow2(r) - 1;
    forall j: nat ensures Bit(p, j) <==> j < r { OnesBit(r, j); }
    assert LowBits(p, r);
    if LowBits(n, r) {
      SameBits(n, p);
    }
  }

  // ----- What the words mean -----

  /** The required field with this index has been seen. */
  ghost predicate Marked(fields: seq<Field>, seen: set<nat>, index: nat) {
    exists i :: 0 <= i < |fields| && fields[i].htype.Required? && RequiredBefore(fields, i) == index && i in seen
  }

  ghost predicate MarkedBit(fields: seq<Field>, seen: set<nat>, base: nat, j: nat) { Marked(fields, seen, base + j) }

  /** A word stands for the 32 indices from base on. */
  ghost predicate Marks(word: nat, base: nat, fields: seq<Field>, seen: set<nat>) {
    forall j: nat :: Bit(word, j) <==> j < 32 && MarkedBit(fields, seen, base, j)
  }

  lemma {:induction false} RequiredOrder(fields: seq<Field>, i: nat, j: nat)
    requires i < j <= |fields|
    ensures RequiredBefore(fields, i) <= RequiredBefore(fields, j)
    ensures fields[i].htype.Required? ==> RequiredBefore(fields, i) < RequiredBefore(fields, j)
    decreases j
  {
    if i < j - 1 {
      RequiredOrder(fields, i, j - 1);
    }
  }

  /** Every index below the number of required fields belongs to one of them. */
  lemma {:induction false} RequiredAt(fields: seq<Field>, n: nat, index: nat) returns (i: nat)
    requires n <= |fields| && index < RequiredBefore(fields, n)
    ensures i < n && fields[i].htype.Required? && RequiredBefore(fields, i) == index
    decreases n
  {
    if fields[n - 1].htype.Required? && RequiredBefore(fields, n - 1) == index {
      i := n - 1;
    } else {
      i := RequiredAt(fields, n - 1, index);
    }
  }

  lemma MarkedIndex(fields: seq<Field>, seen: set<nat>, i: nat)
    requires i < |fields| && fields[i].htype.Required?
    ensures Marked(fields, seen, RequiredBefore(fields, i)) <==> i in seen
  {
    forall k | 0 <= k < |fields| && fields[k].htype.Required? && RequiredBefore(fields, k) == RequiredBefore(fields, i)
      ensures k == i
    {
      if k < i {
        RequiredOrder(fields, k, i);
      } else if i < k {
        RequiredOrder(fields, i, k);
      }
    }
  }

  /** The first 64 required fields have been seen exactly if their indices are marked. */
  lemma RequiredMarked(fields: seq<Field>, seen: set<nat>, n: nat)
    requires n == Bytes.Min(RequiredBefore(fields, |fields|), PB_MAX_REQUIRED_FIELDS)
    ensures RequiredSeen(fields, seen) <==> forall index :: 0 <= index < n ==> Marked(fields, seen, index)
  {
    hide Marked, RequiredBefore;
    if RequiredSeen(fields, seen) {
      forall index | 0 <= index < n ensures Marked(fields, seen, index) {
        var i := RequiredAt(fields, |fields|, index);
        MarkedIndex(fields, seen, i);
      }
    }
    if forall index :: 0 <= index < n ==> Marked(fields, seen, index) {
      forall i | 0 <= i < |fields| && fields[i].htype.Required? && RequiredBefore(fields, i) < PB_MAX_REQUIRED_FIELDS
        ensures i in seen
      {
        RequiredOrder(fields, i, |fields|);
        MarkedIndex(fields, seen, i);
      }
    }
  }

  lemma NoMarkBeyond(fields: seq<Field>, seen: set<nat>, index: nat)
    requires Marked(fields, seen, index)
    ensures index < RequiredBefore(fields, |fields|)
  {
    hide RequiredBefore;
    var i :| 0 <= i < |fields| && fields[i].htype.Required? && RequiredBefore(fields, i) == index && i in seen;
    RequiredOrder(fields, i, |fields|);
  }

  // ----- The code -----

  /** fields_seen, at the start. */
  lemma NothingSeen(fields: seq<Field>, base: nat)
    ensures Marks(0, base, fields, {})
  {
    forall j: nat ensures !Bit(0, j) { NoBits(j); }
  }

  /** fields_seen[index >> 5] |= 1 << (index & 31), for the required field at position i. */
  method MarkSeen(fieldsSeen: array<nat>, fields: seq<Field>, i: nat, index: nat, ghost seen: set<nat>)
    requires fieldsSeen.Length == 2 && i < |fields| && fields[i].htype.Required?
    requires index == RequiredBefore(fields, i) < PB_MAX_REQUIRED_FIELDS
    requires Marks(fieldsSeen[0], 0, fields, seen) && Marks(fieldsSeen[1], 32, fields, seen)
    modifies fieldsSeen
    ensures Marks(fieldsSeen[0], 0, fields, seen + {i}) && Marks(fieldsSeen[1], 32, fields, seen + {i})
  {
    hide Marks, Marked, BitOr, Pow2, RequiredBefore;
    WordMarked(fieldsSeen[0], 0, fields, i, seen);
    WordMarked(fieldsSeen[1], 32, fields, i, seen);
    var tmp := Pow2(index % 32);
    fieldsSeen[index / 32] := BitOr(fieldsSeen[index / 32], tmp);
  }

  lemma WordMarked(word: nat, base: nat, fields: seq<Field>, i: nat, seen: set<nat>)
    requires i < |fields| && fields[i].htype.Required? && Marks(word, base, fields, seen)
    ensures
      var index := RequiredBefore(fields, i);
      if base <= index < base + 32 then Marks(BitOr(word, Pow2(index - base)), base, fields, seen + {i})
      else Marks(word, base, fields, seen + {i})
  {
    hide BitOr, Pow2, Marked, RequiredBefore, Marks;
    var index := RequiredBefore(fields, i);
    if base <= index < base + 32 {
      BitMarked(word, base, fields, i, index - base, seen);
    } else {
      OtherWord(word, base, fields, i, seen);
    }
  }

  lemma BitMarked(word: nat, base: nat, fields: seq<Field>, i: nat, bit: nat, seen: set<nat>)
    requires i < |fields| && fields[i].htype.Required? && Marks(word, base, fields, seen)
    requires bit < 32 && RequiredBefore(fields, i) == base + bit
    ensures Marks(BitOr(word, Pow2(bit)), base, fields, seen + {i})
  {
    hide BitOr, Pow2, Marked, RequiredBefore;
    var word', seen' := BitOr(word, Pow2(bit)), seen + {i};
    forall j: nat ensures Bit(word', j) <==> j < 32 && MarkedBit(fields, seen', base, j) {
      BitOrBit(word, Pow2(bit), j);
      PowBit(bit, j);
      OneMore(fields, seen, i, base + j);
      assert Bit(word, j) <==> j < 32 && MarkedBit(fields, seen, base, j);
    }
  }

  lemma OtherWord(word: nat, base: nat, fields: seq<Field>, i: nat, seen: set<nat>)
    requires i < |fields| && fields[i].htype.Required? && Marks(word, base, fields, seen)
    requires RequiredBefore(fields, i) < base || base + 32 <= RequiredBefore(fields, i)
    ensures Marks(word, base, fields, seen + {i})
  {
    hide Marked, RequiredBefore;
    var seen' := seen + {i};
    forall j: nat ensures Bit(word, j) <==> j < 32 && MarkedBit(fields, seen', base, j) {
      OneMore(fields, seen, i, base + j);
      assert Bit(word, j) <==> j < 32 && MarkedBit(fields, seen, base, j);
    }
  }

  lemma OneMore(fields: seq<Field>, seen: set<nat>, i: nat, index: nat)
    requires i < |fields| && fields[i].htype.Required?
    ensures Marked(fields, seen + {i}, index) <==> Marked(fields, seen, index) || index == RequiredBefore(fields, i)
  {
    hide RequiredBefore;
    if Marked(fields, seen, index) {
      var k :| 0 <= k < |fields| && fields[k].htype.Required? && RequiredBefore(fields, k) == index && k in seen;
      assert k in seen + {i};
    }
    if index == RequiredBefore(fields, i) {
      assert i in seen + {i};
    }
  }

  /** A word has its first r bits, and no more, exactly if the fields they stand for are marked. */
  lemma WordFull(word: nat, base: nat, fields: seq<Field>, seen: set<nat>, r: nat)
    requires r <= 32 && Marks(word, base, fields, seen)
    requires forall j: nat :: r <= j < 32 ==> !MarkedBit(fields, seen, base, j)
    ensures word == Pow2(r) - 1 <==> forall j: nat :: j < r ==> MarkedBit(fields, seen, base, j)
  {
    hide MarkedBit, Pow2, Bit;
    Ones(word, r);
    if word == Pow2(r) - 1 {
      forall j: nat | j < r ensures MarkedBit(fields, seen, base, j) { assert Bit(word, j); }
    }
    if forall j: nat :: j < r ==> MarkedBit(fields, seen, base, j) {
      forall j: nat ensures Bit(word, j) <==> j < r {
        assert Bit(word, j) <==> j < 32 && MarkedBit(fields, seen, base, j);
      }
      assert LowBits(word, r);
    }
  }

  /** The same, for indices. */
  lemma WordChecked(word: nat, base: nat, fields: seq<Field>, seen: set<nat>, r: nat)
    requires r <= 32 && Marks(word, base, fields, seen)
    requires r == 32 || forall index :: index >= base + r ==> !Marked(fields, seen, index)
    ensures word == Pow2(r) - 1 <==> forall index :: base <= index < base + r ==> Marked(fields, seen, index)
  {
    hide Marked, Pow2, Bit, Marks;
    WordFull(word, base, fields, seen, r);
    if word == Pow2(r) - 1 {
      forall index | base <= index < base + r ensures Marked(fields, seen, index) {
        assert MarkedBit(fields, seen, base, index - base);
      }
    }
  }

  lemma AllBitsShifted(r: nat)
    requires r <= 32
    ensures ALL_BITS / Pow2(32 - r) == Pow2(r) - 1 && ALL_BITS == Pow2(32) - 1
  {
    hide Pow2;
    Pow2Large();
    Pow2Add(r, 32 - r);
    var p, q := Pow2(r), Pow2(32 - r);
    assert (p - 1) * q == p * q - q;
    ModUnique(ALL_BITS, p - 1, q - 1, q);
  }

  /** The number of required fields, found by moving the iterator to the end of the table. */
  method CountRequired(iter: FieldIter) returns (count: nat)
    requires iter.Valid()
    modifies iter
    ensures iter.Valid() && count == Bytes.Min(RequiredBefore(iter.fields, |iter.fields|), PB_MAX_REQUIRED_FIELDS)
  {
    hide DataAt, SizeAt, NonzeroTags;
    var last: nat, more := iter.pos, true;
    count := 0;
    while more
      invariant iter.Valid() && last <= |iter.fields|
      invariant !more ==> count == RequiredBefore(iter.fields, last) && |iter.fields| - 1 <= last
      decreases more, |iter.fields| - iter.pos
    {
      count := iter.requiredFieldIndex;
      last := iter.pos;
      more := iter.Next();
    }
    if last < |iter.fields| && iter.fields[last].htype.Required? {
      count := count + 1;
    }
    if count > PB_MAX_REQUIRED_FIELDS {
      count := PB_MAX_REQUIRED_FIELDS;
    }
  }

  /** The check at the end of pb_decode_noinit: whole words first, then the remaining bits. */
  method CheckRequired(fieldsSeen: array<nat>, iter: FieldIter, ghost seen: set<nat>) returns (ok: bool)
    requires fieldsSeen.Length == 2 && iter.Valid()
    requires Marks(fieldsSeen[0], 0, iter.fields, seen) && Marks(fieldsSeen[1], 32, iter.fields, seen)
    modifies iter
    ensures ok <==> RequiredSeen(iter.fields, seen)
  {
    hide Marks, Marked, Pow2, RequiredBefore, RequiredSeen, NonzeroTags, DataAt, SizeAt;
    ghost var fields := iter.fields;
    var count := CountRequired(iter);
    RequiredMarked(fields, seen, count);
    forall index | index >= count && count < PB_MAX_REQUIRED_FIELDS ensures !Marked(fields, seen, index) {
      if Marked(fields, seen, index) {
        NoMarkBeyond(fields, seen, index);
      }
    }
    AllBitsShifted(32);
    var i := 0;
    while i < count / 32
      invariant 0 <= i <= count / 32
      invariant forall index :: 0 <= index < 32 * i ==> Marked(fields, seen, index)
    {
      WordChecked(fieldsSeen[i], 32 * i, fields, seen, 32);
      if fieldsSeen[i] != ALL_BITS {
        return false;
      }
      i := i + 1;
    }
    if count % 32 != 0 {
      var r := count % 32;
      AllBitsShifted(r);
      WordChecked(fieldsSeen[count / 32], 32 * i, fields, seen, r);
      if fieldsSeen[count / 32] != ALL_BITS / Pow2(32 - r) {
        return false;
      }
    }
    ok := true;
  }
}
