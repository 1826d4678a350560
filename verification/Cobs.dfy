/** lib/cobs-c-0.5.0/cobs.c: Consistent Overhead Byte Stuffing. */
module Cobs {
  import opened Bytes

  // The specification is by blocks: a block is a code byte c, 1 <= c <= 255, followed by c - 1 nonzero
  // bytes, and stands for those bytes followed by a zero, except that a block with code 255 stands for
  // its 254 bytes alone.

  const MAX_RUN: nat := 254

  datatype EncodeFlag = EncodeNullPointer | EncodeOutBufferOverflow
  datatype DecodeFlag =
    | DecodeNullPointer
    | DecodeOutBufferOverflow
    | DecodeZeroByteInInput
    | DecodeInputTooShort

  /** The status word is a set of flags; the empty set is the OK status. */
  datatype EncodeResult = EncodeResult(outLen: nat, status: set<EncodeFlag>)
  datatype DecodeResult = DecodeResult(outLen: nat, status: set<DecodeFlag>)

  // ----- The encoding as a function -----

  /** Length of the zero-free run at the front of s, counted up to cap. */
  function RunLen(s: seq<byte>, cap: nat): (n: nat)
    ensures n <= |s| && n <= cap
    ensures ZeroFree(s[..n])
    ensures n < |s| && n < cap ==> s[n] == 0
  {
    if cap == 0 || s == [] || s[0] == 0 then 0 else 1 + RunLen(s[1..], cap - 1)
  }

  /** The COBS encoding of s. */
  function Enc(s: seq<byte>): (x: seq<byte>)
    ensures |x| >= 1
    decreases |s|
  {
    var n := RunLen(s, MAX_RUN);
    if n == |s| then [(n + 1) as byte] + s
    else if n == MAX_RUN then [255] + s[..n] + Enc(s[n..])
    else [(n + 1) as byte] + s[..n] + Enc(s[n + 1..])
  }

  /** The zero a block stands for when another block follows. */
  function Gap(run: seq<byte>): seq<byte> { if |run| == MAX_RUN then [] else [0] }

  /** x is a concatenation of complete blocks. */
  predicate Blocks(x: seq<byte>)
    decreases |x|
  {
    x == [] || (1 <= x[0] as int <= |x| && ZeroFree(x[1..x[0] as int]) && Blocks(x[x[0] as int..]))
  }

  /** What the blocks of x stand for when another block follows them. */
  function Open(x: seq<byte>): seq<byte>
    requires Blocks(x)
    decreases |x|
  {
    if x == [] then [] else x[1..x[0] as int] + (if x[0] == 255 then [] else [0]) + Open(x[x[0] as int..])
  }

  /** What the blocks of x stand for when x is the whole input: no zero after the last block. */
  function Close(x: seq<byte>): (s: seq<byte>)
    requires Blocks(x)
    ensures |s| <= if x == [] then 0 else |x| - 1
    decreases |x|
  {
    if x == [] then []
    else if x[0] as int == |x| then x[1..]
    else x[1..x[0] as int] + (if x[0] == 255 then [] else [0]) + Close(x[x[0] as int..])
  }

  /** x is complete blocks that stand for s. */
  predicate StandsFor(x: seq<byte>, s: seq<byte>) { Blocks(x) && Close(x) == s }

  /** x consists of complete blocks, the last two being a full 255 block and a lone 1. */
  predicate EndsFullThenOne(x: seq<byte>)
    requires Blocks(x)
    decreases |x|
  {
    x != [] && x[0] as int < |x| &&
    if x[0] == 255 && |x| == 256 then x[255] == 1 else EndsFullThenOne(x[x[0] as int..])
  }

  /** Splits of a run of nonzero bytes: run is the length of the run read so far. */
  function Splits(s: seq<byte>, run: nat): nat
  {
    if s == [] then 0
    else if s[0] == 0 then Splits(s[1..], 0)
    else if run + 1 == MAX_RUN && |s| > 1 then 1 + Splits(s[1..], 0)
    else Splits(s[1..], run + 1)
  }

  // ----- Facts about runs and blocks -----

  lemma {:induction false} RunLenUnique(s: seq<byte>, cap: nat, n: nat)
    requires n <= |s| && n <= cap && ZeroFree(s[..n])
    requires n == |s| || n == cap || s[n] == 0
    ensures RunLen(s, cap) == n
  {
    if n > 0 {
      assert s[0] == s[..n][0];
      assert s[1..][..n - 1] == s[..n][1..];
      RunLenUnique(s[1..], cap - 1, n - 1);
    }
  }

  lemma EncRun(run: seq<byte>)
    requires ZeroFree(run) && |run| <= MAX_RUN
    ensures Enc(run) == [(|run| + 1) as byte] + run
  {
    assert run[..|run|] == run;
    RunLenUnique(run, MAX_RUN, |run|);
  }

  /** The bytes of the block for run, as they stand before y. */
  function Block(run: seq<byte>, y: seq<byte>): seq<byte>
    requires |run| <= MAX_RUN
  {
    [(|run| + 1) as byte] + run + y
  }

  /** What one block in front of blocks adds. */
  lemma BlockFront(run: seq<byte>, y: seq<byte>)
    requires ZeroFree(run) && |run| <= MAX_RUN && Blocks(y)
    ensures Blocks(Block(run, y))
    ensures Open(Block(run, y)) == run + Gap(run) + Open(y)
    ensures Close(Block(run, y)) == if y == [] then run else run + Gap(run) + Close(y)
    ensures EndsFullThenOne(Block(run, y)) ==
      (y != [] && if |run| == MAX_RUN && |y| == 1 then y[0] == 1 else EndsFullThenOne(y))
  {
    var x := Block(run, y);
    assert x[1..x[0] as int] == run && x[x[0] as int..] == y;
    if y == [] {
      assert x[1..] == run;
    }
  }

  lemma BlockSplit(x: seq<byte>) returns (run: seq<byte>, y: seq<byte>)
    requires Blocks(x) && x != []
    ensures ZeroFree(run) && |run| <= MAX_RUN && Blocks(y) && x == Block(run, y)
    ensures |y| < |x|
  {
    run, y := x[1..x[0] as int], x[x[0] as int..];
  }

  lemma BlockAppend(run: seq<byte>, b: seq<byte>, y: seq<byte>)
    requires |run| <= MAX_RUN
    ensures Block(run, b) + y == Block(run, b + y)
  {
  }

  lemma NoBlocks()
    ensures Blocks([]) && Open([]) == [] && Close([]) == []
  {
  }

  lemma {:induction false} BlocksAppend(a: seq<byte>, y: seq<byte>)
    requires Blocks(a) && Blocks(y)
    ensures Blocks(a + y)
    ensures Open(a + y) == Open(a) + Open(y)
    ensures y != [] ==> Close(a + y) == Open(a) + Close(y)
    decreases |a|
  {
    hide *;
    NoBlocks();
    NoBytes(y);
    if a == [] {
      NoBytes(Open(y));
      NoBytes(Close(y));
    } else {
      var run, b := BlockSplit(a);
      BlocksAppend(b, y);
      BlockAppend(run, b, y);
      BlockFront(run, b);
      BlockFront(run, b + y);
      var front := run + Gap(run);
      Assoc(front, Open(b), Open(y));
      Assoc(front, Open(b), Close(y));
      NoBytes(front);
    }
  }

  /** The encoding of a source that starts with the bytes of a block and goes on. */
  lemma EncBlock(run: seq<byte>, t: seq<byte>)
    requires ZeroFree(run) && |run| <= MAX_RUN
    requires |run| == MAX_RUN ==> t != []
    ensures Enc(run + Gap(run) + t) == Block(run, Enc(t))
  {
    var s := run + Gap(run) + t;
    assert s[..|run|] == run && s[|run| + |Gap(run)|..] == t;
    RunLenUnique(s, MAX_RUN, |run|);
  }

  /** The blocks already written determine how the source read so far is encoded, as soon as
      more source follows. */
  lemma {:induction false} EncOpen(a: seq<byte>, t: seq<byte>)
    requires Blocks(a) && t != []
    ensures Enc(Open(a) + t) == a + Enc(t)
    decreases |a|
  {
    hide *;
    NoBlocks();
    if a == [] {
      NoBytes(t);
      NoBytes(Enc(t));
    } else {
      var run, b := BlockSplit(a);
      EncOpen(b, t);
      BlockFront(run, b);
      EncBlock(run, Open(b) + t);
      Assoc(run + Gap(run), Open(b), t);
      BlockAppend(run, b, Enc(t));
    }
  }

  // ----- Main results about the encoding -----

  /** The first block of an encoding. */
  lemma EncSplit(s: seq<byte>) returns (run: seq<byte>, t: seq<byte>)
    ensures ZeroFree(run) && |run| <= MAX_RUN
    ensures
      || (s == run && Enc(s) == Block(run, []))
      || (s == run + Gap(run) + t && Enc(s) == Block(run, Enc(t)) && |t| < |s| && (|run| == MAX_RUN ==> t != []))
  {
    var n := RunLen(s, MAX_RUN);
    run := s[..n];
    if n == |s| {
      t := [];
      assert s == run;
    } else {
      t := if n == MAX_RUN then s[n..] else s[n + 1..];
      assert s == run + Gap(run) + t;
      EncBlock(run, t);
    }
  }

  /** Round trip on the specification: an encoding is zero-free blocks that stand for s. */
  lemma {:induction false} EncRoundTrip(s: seq<byte>)
    ensures StandsFor(Enc(s), s) && ZeroFree(Enc(s))
    ensures !EndsFullThenOne(Enc(s))
    decreases |s|
  {
    hide Blocks, Close, Enc, EndsFullThenOne;
    var run, t := EncSplit(s);
    if s == run && Enc(s) == Block(run, []) {
      NoBlocks();
      BlockFront(run, []);
    } else {
      EncRoundTrip(t);
      BlockFront(run, Enc(t));
      if |Enc(t)| == 1 && Enc(t)[0] == 1 {
        assert Enc(t) == [1];
        LoneOne();
      }
    }
  }

  lemma LoneOne()
    ensures Blocks([1]) && Close([1]) == [] && Enc([]) == [1] && !EndsFullThenOne([1])
  {
    assert Block([], []) == [1];
    BlockFront([], []);
    EncRun([]);
  }

  /** Canonical form: re-encoding what complete blocks stand for gives them back, except for a
      lone 1 after a final full block, which is dropped. */
  lemma {:induction false} CanonicalForm(x: seq<byte>)
    requires Blocks(x) && x != []
    ensures Enc(Close(x)) == if EndsFullThenOne(x) then x[..|x| - 1] else x
    decreases |x|
  {
    hide Blocks, Close, Enc, EndsFullThenOne;
    var run, b := BlockSplit(x);
    BlockFront(run, b);
    if b == [] {
      EncRun(run);
      assert Block(run, []) == [(|run| + 1) as byte] + run;
    } else {
      CanonicalForm(b);
      assert x[..|x| - 1] == Block(run, b[..|b| - 1]);
      if |run| == MAX_RUN && Close(b) == [] {
        CloseEmpty(b);
        EncRun(run);
        assert run + Gap(run) + Close(b) == run;
      } else {
        EncBlock(run, Close(b));
        if |b| == 1 && b[0] == 1 {
          assert b == [1];
          LoneOne();
        }
        if |b| == 1 { OneByte(b); }
      }
    }
  }

  lemma OneByte(b: seq<byte>)
    requires Blocks(b) && |b| == 1
    ensures b == [1]
  {
  }

  lemma CloseEmpty(b: seq<byte>)
    requires Blocks(b) && b != [] && Close(b) == []
    ensures b == [1]
  {
    if b[0] as int == |b| {
      assert |b[1..]| == 0;
    }
  }

  /** The image of the encoder, and with it injectivity: s is determined by its encoding, and a
      byte string is some encoding exactly if it is nonempty, decodable and in canonical form. */
  lemma Image(x: seq<byte>)
    ensures (exists s :: Enc(s) == x) <==> x != [] && Blocks(x) && !EndsFullThenOne(x)
  {
    if s :| Enc(s) == x {
      EncRoundTrip(s);
    }
    if x != [] && Blocks(x) && !EndsFullThenOne(x) {
      CanonicalForm(x);
      assert Enc(Close(x)) == x;
    }
  }

  lemma EncInjective(s: seq<byte>, t: seq<byte>)
    requires Enc(s) == Enc(t)
    ensures s == t
  {
    EncRoundTrip(s);
    EncRoundTrip(t);
  }

  /** The size of the encoding: one byte plus one per split of a long run. */
  lemma {:induction false} EncSize(run: seq<byte>, s: seq<byte>)
    requires ZeroFree(run) && |run| < MAX_RUN
    ensures |Enc(run + s)| == |run| + |s| + 1 + Splits(s, |run|)
    decreases |s|
  {
    hide Enc;
    if s == [] {
      assert run + s == run;
      EncRun(run);
    } else if s[0] == 0 {
      EncSize([], s[1..]);
      assert [] + s[1..] == s[1..];
      assert run + s == run + Gap(run) + s[1..];
      EncBlock(run, s[1..]);
    } else {
      var run' := run + [s[0]];
      assert run + s == run' + s[1..];
      if |run'| < MAX_RUN {
        EncSize(run', s[1..]);
      } else if |s| > 1 {
        EncSize([], s[1..]);
        assert [] + s[1..] == s[1..];
        assert run + s == run' + Gap(run') + s[1..];
        EncBlock(run', s[1..]);
      } else {
        assert run' + s[1..] == run';
        EncRun(run');
      }
    }
  }

  lemma {:induction false} SplitsBound(s: seq<byte>, run: nat)
    requires run < MAX_RUN && s != []
    ensures MAX_RUN * Splits(s, run) <= run + |s| - 1
    ensures ZeroFree(s) ==> Splits(s, run) == (run + |s| - 1) / MAX_RUN
    decreases |s|
  {
    if |s| == 1 {
      assert s[1..] == [];
    } else {
      assert ZeroFree(s) ==> ZeroFree(s[1..]) by {
        if ZeroFree(s) {
          forall i | 0 <= i < |s[1..]| ensures s[1..][i] != 0 { assert s[1..][i] == s[i + 1]; }
        }
      }
      if s[0] == 0 {
        SplitsBound(s[1..], 0);
      } else if run + 1 == MAX_RUN {
        SplitsBound(s[1..], 0);
      } else {
        SplitsBound(s[1..], run + 1);
      }
    }
  }

  /** COBS_ENCODE_DST_BUF_LEN_MAX. */
  function EncodeDstBufLenMax(srcLen: nat): nat { srcLen + (srcLen + 253) / 254 }

  /** The header's worst case holds for every nonempty source, is reached by those with as many splits
      as their length allows, zero-free ones among them, and is one byte short for the empty source. */
  lemma EncodeMaxIsTight(s: seq<byte>)
    ensures s != [] ==> |Enc(s)| <= EncodeDstBufLenMax(|s|)
    ensures s != [] ==> (|Enc(s)| == EncodeDstBufLenMax(|s|) <==> Splits(s, 0) == (|s| - 1) / MAX_RUN)
    ensures s != [] && ZeroFree(s) ==> |Enc(s)| == EncodeDstBufLenMax(|s|)
    ensures s == [] ==> |Enc(s)| == EncodeDstBufLenMax(|s|) + 1
    ensures |Enc(s)| == |s| + 1 + Splits(s, 0)
  {
    assert [] + s == s;
    EncSize([], s);
    if s != [] {
      SplitsBound(s, 0);
    }
  }

  /** Encoding a longer prefix of the same source takes strictly more room. */
  lemma {:induction false} SplitsPrefix(s: seq<byte>, k: nat, run: nat)
    requires k <= |s| && run < MAX_RUN
    ensures Splits(s[..k], run) <= Splits(s, run)
    decreases |s|
  {
    if k > 0 {
      assert s[..k][1..] == s[1..][..k - 1];
      if s[0] == 0 || (run + 1 == MAX_RUN && |s| > 1) {
        SplitsPrefix(s[1..], k - 1, 0);
        if s[0] != 0 && k == 1 {
          assert s[..k][1..] == [];
        }
      } else if run + 1 < MAX_RUN {
        SplitsPrefix(s[1..], k - 1, run + 1);
      } else {
        assert |s| == 1 && s[..k] == s;
      }
    }
  }

  lemma EncPrefixShorter(s: seq<byte>, k: nat)
    requires k <= |s|
    ensures |Enc(s[..k])| - k <= |Enc(s)| - |s|
  {
    EncodeMaxIsTight(s);
    EncodeMaxIsTight(s[..k]);
    SplitsPrefix(s, k, 0);
  }

  // ----- The encoder loop -----

  /** The state of the encoder's loop: the blocks written so far and the bytes copied since the
      last code position stand for the source read so far. */
  ghost predicate Reading(taken: seq<byte>, done: seq<byte>, run: seq<byte>) {
    Blocks(done) && ZeroFree(run) && |run| <= MAX_RUN && Open(done) + run == taken
  }

  lemma StartReading()
    ensures Reading([], [], []) && Enc([]) == [1]
  {
    NoBlocks();
    LoneOne();
  }

  lemma ReadZero(taken: seq<byte>, done: seq<byte>, run: seq<byte>)
    requires Reading(taken, done, run) && |run| < MAX_RUN
    ensures Reading(taken + [0], done + Block(run, []), [])
    ensures Enc(taken + [0]) == done + Block(run, []) + [1]
  {
    hide Blocks, Open, Enc, Close;
    NoBlocks();
    BlockFront(run, []);
    BlocksAppend(done, Block(run, []));
    assert taken + [0] == Open(done) + (run + Gap(run) + []);
    EncOpen(done, run + Gap(run) + []);
    EncBlock(run, []);
    LoneOne();
    BlockAppend(run, [], [1]);
  }

  lemma ReadNonzero(taken: seq<byte>, b: byte, done: seq<byte>, run: seq<byte>)
    requires Reading(taken, done, run) && |run| < MAX_RUN && b != 0
    ensures Reading(taken + [b], done, run + [b])
    ensures Enc(taken + [b]) == done + Block(run + [b], [])
  {
    hide Blocks, Open, Enc, Close;
    assert taken + [b] == Open(done) + (run + [b]);
    EncOpen(done, run + [b]);
    EncRun(run + [b]);
    assert Block(run + [b], []) == [(|run| + 2) as byte] + (run + [b]);
  }

  lemma SplitRun(taken: seq<byte>, done: seq<byte>, run: seq<byte>)
    requires Reading(taken, done, run) && |run| == MAX_RUN
    ensures Reading(taken, done + Block(run, []), [])
    ensures StandsFor(done + Block(run, []), taken)
  {
    hide Blocks, Open, Enc, Close;
    NoBlocks();
    BlockFront(run, []);
    BlocksAppend(done, Block(run, []));
    assert run + Gap(run) + [] == run;
  }

  /** The bytes written when the buffer runs out: they stand for the source read so far, and one
      more source byte would not have fitted. */
  lemma RunsOut(taken: seq<byte>, b: byte, done: seq<byte>, run: seq<byte>)
    requires Reading(taken, done, run) && |run| < MAX_RUN
    ensures StandsFor(done + Block(run, []), taken)
    ensures |Enc(taken)| <= |done| + |run| + 1
    ensures |Enc(taken + [b])| == |done| + |run| + 2
  {
    hide Blocks, Open, Enc, Close, EndsFullThenOne;
    NoBlocks();
    BlockFront(run, []);
    BlocksAppend(done, Block(run, []));
    CanonicalForm(done + Block(run, []));
    if b == 0 {
      ReadZero(taken, done, run);
    } else {
      ReadNonzero(taken, b, done, run);
    }
  }

  /** The elements of a from position at on are those of s. */
  ghost predicate Holds(a: array<byte>, at: nat, s: seq<byte>)
    requires at + |s| <= a.Length
    reads a
  {
    forall i :: 0 <= i < |s| ==> a[at + i] == s[i]
  }

  /** Where the encoder's loop stands: the next code byte goes to code, the next data byte to
      write, and searchLen is the code byte so far. */
  datatype Cursor = Cursor(code: nat, write: nat, searchLen: byte, srcByte: byte)

  /** The buffer positions of a cursor over the blocks done and the open run. Splitting a full run
      at the very end of the buffer leaves the code position just past it. */
  ghost predicate At(c: Cursor, dst: array<byte>, dstLen: nat, done: seq<byte>, run: seq<byte>)
    requires dstLen <= dst.Length
    reads dst
  {
    && c.code == |done| && c.write == c.code + 1 + |run| && c.searchLen as int == |run| + 1
    && (c.code < dstLen ==> c.write <= dstLen && Holds(dst, 0, done) && Holds(dst, c.code + 1, run))
    && (c.code >= dstLen > 0 ==> c.code == dstLen && Holds(dst, 0, done) && run == [])
    && (dstLen == 0 ==> done == [] && run == [])
  }

  /** Writing the code byte completes the open block. */
  method PatchCode(dst: array<byte>, code: nat, searchLen: byte, ghost done: seq<byte>, ghost run: seq<byte>)
    requires code == |done| && searchLen as int == |run| + 1 && code + 1 + |run| <= dst.Length
    requires Holds(dst, 0, done) && Holds(dst, code + 1, run)
    modifies dst
    ensures Holds(dst, 0, done + Block(run, []))
    ensures forall i :: code + 1 + |run| <= i < dst.Length ==> dst[i] == old(dst[i])
  {
    dst[code] := searchLen;
  }

  /** The loop over the source bytes, which cobs_encode and cobsr_encode share word for word. */
  method EncodeLoop(dst: array<byte>, dstLen: nat, src: array<byte>, srcLen: nat)
    returns (c: Cursor, overflow: bool, ghost s: seq<byte>, ghost read: nat, ghost done: seq<byte>,
      ghost run: seq<byte>)
    requires dstLen <= dst.Length && srcLen <= src.Length && dst != src
    modifies dst
    ensures s == src[..srcLen] && src[..] == old(src[..])
    ensures read <= srcLen && Reading(s[..read], done, run) && |run| <= MAX_RUN
    ensures At(c, dst, dstLen, done, run)
    ensures c.srcByte == if read == 0 then 0 else s[read - 1]
    ensures run == [] && c.srcByte != 0 ==> done != [] && StandsFor(done, s[..read])
    ensures c.code >= dstLen > 0 ==> run == [] && c.srcByte != 0
    ensures forall i :: Min(c.write, dstLen) <= i < dst.Length ==> dst[i] == old(dst[i])
    ensures !overflow ==> Enc(s) == done + Block(run, []) && read == srcLen
    ensures !overflow ==> c.code < dstLen || srcLen == 0
    ensures !overflow ==> run == [] ==> c.srcByte == 0
    ensures overflow ==> c.write >= dstLen && read < srcLen && |run| < MAX_RUN
  {
    hide Blocks, Open, Close, Enc, Reading, StandsFor;
    s := src[..srcLen];
    var read', code, write := 0, 0, 1;
    var srcByte: byte, searchLen: byte := 0, 1;
    overflow := false;
    done, run := [], [];
    StartReading();
    assert s[..0] == [] && Block([], []) == [1];
    if srcLen != 0 {
      while true
        invariant !overflow && read' < srcLen
        invariant Reading(s[..read'], done, run) && |run| < MAX_RUN
        invariant searchLen as int == |run| + 1
        invariant At(Cursor(code, write, searchLen, srcByte), dst, dstLen, done, run)
        invariant srcByte == if read' == 0 then 0 else s[read' - 1]
        invariant run == [] && srcByte != 0 ==> done != [] && StandsFor(done, s[..read'])
        invariant code >= dstLen > 0 ==> srcByte != 0
        invariant forall i :: Min(write, dstLen) <= i < dst.Length ==> dst[i] == old(dst[i])
        decreases srcLen - read'
      {
        if write >= dstLen {
          overflow := true;
          break;
        }
        srcByte := src[read'];
        assert s[..read' + 1] == s[..read'] + [srcByte];
        if srcByte == 0 {
          ReadZero(s[..read'], done, run);
          read' := read' + 1;
          PatchCode(dst, code, searchLen, done, run);
          done, run := done + Block(run, []), [];
          code, write := write, write + 1;
          searchLen := 1;
          if read' >= srcLen {
            break;
          }
        } else {
          ReadNonzero(s[..read'], srcByte, done, run);
          read' := read' + 1;
          dst[write] := srcByte;
          write := write + 1;
          run := run + [srcByte];
          searchLen := searchLen + 1;
          assert Holds(dst, code + 1, run);
          if read' >= srcLen {
            break;
          }
          if searchLen == 0xFF {
            SplitRun(s[..read'], done, run);
            PatchCode(dst, code, searchLen, done, run);
            done, run := done + Block(run, []), [];
            code, write := write, write + 1;
            searchLen := 1;
          }
        }
      }
    }
    assert s[..srcLen] == s;
    read := read';
    c := Cursor(code, write, searchLen, srcByte);
  }

  /** The final code byte. */
  lemma Overflowed(s: seq<byte>, read: nat, done: seq<byte>, run: seq<byte>, room: nat)
    requires read < |s| && Reading(s[..read], done, run) && |run| < MAX_RUN
    requires |done| + 1 + |run| >= room
    ensures |Enc(s)| > room && |Enc(s[..read + 1])| > room
    ensures StandsFor(done + Block(run, []), s[..read])
    ensures |Enc(s[..read])| <= |done| + |run| + 1
    ensures done != [] && StandsFor(done, s[..read]) ==> |Enc(s[..read])| <= |done|
  {
    hide Blocks, Open, Close, Enc, EndsFullThenOne;
    RunsOut(s[..read], s[read], done, run);
    assert s[..read + 1] == s[..read] + [s[read]];
    EncPrefixShorter(s, read + 1);
    if done != [] {
      CanonicalForm(done);
    }
  }

  /** What an encoder call promises: out is what it wrote for source s with room bytes of space. */
  ghost predicate Encoded(s: seq<byte>, room: nat, result: EncodeResult, out: seq<byte>, used: nat) {
    && result.status == (if |Enc(s)| <= room then {} else {EncodeOutBufferOverflow})
    && (|Enc(s)| <= room ==> used == |s| && out == Enc(s))
    && (|Enc(s)| > room ==>
        && |out| == room && used <= |s|
        && StandsFor(out, s[..used])
        && (room > 0 ==> used < |s| && |Enc(s[..used])| <= room < |Enc(s[..used + 1])|))
  }

  /** cobs_encode. With room for the whole encoding it writes exactly that; otherwise it fills the
      buffer with blocks that stand for the longest prefix of the source that fits, of length
      used. Nothing is written from result.outLen on. */
  method CobsEncode(dst: array?<byte>, dstLen: nat, src: array?<byte>, srcLen: nat)
    returns (result: EncodeResult, ghost used: nat)
    requires dst != null ==> dstLen <= dst.Length && dst != src
    requires src != null ==> srcLen <= src.Length
    modifies dst
    ensures dst == null || src == null ==>
      && result == EncodeResult(0, {EncodeNullPointer})
      && (dst != null ==> dst[..] == old(dst[..]))
    ensures dst != null && src != null ==>
      && result.outLen <= dstLen
      && (forall i :: result.outLen <= i < dst.Length ==> dst[i] == old(dst[i]))
      && Encoded(src[..srcLen], dstLen, result, dst[..result.outLen], used)
  {
    hide Blocks, Open, Close, Enc;
    if dst == null || src == null {
      return EncodeResult(0, {EncodeNullPointer}), 0;
    }
    var status: set<EncodeFlag> := {};
    var c, overflow;
    ghost var s, done, run;
    c, overflow, s, used, done, run := EncodeLoop(dst, dstLen, src, srcLen);
    var write := c.write;
    if overflow {
      status := {EncodeOutBufferOverflow};
      Overflowed(s, used, done, run, dstLen);
    }
    NoBlocks();
    LoneOne();
    if c.code >= dstLen {
      status := status + {EncodeOutBufferOverflow};
      assert status == {EncodeOutBufferOverflow};
      write := dstLen;
      assert dst[..write] == done;
    } else {
      PatchCode(dst, c.code, c.searchLen, done, run);
      assert dst[..write] == done + Block(run, []);
    }
    result := EncodeResult(write, status);
  }

  // ----- The decoder -----

  /** Output and status of a decoder call. */
  datatype Decoding = Decoding(out: seq<byte>, status: set<DecodeFlag>)

  function Flag(on: bool, f: DecodeFlag): set<DecodeFlag> { if on then {f} else {} }

  /** How many data bytes one turn of the decoder's loop copies: as many as the code byte wants,
      the input has and the output has room for. */
  function TurnLen(x: seq<byte>, room: nat): (n: nat)
    requires x != [] && x[0] != 0
    ensures n < |x| && n <= room && n <= MAX_RUN
  {
    Min(Min(x[0] as int - 1, |x| - 1), room)
  }

  /** The flags that turn raises. */
  function TurnStatus(x: seq<byte>, room: nat): set<DecodeFlag>
    requires x != [] && x[0] != 0
  {
    Flag(x[0] as int - 1 > |x| - 1, DecodeInputTooShort) +
    Flag(Min(x[0] as int - 1, |x| - 1) > room, DecodeOutBufferOverflow) +
    Flag(!ZeroFree(x[1..TurnLen(x, room) + 1]), DecodeZeroByteInInput)
  }

  /** What cobs_decode makes of the input from a code byte on, with room bytes left to write. */
  function DecodeFrom(x: seq<byte>, room: nat): (d: Decoding)
    ensures |d.out| <= room
    decreases |x|
  {
    if x == [] then Decoding([], {})
    else if x[0] == 0 then Decoding([], {DecodeZeroByteInInput})
    else
      var n, status := TurnLen(x, room), TurnStatus(x, room);
      var run := x[1..n + 1];
      if n + 1 == |x| then Decoding(run, status)
      else if n < MAX_RUN && n == room then Decoding(run, status + {DecodeOutBufferOverflow})
      else
        var d := DecodeFrom(x[n + 1..], room - n - |Gap(run)|);
        Decoding(run + Gap(run) + d.out, status + d.status)
  }

  /** Decoding a complete block in front of y. */
  lemma DecodeBlock(run: seq<byte>, y: seq<byte>, room: nat)
    requires ZeroFree(run) && |run| <= MAX_RUN
    ensures DecodeFrom(Block(run, y), room) ==
      if |run| > room then Decoding(run[..room], {DecodeOutBufferOverflow})
      else if y == [] then Decoding(run, {})
      else if |run| + |Gap(run)| > room then Decoding(run, {DecodeOutBufferOverflow})
      else
        var d := DecodeFrom(y, room - |run| - |Gap(run)|);
        Decoding(run + Gap(run) + d.out, d.status)
  {
    var x := Block(run, y);
    hide TurnLen, TurnStatus;
    BlockTurn(run, y, room);
    if y == [] {
      NoBytes(run);
    }
  }

  lemma BlockTurn(run: seq<byte>, y: seq<byte>, room: nat)
    requires ZeroFree(run) && |run| <= MAX_RUN
    ensures TurnLen(Block(run, y), room) == Min(|run|, room)
    ensures TurnStatus(Block(run, y), room) == Flag(|run| > room, DecodeOutBufferOverflow)
    ensures Block(run, y)[1..Min(|run|, room) + 1] == run[..Min(|run|, room)]
    ensures |run| <= room ==> Block(run, y)[1..|run| + 1] == run && Block(run, y)[|run| + 1..] == y
  {
    var n := Min(|run|, room);
    assert Block(run, y)[1..n + 1] == run[..n];
  }

  lemma OkFirstBlock(x: seq<byte>, room: nat) returns (run: seq<byte>, y: seq<byte>)
    requires x != [] && DecodeFrom(x, room).status == {}
    ensures ZeroFree(run) && |run| <= MAX_RUN && x == Block(run, y) && |y| < |x|
  {
    assert x[0] != 0;
    assert TurnStatus(x, room) <= DecodeFrom(x, room).status;
    hide DecodeFrom;
    assert DecodeInputTooShort !in TurnStatus(x, room);
    assert DecodeOutBufferOverflow !in TurnStatus(x, room);
    assert DecodeZeroByteInInput !in TurnStatus(x, room);
    run, y := x[1..x[0] as int], x[x[0] as int..];
  }

  /** Only complete blocks are decoded without a flag. */
  lemma {:induction false} DecodeOkOnlyBlocks(x: seq<byte>, room: nat)
    requires DecodeFrom(x, room).status == {}
    ensures Blocks(x)
    decreases |x|
  {
    hide *;
    NoBlocks();
    if x != [] {
      var run, y := OkFirstBlock(x, room);
      DecodeBlock(run, y, room);
      if y != [] {
        DecodeOkOnlyBlocks(y, room - |run| - |Gap(run)|);
      }
      BlockFront(run, y);
    }
  }

  /** Decoding complete blocks: their meaning if it fits, else an overflow flag, a full buffer and
      a prefix of the meaning. */
  lemma {:induction false} DecodeBlocks(x: seq<byte>, room: nat)
    requires Blocks(x)
    ensures DecodeFrom(x, room) ==
      if |Close(x)| <= room then Decoding(Close(x), {})
      else Decoding(Close(x)[..room], {DecodeOutBufferOverflow})
    decreases |x|
  {
    hide Blocks, Close, DecodeFrom, Block;
    if x == [] {
      NoBlocks();
      DecodeNothing(room);
    } else {
      var run, y := BlockSplit(x);
      BlockFront(run, y);
      DecodeBlock(run, y, room);
      if y != [] {
        var front := run + Gap(run);
        if |front| <= room {
          DecodeBlocks(y, room - |front|);
          if |front + Close(y)| > room {
            assert (front + Close(y))[..room] == front + Close(y)[..room - |front|];
          }
        } else if |run| > room {
          assert (front + Close(y))[..room] == run[..room];
        } else {
          assert (front + Close(y))[..room] == run;
        }
      }
    }
  }

  /** The decoder reports OK exactly for complete blocks whose meaning fits. */
  lemma DecodeOk(x: seq<byte>, room: nat)
    ensures DecodeFrom(x, room).status == {} <==> Blocks(x) && |Close(x)| <= room
  {
    if DecodeFrom(x, room).status == {} {
      DecodeOkOnlyBlocks(x, room);
    }
    if Blocks(x) {
      DecodeBlocks(x, room);
    }
  }

  /** COBS_DECODE_DST_BUF_LEN_MAX. */
  function DecodeDstBufLenMax(srcLen: nat): nat { if srcLen == 0 then 0 else srcLen - 1 }

  /** No input at all, valid or not, overflows a buffer of the size the header gives. */
  lemma {:induction false} DecodeMaxSuffices(x: seq<byte>, room: nat)
    requires room >= DecodeDstBufLenMax(|x|)
    ensures DecodeOutBufferOverflow !in DecodeFrom(x, room).status
    decreases |x|
  {
    if x != [] && x[0] != 0 {
      var n := TurnLen(x, room);
      assert n == Min(x[0] as int - 1, |x| - 1) && DecodeOutBufferOverflow !in TurnStatus(x, room);
      hide TurnLen, TurnStatus;
      if n + 1 < |x| {
        DecodeMaxSuffices(x[n + 1..], room - n - |Gap(x[1..n + 1])|);
      }
    }
  }

  /** Every encoding decodes to its source, in any buffer that holds the source. */
  lemma RoundTrip(s: seq<byte>, room: nat)
    requires room >= |s|
    ensures DecodeFrom(Enc(s), room) == Decoding(s, {})
  {
    EncRoundTrip(s);
    DecodeBlocks(Enc(s), room);
  }

  /** Decoding the rest of the input completes what has been written. */
  ghost predicate Progress(rest: seq<byte>, out: seq<byte>, status: set<DecodeFlag>, room: nat, all: Decoding) {
    var d := DecodeFrom(rest, room);
    all == Decoding(out + d.out, status + d.status)
  }

  /** One turn of the decoder's loop: n data bytes after the code byte, flags raised, then the
      end of the input, a full output buffer, or the next code byte. */
  lemma DecodeTurn(rest: seq<byte>, out: seq<byte>, status: set<DecodeFlag>, room: nat, all: Decoding)
    requires rest != [] && rest[0] != 0 && Progress(rest, out, status, room, all)
    ensures
      var n, status' := TurnLen(rest, room), status + TurnStatus(rest, room);
      var out' := out + rest[1..n + 1];
      if n + 1 == |rest| then all == Decoding(out', status')
      else if n < MAX_RUN && n == room then all == Decoding(out', status' + {DecodeOutBufferOverflow})
      else
        var gap := Gap(rest[1..n + 1]);
        Progress(rest[n + 1..], out' + gap, status', room - n - |gap|, all)
  {
    var n, raised := TurnLen(rest, room), TurnStatus(rest, room);
    var run := rest[1..n + 1];
    DecodeUnfold(rest, room);
    hide TurnLen, TurnStatus, DecodeFrom, Gap;
    Assoc(out, run, Gap(run));
    if n + 1 < |rest| && (n == MAX_RUN || n < room) {
      var d := DecodeFrom(rest[n + 1..], room - n - |Gap(run)|);
      Assoc(out, run + Gap(run), d.out);
      SetAssoc(status, raised, d.status);
    } else {
      SetAssoc(status, raised, {DecodeOutBufferOverflow});
    }
  }

  lemma DecodeUnfold(x: seq<byte>, room: nat)
    requires x != [] && x[0] != 0
    ensures
      var n, status := TurnLen(x, room), TurnStatus(x, room);
      var run := x[1..n + 1];
      && (n + 1 < |x| && (n == MAX_RUN || n < room) ==> n + |Gap(run)| <= room)
      && DecodeFrom(x, room) ==
        if n + 1 == |x| then Decoding(run, status)
        else if n < MAX_RUN && n == room then Decoding(run, status + {DecodeOutBufferOverflow})
        else
          var d := DecodeFrom(x[n + 1..], room - n - |Gap(run)|);
          Decoding(run + Gap(run) + d.out, status + d.status)
  {
  }

  /** The copying loop of one block; zero tells whether a zero byte was copied. */
  method CopyRun(dst: array<byte>, write: nat, src: array<byte>, read: nat, n: nat) returns (zero: bool)
    requires write + n <= dst.Length && read + n <= src.Length
    requires dst == src ==> write <= read
    modifies dst
    ensures dst[write..write + n] == old(src[read..read + n])
    ensures forall i :: 0 <= i < dst.Length && !(write <= i < write + n) ==> dst[i] == old(dst[i])
    ensures zero == !ZeroFree(old(src[read..read + n]))
  {
    zero := false;
    ghost var from := src[read..read + n];
    var i := n;
    while i != 0
      invariant 0 <= i <= n
      invariant forall k :: 0 <= k < n - i ==> dst[write + k] == from[k]
      invariant forall k :: 0 <= k < dst.Length && !(write <= k < write + n - i) ==> dst[k] == old(dst[k])
      invariant zero == !ZeroFree(from[..n - i])
    {
      var srcByte := src[read + n - i];
      assert srcByte == from[n - i];
      assert from[..n - i + 1] == from[..n - i] + [srcByte];
      if srcByte == 0 {
        zero := true;
        assert from[..n - i + 1][n - i] == 0;
      }
      dst[write + n - i] := srcByte;
      i := i - 1;
    }
    assert from[..n] == from;
  }

  /** The part of a turn after the code byte: cut the run to what the input has and the output
      has room for, and copy it. */
  method CopyBlock(dst: array<byte>, dstLen: nat, write: nat, src: array<byte>, srcLen: nat, read: nat,
                   code: byte, ghost rest: seq<byte>) returns (n: nat, raised: set<DecodeFlag>)
    requires write <= dstLen <= dst.Length && read <= srcLen <= src.Length && code != 0
    requires dst == src ==> write <= read
    requires |rest| == 1 + srcLen - read && rest[0] == code
    requires forall i :: read <= i < srcLen ==> src[i] == rest[1 + i - read]
    modifies dst
    ensures n == TurnLen(rest, dstLen - write) && raised == TurnStatus(rest, dstLen - write)
    ensures n + read <= srcLen && n + write <= dstLen
    ensures dst[..write + n] == old(dst[..write]) + rest[1..n + 1]
    ensures forall i :: write + n <= i < dst.Length ==> dst[i] == old(dst[i])
  {
    raised := {};
    n := code as int - 1;
    if n > srcLen - read {
      raised := raised + {DecodeInputTooShort};
      n := srcLen - read;
    }
    if n > dstLen - write {
      raised := raised + {DecodeOutBufferOverflow};
      n := dstLen - write;
    }
    assert src[read..read + n] == rest[1..n + 1];
    var zero := CopyRun(dst, write, src, read, n);
    assert dst[..write + n] == dst[..write] + dst[write..write + n];
    if zero {
      raised := raised + {DecodeZeroByteInInput};
    }
  }

  /** A block and the zero between it and the next one; last tells that the input ends here, or that the
      zero did not fit. */
  method TakeBlock(dst: array<byte>, dstLen: nat, write0: nat, src: array<byte>, srcLen: nat, read: nat,
                   code: byte, status0: set<DecodeFlag>, ghost rest: seq<byte>, ghost all: Decoding)
    returns (n: nat, write: nat, status: set<DecodeFlag>, last: bool)
    requires write0 <= dstLen <= dst.Length && write0 < read <= srcLen <= src.Length && code != 0
    requires |rest| == 1 + srcLen - read && rest[0] == code
    requires forall i :: read <= i < srcLen ==> src[i] == rest[1 + i - read]
    requires Progress(rest, dst[..write0], status0, dstLen - write0, all)
    modifies dst
    ensures read + n <= srcLen && write0 <= write <= dstLen && write <= read + n
    ensures last ==> all == Decoding(dst[..write], status)
    ensures !last ==> read + n < srcLen && Progress(rest[n + 1..], dst[..write], status, dstLen - write, all)
    ensures forall i :: write <= i < dst.Length ==> dst[i] == old(dst[i])
  {
    hide DecodeFrom, TurnStatus, TurnLen, Progress;
    ghost var out := dst[..write0];
    DecodeTurn(rest, out, status0, dstLen - write0, all);
    var raised;
    n, raised := CopyBlock(dst, dstLen, write0, src, srcLen, read, code, rest);
    status, write, last := status0 + raised, write0 + n, read + n >= srcLen;
    if !last {
      if n != 0xFE {
        if write >= dstLen {
          status := status + {DecodeOutBufferOverflow};
          last := true;
        } else {
          dst[write] := 0;
          write := write + 1;
          assert dst[..write] == out + rest[1..n + 1] + [0];
        }
      } else {
        NoBytes(dst[..write]);
      }
    }
  }

  /** The loop over the blocks of the input. */
  method DecodeLoop(dst: array<byte>, dstLen: nat, src: array<byte>, srcLen: nat)
    returns (write: nat, status: set<DecodeFlag>)
    requires dstLen <= dst.Length && 0 < srcLen <= src.Length
    modifies dst
    ensures write <= dstLen
    ensures Decoding(dst[..write], status) == DecodeFrom(old(src[..srcLen]), dstLen)
    ensures forall i :: write <= i < dst.Length ==> dst[i] == old(dst[i])
  {
    hide DecodeFrom, TurnStatus, TurnLen, Progress;
    ghost var x := src[..srcLen];
    ghost var all := DecodeFrom(x, dstLen);
    var read;
    read, write, status := 0, 0, {};
    assert x[0..] == x && dst[..0] == [];
    DecodeStart(x, dstLen);
    while true
      invariant 0 <= write <= read < srcLen && write <= dstLen
      invariant Progress(x[read..], dst[..write], status, dstLen - write, all)
      invariant forall i :: write <= i < dst.Length ==> dst[i] == old(dst[i])
      invariant forall i :: read <= i < srcLen ==> src[i] == x[i]
      decreases srcLen - read
    {
      ghost var rest, out := x[read..], dst[..write];
      var lenCode := src[read];
      read := read + 1;
      if lenCode == 0 {
        DecodeZeroCode(rest, out, status, dstLen - write, all);
        status := status + {DecodeZeroByteInInput};
        break;
      }
      var n, last;
      n, write, status, last := TakeBlock(dst, dstLen, write, src, srcLen, read, lenCode, status, rest, all);
      read := read + n;
      if last {
        break;
      }
      assert x[read..] == rest[n + 1..];
    }
  }

  /** cobs_decode. The destination may be the source buffer itself: the write position stays
      behind the read position, so decoding in place gives what a separate buffer would get. */
  method CobsDecode(dst: array?<byte>, dstLen: nat, src: array?<byte>, srcLen: nat)
    returns (result: DecodeResult)
    requires dst != null ==> dstLen <= dst.Length
    requires src != null ==> srcLen <= src.Length
    modifies dst
    ensures dst == null || src == null ==>
      && result == DecodeResult(0, {DecodeNullPointer})
      && (dst != null ==> dst[..] == old(dst[..]))
    ensures dst != null && src != null ==>
      && result.outLen <= dstLen
      && Decoding(dst[..result.outLen], result.status) == DecodeFrom(old(src[..srcLen]), dstLen)
      && forall i :: result.outLen <= i < dst.Length ==> dst[i] == old(dst[i])
  {
    if dst == null || src == null {
      return DecodeResult(0, {DecodeNullPointer});
    }
    var write, status := 0, {};
    if srcLen != 0 {
      write, status := DecodeLoop(dst, dstLen, src, srcLen);
    }
    result := DecodeResult(write, status);
  }

  lemma DecodeZeroCode(rest: seq<byte>, out: seq<byte>, status: set<DecodeFlag>, room: nat, all: Decoding)
    requires rest != [] && rest[0] == 0 && Progress(rest, out, status, room, all)
    ensures all == Decoding(out, status + {DecodeZeroByteInInput})
  {
  }

  lemma DecodeStart(x: seq<byte>, room: nat)
    ensures Progress(x, [], {}, room, DecodeFrom(x, room))
  {
    var d := DecodeFrom(x, room);
    assert [] + d.out == d.out && {} + d.status == d.status;
  }

  lemma DecodeNothing(room: nat)
    ensures DecodeFrom([], room) == Decoding([], {})
  {
  }
}
