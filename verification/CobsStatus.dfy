/** Output and status of the decoders of lib/cobs-c-0.5.0 on every input, well-formed or not. */
module CobsStatus {
  import opened Bytes
  import opened Cobs
  import Cobsr

  // ----- cobs_decode -----

  /** What the input stands for: code bytes are taken out, and a zero is put behind a block that is not the last
      and not full. A code byte of zero ends the input, and one that is too large takes what is left. */
  function Unstuffed(x: seq<byte>): (s: seq<byte>)
    ensures |s| <= |x|
    decreases |x|
  {
    if x == [] || x[0] == 0 then []
    else if x[0] as int >= |x| then x[1..]
    else x[1..x[0] as int] + (if x[0] == 255 then [] else [0]) + Unstuffed(x[x[0] as int..])
  }

  /** Some code byte, going from one to the next, counts more bytes than there are. */
  predicate RunsShort(x: seq<byte>)
    decreases |x|
  {
    x != [] && x[0] != 0 && (x[0] as int > |x| || RunsShort(x[x[0] as int..]))
  }

  /** One turn with room for its bytes. */
  lemma RoomyTurn(x: seq<byte>, room: nat)
    requires x != [] && x[0] != 0 && Min(x[0] as int - 1, |x| - 1) <= room
    ensures TurnLen(x, room) == Min(x[0] as int - 1, |x| - 1)
    ensures DecodeInputTooShort in TurnStatus(x, room) <==> x[0] as int > |x|
    ensures DecodeZeroByteInInput in TurnStatus(x, room) <==> !ZeroFree(x[1..TurnLen(x, room) + 1])
    ensures DecodeOutBufferOverflow !in TurnStatus(x, room) && DecodeNullPointer !in TurnStatus(x, room)
  {
  }

  lemma TightTurn(x: seq<byte>, room: nat)
    requires x != [] && x[0] != 0 && Min(x[0] as int - 1, |x| - 1) > room
    ensures TurnLen(x, room) == room && DecodeOutBufferOverflow in TurnStatus(x, room)
    ensures DecodeFrom(x, room).out == x[1..room + 1] && DecodeOutBufferOverflow in DecodeFrom(x, room).status
    ensures DecodeNullPointer !in TurnStatus(x, room) && DecodeNullPointer !in DecodeFrom(x, room).status
  {
  }

  lemma UnstuffedFront(x: seq<byte>)
    requires x != [] && x[0] != 0
    ensures
      var n := Min(x[0] as int - 1, |x| - 1);
      && (n + 1 == |x| ==> Unstuffed(x) == x[1..n + 1] && (RunsShort(x) <==> x[0] as int > |x|))
      && (n + 1 < |x| ==>
            && Unstuffed(x) == x[1..n + 1] + Gap(x[1..n + 1]) + Unstuffed(x[n + 1..])
            && (RunsShort(x) <==> RunsShort(x[n + 1..])))
  {
    if x[0] as int < |x| {
      GapIs(x);
    } else if x[0] as int == |x| {
      assert x[x[0] as int..] == [];
    }
  }

  lemma GapIs(x: seq<byte>)
    requires x != [] && 0 < x[0] as int < |x|
    ensures Gap(x[1..x[0] as int]) == if x[0] == 255 then [] else [0]
  {
  }

  lemma ZeroFreeFront(x: seq<byte>, n: nat)
    requires n < |x| && x[0] != 0
    ensures ZeroFree(x) <==> ZeroFree(x[1..n + 1]) && ZeroFree(x[n + 1..])
  {
    var front, rest := x[1..n + 1], x[n + 1..];
    assert x == [x[0]] + (front + rest);
    ZeroFreeAppend([x[0]], front + rest);
    ZeroFreeAppend(front, rest);
  }

  /** The output is what the input stands for, as far as there is room; overflow is flagged exactly if there is not.
      With room for all of it, a zero byte is flagged exactly if there is one, and a short input exactly if a code
      byte counts more than is left. */
  lemma {:induction false} DecodeExactly(x: seq<byte>, room: nat)
    ensures
      var d, s := DecodeFrom(x, room), Unstuffed(x);
      && d.out == (if |s| <= room then s else s[..room])
      && (DecodeOutBufferOverflow in d.status <==> |s| > room)
      && (|s| <= room ==> (DecodeZeroByteInInput in d.status <==> !ZeroFree(x)))
      && (|s| <= room ==> (DecodeInputTooShort in d.status <==> RunsShort(x)))
      && DecodeNullPointer !in d.status
    decreases |x|
  {
    hide DecodeFrom, TurnLen, TurnStatus, Unstuffed, RunsShort, Gap, ZeroFree;
    if x == [] || x[0] == 0 {
      ZeroCode(x, room);
    } else {
      UnstuffedFront(x);
      var n := Min(x[0] as int - 1, |x| - 1);
      ZeroFreeFront(x, n);
      if n > room {
        TightTurn(x, room);
        TightOut(x, n, room);
      } else {
        RoomyTurn(x, room);
        DecodeUnfold(x, room);
        if n + 1 == |x| {
          NothingLeft(x);
        } else if n < MAX_RUN && n == room {
          FullOut(x, n);
        } else {
          var front := x[1..n + 1] + Gap(x[1..n + 1]);
          DecodeExactly(x[n + 1..], room - |front|);
          CutBehind(front, Unstuffed(x[n + 1..]), room);
        }
      }
    }
  }

  lemma ZeroCode(x: seq<byte>, room: nat)
    requires x == [] || x[0] == 0
    ensures DecodeFrom(x, room) == Decoding([], if x == [] then {} else {DecodeZeroByteInInput})
    ensures Unstuffed(x) == [] && !RunsShort(x) && (ZeroFree(x) <==> x == [])
  {
  }

  lemma NothingLeft(x: seq<byte>)
    ensures x[|x|..] == [] && ZeroFree(x[|x|..])
  {
  }

  lemma TightOut(x: seq<byte>, n: nat, room: nat)
    requires room < n < |x| && x[0] != 0 && n == Min(x[0] as int - 1, |x| - 1)
    ensures |Unstuffed(x)| > room && Unstuffed(x)[..room] == x[1..room + 1]
  {
    hide Unstuffed, RunsShort, Gap;
    UnstuffedFront(x);
    var run := x[1..n + 1];
    assert run[..room] == x[1..room + 1];
    if n + 1 < |x| {
      Front(run, Gap(run) + Unstuffed(x[n + 1..]), room);
      Assoc(run, Gap(run), Unstuffed(x[n + 1..]));
    }
  }

  lemma Front(a: seq<byte>, b: seq<byte>, k: nat)
    requires k <= |a|
    ensures (a + b)[..k] == a[..k]
  {
  }

  lemma FullOut(x: seq<byte>, n: nat)
    requires n + 1 < |x| && x[0] != 0 && n == Min(x[0] as int - 1, |x| - 1) && n < MAX_RUN
    ensures |Unstuffed(x)| > n && Unstuffed(x)[..n] == x[1..n + 1]
  {
    UnstuffedFront(x);
    hide Unstuffed;
  }

  lemma CutBehind(front: seq<byte>, rest: seq<byte>, room: nat)
    requires |front| <= room
    ensures |front + rest| > room <==> |rest| > room - |front|
    ensures |front + rest| > room ==> (front + rest)[..room] == front + rest[..room - |front|]
  {
  }

  /** n code bytes of 1: the encoding of n - 1 zeros. */
  function Ones(n: nat): (x: seq<byte>)
    ensures |x| == n && forall i :: 0 <= i < n ==> x[i] == 1
  {
    seq(n, _ => 1)
  }

  lemma {:induction false} OnesUnstuffed(n: nat)
    ensures |Unstuffed(Ones(n))| == if n == 0 then 0 else n - 1
    decreases n
  {
    if n > 1 {
      assert Ones(n)[1..] == Ones(n - 1);
      OnesUnstuffed(n - 1);
    }
  }

  /** COBS_DECODE_DST_BUF_LEN_MAX cannot be smaller: for every length some input needs all of it. */
  lemma DecodeMaxIsTight(n: nat, room: nat)
    ensures DecodeOutBufferOverflow in DecodeFrom(Ones(n), room).status <==> room < DecodeDstBufLenMax(n)
  {
    hide DecodeFrom, Unstuffed, Ones;
    DecodeExactly(Ones(n), room);
    OnesUnstuffed(n);
  }

  // ----- cobsr_decode -----

  /** What the input stands for in COBS/R: as in COBS, but a last code byte that counts more bytes than there are is
      itself the last byte. */
  function UnstuffedR(x: seq<byte>): (s: seq<byte>)
    ensures |s| <= |x|
    decreases |x|
  {
    if x == [] || x[0] == 0 then []
    else if x[0] as int > |x| then x[1..] + [x[0]]
    else if x[0] as int == |x| then x[1..]
    else x[1..x[0] as int] + (if x[0] == 255 then [] else [0]) + UnstuffedR(x[x[0] as int..])
  }

  lemma TurnR(x: seq<byte>, room: nat)
    requires x != [] && x[0] != 0
    ensures
      var m, status := Min(x[0] as int - 1, |x| - 1), Cobsr.TurnStatusR(x, room);
      && TurnLen(x, room) == Min(m, room)
      && (DecodeOutBufferOverflow in status <==> m > room)
      && (m <= room ==> (DecodeZeroByteInInput in status <==> !ZeroFree(x[1..m + 1])))
      && DecodeInputTooShort !in status && DecodeNullPointer !in status
  {
  }

  /** The same for cobsr_decode, for which no input is too short. */
  lemma {:induction false} DecodeRExactly(x: seq<byte>, room: nat)
    ensures
      var d, s := Cobsr.DecodeRFrom(x, room), UnstuffedR(x);
      && d.out == (if |s| <= room then s else s[..room])
      && (DecodeOutBufferOverflow in d.status <==> |s| > room)
      && (|s| <= room ==> (DecodeZeroByteInInput in d.status <==> !ZeroFree(x)))
      && DecodeInputTooShort !in d.status && DecodeNullPointer !in d.status
    decreases |x|
  {
    hide Cobsr.DecodeRFrom, TurnLen, Cobsr.TurnStatusR, UnstuffedR, ZeroFree;
    if x == [] || x[0] == 0 {
      ZeroCodeR(x, room);
    } else {
      var m := Min(x[0] as int - 1, |x| - 1);
      TurnR(x, room);
      Cobsr.DecodeRUnfold(x, room);
      ZeroFreeFront(x, m);
      if x[0] as int >= |x| {
        NothingLeft(x);
        LastBlockR(x, room);
      } else {
        var front := x[1..m + 1] + Cobsr.GapR(x[0]);
        InnerBlockR(x);
        if |front| <= room {
          DecodeRExactly(x[m + 1..], room - |front|);
          CutBehind(front, UnstuffedR(x[m + 1..]), room);
        } else {
          CutInside(x, m, room);
          if x[0] == 255 {
            DecodeRExactly(x[room + 1..], 0);
            NoBytes(x[1..room + 1]);
          }
        }
      }
    }
  }

  lemma ZeroCodeR(x: seq<byte>, room: nat)
    requires x == [] || x[0] == 0
    ensures Cobsr.DecodeRFrom(x, room) == Decoding([], if x == [] then {} else {DecodeZeroByteInInput})
    ensures UnstuffedR(x) == [] && (ZeroFree(x) <==> x == [])
  {
  }

  lemma LastBlockR(x: seq<byte>, room: nat)
    requires x != [] && x[0] as int >= |x|
    ensures
      var s, n := UnstuffedR(x), Min(|x| - 1, room);
      && s == x[1..] + (if x[0] as int > |x| then [x[0]] else [])
      && (n < |s| ==> s[..n] == x[1..n + 1])
  {
  }

  lemma InnerBlockR(x: seq<byte>)
    requires x != [] && 0 < x[0] as int < |x|
    ensures UnstuffedR(x) == x[1..x[0] as int] + Cobsr.GapR(x[0]) + UnstuffedR(x[x[0] as int..])
  {
  }

  lemma CutInside(x: seq<byte>, m: nat, room: nat)
    requires x != [] && 0 < x[0] as int < |x| && m == x[0] as int - 1 && |x[1..m + 1] + Cobsr.GapR(x[0])| > room
    ensures room <= m && |UnstuffedR(x)| > room && UnstuffedR(x)[..room] == x[1..room + 1]
  {
    hide UnstuffedR;
    InnerBlockR(x);
    var run := x[1..m + 1];
    assert run[..room] == x[1..room + 1];
    Front(run, Cobsr.GapR(x[0]) + UnstuffedR(x[m + 1..]), room);
    Assoc(run, Cobsr.GapR(x[0]), UnstuffedR(x[m + 1..]));
  }
}
