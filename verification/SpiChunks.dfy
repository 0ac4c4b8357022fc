/**
 Cutting an SPI message into transfers of at most 65535 bytes.  The start of each
 transfer is worked out from the message length, which a failed transfer sets to 0.
 */
module SpiChunks {
  const U32 := 0x1_0000_0000
  const MAX_TRANSFER := 65535

  newtype byte = x: int | 0 <= x < 256

  datatype Option<T> = None | Some(value: T)

  datatype Chunk = Chunk(offset: nat, length: nat)

  function SendLength(left: nat): nat {
    if left > MAX_TRANSFER then MAX_TRANSFER else left
  }

  /** The transfers meant for the bytes from `at` to the end of the message. */
  function Ideal(length: nat, at: nat): seq<Chunk>
    requires at <= length
    decreases length - at
  {
    if at == length then []
    else [Chunk(at, SendLength(length - at))] + Ideal(length, at + SendLength(length - at))
  }

  /** The transfers made with `left` bytes to go, when the message length field says
      `field` and n transfers have been made; hal(n) tells whether transfer n works. */
  function Transfers(field: nat, left: nat, n: nat, hal: nat -> bool): seq<Chunk>
    decreases left
  {
    if left == 0 then []
    else
      var send := SendLength(left);
      var offset := (field - send - (left - send)) % U32;
      [Chunk(offset, send)] + Transfers(if hal(n) then field else 0, left - send, n + 1, hal)
  }

  /** One after another, none empty or too long, and as few as possible. */
  lemma {:induction false} IdealTiles(length: nat, at: nat)
    requires at <= length
    ensures var cs := Ideal(length, at);
      && (forall i :: 0 <= i < |cs| ==> 1 <= cs[i].length <= MAX_TRANSFER)
      && (forall i :: 0 <= i < |cs| - 1 ==> cs[i + 1].offset == cs[i].offset + cs[i].length)
      && (cs != [] ==> cs[0].offset == at && cs[|cs| - 1].offset + cs[|cs| - 1].length == length)
      && |cs| == (length - at + MAX_TRANSFER - 1) / MAX_TRANSFER
    decreases length - at
  {
    if at < length {
      IdealTiles(length, at + SendLength(length - at));
    }
  }

  function Gather<T>(buf: seq<T>, cs: seq<Chunk>): seq<T>
    requires forall i :: 0 <= i < |cs| ==> cs[i].offset + cs[i].length <= |buf|
  {
    if cs == [] then [] else buf[cs[0].offset..cs[0].offset + cs[0].length] + Gather(buf, cs[1..])
  }

  /** Together the transfers carry the buffer, in order. */
  lemma {:induction false} IdealCarriesBuffer<T>(buf: seq<T>, at: nat)
    requires at <= |buf|
    ensures var cs := Ideal(|buf|, at);
      && (forall i :: 0 <= i < |cs| ==> cs[i].offset + cs[i].length <= |buf|)
      && Gather(buf, cs) == buf[at..]
    decreases |buf| - at
  {
    if at < |buf| {
      var next := at + SendLength(|buf| - at);
      IdealCarriesBuffer(buf, next);
      assert Ideal(|buf|, at)[1..] == Ideal(|buf|, next);
      assert buf[at..] == buf[at..next] + buf[next..];
    }
  }

  ghost predicate OkFrom(hal: nat -> bool, n: nat, end: int) {
    forall i: nat :: n <= i < end ==> hal(i)
  }

  /** The transfers go to the places meant for them exactly when none but the last one
      fails; a failure before that sends all later ones elsewhere. */
  lemma {:induction false} TransfersIdealIff(length: nat, left: nat, n: nat, hal: nat -> bool)
    requires left <= length < U32
    ensures Transfers(length, left, n, hal) == Ideal(length, length - left)
       <==> OkFrom(hal, n, n + |Ideal(length, length - left)| - 1)
    decreases left
  {
    if left > 0 {
      var send := SendLength(left);
      var rest := left - send;
      var later := Transfers(if hal(n) then length else 0, rest, n + 1, hal);
      var ideal := Ideal(length, length - rest);
      assert (length - left) + send == length - rest;
      Offset(length - left);
      assert Transfers(length, left, n, hal) == [Chunk(length - left, send)] + later;
      assert Ideal(length, length - left) == [Chunk(length - left, send)] + ideal;
      assert ([Chunk(length - left, send)] + later)[1..] == later;
      assert ([Chunk(length - left, send)] + ideal)[1..] == ideal;
      TransfersIdealIff(length, rest, n + 1, hal);
      if hal(n) {
        assert OkFrom(hal, n, n + |ideal|) <==> OkFrom(hal, n + 1, n + |ideal|) by {
          assert forall i: nat :: hal(i) && n <= i ==> i == n || n + 1 <= i;
        }
      } else if rest > 0 {
        assert later[0].offset == (0 - rest) % U32 == U32 - rest by { Wrapped(rest); }
        assert ideal[0].offset == length - rest;
        assert later != ideal;
        assert n < n + |ideal|;
      }
    }
  }

  lemma Offset(x: nat)
    requires x < U32
    ensures x % U32 == x
  {
  }

  lemma Wrapped(x: nat)
    requires 0 < x < U32
    ensures (0 - x) % U32 == U32 - x
  {
  }

  /** What has gone out so far is the beginning of the send buffer, or 0xFF without one. */
  predicate SentInOrder(sendBuf: Option<seq<byte>>, sent: seq<byte>) {
    match sendBuf
    case Some(buf) => sent <= buf
    case None => forall i :: 0 <= i < |sent| ==> sent[i] == 0xFF
  }

  lemma NothingSent(sendBuf: Option<seq<byte>>)
    ensures SentInOrder(sendBuf, [])
  {
  }

  /** spixfer.  hal(n) tells whether transfer n works, miso(i) is the i-th byte that
      comes in; what a transfer carries that fails, or starts outside the buffers, is
      taken from `noise`.  If the length comes back, the send buffer, or 0xFF without
      one, has gone out in order and the receive buffer holds what came in. */
  method Spixfer(sendBuf: Option<seq<byte>>, recvBuf: array?<byte>, length: nat,
                 hal: nat -> bool, miso: nat -> byte, noise: nat -> byte)
    returns (chunks: seq<Chunk>, mosi: seq<byte>, result: nat)
    requires length < U32 && (sendBuf.Some? || recvBuf != null)
    requires sendBuf.Some? ==> |sendBuf.value| == length
    requires recvBuf != null ==> recvBuf.Length == length
    modifies recvBuf
    ensures chunks == Transfers(length, length, 0, hal)
    ensures result == length || result == 0
    ensures length > 0 ==> (result == length <==> OkFrom(hal, 0, |chunks|))
    ensures result == length && sendBuf.Some? ==> mosi == sendBuf.value
    ensures result == length && sendBuf.None? ==> |mosi| == length && forall i :: 0 <= i < length ==> mosi[i] == 0xFF
    ensures result == length && recvBuf != null ==> forall i :: 0 <= i < length ==> recvBuf[i] == miso(i)
  {
    hide Transfers, OkFrom, SentInOrder;
    var messageLength: nat := length;
    var field := length;
    chunks, mosi := [], [];
    ghost var all := Transfers(length, length, 0, hal);
    NoneYet(hal);
    NothingSent(sendBuf);
    while messageLength > 0
      invariant messageLength <= length
      invariant field == if OkFrom(hal, 0, |chunks|) then length else 0
      invariant chunks + Transfers(field, messageLength, |chunks|, hal) == all
      invariant messageLength < length <==> chunks != []
      invariant OkFrom(hal, 0, |chunks|) ==> |mosi| == length - messageLength && SentInOrder(sendBuf, mosi)
      invariant OkFrom(hal, 0, |chunks|) && recvBuf != null ==>
        forall i :: 0 <= i < length - messageLength ==> recvBuf[i] == miso(i)
    {
      TransferStep(field, messageLength, |chunks|, hal);
      OkSoFar(hal, |chunks|);
      ghost var before := chunks;
      var sendLength: nat;
      if messageLength > 65535 {
        sendLength := 65535;
        messageLength := messageLength - 65535;
      } else {
        sendLength := messageLength;
        messageLength := 0;
      }
      var already: nat := (field - sendLength - messageLength) % U32;
      var c := Chunk(already, sendLength);
      var works := hal(|chunks|);
      Receive(recvBuf, c, works, (i: nat) => miso(|mosi| + i), noise);
      var outgoing := Send(sendBuf, c, length, works, noise, mosi);
      mosi := mosi + outgoing;
      if !works {
        field := 0;
      }
      chunks := chunks + [c];
      Reassociate(before, c, Transfers(field, messageLength, |chunks|, hal));
    }
    TransfersEnd(field, |chunks|, hal);
    AllSent(sendBuf, mosi);
    result := field;
  }

  lemma AllSent(sendBuf: Option<seq<byte>>, mosi: seq<byte>)
    ensures SentInOrder(sendBuf, mosi) ==>
      match sendBuf
      case Some(buf) => |mosi| == |buf| ==> mosi == buf
      case None => forall i :: 0 <= i < |mosi| ==> mosi[i] == 0xFF
  {
  }

  /** The bytes of one transfer go out: from its place in the send buffer, or 0xFF
      without one, if it works and is in the buffer at all. */
  method Send(sendBuf: Option<seq<byte>>, c: Chunk, length: nat, works: bool, noise: nat -> byte, ghost sent: seq<byte>)
    returns (outgoing: seq<byte>)
    requires sendBuf.Some? ==> |sendBuf.value| == length
    ensures |outgoing| == c.length
    ensures works && c.offset + c.length <= length && |sent| == c.offset && SentInOrder(sendBuf, sent) ==>
      SentInOrder(sendBuf, sent + outgoing)
  {
    if !works || c.offset + c.length > length {
      return seq(c.length, noise);
    }
    match sendBuf {
      case Some(buf) =>
        outgoing := buf[c.offset..c.offset + c.length];
        assert sent <= buf ==> |sent| == c.offset ==> sent + outgoing <= buf;
      case None =>
        outgoing := seq(c.length, _ => 0xFF);
    }
  }

  /** The bytes of one transfer come in at its place in the receive buffer, if it is in
      the buffer at all. */
  method Receive(recvBuf: array?<byte>, c: Chunk, works: bool, incoming: nat -> byte, noise: nat -> byte)
    modifies recvBuf
    ensures recvBuf != null ==> forall i :: 0 <= i < recvBuf.Length && !(c.offset <= i < c.offset + c.length) ==>
      recvBuf[i] == old(recvBuf[i])
    ensures recvBuf != null && works && c.offset + c.length <= recvBuf.Length ==>
      forall i :: c.offset <= i < c.offset + c.length ==> recvBuf[i] == incoming(i - c.offset)
  {
    if recvBuf != null && c.offset + c.length <= recvBuf.Length {
      forall i | c.offset <= i < c.offset + c.length {
        recvBuf[i] := if works then incoming(i - c.offset) else noise(i - c.offset);
      }
    }
  }

  lemma NoneYet(hal: nat -> bool)
    ensures OkFrom(hal, 0, 0)
  {
  }

  lemma OkSoFar(hal: nat -> bool, n: nat)
    ensures OkFrom(hal, 0, n + 1) <==> OkFrom(hal, 0, n) && hal(n)
  {
  }

  lemma TransferStep(field: nat, left: nat, n: nat, hal: nat -> bool)
    requires left > 0
    ensures var send := SendLength(left);
      Transfers(field, left, n, hal) ==
        [Chunk((field - send - (left - send)) % U32, send)]
        + Transfers(if hal(n) then field else 0, left - send, n + 1, hal)
  {
  }

  lemma TransfersEnd(field: nat, n: nat, hal: nat -> bool)
    ensures Transfers(field, 0, n, hal) == []
  {
  }

  lemma Reassociate(a: seq<Chunk>, c: Chunk, b: seq<Chunk>)
    ensures a + ([c] + b) == (a + [c]) + b
  {
  }
}
