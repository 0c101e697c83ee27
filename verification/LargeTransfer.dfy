/**
  The sender of tcp-large-transfer.cc: a callback that writes a periodic byte stream out of a
  fixed buffer, in pieces whose size the socket decides.
 */
module LargeTransfer {

  newtype uint32 = x: int | 0 <= x < 0x1_0000_0000
  newtype int32 = x: int | -0x8000_0000 <= x < 0x8000_0000
  newtype uint8 = x: int | 0 <= x < 0x100

  const TOTAL_TX_BYTES: uint32 := 2_000_000
  const WRITE_SIZE: uint32 := 1040

  // The k-th byte of the stream.
  function Letter(k: nat): uint8 {
    (97 + k % 26) as uint8
  }

  const ALPHABET: string := "abcdefghijklmnopqrstuvwxyz"

  // The stream repeats the lower-case letters.
  lemma LettersRepeat(k: nat)
    ensures |ALPHABET| == 26 && Letter(k) as int == ALPHABET[k % 26] as int
  {
    AlphabetInOrder();
  }

  lemma AlphabetInOrder()
    ensures |ALPHABET| == 26 && forall i :: 0 <= i < 26 ==> ALPHABET[i] as int == 97 + i
  {
  }

  // A buffer that is sent over and over gives the periodic stream exactly when its size is a
  // multiple of the period.
  lemma BufferKeepsPhaseIff(size: nat)
    requires size > 0
    ensures size % 26 == 0 <==> forall k: nat :: Letter(k % size) == Letter(k)
  {
    if size % 26 == 0 {
      forall k: nat ensures Letter(k % size) == Letter(k) {
        PhaseOf(k, size);
      }
    } else {
      assert size % size == 0;
      assert Letter(size % size) != Letter(size);
    }
  }

  lemma PhaseOf(k: nat, size: nat)
    requires size > 0 && size % 26 == 0
    ensures (k % size) % 26 == k % 26
  {
    var q, m := k / size, size / 26;
    assert k == size * q + k % size && size == 26 * m;
    assert size * q == 26 * (m * q);
    RemainderOfSum(m * q, k % size);
  }

  lemma RemainderOfSum(a: int, r: nat)
    ensures (26 * a + r) % 26 == r % 26
  {
  }

  ghost predicate IsStream(s: seq<uint8>) {
    forall k :: 0 <= k < |s| ==> s[k] == Letter(k)
  }

  lemma StreamGoesOn(s: seq<uint8>, data: seq<uint8>, offset: nat, amount: nat)
    requires IsStream(s) && IsStream(data) && |data| == WRITE_SIZE as int
    requires offset == |s| % WRITE_SIZE as int && offset + amount <= |data|
    ensures IsStream(s + data[offset..offset + amount])
  {
    var t := s + data[offset..offset + amount];
    forall k | 0 <= k < |t| ensures t[k] == Letter(k) {
      if k >= |s| {
        var q := |s| / WRITE_SIZE as int;
        assert k == 26 * (40 * q) + (offset + (k - |s|));
        RemainderOfSum(40 * q, offset + (k - |s|));
      }
    }
  }

  // A socket that may do as it likes: take part of what it is offered or refuse it, and have any
  // amount of space afterwards. What it accepts is recorded, and how often it refuses.
  class Socket {
    var txAvailable: uint32
    var closed: bool
    ghost var accepted: seq<uint8>
    ghost var refusals: nat

    constructor ()
      ensures accepted == [] && !closed
    {
      txAvailable, closed, accepted, refusals := 0, false, [], 0;
    }

    method GetTxAvailable() returns (n: uint32)
      ensures n == txAvailable
    {
      n := txAvailable;
    }

    method Send(data: array<uint8>, offset: uint32, size: uint32) returns (amountSent: int32)
      requires 0 < size <= txAvailable && offset as int + size as int <= data.Length && size < 0x8000_0000
      modifies this
      ensures closed == old(closed)
      ensures amountSent < 0 ==> accepted == old(accepted) && refusals == old(refusals) + 1
      ensures amountSent >= 0 ==> 1 <= amountSent as int <= size as int && refusals == old(refusals)
      ensures amountSent >= 0 ==> accepted == old(accepted) + data[offset..offset as int + amountSent as int]
    {
      var answer: int :| -1 <= answer <= size as int && answer != 0;
      amountSent := answer as int32;
      if amountSent >= 0 {
        accepted := accepted + data[offset..offset as int + amountSent as int];
      } else {
        refusals := refusals + 1;
      }
      var space: uint32 :| 0 <= space;
      txAvailable := space;
    }

    method Close()
      modifies this`closed
      ensures closed
    {
      closed := true;
    }

    // Time passes between two callbacks.
    method Drain()
      modifies this`txAvailable
    {
      var space: uint32 :| 0 <= space;
      txAvailable := space;
    }
  }

  class Sender {
    var currentTxBytes: uint32
    const data: array<uint8>

    ghost predicate Valid(localSocket: Socket)
      reads this, data, localSocket
    {
      && data.Length == WRITE_SIZE as int && IsStream(data[..])
      && |localSocket.accepted| == currentTxBytes as int
      && currentTxBytes <= TOTAL_TX_BYTES
      && IsStream(localSocket.accepted)
      && (localSocket.closed ==> currentTxBytes == TOTAL_TX_BYTES)
    }

    constructor (localSocket: Socket)
      requires localSocket.accepted == [] && !localSocket.closed
      ensures Valid(localSocket) && fresh(data) && currentTxBytes == 0
    {
      currentTxBytes := 0;
      data := new uint8[WRITE_SIZE];
      new;
      for i: uint32 := 0 to WRITE_SIZE
        invariant forall k :: 0 <= k < i as int ==> data[k] == Letter(k)
        invariant currentTxBytes == 0 && localSocket.accepted == [] && !localSocket.closed
      {
        data[i] := ToAscii(97 + i % 26);
      }
    }

    // Keeps the low seven bits.
    static function ToAscii(c: uint32): uint8 {
      (c % 128) as uint8
    }

    // Sends until all is accepted, no space is left, or the socket refuses; closes when all is accepted.
    method WriteUntilBufferFull(localSocket: Socket, txSpace: uint32)
      requires Valid(localSocket)
      modifies this`currentTxBytes, localSocket
      ensures Valid(localSocket)
      ensures old(localSocket.accepted) <= localSocket.accepted
      ensures old(localSocket.closed) ==> localSocket.closed
      ensures |localSocket.accepted| == TOTAL_TX_BYTES as int ==> localSocket.closed
      ensures localSocket.closed || localSocket.txAvailable == 0 ||
              localSocket.refusals == old(localSocket.refusals) + 1
    {
      while true
        invariant Valid(localSocket)
        invariant old(localSocket.accepted) <= localSocket.accepted
        invariant old(localSocket.closed) == localSocket.closed && old(localSocket.refusals) == localSocket.refusals
        decreases TOTAL_TX_BYTES - currentTxBytes
      {
        var space := localSocket.GetTxAvailable();
        if !(currentTxBytes < TOTAL_TX_BYTES && space > 0) {
          break;
        }
        var left := TOTAL_TX_BYTES - currentTxBytes;
        var dataOffset := currentTxBytes % WRITE_SIZE;
        var toWrite := WRITE_SIZE - dataOffset;
        toWrite := Min(toWrite, left);
        space := localSocket.GetTxAvailable();
        toWrite := Min(toWrite, space);
        ghost var before := localSocket.accepted;
        var amountSent := localSocket.Send(data, dataOffset, toWrite);
        if amountSent < 0 {
          // the callback comes again when there is space
          return;
        }
        StreamGoesOn(before, data[..], dataOffset as int, amountSent as int);
        assert data[..][dataOffset..dataOffset as int + amountSent as int]
           == data[dataOffset..dataOffset as int + amountSent as int];
        currentTxBytes := currentTxBytes + amountSent as uint32;
      }
      if currentTxBytes >= TOTAL_TX_BYTES {
        localSocket.Close();
      }
    }

    method StartFlow(localSocket: Socket)
      requires Valid(localSocket)
      modifies this`currentTxBytes, localSocket
      ensures Valid(localSocket)
      ensures old(localSocket.accepted) <= localSocket.accepted
      ensures |localSocket.accepted| == TOTAL_TX_BYTES as int ==> localSocket.closed
      ensures localSocket.closed || localSocket.txAvailable == 0 ||
              localSocket.refusals == old(localSocket.refusals) + 1
    {
      localSocket.Drain();
      var space := localSocket.GetTxAvailable();
      WriteUntilBufferFull(localSocket, space);
    }
  }

  function Min(a: uint32, b: uint32): (m: uint32)
    ensures m <= a && m <= b && (m == a || m == b)
  {
    if a < b then a else b
  }

  // A whole run: the start and any number of callbacks, with anything happening in between.
  method Session(callbacks: nat) returns (localSocket: Socket)
    ensures |localSocket.accepted| <= 2_000_000
    ensures forall k :: 0 <= k < |localSocket.accepted| ==>
              localSocket.accepted[k] as int == "abcdefghijklmnopqrstuvwxyz"[k % 26] as int
    ensures localSocket.closed <==> |localSocket.accepted| == 2_000_000
  {
    hide ALPHABET;
    localSocket := new Socket();
    var sender := new Sender(localSocket);
    sender.StartFlow(localSocket);
    for i := 0 to callbacks
      invariant fresh(localSocket) && fresh(sender)
      invariant sender.Valid(localSocket)
      invariant |localSocket.accepted| == TOTAL_TX_BYTES as int ==> localSocket.closed
    {
      localSocket.Drain();
      var space := localSocket.GetTxAvailable();
      sender.WriteUntilBufferFull(localSocket, space);
    }
    StreamSpells(localSocket.accepted);
  }

  lemma StreamSpells(s: seq<uint8>)
    requires IsStream(s)
    ensures forall k :: 0 <= k < |s| ==> s[k] as int == "abcdefghijklmnopqrstuvwxyz"[k % 26] as int
  {
    forall k | 0 <= k < |s| ensures s[k] as int == "abcdefghijklmnopqrstuvwxyz"[k % 26] as int {
      LettersRepeat(k);
    }
  }
}
