/** The stream of payloads that a file is cut into: blocks of 512 bytes, then an empty one for EOF. */
module FileStream {
  import opened Types
  import opened ReceiverRuns
  import opened StreamSafety
  import opened SenderSpec

  /** Number of packets, EOF included. */
  function PacketCount(file: seq<byte>): nat {
    (|file| + MAX_PAYLOAD_SIZE - 1) / MAX_PAYLOAD_SIZE + 1
  }

  function StreamOf(file: seq<byte>): (r: seq<seq<byte>>)
    ensures |r| == PacketCount(file)
    ensures forall i | 0 <= i < |r| :: r[i] == Chunk(file, MAX_PAYLOAD_SIZE * i)
  {
    seq(PacketCount(file), i requires 0 <= i => Chunk(file, MAX_PAYLOAD_SIZE * i))
  }

  /** File position after `n` reads. */
  function PositionAfter(file: seq<byte>, n: nat): nat {
    Min(MAX_PAYLOAD_SIZE * n, |file|)
  }

  lemma FileGivesStream(file: seq<byte>)
    ensures IsStream(StreamOf(file))
  {
    var q := (|file| + MAX_PAYLOAD_SIZE - 1) / MAX_PAYLOAD_SIZE;
    assert MAX_PAYLOAD_SIZE * q >= |file| > MAX_PAYLOAD_SIZE * (q - 1);
    forall i | 0 <= i < q
      ensures StreamOf(file)[i] != []
    {
      assert MAX_PAYLOAD_SIZE * i <= MAX_PAYLOAD_SIZE * (q - 1);
    }
  }

  lemma ChunkIsSlice(file: seq<byte>, n: nat)
    requires n < PacketCount(file)
    ensures PositionAfter(file, n) <= PositionAfter(file, n + 1)
    ensures StreamOf(file)[n] == file[PositionAfter(file, n)..PositionAfter(file, n + 1)]
  {
  }

  /** The first payloads together are the beginning of the file. */
  lemma {:induction false} StreamSpellsFile(file: seq<byte>, n: nat)
    requires n <= PacketCount(file)
    ensures Concat(StreamOf(file)[..n]) == file[..PositionAfter(file, n)]
  {
    if n > 0 {
      var front, last := StreamOf(file)[..n - 1], StreamOf(file)[n - 1];
      StreamSpellsFile(file, n - 1);
      assert StreamOf(file)[..n] == front + [last];
      assert Concat([last]) == last + Concat([]);
      ConcatAppend(front, [last]);
      ChunkIsSlice(file, n - 1);
      JoinSlices(file, PositionAfter(file, n - 1), PositionAfter(file, n));
    }
  }

  lemma JoinSlices(file: seq<byte>, i: nat, j: nat)
    requires i <= j <= |file|
    ensures file[..i] + file[i..j] == file[..j]
  {
  }

  /** All the data packets together are the whole file. */
  lemma DataIsWholeFile(file: seq<byte>)
    ensures Concat(StreamOf(file)[..PacketCount(file) - 1]) == file
  {
    StreamSpellsFile(file, PacketCount(file) - 1);
    var q := (|file| + MAX_PAYLOAD_SIZE - 1) / MAX_PAYLOAD_SIZE;
    assert MAX_PAYLOAD_SIZE * q >= |file|;
    assert file[..|file|] == file;
  }

  /** The position reached and the next chunk tell whether the stream goes on. */
  lemma ReadOn(file: seq<byte>, n: nat)
    requires n < PacketCount(file)
    ensures Chunk(file, PositionAfter(file, n)) == StreamOf(file)[n]
    ensures PositionAfter(file, n) + |StreamOf(file)[n]| == PositionAfter(file, n + 1)
    ensures StreamOf(file)[n] == [] <==> n + 1 == PacketCount(file)
  {
    FileGivesStream(file);
  }
}
