/** Files, writes and crashes. */
module Files {
  import opened Bytes

  /** A file, and how much of it is known to be on stable storage. */
  datatype File = File(bytes: seq<byte>, synced: nat)

  /** A crash leaves a beginning of the file with at least the synced part; no less is synced afterwards. */
  ghost predicate CutFile(f: File, g: File) {
    g.bytes <= f.bytes && f.synced <= g.synced <= |g.bytes|
  }

  /** A write either completes or fails with part of the data written. */
  datatype WriteOutcome = Complete | Short(count: nat)

  /** What of the data a write gets into the file. */
  function Part(data: seq<byte>, io: WriteOutcome): (p: seq<byte>)
    ensures p <= data
  {
    if io.Short? && io.count < |data| then data[..io.count] else data
  }

  /** Overwriting a file from a position, past the end if need be. */
  function WriteAt(bytes: seq<byte>, pos: nat, data: seq<byte>): seq<byte>
    requires pos <= |bytes|
  {
    bytes[..pos] + data + if pos + |data| < |bytes| then bytes[pos + |data|..] else []
  }

  /** What is still known to be on stable storage when a file is overwritten from a position. */
  function SyncedAfter(synced: nat, pos: nat, data: seq<byte>): nat {
    if data != [] && pos < synced then pos else synced
  }

  lemma WriteAtEnd(bytes: seq<byte>, data: seq<byte>)
    ensures WriteAt(bytes, |bytes|, data) == bytes + data
  {
  }

  lemma WriteLength(bytes: seq<byte>, pos: nat, data: seq<byte>)
    requires pos <= |bytes|
    ensures |WriteAt(bytes, pos, data)| >= |bytes|
  {
  }
}
