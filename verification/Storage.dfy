/** internal/storage/storage.go: hash entries and checkpoints under "table:number" keys. */
module Storages {
  import opened ByteStrings
  import opened Buckets
  import opened DecimalKeys
  import opened Options

  datatype HashEntry = HashEntry(tableName: string, sequenceNum: nat, dataHash: string,
                                 timestamp: int, operationType: string, recordID: string)

  /** A checkpoint without tree data has empty maps: JSON drops both nil and empty ones. */
  datatype MerkleCheckpoint = MerkleCheckpoint(tableName: string, sequenceNum: nat, merkleRoot: string,
                                               timestamp: int, recordCount: nat, hashAlgorithm: string,
                                               leafMap: map<string, string>, internalNodes: map<string, string>)


  /** The key `fmt.Sprintf("%s:%d", ...)` prints. */
  function RecordKey(table: string, seqNum: nat): string {
    table + ":" + Decimal(seqNum)
  }

  function EntryKey(e: HashEntry): string {
    RecordKey(e.tableName, e.sequenceNum)
  }

  function LastOf<T>(s: seq<T>): Option<T> {
    if s == [] then None else Some(s[|s| - 1])
  }

  class Storage {
    var hashChain: map<string, HashEntry>
    var merkleCheckpoints: map<string, MerkleCheckpoint>

    constructor ()
      ensures hashChain == map[] && merkleCheckpoints == map[]
    {
      hashChain, merkleCheckpoints := map[], map[];
    }

    method SaveHashEntry(entry: HashEntry)
      modifies this`hashChain
      ensures hashChain == old(hashChain)[entry.tableName + ":" + Decimal(entry.sequenceNum) := entry]
    {
      var key := RecordKey(entry.tableName, entry.sequenceNum);
      hashChain := hashChain[key := entry];
    }

    method GetHashEntry(tableName: string, seqNum: nat) returns (r: Option<HashEntry>)
      ensures var k := tableName + ":" + Decimal(seqNum);
        r == if k in hashChain then Some(hashChain[k]) else None
    {
      var key := RecordKey(tableName, seqNum);
      r := if key in hashChain then Some(hashChain[key]) else None;
    }

    method GetLatestHashEntry(tableName: string) returns (latestEntry: Option<HashEntry>)
      ensures latestEntry == LastOf(Scan(hashChain, tableName + ":"))
    {
      latestEntry := None;
      var prefix := tableName + ":";
      ghost var seen: seq<HashEntry> := [];
      var p := Seek(hashChain, prefix);
      ScanStart(hashChain, prefix, p);
      while p.At? && |p.key| >= |prefix| && p.key[..|prefix|] == prefix
        invariant p.At? ==> p.key in hashChain && Leq(prefix, p.key)
        invariant Scan(hashChain, prefix) == seen + Rest(hashChain, prefix, p)
        invariant latestEntry == LastOf(seen)
        decreases |Rest(hashChain, prefix, p)|
      {
        var at := p.key;
        latestEntry := Some(hashChain[at]);
        seen := seen + [hashChain[at]];
        p := Next(hashChain, at);
        ScanStep(hashChain, prefix, at, p);
      }
      ScanEnd(hashChain, prefix, p);
    }

    method SaveMerkleCheckpoint(checkpoint: MerkleCheckpoint)
      modifies this`merkleCheckpoints
      ensures merkleCheckpoints ==
        old(merkleCheckpoints)[checkpoint.tableName + ":" + Decimal(checkpoint.sequenceNum) := checkpoint]
    {
      var key := RecordKey(checkpoint.tableName, checkpoint.sequenceNum);
      merkleCheckpoints := merkleCheckpoints[key := checkpoint];
    }

    method GetLatestMerkleCheckpoint(tableName: string) returns (latestCheckpoint: Option<MerkleCheckpoint>)
      ensures latestCheckpoint == LastOf(Scan(merkleCheckpoints, tableName + ":"))
    {
      latestCheckpoint := None;
      var prefix := tableName + ":";
      ghost var seen: seq<MerkleCheckpoint> := [];
      var p := Seek(merkleCheckpoints, prefix);
      ScanStart(merkleCheckpoints, prefix, p);
      while p.At? && |p.key| >= |prefix| && p.key[..|prefix|] == prefix
        invariant p.At? ==> p.key in merkleCheckpoints && Leq(prefix, p.key)
        invariant Scan(merkleCheckpoints, prefix) == seen + Rest(merkleCheckpoints, prefix, p)
        invariant latestCheckpoint == LastOf(seen)
        decreases |Rest(merkleCheckpoints, prefix, p)|
      {
        var at := p.key;
        latestCheckpoint := Some(merkleCheckpoints[at]);
        seen := seen + [merkleCheckpoints[at]];
        p := Next(merkleCheckpoints, at);
        ScanStep(merkleCheckpoints, prefix, at, p);
      }
      ScanEnd(merkleCheckpoints, prefix, p);
    }

    method GetAllHashEntries(tableName: string) returns (entries: seq<HashEntry>)
      ensures entries == Scan(hashChain, tableName + ":")
    {
      entries := [];
      var prefix := tableName + ":";
      var p := Seek(hashChain, prefix);
      ScanStart(hashChain, prefix, p);
      while p.At? && |p.key| >= |prefix| && p.key[..|prefix|] == prefix
        invariant p.At? ==> p.key in hashChain && Leq(prefix, p.key)
        invariant Scan(hashChain, prefix) == entries + Rest(hashChain, prefix, p)
        decreases |Rest(hashChain, prefix, p)|
      {
        var at := p.key;
        entries := entries + [hashChain[at]];
        p := Next(hashChain, at);
        ScanStep(hashChain, prefix, at, p);
      }
      ScanEnd(hashChain, prefix, p);
    }

    /** `ForEach` visits the whole bucket in key order. */
    method GetAllHashEntriesAllTables() returns (entries: seq<HashEntry>)
      ensures entries == Scan(hashChain, "")
    {
      entries := [];
      var p := Seek(hashChain, "");
      ScanStart(hashChain, "", p);
      while p.At?
        invariant p.At? ==> p.key in hashChain
        invariant Scan(hashChain, "") == entries + Rest(hashChain, "", p)
        decreases |Rest(hashChain, "", p)|
      {
        var at := p.key;
        entries := entries + [hashChain[at]];
        p := Next(hashChain, at);
        ScanStep(hashChain, "", at, p);
      }
      ScanEnd(hashChain, "", p);
    }
  }
}
