/** internal/consensus/bbolt_store.go: the Raft log kept under big-endian keys, and its codec. */
module BoltStores {
  import opened ByteStrings
  import opened Buckets
  import opened BigEndian

  type uint64 = n: nat | n < 0x1_0000_0000_0000_0000

  /** A log as a value. The type is one byte on the wire. */
  datatype LogValue = LogValue(index: uint64, term: uint64, logType: byte, data: seq<byte>)

  /** A log record that `DecodeLog` and `GetLog` fill in place. */
  class RaftLog {
    var index: uint64
    var term: uint64
    var logType: byte
    var data: seq<byte>

    constructor (v: LogValue)
      ensures Value() == v
    {
      index, term, logType, data := v.index, v.term, v.logType, v.data;
    }

    function Value(): LogValue
      reads this
    {
      LogValue(index, term, logType, data)
    }
  }

  datatype LogError = LogNotFound | TooShort | Incomplete
  datatype Outcome = Fine | Fail(error: LogError)

  const HEADER := 21

  /** The bytes of a log: index, term, type, payload length modulo 2^32, payload. */
  function Encoded(v: LogValue): (b: seq<byte>)
    ensures |b| == HEADER + |v.data|
  {
    Encode(v.index, 8) + Encode(v.term, 8) + [v.logType] + Encode(|v.data|, 4) + v.data
  }

  /** The payload length a buffer declares. */
  function DeclaredLength(b: seq<byte>): nat
    requires |b| >= HEADER
  {
    Decode(b[17..21])
  }

  datatype Decoded = Accepted(value: LogValue) | Rejected(error: LogError)

  function Decoding(b: seq<byte>): Decoded {
    if |b| < HEADER then Rejected(TooShort)
    else if |b| < HEADER + DeclaredLength(b) then Rejected(Incomplete)
    else
      HeaderFits(b);
      Accepted(LogValue(Decode(b[..8]), Decode(b[8..16]), b[16], b[HEADER..HEADER + DeclaredLength(b)]))
  }

  lemma HeaderFits(b: seq<byte>)
    requires |b| >= HEADER
    ensures Decode(b[..8]) < 0x1_0000_0000_0000_0000 && Decode(b[8..16]) < 0x1_0000_0000_0000_0000
    ensures DeclaredLength(b) < 0x1_0000_0000
  {
    KnownPowers();
    EncodeUndoesDecode(b[..8]);
    EncodeUndoesDecode(b[8..16]);
    EncodeUndoesDecode(b[17..21]);
  }

  method PutBigEndian(buf: array<byte>, offset: nat, n: nat, width: nat)
    requires offset + width <= buf.Length
    modifies buf
    ensures buf[..] == old(buf[..offset]) + Encode(n, width) + old(buf[offset + width..])
  {
    var bytes := Encode(n, width);
    forall i | 0 <= i < width {
      buf[offset + i] := bytes[i];
    }
  }

  method EncodeLog(log: RaftLog) returns (buf: array<byte>)
    ensures fresh(buf) && buf[..] == Encoded(log.Value())
  {
    buf := new byte[8 + 8 + 1 + 4 + |log.data|];
    var offset := 0;
    PutBigEndian(buf, offset, log.index, 8);
    offset := offset + 8;
    ghost var done := Encode(log.index, 8);
    assert buf[..offset] == done;
    PutBigEndian(buf, offset, log.term, 8);
    offset := offset + 8;
    done := done + Encode(log.term, 8);
    assert buf[..offset] == done;
    buf[offset] := log.logType;
    offset := offset + 1;
    done := done + [log.logType];
    assert buf[..offset] == done;
    PutBigEndian(buf, offset, |log.data|, 4);
    offset := offset + 4;
    done := done + Encode(|log.data|, 4);
    assert buf[..offset] == done;
    forall i | 0 <= i < |log.data| {
      buf[offset + i] := log.data[i];
    }
    assert buf[..offset] == done;
    assert buf[..] == buf[..offset] + buf[offset..];
  }

  /** An incomplete buffer has already overwritten index, term and type. */
  method DecodeLog(data: seq<byte>, log: RaftLog) returns (r: Outcome)
    modifies log
    ensures r == match Decoding(data) case Accepted(_) => Fine case Rejected(e) => Fail(e)
    ensures Decoding(data).Accepted? ==> log.Value() == Decoding(data).value
    ensures r == if |data| < 21 then Fail(TooShort)
                 else if |data| < 21 + Decode(data[17..21]) then Fail(Incomplete) else Fine
    ensures log.data == if r == Fine then data[21..21 + Decode(data[17..21])] else old(log.data)
    ensures |data| < HEADER ==> log.Value() == old(log.Value())
    ensures |data| >= HEADER ==>
      log.index == Decode(data[..8]) && log.term == Decode(data[8..16]) && log.logType == data[16]
  {
    if |data| < 21 {
      return Fail(TooShort);
    }
    HeaderFits(data);
    var offset := 0;
    log.index := Decode(data[offset..offset + 8]);
    offset := offset + 8;
    log.term := Decode(data[offset..offset + 8]);
    offset := offset + 8;
    log.logType := data[offset];
    offset := offset + 1;
    var dataLen := Decode(data[offset..offset + 4]);
    offset := offset + 4;
    if |data| < offset + dataLen {
      return Fail(Incomplete);
    }
    log.data := data[offset..offset + dataLen];
    r := Fine;
  }

  lemma EncodedParts(v: LogValue)
    ensures var b := Encoded(v);
      && b[..8] == Encode(v.index, 8) && b[8..16] == Encode(v.term, 8) && b[16] == v.logType
      && b[17..21] == Encode(|v.data|, 4) && b[HEADER..] == v.data
  {
  }

  /** Decoding undoes encoding for exactly the payloads whose length fits in four bytes. */
  lemma RoundTripIff(v: LogValue)
    ensures Decoding(Encoded(v)) == Accepted(v) <==> |v.data| < 0x1_0000_0000
  {
    var b := Encoded(v);
    KnownPowers();
    EncodedParts(v);
    HeaderFits(b);
    if |v.data| < 0x1_0000_0000 {
      DecodeUndoesEncode(v.index, 8);
      DecodeUndoesEncode(v.term, 8);
      DecodeUndoesEncode(|v.data|, 4);
      assert b[HEADER..HEADER + |v.data|] == v.data;
    } else if Decoding(b).Accepted? {
      assert |Decoding(b).value.data| == DeclaredLength(b) < |v.data|;
    }
  }

  /** A buffer is accepted exactly when it holds a header and the payload the header declares, and
      encoding what was decoded gives the buffer back up to bytes after the payload. */
  lemma AcceptedIff(b: seq<byte>)
    ensures Decoding(b).Accepted? <==> |b| >= HEADER && |b| >= HEADER + DeclaredLength(b)
    ensures Decoding(b).Accepted? ==> Encoded(Decoding(b).value) == b[..HEADER + DeclaredLength(b)]
  {
    if Decoding(b).Accepted? {
      EncodeUndoesDecode(b[..8]);
      EncodeUndoesDecode(b[8..16]);
      EncodeUndoesDecode(b[17..21]);
      var n := HEADER + DeclaredLength(b);
      assert b[..n] == b[..8] + b[8..16] + [b[16]] + b[17..21] + b[HEADER..n];
    }
  }

  // ---------------------------------------------------------------- the store

  function Key(index: uint64): string {
    Text(Encode(index, 8))
  }

  lemma KeyOrder(m: uint64, n: uint64)
    ensures |Key(m)| == 8
    ensures Leq(Key(m), Key(n)) <==> m <= n
    ensures Key(m) == Key(n) <==> m == n
  {
    KnownPowers();
    ByteOrderIsNumericOrder(m, n, 8);
  }

  function IndexOf(k: string): nat
    requires IsByteText(k)
  {
    Decode(Bytes(k))
  }

  lemma IndexOfKey(n: uint64)
    ensures IsByteText(Key(n)) && IndexOf(Key(n)) == n
  {
    KnownPowers();
    BytesUndoesText(Encode(n, 8));
    DecodeUndoesEncode(n, 8);
  }

  /** The bucket holds exactly these values, under the big-endian keys of their indices. */
  ghost predicate Represents(logs: map<string, seq<byte>>, values: map<uint64, seq<byte>>) {
    && (forall n :: n in values ==> Key(n) in logs && logs[Key(n)] == values[n])
    && (forall k :: k in logs ==> exists n :: n in values && k == Key(n))
  }

  lemma KeysOfRepresented(logs: map<string, seq<byte>>, values: map<uint64, seq<byte>>, n: uint64)
    requires Represents(logs, values)
    ensures Key(n) in logs <==> n in values
  {
    if Key(n) in logs {
      var m: uint64 :| m in values && Key(n) == Key(m);
      KeyOrder(n, m);
    }
  }

  /** The position is the least key of an index from `min` on that is still there. */
  ghost predicate AtLeastIndex(values: map<uint64, seq<byte>>, min: uint64, p: Position) {
    && (p.At? ==> exists n: uint64 :: n in values && p.key == Key(n) && min <= n)
    && (forall n :: n in values && min <= n ==> p.At? && Leq(p.key, Key(n)))
  }

  ghost function Values(batch: seq<RaftLog>): (r: seq<LogValue>)
    reads batch
    ensures |r| == |batch| && forall i :: 0 <= i < |batch| ==> r[i] == batch[i].Value()
  {
    seq(|batch|, i requires 0 <= i < |batch| reads batch => batch[i].Value())
  }

  /** What a batch leaves at each index: its last log for that index. */
  function Stored(batch: seq<LogValue>): map<uint64, seq<byte>> {
    if batch == [] then map[]
    else
      var last := batch[|batch| - 1];
      Stored(batch[..|batch| - 1])[last.index := Encoded(last)]
  }

  /** No later log of the batch has the same index. */
  ghost predicate IsLastAt(batch: seq<LogValue>, i: nat)
    requires i < |batch|
  {
    forall j :: i < j < |batch| ==> batch[j].index != batch[i].index
  }

  /** Of the logs with one index the last one is stored. */
  lemma {:induction false} StoredTakesLast(batch: seq<LogValue>, i: nat)
    requires i < |batch| && IsLastAt(batch, i)
    ensures batch[i].index in Stored(batch) && Stored(batch)[batch[i].index] == Encoded(batch[i])
  {
    var k := |batch| - 1;
    if i < k {
      StoredTakesLast(batch[..k], i);
    }
  }

  lemma {:induction false} StoresOnlyBatch(batch: seq<LogValue>, n: uint64)
    requires forall i :: 0 <= i < |batch| ==> batch[i].index != n
    ensures n !in Stored(batch)
  {
    if batch != [] {
      StoresOnlyBatch(batch[..|batch| - 1], n);
    }
  }

  class BoltStore {
    var logs: map<string, seq<byte>>
    /** The map from index to encoded log that the bucket stands for. */
    ghost var model: map<uint64, seq<byte>>

    ghost predicate Valid()
      reads this
    {
      Represents(logs, model)
    }

    constructor ()
      ensures Valid() && model == map[]
    {
      logs, model := map[], map[];
    }

    method FirstIndex() returns (firstIndex: nat)
      requires Valid()
      ensures model == map[] ==> firstIndex == 0
      ensures model != map[] ==> firstIndex in model && forall n :: n in model ==> firstIndex <= n
    {
      firstIndex := 0;
      var p := First(logs);
      BucketEmptyIff(logs, model);
      if p == AtEnd {
        return;
      }
      ghost var n: uint64 :| n in model && p.key == Key(n);
      IndexOfKey(n);
      forall m: uint64 | m in model ensures n <= m {
        assert Key(m) in logs;
        KeyOrder(n, m);
      }
      firstIndex := IndexOf(p.key);
    }

    method LastIndex() returns (lastIndex: nat)
      requires Valid()
      ensures model == map[] ==> lastIndex == 0
      ensures model != map[] ==> lastIndex in model && forall n :: n in model ==> n <= lastIndex
    {
      lastIndex := 0;
      var p := Last(logs);
      BucketEmptyIff(logs, model);
      if p == AtEnd {
        return;
      }
      ghost var n: uint64 :| n in model && p.key == Key(n);
      IndexOfKey(n);
      forall m: uint64 | m in model ensures m <= n {
        assert Key(m) in logs;
        KeyOrder(m, n);
      }
      lastIndex := IndexOf(p.key);
    }

    method GetLog(index: uint64, log: RaftLog) returns (r: Outcome)
      requires Valid()
      modifies log
      ensures index !in model ==> r == Fail(LogNotFound) && log.Value() == old(log.Value())
      ensures index in model ==>
        r == match Decoding(model[index]) case Accepted(_) => Fine case Rejected(e) => Fail(e)
      ensures forall v :: index in model && model[index] == Encoded(v) && |v.data| < 0x1_0000_0000 ==>
        r == Fine && log.Value() == v
    {
      var key := Key(index);
      if key !in logs {
        return Fail(LogNotFound);
      }
      ghost var n: uint64 :| n in model && key == Key(n);
      KeyOrder(index, n);
      forall v | logs[key] == Encoded(v) && |v.data| < 0x1_0000_0000
        ensures Decoding(logs[key]) == Accepted(v)
      {
        RoundTripIff(v);
      }
      r := DecodeLog(logs[key], log);
    }

    method PutLog(log: RaftLog)
      requires Valid()
      modifies this
      ensures Valid() && model == old(model)[log.index := Encoded(log.Value())]
    {
      var key := Key(log.index);
      var val := EncodeLog(log);
      PutRepresents(logs, model, log.index, val[..]);
      logs := logs[key := val[..]];
      model := model[log.index := Encoded(log.Value())];
    }

    /** The last log stored at an index wins. */
    method StoreLogs(batch: seq<RaftLog>)
      requires Valid()
      modifies this
      ensures Valid() && model == old(model) + Stored(old(Values(batch)))
    {
      ghost var values, before := Values(batch), model;
      for i := 0 to |batch|
        invariant Valid() && model == before + Stored(values[..i])
        invariant forall j :: 0 <= j < |batch| ==> batch[j].Value() == values[j]
      {
        PutLog(batch[i]);
        StoredNext(before, values, i);
      }
      assert values[..|batch|] == values;
    }

    method StoreLog(log: RaftLog)
      requires Valid()
      modifies this
      ensures Valid() && model == old(model)[log.index := Encoded(log.Value())]
    {
      ghost var v := log.Value();
      StoreLogs([log]);
      StoredNext(old(model), [v], 0);
      assert [v][..1] == [v];
    }

    /** Removes exactly the indices in [min, max], whatever the bounds. The deletions take effect
        together, when the transaction commits. */
    method DeleteRange(min: uint64, max: uint64)
      requires Valid()
      modifies this
      ensures Valid()
      ensures forall n :: n in model <==> n in old(model) && (n < min || max < n)
      ensures forall n :: n in model ==> model[n] == old(model)[n]
    {
      var bucket, left := DeleteFromBucket(logs, model, min, max);
      logs, model := bucket, left;
    }
  }

  /** The cursor loop of `DeleteRange`, on the bucket of one transaction. */
  method DeleteFromBucket(logs: map<string, seq<byte>>, ghost model: map<uint64, seq<byte>>, min: uint64, max: uint64)
    returns (bucket: map<string, seq<byte>>, ghost left: map<uint64, seq<byte>>)
    requires Represents(logs, model)
    ensures Represents(bucket, left)
    ensures forall n :: n in left <==> n in model && (n < min || max < n)
    ensures forall n: uint64 :: Key(n) in bucket <==> n in model && (n < min || max < n)
    ensures forall n :: n in left ==> left[n] == model[n]
  {
    var minKey := Key(min);
    bucket, left := logs, model;
    var p := Seek(bucket, minKey);
    SeekIndex(bucket, left, min, p);
    while p.At? && IndexOf(p.key) <= max
      invariant p.At? ==> IsByteText(p.key)
      invariant Represents(bucket, left) && AtLeastIndex(left, min, p)
      invariant OnlyRangeGone(model, left, min, max)
      decreases |bucket|
    {
      var k := p.key;
      ghost var at := IndexUnderCursor(bucket, left, min, k);
      DeleteRepresents(bucket, left, at);
      RangeShrinks(model, left, min, max, at);
      BucketShrinks(bucket, k);
      bucket := bucket - {k};
      left := left - {at};
      p := Next(bucket, k);
      NextIndex(bucket, left, min, at, p);
    }
    NothingLeftBelow(left, min, max, p);
    RangeRemoved(model, left, min, max);
    forall n: uint64 ensures Key(n) in bucket <==> n in left {
      KeysOfRepresented(bucket, left, n);
    }
  }

  /** Of the indices removed so far, none lies outside the range. */
  ghost predicate OnlyRangeGone(before: map<uint64, seq<byte>>, now: map<uint64, seq<byte>>, min: uint64, max: uint64) {
    && (forall n :: n in now ==> n in before && now[n] == before[n])
    && (forall n :: n in before && n !in now ==> min <= n <= max)
  }

  /** The index whose key the cursor stands at. */
  lemma IndexUnderCursor(logs: map<string, seq<byte>>, model: map<uint64, seq<byte>>, min: uint64, k: string)
    returns (at: uint64)
    requires Represents(logs, model) && AtLeastIndex(model, min, At(k)) && IsByteText(k)
    ensures k == Key(at) && IndexOf(k) == at && at in model && min <= at && k in logs
    ensures forall n :: n in model && min <= n ==> at <= n
  {
    at :| at in model && k == Key(at) && min <= at;
    IndexOfKey(at);
    AllAtOrAbove(model, min, at);
  }

  lemma RangeShrinks(before: map<uint64, seq<byte>>, model: map<uint64, seq<byte>>, min: uint64, max: uint64, at: uint64)
    requires OnlyRangeGone(before, model, min, max) && min <= at <= max
    ensures OnlyRangeGone(before, model - {at}, min, max)
  {
  }

  lemma BucketShrinks(logs: map<string, seq<byte>>, k: string)
    requires k in logs
    ensures |logs - {k}| < |logs|
  {
    assert (logs - {k}).Keys == logs.Keys - {k};
  }

  lemma BucketEmptyIff(logs: map<string, seq<byte>>, values: map<uint64, seq<byte>>)
    requires Represents(logs, values)
    ensures logs.Keys == {} <==> values == map[]
  {
    if values != map[] {
      var n :| n in values;
      assert Key(n) in logs;
    }
  }

  lemma StoredNext(before: map<uint64, seq<byte>>, values: seq<LogValue>, i: nat)
    requires i < |values|
    ensures before + Stored(values[..i + 1]) == (before + Stored(values[..i]))[values[i].index := Encoded(values[i])]
  {
    assert values[..i + 1][..i] == values[..i];
    assert Stored(values[..i + 1]) == Stored(values[..i])[values[i].index := Encoded(values[i])];
  }

  lemma RangeRemoved(before: map<uint64, seq<byte>>, after: map<uint64, seq<byte>>, min: uint64, max: uint64)
    requires OnlyRangeGone(before, after, min, max)
    requires forall n :: n in after ==> !(min <= n <= max)
    ensures forall n :: n in after <==> n in before && (n < min || max < n)
  {
  }

  lemma PutRepresents(logs: map<string, seq<byte>>, values: map<uint64, seq<byte>>, at: uint64, b: seq<byte>)
    requires Represents(logs, values)
    ensures Represents(logs[Key(at) := b], values[at := b])
  {
    forall n: uint64 ensures Key(n) == Key(at) <==> n == at {
      KeyOrder(n, at);
    }
    var after := logs[Key(at) := b];
    forall k | k in after.Keys
      ensures exists n :: n in values[at := b] && k == Key(n)
    {
      if k == Key(at) {
        assert at in values[at := b];
      } else {
        var n :| n in values && k == Key(n);
        assert n in values[at := b];
      }
    }
  }

  lemma DeleteRepresents(logs: map<string, seq<byte>>, values: map<uint64, seq<byte>>, at: uint64)
    requires Represents(logs, values)
    ensures Represents(logs - {Key(at)}, values - {at})
  {
    forall n: uint64 ensures Key(n) == Key(at) <==> n == at {
      KeyOrder(n, at);
    }
  }

  /** Seeking a key finds the least index at or above it. */
  lemma SeekIndex(logs: map<string, seq<byte>>, values: map<uint64, seq<byte>>, min: uint64, p: Position)
    requires Represents(logs, values) && Faces(p, KeysFrom(logs.Keys, Key(min)))
    ensures AtLeastIndex(values, min, p) && (p.At? ==> IsByteText(p.key))
  {
    if p.At? {
      assert p.key in KeysFrom(logs.Keys, Key(min));
      var n :| n in values && p.key == Key(n);
      KeyOrder(min, n);
      IndexOfKey(n);
    }
    forall n: uint64 | n in values && min <= n ensures p.At? && Leq(p.key, Key(n)) {
      KeyOrder(min, n);
      assert Key(n) in KeysFrom(logs.Keys, Key(min));
    }
  }

  lemma AllAtOrAbove(values: map<uint64, seq<byte>>, min: uint64, at: uint64)
    requires AtLeastIndex(values, min, At(Key(at)))
    ensures forall n :: n in values && min <= n ==> at <= n
  {
    forall n: uint64 | n in values && min <= n ensures at <= n {
      KeyOrder(at, n);
    }
  }

  /** After the key of `at` is gone, the next position is the least remaining index above it. */
  lemma NextIndex(logs: map<string, seq<byte>>, values: map<uint64, seq<byte>>, min: uint64, at: uint64, p: Position)
    requires Represents(logs, values) && min <= at && at !in values
    requires forall n :: n in values && min <= n ==> at <= n
    requires Faces(p, KeysAfter(logs.Keys, Key(at)))
    ensures AtLeastIndex(values, min, p) && (p.At? ==> IsByteText(p.key))
  {
    if p.At? {
      assert p.key in KeysAfter(logs.Keys, Key(at));
      var n :| n in values && p.key == Key(n);
      KeyOrder(at, n);
      IndexOfKey(n);
    }
    forall n: uint64 | n in values && min <= n ensures p.At? && Leq(p.key, Key(n)) {
      KeyOrder(at, n);
      assert Key(n) in KeysAfter(logs.Keys, Key(at));
    }
  }

  /** The loop stops with every index from min to max gone. */
  lemma NothingLeftBelow(values: map<uint64, seq<byte>>, min: uint64, max: uint64, p: Position)
    requires AtLeastIndex(values, min, p) && (p.At? ==> IsByteText(p.key) && IndexOf(p.key) > max)
    ensures forall n :: n in values ==> !(min <= n <= max)
  {
    if p.At? {
      var at: uint64 :| at in values && p.key == Key(at) && min <= at;
      IndexOfKey(at);
      AllAtOrAbove(values, min, at);
    }
  }
}
