/** `no-itu-values.py`, `read_table_file`: the entries of a table file. */
module TableFile {
  import opened Bytes
  import opened TableScan

  datatype Error = BadMagic | Truncated | TrailingBytes
  datatype Result = Ok(entries: seq<seq<int>>) | Err(error: Error)

  /** `G729TBL` and a zero byte. */
  const MAGIC: bytes := [71, 55, 50, 57, 84, 66, 76, 0]

  function Signed(n: nat): int {
    if n < 0x8000 then n else n - CAPACITY16
  }

  /** Little-endian 16-bit values. */
  function Unpacked(bs: bytes): (values: seq<int>)
    ensures |values| == |bs| / 2
  {
    if |bs| < 2 then [] else [Signed(Value(Little, bs[..2]))] + Unpacked(bs[2..])
  }

  function Prepend(entry: seq<int>, r: Result): Result {
    match r
    case Err(_) => r
    case Ok(entries) => Ok([entry] + entries)
  }

  /** `count` entries and nothing after them. */
  function ReadEntries(rest: bytes, count: nat): Result
    decreases count
  {
    if count == 0 then if rest == [] then Ok([]) else Err(TrailingBytes)
    else if |rest| < 6 then Err(Truncated)
    else
      var n := Value(Little, rest[2..6]);
      if |rest| < 6 + 2 * n then Err(Truncated)
      else Prepend(Unpacked(rest[6..6 + 2 * n]), ReadEntries(rest[6 + 2 * n..], count - 1))
  }

  function ReadTable(data: bytes): Result {
    if |data| < 12 || data[..8] != MAGIC then Err(BadMagic)
    else ReadEntries(data[12..], Value(Little, data[10..12]))
  }

  method ReadTableFile(data: bytes) returns (r: Result)
    ensures r == ReadTable(data)
  {
    hide Value, Unpacked, ReadEntries;
    if |data| < 12 || data[..8] != MAGIC {
      return Err(BadMagic);
    }
    var count := Value(Little, data[10..12]);
    var at := 12;
    var entries: seq<seq<int>> := [];
    Before([], ReadTable(data));
    for k := 0 to count
      invariant 12 <= at <= |data|
      invariant Joined(entries, ReadEntries(data[at..], count - k)) == ReadTable(data)
    {
      ReadStep(data, at, count - k);
      if at + 6 > |data| {
        return Err(Truncated);
      }
      var n := Value(Little, data[at + 2..at + 6]);
      at := at + 6;
      if at + 2 * n > |data| {
        return Err(Truncated);
      }
      var entry := Unpacked(data[at..at + 2 * n]);
      JoinedStep(entries, entry, ReadEntries(data[at + 2 * n..], count - k - 1));
      entries := entries + [entry];
      at := at + 2 * n;
    }
    ReadEnd(data[at..]);
    if at != |data| {
      return Err(TrailingBytes);
    }
    assert entries + [] == entries;
    return Ok(entries);
  }

  function Joined(entries: seq<seq<int>>, r: Result): Result {
    match r
    case Err(_) => r
    case Ok(more) => Ok(entries + more)
  }

  lemma Before(entries: seq<seq<int>>, r: Result)
    requires entries == []
    ensures Joined(entries, r) == r
  {
  }

  lemma JoinedStep(entries: seq<seq<int>>, entry: seq<int>, r: Result)
    ensures Joined(entries, Prepend(entry, r)) == Joined(entries + [entry], r)
  {
    assert r.Ok? ==> entries + ([entry] + r.entries) == (entries + [entry]) + r.entries;
  }

  lemma ReadStep(data: bytes, at: nat, count: nat)
    requires at <= |data| && count > 0
    ensures at + 6 > |data| ==> ReadEntries(data[at..], count) == Err(Truncated)
    ensures at + 6 <= |data| ==>
              var n := Value(Little, data[at + 2..at + 6]);
              && (at + 6 + 2 * n > |data| ==> ReadEntries(data[at..], count) == Err(Truncated))
              && (at + 6 + 2 * n <= |data| ==>
                    ReadEntries(data[at..], count) ==
                    Prepend(Unpacked(data[at + 6..at + 6 + 2 * n]), ReadEntries(data[at + 6 + 2 * n..], count - 1)))
  {
    hide Value, Unpacked;
    var rest := data[at..];
    if at + 6 <= |data| {
      assert rest[2..6] == data[at + 2..at + 6];
      var n := Value(Little, data[at + 2..at + 6]);
      if at + 6 + 2 * n <= |data| {
        assert rest[6..6 + 2 * n] == data[at + 6..at + 6 + 2 * n];
        assert rest[6 + 2 * n..] == data[at + 6 + 2 * n..];
      }
    }
  }

  lemma ReadEnd(rest: bytes)
    ensures ReadEntries(rest, 0) == if rest == [] then Ok([]) else Err(TrailingBytes)
  {
  }

  // ---------------------------------------------------------------- the layout

  /** An entry as the importer writes it: its index, its length and its values. */
  function EntryBytes(index: nat, values: seq<int>): bytes {
    Put(Little, 2, index) + Put(Little, 4, |values|) + PackedAll(Le16, values)
  }

  function EntriesBytes(indices: seq<nat>, entries: seq<seq<int>>): bytes
    requires |indices| == |entries|
  {
    if entries == [] then [] else EntryBytes(indices[0], entries[0]) + EntriesBytes(indices[1..], entries[1..])
  }

  /** A whole table file. */
  function TableBytes(version: nat, indices: seq<nat>, entries: seq<seq<int>>): bytes
    requires |indices| == |entries|
  {
    MAGIC + Put(Little, 2, version) + Put(Little, 2, |entries|) + EntriesBytes(indices, entries)
  }

  ghost predicate Storable(entries: seq<seq<int>>) {
    && |entries| < CAPACITY16
    && (forall i :: 0 <= i < |entries| ==> |entries[i]| < CAPACITY32 && Values16(entries[i]))
  }

  predicate Values16(values: seq<int>) {
    forall k :: 0 <= k < |values| ==> Fits16(values[k])
  }

  lemma SignedOfPacked(v: int)
    requires Fits16(v)
    ensures Signed(Value(Little, Packed(Le16, v))) == v
  {
    Capacities();
    ValueOfPut(Little, 2, v % Capacity(2));
  }

  lemma PackedOfSigned(bs: bytes)
    requires |bs| == 2
    ensures Packed(Le16, Signed(Value(Little, bs))) == bs && Fits16(Signed(Value(Little, bs)))
  {
    Capacities();
    PutOfValue(Little, bs);
    var n := Value(Little, bs);
    assert Signed(n) % CAPACITY16 == n;
  }

  lemma {:induction false} UnpackedOfPacked(values: seq<int>)
    requires Values16(values)
    ensures Unpacked(PackedAll(Le16, values)) == values
  {
    hide Value, Packed, Signed;
    if values != [] {
      UnpackedOfPacked(values[1..]);
      SignedOfPacked(values[0]);
      var head, tail := Packed(Le16, values[0]), PackedAll(Le16, values[1..]);
      assert (head + tail)[..2] == head && (head + tail)[2..] == tail;
    }
  }

  lemma {:induction false} PackedOfUnpacked(bs: bytes)
    requires |bs| % 2 == 0
    ensures PackedAll(Le16, Unpacked(bs)) == bs && Values16(Unpacked(bs))
  {
    hide Value, Packed, Signed, Fits16;
    if |bs| >= 2 {
      PackedOfUnpacked(bs[2..]);
      PackedOfSigned(bs[..2]);
      assert bs[..2] + bs[2..] == bs;
      assert Unpacked(bs)[1..] == Unpacked(bs[2..]);
    }
  }

  /** Entries written are the entries read. */
  lemma {:induction false} ReadOfWritten(indices: seq<nat>, entries: seq<seq<int>>)
    requires |indices| == |entries| && forall i :: 0 <= i < |entries| ==>
             |entries[i]| < CAPACITY32 && Values16(entries[i])
    ensures ReadEntries(EntriesBytes(indices, entries), |entries|) == Ok(entries)
  {
    hide Value, Put, PackedAll, Unpacked, Values16;
    if entries != [] {
      var rest := EntriesBytes(indices[1..], entries[1..]);
      ReadOfWritten(indices[1..], entries[1..]);
      EntryComesBack(indices[0], entries[0], rest, |entries| - 1);
    }
  }

  lemma EntryComesBack(index: nat, values: seq<int>, rest: bytes, count: nat)
    requires |values| < CAPACITY32 && Values16(values)
    ensures ReadEntries(EntryBytes(index, values) + rest, count + 1) == Prepend(values, ReadEntries(rest, count))
  {
    hide Value, Put, PackedAll, Unpacked, Values16;
    Capacities();
    ValueOfPut(Little, 4, |values|);
    UnpackedOfPacked(values);
    var a, n, p := Put(Little, 2, index), Put(Little, 4, |values|), PackedAll(Le16, values);
    var all := EntryBytes(index, values) + rest;
    assert |p| == 2 * |values|;
    assert all[2..6] == n;
    assert all[6..6 + 2 * |values|] == p;
    assert all[6 + 2 * |values|..] == rest;
  }

  /** What the reader accepts it accepts as the layout says, for some version and indices. */
  lemma {:induction false} AcceptedIsWritten(rest: bytes, count: nat) returns (indices: seq<nat>)
    requires ReadEntries(rest, count).Ok?
    ensures var entries := ReadEntries(rest, count).entries;
            && |entries| == count == |indices|
            && (forall i :: 0 <= i < count ==> |entries[i]| < CAPACITY32 && Values16(entries[i]))
            && rest == EntriesBytes(indices, entries)
    decreases count
  {
    hide Value, Put, PackedAll, Unpacked, Values16;
    if count == 0 {
      return [];
    }
    var n := Value(Little, rest[2..6]);
    var more := AcceptedIsWritten(rest[6 + 2 * n..], count - 1);
    var entry := Unpacked(rest[6..6 + 2 * n]);
    indices := [Value(Little, rest[..2])] + more;
    EntryIsWritten(rest, n);
    var entries := ReadEntries(rest, count).entries;
    assert entries == [entry] + entries[1..];
    assert indices[1..] == more;
    assert rest == rest[..6 + 2 * n] + rest[6 + 2 * n..];
  }

  lemma EntryIsWritten(rest: bytes, n: nat)
    requires |rest| >= 6 + 2 * n && n == Value(Little, rest[2..6])
    ensures var entry := Unpacked(rest[6..6 + 2 * n]);
            && |entry| == n < CAPACITY32 && Values16(entry)
            && EntryBytes(Value(Little, rest[..2]), entry) == rest[..6 + 2 * n]
  {
    hide Value, Put, PackedAll, Unpacked, Values16;
    Capacities();
    PutOfValue(Little, rest[..2]);
    PutOfValue(Little, rest[2..6]);
    PackedOfUnpacked(rest[6..6 + 2 * n]);
    assert rest[..2] + rest[2..6] + rest[6..6 + 2 * n] == rest[..6 + 2 * n];
  }

  /** A table file is read back as the entries that were written, whatever the version and indices. */
  lemma TableRoundTrip(version: nat, indices: seq<nat>, entries: seq<seq<int>>)
    requires |indices| == |entries| && Storable(entries)
    ensures ReadTable(TableBytes(version, indices, entries)) == Ok(entries)
  {
    hide Value, Put, EntriesBytes, ReadEntries, Values16;
    Capacities();
    ValueOfPut(Little, 2, |entries|);
    ReadOfWritten(indices, entries);
    var data := TableBytes(version, indices, entries);
    assert data[..8] == MAGIC;
    assert data[10..12] == Put(Little, 2, |entries|);
    assert data[12..] == EntriesBytes(indices, entries);
  }

  /** The reader accepts exactly the files laid out so: anything cut short, or with a byte too many, is
      refused. */
  lemma AcceptsOnlyTables(data: bytes) returns (version: nat, indices: seq<nat>)
    requires ReadTable(data).Ok?
    ensures var entries := ReadTable(data).entries;
            Storable(entries) && |indices| == |entries| && data == TableBytes(version, indices, entries)
  {
    hide Value, Put, EntriesBytes, ReadEntries, Values16;
    Capacities();
    version := Value(Little, data[8..10]);
    PutOfValue(Little, data[8..10]);
    PutOfValue(Little, data[10..12]);
    indices := AcceptedIsWritten(data[12..], Value(Little, data[10..12]));
    assert data == data[..8] + data[8..10] + data[10..12] + data[12..];
  }
}
