/** RunLengthEncoding (main.py:251-306): byte 255 escapes a (count, value) run record. */
module RunLength {
  import opened Bytes

  /** The escape marker that opens a run record; the bodies below write it as the literal 255. */
  const ESCAPE: Byte := 255

  /** The inner counting loop (main.py:261-265): with `count` bytes equal to data[i] counted,
      extend while the next byte equals data[i] and the cap of 255 is not reached. */
  function RunFrom(data: seq<Byte>, i: nat, count: nat): (r: nat)
    requires i < |data| && 1 <= count <= |data| - i && count <= 255
    decreases 255 - count
    ensures count <= r <= |data| - i && r <= 255
  {
    if i + count < |data| && data[i + count] == data[i] && count < 255 then
      RunFrom(data, i, count + 1)
    else count
  }

  /** How one byte of a short run is written: itself, or (255, 1, 255) for the marker value. */
  function LiteralByte(v: Byte): (r: seq<Byte>)
  {
    if v == 255 then [255, 1, 255] else [v]
  }

  /** The inner `for` loop of main.py:273-279: n single bytes of value v. */
  function ShortRun(v: Byte, n: nat): (r: seq<Byte>)
    ensures |r| == if v == 255 then 3 * n else n
  {
    if n == 0 then []
    else if n == 1 then LiteralByte(v)
    else ShortRun(v, n - 1) + LiteralByte(v)
  }

  /** What one iteration of the outer loop writes for a run of `count` bytes of value v
      (main.py:267-279): a record for 4 or more, single bytes otherwise. */
  function RunChunk(v: Byte, count: nat): (r: seq<Byte>)
    requires count <= 255
  {
    if count >= 4 then [255, count as Byte, v] else ShortRun(v, count)
  }

  /** The bytes `compress` writes for data[i..] (main.py:259-281). */
  function EncodedFrom(data: seq<Byte>, i: nat): (r: seq<Byte>)
    requires i <= |data|
    decreases |data| - i
  {
    if i == |data| then []
    else
      var count := RunFrom(data, i, 1);
      RunChunk(data[i], count) + EncodedFrom(data, i + count)
  }

  /** One step of EncodedFrom: the run at i, then what follows it. */
  lemma EncodedFromStep(data: seq<Byte>, i: nat)
    requires i < |data|
    ensures EncodedFrom(data, i)
         == RunChunk(data[i], RunFrom(data, i, 1)) + EncodedFrom(data, i + RunFrom(data, i, 1))
  {
  }

  /** The bytes `compress` produces for `data` (main.py:252-284). */
  function Encoded(data: seq<Byte>): (r: seq<Byte>)
  {
    EncodedFrom(data, 0)
  }

  /** What the loop of `decompress` (main.py:293-304) appends from position i on: a marker with
      at least two bytes after it expands to `count` copies of `value`; any other byte,
      a marker too close to the end included, is copied. */
  function DecodedFrom(payload: seq<Byte>, i: nat): (r: seq<Byte>)
    requires i <= |payload|
    decreases |payload| - i
  {
    if i == |payload| then []
    else if payload[i] == 255 && i + 2 < |payload| then
      Repeat(payload[i + 2], payload[i + 1]) + DecodedFrom(payload, i + 3)
    else [payload[i]] + DecodedFrom(payload, i + 1)
  }

  /** The bytes `decompress` produces for `payload` (main.py:286-306). */
  function Decoded(payload: seq<Byte>): (r: seq<Byte>)
  {
    DecodedFrom(payload, 0)
  }

  /** `RunLengthEncoding.compress`; the metadata holds only the original length. */
  method Compress(data: seq<Byte>) returns (compressed: seq<Byte>, originalLength: nat)
    ensures compressed == Encoded(data)
    ensures Decoded(compressed) == data
    ensures originalLength == |data|
  {
    if |data| == 0 {
      return [], 0;
    }
    compressed := EncodeRuns(data);
    RoundTrip(data);
    originalLength := |data|;
  }

  /** The outer loop of main.py:259-281. */
  method EncodeRuns(data: seq<Byte>) returns (compressed: seq<Byte>)
    ensures compressed == Encoded(data)
  {
    compressed := [];
    var i := 0;
    while i < |data|
      invariant 0 <= i <= |data|
      invariant i == 0 ==> compressed == []
      invariant 0 < i ==> compressed + EncodedFrom(data, i) == Encoded(data)
    {
      var count := CountRun(data, i);
      ghost var before := compressed;
      compressed := AppendRun(compressed, data[i], count);
      EncodedFromStep(data, i);
      if i == 0 {
        assert compressed == RunChunk(data[i], count);
      } else {
        AppendAssoc(before, RunChunk(data[i], count), EncodedFrom(data, i + count));
      }
      i := i + count;
    }
    if i == 0 {
      assert Encoded(data) == [];
    } else {
      AppendEmpty(compressed);
    }
  }

  /** Counts the bytes equal to data[i] from i on, at most 255 (main.py:260-265). */
  method CountRun(data: seq<Byte>, i: nat) returns (count: nat)
    requires i < |data|
    ensures count == RunFrom(data, i, 1)
  {
    count := 1;
    while i + count < |data| && data[i + count] == data[i] && count < 255
      invariant 1 <= count <= |data| - i && count <= 255
      invariant RunFrom(data, i, count) == RunFrom(data, i, 1)
    {
      count := count + 1;
    }
  }

  /** Writes a run of `count` bytes of value v after `out` (main.py:267-279). */
  method AppendRun(out: seq<Byte>, v: Byte, count: nat) returns (r: seq<Byte>)
    requires count <= 255
    ensures r == out + RunChunk(v, count)
  {
    r := out;
    if count >= 4 {
      r := r + [ESCAPE, count as Byte, v];
    } else {
      for k := 0 to count
        invariant r == out + ShortRun(v, k)
      {
        if v == ESCAPE {
          r := r + [ESCAPE, 1, ESCAPE];
        } else {
          r := r + [v];
        }
      }
    }
  }

  /** `RunLengthEncoding.decompress`; the metadata is not consulted. */
  method Decompress(compressed: seq<Byte>) returns (decompressed: seq<Byte>)
    ensures decompressed == Decoded(compressed)
  {
    if |compressed| == 0 {
      return [];
    }
    decompressed := [];
    var i := 0;
    while i < |compressed|
      invariant 0 <= i <= |compressed|
      invariant decompressed + DecodedFrom(compressed, i) == Decoded(compressed)
    {
      if compressed[i] == ESCAPE && i + 2 < |compressed| {
        var count := compressed[i + 1];
        var byteValue := compressed[i + 2];
        AppendAssoc(decompressed, Repeat(byteValue, count), DecodedFrom(compressed, i + 3));
        decompressed := decompressed + Repeat(byteValue, count);
        i := i + 3;
      } else {
        AppendAssoc(decompressed, [compressed[i]], DecodedFrom(compressed, i + 1));
        decompressed := decompressed + [compressed[i]];
        i := i + 1;
      }
    }
  }

  /** Decoding does not look at the bytes before the position it starts from. */
  lemma {:induction false} DecodedFromShift(p: seq<Byte>, q: seq<Byte>, i: nat)
    requires i <= |q|
    ensures DecodedFrom(p + q, |p| + i) == DecodedFrom(q, i)
    decreases |q| - i
  {
    if i < |q| {
      var pq := p + q;
      assert pq[|p| + i] == q[i];
      if q[i] == 255 && i + 2 < |q| {
        assert pq[|p| + i + 1] == q[i + 1] && pq[|p| + i + 2] == q[i + 2];
        calc {
          DecodedFrom(pq, |p| + i);
          Repeat(q[i + 2], q[i + 1]) + DecodedFrom(pq, |p| + (i + 3));
          { DecodedFromShift(p, q, i + 3); }
          Repeat(q[i + 2], q[i + 1]) + DecodedFrom(q, i + 3);
        }
      } else {
        calc {
          DecodedFrom(pq, |p| + i);
          [q[i]] + DecodedFrom(pq, |p| + (i + 1));
          { DecodedFromShift(p, q, i + 1); }
          [q[i]] + DecodedFrom(q, i + 1);
        }
      }
    }
  }

  /** Decoding a single literal (or its escaped form) gives back the byte. */
  lemma DecodedLiteral(v: Byte, rest: seq<Byte>)
    ensures Decoded(LiteralByte(v) + rest) == [v] + Decoded(rest)
  {
    DecodedFromShift(LiteralByte(v), rest, 0);
    if v == 255 {
      assert Repeat(255, 1) == [255];
    }
  }

  /** Decoding a short run gives back its bytes. */
  lemma {:induction false} DecodedShortRun(v: Byte, n: nat, rest: seq<Byte>)
    ensures Decoded(ShortRun(v, n) + rest) == Repeat(v, n) + Decoded(rest)
  {
    if n == 0 {
      AppendEmpty(rest);
      AppendEmpty(Decoded(rest));
    } else if n == 1 {
      DecodedLiteral(v, rest);
      assert Repeat(v, 1) == [v];
    } else {
      calc {
        Decoded(ShortRun(v, n) + rest);
        { AppendAssoc(ShortRun(v, n - 1), LiteralByte(v), rest); }
        Decoded(ShortRun(v, n - 1) + (LiteralByte(v) + rest));
        { DecodedShortRun(v, n - 1, LiteralByte(v) + rest); }
        Repeat(v, n - 1) + Decoded(LiteralByte(v) + rest);
        { DecodedLiteral(v, rest); }
        Repeat(v, n - 1) + ([v] + Decoded(rest));
        { AppendAssoc(Repeat(v, n - 1), [v], Decoded(rest)); RepeatSnoc(v, n - 1); }
        Repeat(v, n) + Decoded(rest);
      }
    }
  }

  /** Decoding a run record gives back the run. */
  lemma DecodedRecord(count: Byte, v: Byte, rest: seq<Byte>)
    ensures Decoded([255, count, v] + rest) == Repeat(v, count) + Decoded(rest)
  {
    DecodedFromShift([255, count, v], rest, 0);
  }

  /** Decoding what one run was written as gives back the run. */
  lemma DecodedChunk(v: Byte, count: nat, rest: seq<Byte>)
    requires count <= 255
    ensures Decoded(RunChunk(v, count) + rest) == Repeat(v, count) + Decoded(rest)
  {
    if count >= 4 {
      DecodedRecord(count as Byte, v, rest);
    } else {
      DecodedShortRun(v, count, rest);
    }
  }

  /** The run counted from i is a maximal run of bytes equal to data[i], capped at 255. */
  lemma {:induction false} RunFromIsRun(data: seq<Byte>, i: nat, count: nat)
    requires i < |data| && 1 <= count <= |data| - i && count <= 255
    ensures var r := RunFrom(data, i, count);
            && (forall k :: i + count <= k < i + r ==> data[k] == data[i])
            && (i + r < |data| && r < 255 ==> data[i + r] != data[i])
    decreases 255 - count
  {
    if i + count < |data| && data[i + count] == data[i] && count < 255 {
      RunFromIsRun(data, i, count + 1);
    }
  }

  /** A run of equal bytes at i splits data[i..] into a repetition and what follows. */
  lemma RunSplit(data: seq<Byte>, i: nat, n: nat)
    requires i + n <= |data| && 0 < n
    requires forall k :: i <= k < i + n ==> data[k] == data[i]
    ensures data[i..] == Repeat(data[i], n) + data[i + n..]
  {
  }

  /** Decoding what was written for data[i..] gives back data[i..]. */
  lemma {:induction false} RoundTripFrom(data: seq<Byte>, i: nat)
    requires i <= |data|
    ensures Decoded(EncodedFrom(data, i)) == data[i..]
    decreases |data| - i
  {
    if i < |data| {
      var count := RunFrom(data, i, 1);
      var tail := EncodedFrom(data, i + count);
      assert EncodedFrom(data, i) == RunChunk(data[i], count) + tail;
      DecodedChunk(data[i], count, tail);
      RoundTripFrom(data, i + count);
      RunFromIsRun(data, i, 1);
      RunSplit(data, i, count);
    }
  }

  /** Round trip: every input, including bytes of value 255, is restored exactly. */
  lemma RoundTrip(data: seq<Byte>)
    ensures Decoded(Encoded(data)) == data
  {
    RoundTripFrom(data, 0);
  }

  /** n bytes of value v start at i and are not followed by another v. */
  ghost predicate RunAt(data: seq<Byte>, i: nat, n: nat, v: Byte)
  {
    && 1 <= n && i + n <= |data|
    && (forall k :: i <= k < i + n ==> data[k] == v)
    && (i + n < |data| ==> data[i + n] != v)
  }

  /** The counting loop stops at the end of a run, or after 255 bytes. */
  lemma {:induction false} RunFromOfRun(data: seq<Byte>, i: nat, n: nat, v: Byte, count: nat)
    requires RunAt(data, i, n, v)
    requires 1 <= count <= n && count <= 255
    ensures RunFrom(data, i, count) == if n <= 255 then n else 255
    decreases 255 - count
  {
    assert data[i] == v;
    if count < n && count < 255 {
      assert data[i + count] == v;
      RunFromOfRun(data, i, n, v, count + 1);
    }
  }

  /** A run of 4 to 255 equal bytes becomes exactly one record (255, count, value). */
  lemma RunBecomesOneRecord(data: seq<Byte>, i: nat, n: nat, v: Byte)
    requires RunAt(data, i, n, v) && 4 <= n <= 255
    ensures EncodedFrom(data, i) == [ESCAPE, n as Byte, v] + EncodedFrom(data, i + n)
  {
    RunFromOfRun(data, i, n, v, 1);
    EncodedFromStep(data, i);
    assert data[i] == v;
  }

  /** A run longer than 255 bytes starts with a full record of 255; the rest of it is
      again a run, written from position i + 255 on. */
  lemma LongRunSplits(data: seq<Byte>, i: nat, n: nat, v: Byte)
    requires RunAt(data, i, n, v) && 255 < n
    ensures EncodedFrom(data, i) == [ESCAPE, 255, v] + EncodedFrom(data, i + 255)
    ensures RunAt(data, i + 255, n - 255, v)
  {
    RunFromOfRun(data, i, n, v, 1);
    EncodedFromStep(data, i);
    assert data[i] == v;
  }

  /** A run of 1 to 3 bytes is written byte by byte (255 escaped as (255, 1, 255)). */
  lemma ShortRunIsLiteral(data: seq<Byte>, i: nat, n: nat, v: Byte)
    requires RunAt(data, i, n, v) && n <= 3
    ensures EncodedFrom(data, i) == ShortRun(v, n) + EncodedFrom(data, i + n)
  {
    RunFromOfRun(data, i, n, v, 1);
    assert RunFrom(data, i, 1) == n;
    EncodedFromStep(data, i);
    assert data[i] == v;
    assert RunChunk(v, n) == ShortRun(v, n);
  }

  /** A short run of a byte other than 255 is written unchanged. */
  lemma {:induction false} ShortRunOfPlainByte(v: Byte, n: nat)
    requires v != ESCAPE
    ensures ShortRun(v, n) == Repeat(v, n)
  {
    if n > 0 {
      ShortRunOfPlainByte(v, n - 1);
      RepeatSnoc(v, n - 1);
    }
  }

  /** Compression expands by at most a factor of 3 (every byte 255, in runs of 1 to 3). */
  lemma {:induction false} EncodedFromLength(data: seq<Byte>, i: nat)
    requires i <= |data|
    ensures |EncodedFrom(data, i)| <= 3 * (|data| - i)
    decreases |data| - i
  {
    if i < |data| {
      var count := RunFrom(data, i, 1);
      EncodedFromStep(data, i);
      ChunkLength(data[i], count);
      EncodedFromLength(data, i + count);
    }
  }

  /** One run of `count` bytes is written in at most 3 * count bytes. */
  lemma ChunkLength(v: Byte, count: nat)
    requires count <= 255
    ensures |RunChunk(v, count)| <= 3 * count
    ensures 4 <= count ==> |RunChunk(v, count)| == 3
  {
  }

  /** b"AAAABBBBCCCC" is written as three records, 9 bytes in all. */
  lemma TwelveBytesExample()
    ensures var d := Repeat(65, 4) + Repeat(66, 4) + Repeat(67, 4);
            && Encoded(d) == [ESCAPE, 4, 65] + [ESCAPE, 4, 66] + [ESCAPE, 4, 67]
            && |Encoded(d)| == 9
  {
    var d := Repeat(65, 4) + Repeat(66, 4) + Repeat(67, 4);
    var a: seq<Byte>, b: seq<Byte>, c: seq<Byte> := [ESCAPE, 4, 65], [ESCAPE, 4, 66], [ESCAPE, 4, 67];
    assert EncodedFrom(d, 8) == c by {
      assert RunAt(d, 8, 4, 67);
      RunBecomesOneRecord(d, 8, 4, 67);
      assert EncodedFrom(d, 12) == [];
      AppendEmpty(c);
    }
    assert EncodedFrom(d, 4) == b + c by {
      assert RunAt(d, 4, 4, 66);
      RunBecomesOneRecord(d, 4, 4, 66);
    }
    assert EncodedFrom(d, 0) == a + (b + c) by {
      assert RunAt(d, 0, 4, 65);
      RunBecomesOneRecord(d, 0, 4, 65);
    }
    AppendAssoc(a, b, c);
  }

  /** Once decoding reaches a position with at most two bytes left, it copies them as they
      are: a 255 there is not read as a record, and no error is reported. */
  lemma {:induction false} TruncatedTail(p: seq<Byte>, i: nat)
    requires i <= |p| <= i + 2
    ensures DecodedFrom(p, i) == p[i..]
    decreases |p| - i
  {
    if i < |p| {
      TruncatedTail(p, i + 1);
      assert p[i..] == [p[i]] + p[i + 1..];
    }
  }

  /** A marker with fewer than two bytes after it is copied as an ordinary byte, without error. */
  lemma TruncatedMarkerIsLiteral(x: Byte)
    ensures Decoded([ESCAPE]) == [ESCAPE]
    ensures Decoded([ESCAPE, x]) == [ESCAPE, x]
  {
    TruncatedTail([ESCAPE], 0);
    TruncatedTail([ESCAPE, x], 0);
  }
}
