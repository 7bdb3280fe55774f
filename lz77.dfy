/** LZ77 (main.py:165-245): a sliding-window compressor emitting (offset, length, next byte)
    triples packed into four bytes each, and the decoder that replays them. */
module LZ77 {
  import opened Bytes

  /** The defaults of `LZ77.__init__` (main.py:166-168). */
  const WINDOW_SIZE: nat := 4096
  const LOOK_AHEAD_SIZE: nat := 18
  /** A match is used only from this length on (main.py:197). */
  const MIN_MATCH: nat := 3

  /** One element of `compressed` (main.py:199, 202): a literal is (0, 0, byte). */
  datatype Token = Token(offset: nat, length: nat, next: Byte)

  /** The best match found so far by the search loop (main.py:178-195). */
  datatype Match = Match(length: nat, offset: nat)

  // ---------------------------------------------------------------------------------------
  // Match search (main.py:181-195)

  /** `max(0, i - window_size)`: the first window position. */
  function WindowStart(i: nat): (r: nat)
  {
    if i > WINDOW_SIZE then i - WINDOW_SIZE else 0
  }

  /** `min(look_ahead_size, len(data) - i)`. */
  function MaxLength(data: seq<Byte>, i: nat): (r: nat)
    requires i <= |data|
  {
    if LOOK_AHEAD_SIZE < |data| - i then LOOK_AHEAD_SIZE else |data| - i
  }

  /** The inner `while` (main.py:188-191) continued from `length`. */
  function MatchFrom(data: seq<Byte>, i: nat, j: nat, maxLen: nat, length: nat): (r: nat)
    requires j < i < |data| && length <= maxLen
    ensures length <= r <= maxLen
    decreases maxLen - length
  {
    if length < maxLen && i + length < |data| && data[j + length] == data[i + length] then
      MatchFrom(data, i, j, maxLen, length + 1)
    else length
  }

  /** How far the bytes from window position j agree with those from i, up to maxLen. */
  function MatchLength(data: seq<Byte>, i: nat, j: nat, maxLen: nat): (r: nat)
    requires j < i < |data|
    ensures r <= maxLen
  {
    MatchFrom(data, i, j, maxLen, 0)
  }

  /** The `for j in range(start, i)` loop from position j on, keeping the first longest match. */
  function BestFrom(data: seq<Byte>, i: nat, j: nat, maxLen: nat, best: Match): (r: Match)
    requires j <= i < |data| && best.length <= maxLen
    ensures r.length <= maxLen
    decreases i - j
  {
    if j == i then best
    else
      var length := MatchLength(data, i, j, maxLen);
      BestFrom(data, i, j + 1, maxLen, if length > best.length then Match(length, i - j) else best)
  }

  /** The match the compressor finds at position i. */
  function LongestMatch(data: seq<Byte>, i: nat): (r: Match)
    requires i < |data|
    ensures r.length <= MaxLength(data, i)
  {
    BestFrom(data, i, WindowStart(i), MaxLength(data, i), Match(0, 0))
  }

  /** The bytes from window position j equal those from i over `length` bytes. */
  ghost predicate Agree(data: seq<Byte>, i: nat, j: nat, length: nat)
    requires j < i && i + length <= |data|
  {
    forall k :: j <= k < j + length ==> data[k] == data[k + (i - j)]
  }

  /** A match length is a run of agreeing bytes that stops at a disagreement, at the look-ahead
      limit or at the end of the input. */
  lemma {:induction false} MatchFromAgrees(data: seq<Byte>, i: nat, j: nat, maxLen: nat, length: nat)
    requires j < i < |data| && length <= maxLen <= |data| - i
    requires Agree(data, i, j, length)
    ensures var r := MatchFrom(data, i, j, maxLen, length);
      && Agree(data, i, j, r)
      && (r < maxLen ==> data[j + r] != data[i + r])
    decreases maxLen - length
  {
    if length < maxLen && data[j + length] == data[i + length] {
      assert Agree(data, i, j, length + 1) by {
        forall k | j <= k < j + length + 1 ensures data[k] == data[k + (i - j)] {
          if k == j + length {
            assert k + (i - j) == i + length;
          }
        }
      }
      MatchFromAgrees(data, i, j, maxLen, length + 1);
    }
  }

  /** m is what the search over window positions lo..hi-1 keeps: no position matches longer,
      and a non-empty m is the first position with the longest match. */
  ghost predicate IsBest(data: seq<Byte>, i: nat, lo: nat, hi: nat, maxLen: nat, m: Match)
    requires lo <= hi <= i < |data|
  {
    && (forall j :: lo <= j < hi ==> MatchLength(data, i, j, maxLen) <= m.length)
    && (m.length == 0 ==> m.offset == 0)
    && (m.length > 0 ==>
          && 0 < m.offset <= i - lo && i - m.offset < hi
          && MatchLength(data, i, i - m.offset, maxLen) == m.length
          && forall j :: lo <= j < i - m.offset ==> MatchLength(data, i, j, maxLen) < m.length)
  }

  lemma {:induction false} BestFromIsBest(data: seq<Byte>, i: nat, lo: nat, j: nat, maxLen: nat, best: Match)
    requires lo <= j <= i < |data| && best.length <= maxLen
    requires IsBest(data, i, lo, j, maxLen, best)
    ensures IsBest(data, i, lo, i, maxLen, BestFrom(data, i, j, maxLen, best))
    decreases i - j
  {
    if j < i {
      var length := MatchLength(data, i, j, maxLen);
      var next := if length > best.length then Match(length, i - j) else best;
      assert IsBest(data, i, lo, j + 1, maxLen, next);
      BestFromIsBest(data, i, lo, j + 1, maxLen, next);
    }
  }

  /** The match found at i is a longest one in the window (earliest position on a tie), lies
      within the window and the look-ahead, and its bytes agree with those at i. */
  lemma LongestMatchIsLongest(data: seq<Byte>, i: nat)
    requires i < |data|
    ensures var m := LongestMatch(data, i);
      && IsBest(data, i, WindowStart(i), i, MaxLength(data, i), m)
      && m.length <= MaxLength(data, i) <= LOOK_AHEAD_SIZE
      && (m.length > 0 ==> 0 < m.offset <= WINDOW_SIZE && m.offset <= i && Agree(data, i, i - m.offset, m.length))
  {
    var m := LongestMatch(data, i);
    BestFromIsBest(data, i, WindowStart(i), WindowStart(i), MaxLength(data, i), Match(0, 0));
    if m.length > 0 {
      MatchFromAgrees(data, i, i - m.offset, MaxLength(data, i), 0);
    }
  }

  // ---------------------------------------------------------------------------------------
  // Tokens (main.py:177-203)

  /** The token appended at position i. */
  function TokenAt(data: seq<Byte>, i: nat): (t: Token)
    requires i < |data|
  {
    var m := LongestMatch(data, i);
    if m.length >= MIN_MATCH then
      Token(m.offset, m.length, if i + m.length < |data| then data[i + m.length] else 0)
    else Token(0, 0, data[i])
  }

  /** The position after the token at i. */
  function Advance(data: seq<Byte>, i: nat): (r: nat)
    requires i < |data|
    ensures i < r <= |data|
  {
    var m := LongestMatch(data, i);
    if m.length >= MIN_MATCH then i + m.length + (if i + m.length < |data| then 1 else 0)
    else i + 1
  }

  /** The tokens of data[i..]. */
  function TokensFrom(data: seq<Byte>, i: nat): (r: seq<Token>)
    requires i <= |data|
    decreases |data| - i
  {
    if i == |data| then [] else [TokenAt(data, i)] + TokensFrom(data, Advance(data, i))
  }

  /** A token the compressor can emit: a literal, or a match of 3 to 18 bytes at most
      `window_size` back. */
  ghost predicate Emittable(t: Token)
  {
    (t.offset == 0 && t.length == 0)
    || (0 < t.offset <= WINDOW_SIZE && MIN_MATCH <= t.length <= LOOK_AHEAD_SIZE)
  }

  /** The token at i is emittable, a match reaches no further back than the data read so far
      nor beyond its end, and a literal carries data[i]. */
  lemma TokenAtEmittable(data: seq<Byte>, i: nat)
    requires i < |data|
    ensures Emittable(TokenAt(data, i))
    ensures TokenAt(data, i).length <= |data| - i && TokenAt(data, i).offset <= i
    ensures TokenAt(data, i).length == 0 ==> TokenAt(data, i) == Token(0, 0, data[i])
  {
    LongestMatchIsLongest(data, i);
  }

  lemma {:induction false} TokensEmittable(data: seq<Byte>, i: nat)
    requires i <= |data|
    ensures forall k :: 0 <= k < |TokensFrom(data, i)| ==> Emittable(TokensFrom(data, i)[k])
    decreases |data| - i
  {
    if i < |data| {
      TokenAtEmittable(data, i);
      TokensEmittable(data, Advance(data, i));
      var rest := TokensFrom(data, Advance(data, i));
      assert forall k :: 1 <= k < |TokensFrom(data, i)| ==> TokensFrom(data, i)[k] == rest[k - 1];
    }
  }

  // ---------------------------------------------------------------------------------------
  // Serialization (main.py:205-217)

  /** The four bytes of a token: offset high and low byte, length, next byte. */
  function Record(t: Token): (r: seq<Byte>)
    ensures |r| == 4
  {
    [(t.offset / 256) % 256, t.offset % 256, t.length % 256, t.next]
  }

  function Serialize(tokens: seq<Token>): (r: seq<Byte>)
    ensures |r| == 4 * |tokens|
  {
    if |tokens| == 0 then [] else Record(tokens[0]) + Serialize(tokens[1..])
  }

  /** The payload and `original_length` that `compress` returns. */
  function Compressed(data: seq<Byte>): (r: (seq<Byte>, nat))
  {
    if |data| == 0 then ([], 0) else (Serialize(TokensFrom(data, 0)), |data|)
  }

  // ---------------------------------------------------------------------------------------
  // Decoding (main.py:219-245)

  /** The copy loop (main.py:234-237) from step j on, `start` being `len - offset` at its start:
      a source position outside the output so far is skipped. */
  function CopyFrom(out: seq<Byte>, start: int, j: nat, length: nat): (r: seq<Byte>)
    requires j <= length
    decreases length - j
  {
    if j == length then out
    else
      var p := start + j;
      CopyFrom(if 0 <= p < |out| then out + [out[p]] else out, start, j + 1, length)
  }

  /** The output after the copy of a record (main.py:232-237). */
  function Copied(out: seq<Byte>, t: Token): (r: seq<Byte>)
  {
    if t.offset > 0 && t.length > 0 then CopyFrom(out, |out| - t.offset, 0, t.length) else out
  }

  /** One record replayed on the output (main.py:232-241): the next byte is added when it is
      not 0 or the record is a literal. */
  function ApplyToken(out: seq<Byte>, t: Token): (r: seq<Byte>)
  {
    var copied := Copied(out, t);
    if t.next != 0 || (t.offset == 0 && t.length == 0) then copied + [t.next] else copied
  }

  /** `(b0 << 8) | b1`, `b2`, `b3`. */
  function DecodeRecord(b0: Byte, b1: Byte, b2: Byte, b3: Byte): (r: Token)
  {
    Token((b0 as int) * 256 + b1 as int, b2, b3)
  }

  /** The decoding loop over the records of `p` (main.py:226-243); a trailing part of fewer
      than four bytes is not read. */
  function DecodedFrom(p: seq<Byte>, out: seq<Byte>): (r: seq<Byte>)
    decreases |p|
  {
    if |p| >= 4 then DecodedFrom(p[4..], ApplyToken(out, DecodeRecord(p[0], p[1], p[2], p[3])))
    else out
  }

  /** What `decompress` returns; the metadata is not read. */
  function Decompressed(p: seq<Byte>): (r: seq<Byte>)
  {
    if |p| == 0 then [] else DecodedFrom(p, [])
  }

  /** Replaying tokens one after the other. */
  function ApplyAll(tokens: seq<Token>, out: seq<Byte>): (r: seq<Byte>)
    decreases |tokens|
  {
    if |tokens| == 0 then out else ApplyAll(tokens[1..], ApplyToken(out, tokens[0]))
  }

  // ---------------------------------------------------------------------------------------
  // Round trip

  /** An emitted token survives its four-byte record. */
  lemma RecordDecodes(t: Token)
    requires Emittable(t)
    ensures var r := Record(t); DecodeRecord(r[0], r[1], r[2], r[3]) == t
  {
  }

  /** Decoding a serialization replays its tokens. */
  lemma {:induction false} DecodedSerialize(tokens: seq<Token>, out: seq<Byte>)
    requires forall k :: 0 <= k < |tokens| ==> Emittable(tokens[k])
    ensures DecodedFrom(Serialize(tokens), out) == ApplyAll(tokens, out)
    decreases |tokens|
  {
    if |tokens| > 0 {
      var r := Record(tokens[0]);
      var p := Serialize(tokens);
      assert p == r + Serialize(tokens[1..]);
      assert p[..4] == r && p[4..] == Serialize(tokens[1..]);
      RecordDecodes(tokens[0]);
      assert DecodeRecord(p[0], p[1], p[2], p[3]) == tokens[0] by {
        assert p[0] == r[0] && p[1] == r[1] && p[2] == r[2] && p[3] == r[3];
      }
      DecodedSerialize(tokens[1..], ApplyToken(out, tokens[0]));
    }
  }

  /** A trailing part of fewer than four bytes is ignored: decoding reads only the whole records. */
  lemma {:induction false} PartialRecordIgnored(p: seq<Byte>, out: seq<Byte>)
    ensures DecodedFrom(p, out) == DecodedFrom(p[..|p| / 4 * 4], out)
    decreases |p|
  {
    var whole := p[..|p| / 4 * 4];
    if |p| >= 4 {
      PartialRecordIgnored(p[4..], ApplyToken(out, DecodeRecord(p[0], p[1], p[2], p[3])));
      assert whole[..4] == p[..4];
      assert whole[4..] == p[4..][..|p[4..]| / 4 * 4];
    }
  }

  /** Bytes after a serialization that do not make up a record add nothing to the output. */
  lemma DecodedSerializeTail(tokens: seq<Token>, q: seq<Byte>, out: seq<Byte>)
    requires forall k :: 0 <= k < |tokens| ==> Emittable(tokens[k])
    requires |q| < 4
    ensures DecodedFrom(Serialize(tokens) + q, out) == ApplyAll(tokens, out)
  {
    var s := Serialize(tokens);
    var p := s + q;
    PartialRecordIgnored(p, out);
    WholeRecords(|tokens|, |q|);
    assert p[..|s|] == s;
    DecodedSerialize(tokens, out);
  }

  lemma WholeRecords(n: nat, r: nat)
    requires r < 4
    ensures (4 * n + r) / 4 * 4 == 4 * n
  {
  }

  lemma SnocPrefix(data: seq<Byte>, i: nat)
    requires i < |data|
    ensures data[..i] + [data[i]] == data[..i + 1]
  {
  }

  /** Copying a match whose bytes agree with the window rebuilds the input up to its end. */
  lemma {:induction false} CopyRebuilds(data: seq<Byte>, i: nat, j: nat, length: nat, k: nat)
    requires j < i && i + length <= |data| && k <= length
    requires Agree(data, i, j, length)
    ensures CopyFrom(data[..i + k], j, k, length) == data[..i + length]
    decreases length - k
  {
    if k < length {
      assert data[..i + k][j + k] == data[j + k];
      SnocPrefix(data, i + k);
      CopyRebuilds(data, i, j, length, k + 1);
    }
  }

  ghost predicate NoZero(data: seq<Byte>)
  {
    forall k :: 0 <= k < |data| ==> data[k] != 0
  }

  /** The copy of a match whose bytes agree with the window rebuilds the input up to its end. */
  lemma CopiedRebuilds(data: seq<Byte>, i: nat, t: Token)
    requires 0 < t.offset <= i && 0 < t.length && i + t.length <= |data|
    requires Agree(data, i, i - t.offset, t.length)
    ensures Copied(data[..i], t) == data[..i + t.length]
  {
    assert |data[..i]| - t.offset == i - t.offset;
    CopyRebuilds(data, i, i - t.offset, t.length, 0);
  }

  lemma MatchInWindow(data: seq<Byte>, i: nat)
    requires i < |data|
    ensures var m := LongestMatch(data, i);
      m.length > 0 ==> 0 < m.offset <= i && i + m.length <= |data| && Agree(data, i, i - m.offset, m.length)
  {
    LongestMatchIsLongest(data, i);
  }

  /** A match replayed on the input before i rebuilds the input up to its end, and one byte
      further when that byte exists and is not 0. */
  lemma MatchRebuilds(data: seq<Byte>, i: nat, t: Token)
    requires i < |data| && 0 < t.offset <= i && 0 < t.length && i + t.length <= |data|
    requires Agree(data, i, i - t.offset, t.length)
    requires i + t.length < |data| ==> t.next == data[i + t.length] != 0
    requires i + t.length == |data| ==> t.next == 0
    ensures ApplyToken(data[..i], t) == data[..i + t.length + (if i + t.length < |data| then 1 else 0)]
  {
    CopiedRebuilds(data, i, t);
    if i + t.length < |data| {
      SnocPrefix(data, i + t.length);
    }
  }

  /** Replaying the token at i on the input before i gives the input up to the next token,
      provided a match is never followed by a 0 byte of the input. */
  lemma TokenRebuilds(data: seq<Byte>, i: nat)
    requires i < |data| && NoZero(data)
    ensures ApplyToken(data[..i], TokenAt(data, i)) == data[..Advance(data, i)]
  {
    var m := LongestMatch(data, i);
    MatchInWindow(data, i);
    if m.length >= MIN_MATCH {
      MatchRebuilds(data, i, TokenAt(data, i));
    } else {
      SnocPrefix(data, i);
    }
  }

  lemma {:induction false} RoundTripFrom(data: seq<Byte>, i: nat)
    requires i <= |data| && NoZero(data)
    ensures ApplyAll(TokensFrom(data, i), data[..i]) == data
    decreases |data| - i
  {
    if i == |data| {
      assert data[..i] == data;
    } else {
      var rest := TokensFrom(data, Advance(data, i));
      assert ([TokenAt(data, i)] + rest)[1..] == rest;
      TokenRebuilds(data, i);
      RoundTripFrom(data, Advance(data, i));
    }
  }

  /** Decompressing what `compress` returns gives the input back when the input has no 0 byte. */
  lemma RoundTripWithoutZeros(data: seq<Byte>)
    requires NoZero(data)
    ensures Decompressed(Compressed(data).0) == data
  {
    if |data| > 0 {
      TokensEmittable(data, 0);
      DecodedSerialize(TokensFrom(data, 0), []);
      RoundTripFrom(data, 0);
      assert data[..0] == [];
    }
  }

  // ---------------------------------------------------------------------------------------
  // The lost 0 byte, and a decoder that reads `original_length`

  /** The input of the counterexample: a run of four 1s followed by a 0. */
  function RunThenZero(): (d: seq<Byte>)
  {
    [1, 1, 1, 1, 0]
  }

  lemma RunThenZeroTokens()
    ensures TokensFrom(RunThenZero(), 0) == [Token(0, 0, 1), Token(1, 3, 0)]
  {
    var d := RunThenZero();
    assert LongestMatch(d, 0) == Match(0, 0);
    assert MatchFrom(d, 1, 0, 4, 3) == 3;
    assert MatchLength(d, 1, 0, 4) == 3;
    assert LongestMatch(d, 1) == Match(3, 1);
    assert TokensFrom(d, 5) == [];
  }

  /** A match that ends before the input does is followed by a real next byte, which may be 0;
      the decoder as written drops that 0, taking it for the placeholder of a match that ends
      the input. */
  lemma ZeroAfterMatchLost()
    ensures Compressed(RunThenZero()) == ([0, 0, 0, 1, 0, 1, 3, 0], 5)
    ensures Decompressed(Compressed(RunThenZero()).0) == [1, 1, 1, 1]
  {
    RunThenZeroTokens();
    var tokens := [Token(0, 0, 1), Token(1, 3, 0)];
    RunThenZeroPayload(tokens);
    DecodedSerialize(tokens, []);
    RunThenZeroReplay(tokens);
  }

  lemma RunThenZeroPayload(tokens: seq<Token>)
    requires tokens == [Token(0, 0, 1), Token(1, 3, 0)]
    ensures Serialize(tokens) == [0, 0, 0, 1, 0, 1, 3, 0]
  {
    assert Serialize(tokens[1..]) == [0, 1, 3, 0];
  }

  lemma RunThenZeroReplay(tokens: seq<Token>)
    requires tokens == [Token(0, 0, 1), Token(1, 3, 0)]
    ensures ApplyAll(tokens, []) == [1, 1, 1, 1]
  {
    var first := ApplyToken([], tokens[0]);
    assert first == [1] by {
      AppendEmpty([1 as Byte]);
    }
    assert CopyFrom([1], 0, 0, 3) == [1, 1, 1, 1];
    var second := ApplyToken(first, tokens[1]);
    assert second == [1, 1, 1, 1];
    assert tokens[1..] == [tokens[1]] && [tokens[1]][1..] == [];
    assert ApplyAll(tokens, []) == ApplyAll([tokens[1]], first);
    assert ApplyAll([tokens[1]], first) == ApplyAll([], second);
  }

  /** The record step with the evident intent: the next byte of a match is also added while the
      output is shorter than `original_length`. */
  function ApplyTokenUpTo(out: seq<Byte>, t: Token, originalLength: nat): (r: seq<Byte>)
  {
    var copied := Copied(out, t);
    if t.next != 0 || (t.offset == 0 && t.length == 0) || |copied| < originalLength then copied + [t.next]
    else copied
  }

  function DecodedUpToFrom(p: seq<Byte>, originalLength: nat, out: seq<Byte>): (r: seq<Byte>)
    decreases |p|
  {
    if |p| >= 4 then
      DecodedUpToFrom(p[4..], originalLength, ApplyTokenUpTo(out, DecodeRecord(p[0], p[1], p[2], p[3]), originalLength))
    else out
  }

  /** `decompress` with the correction, reading `original_length` from the metadata. */
  function DecompressedUpTo(p: seq<Byte>, originalLength: nat): (r: seq<Byte>)
  {
    if |p| == 0 then [] else DecodedUpToFrom(p, originalLength, [])
  }

  function ApplyAllUpTo(tokens: seq<Token>, originalLength: nat, out: seq<Byte>): (r: seq<Byte>)
    decreases |tokens|
  {
    if |tokens| == 0 then out else ApplyAllUpTo(tokens[1..], originalLength, ApplyTokenUpTo(out, tokens[0], originalLength))
  }

  lemma {:induction false} DecodedUpToSerialize(tokens: seq<Token>, originalLength: nat, out: seq<Byte>)
    requires forall k :: 0 <= k < |tokens| ==> Emittable(tokens[k])
    ensures DecodedUpToFrom(Serialize(tokens), originalLength, out) == ApplyAllUpTo(tokens, originalLength, out)
    decreases |tokens|
  {
    if |tokens| > 0 {
      var r := Record(tokens[0]);
      var p := Serialize(tokens);
      assert p == r + Serialize(tokens[1..]);
      assert p[..4] == r && p[4..] == Serialize(tokens[1..]);
      RecordDecodes(tokens[0]);
      assert DecodeRecord(p[0], p[1], p[2], p[3]) == tokens[0] by {
        assert p[0] == r[0] && p[1] == r[1] && p[2] == r[2] && p[3] == r[3];
      }
      DecodedUpToSerialize(tokens[1..], originalLength, ApplyTokenUpTo(out, tokens[0], originalLength));
    }
  }

  lemma TokenRebuildsUpTo(data: seq<Byte>, i: nat)
    requires i < |data|
    ensures ApplyTokenUpTo(data[..i], TokenAt(data, i), |data|) == data[..Advance(data, i)]
  {
    var m := LongestMatch(data, i);
    MatchInWindow(data, i);
    if m.length >= MIN_MATCH {
      CopiedRebuilds(data, i, TokenAt(data, i));
      if i + m.length < |data| {
        SnocPrefix(data, i + m.length);
      }
    } else {
      SnocPrefix(data, i);
    }
  }

  lemma {:induction false} RoundTripUpToFrom(data: seq<Byte>, i: nat)
    requires i <= |data|
    ensures ApplyAllUpTo(TokensFrom(data, i), |data|, data[..i]) == data
    decreases |data| - i
  {
    if i == |data| {
      assert data[..i] == data;
    } else {
      var rest := TokensFrom(data, Advance(data, i));
      assert ([TokenAt(data, i)] + rest)[1..] == rest;
      TokenRebuildsUpTo(data, i);
      RoundTripUpToFrom(data, Advance(data, i));
    }
  }

  /** With the correction every input comes back, 0 bytes included. */
  lemma RoundTripUpTo(data: seq<Byte>)
    ensures DecompressedUpTo(Compressed(data).0, Compressed(data).1) == data
  {
    if |data| > 0 {
      TokensEmittable(data, 0);
      DecodedUpToSerialize(TokensFrom(data, 0), |data|, []);
      RoundTripUpToFrom(data, 0);
      assert data[..0] == [];
    }
  }

  /** The corrected decoder recovers the input the decoder as written truncates. */
  lemma ZeroAfterMatchKept()
    ensures DecompressedUpTo(Compressed(RunThenZero()).0, Compressed(RunThenZero()).1) == RunThenZero()
  {
    RoundTripUpTo(RunThenZero());
  }

  // ---------------------------------------------------------------------------------------
  // `LZ77.compress` and `LZ77.decompress`

  /** The inner `while` (main.py:187-191): how far the bytes from j agree with those from i. */
  method MatchLengthAt(data: seq<Byte>, i: nat, j: nat, maxLen: nat) returns (length: nat)
    requires j < i < |data|
    ensures length == MatchLength(data, i, j, maxLen)
  {
    length := 0;
    while length < maxLen && i + length < |data| && data[j + length] == data[i + length]
      invariant length <= maxLen
      invariant MatchFrom(data, i, j, maxLen, length) == MatchLength(data, i, j, maxLen)
      decreases maxLen - length
    {
      length := length + 1;
    }
  }

  /** The window search (main.py:178-195). */
  method FindLongestMatch(data: seq<Byte>, i: nat) returns (m: Match)
    requires i < |data|
    ensures m == LongestMatch(data, i)
  {
    var matchLength: nat := 0;
    var matchOffset: nat := 0;
    var start := if i > WINDOW_SIZE then i - WINDOW_SIZE else 0;
    var maxLength := if LOOK_AHEAD_SIZE < |data| - i then LOOK_AHEAD_SIZE else |data| - i;
    for j := start to i
      invariant matchLength <= maxLength
      invariant BestFrom(data, i, j, maxLength, Match(matchLength, matchOffset)) == LongestMatch(data, i)
    {
      var length := MatchLengthAt(data, i, j, maxLength);
      if length > matchLength {
        matchLength := length;
        matchOffset := i - j;
      }
    }
    m := Match(matchLength, matchOffset);
  }

  /** The main loop of `compress` (main.py:174-203). */
  method Tokenize(data: seq<Byte>) returns (tokens: seq<Token>)
    ensures tokens == TokensFrom(data, 0)
  {
    tokens := [];
    var i := 0;
    while i < |data|
      invariant i <= |data|
      invariant i == 0 ==> tokens == []
      invariant 0 < i ==> tokens + TokensFrom(data, i) == TokensFrom(data, 0)
      decreases |data| - i
    {
      var m := FindLongestMatch(data, i);
      var t: Token;
      var next: nat;
      if m.length >= MIN_MATCH {
        var nextChar := if i + m.length < |data| then data[i + m.length] else 0;
        t := Token(m.offset, m.length, nextChar);
        next := i + m.length + (if i + m.length < |data| then 1 else 0);
      } else {
        t := Token(0, 0, data[i]);
        next := i + 1;
      }
      assert t == TokenAt(data, i) && next == Advance(data, i);
      if i == 0 {
        tokens := [t];
      } else {
        AppendAssoc(tokens, [t], TokensFrom(data, next));
        tokens := tokens + [t];
      }
      i := next;
    }
    if i > 0 {
      AppendEmpty(tokens);
    }
  }

  /** The serialization loop (main.py:206-214). */
  method SerializeTokens(tokens: seq<Token>) returns (bytes: seq<Byte>)
    ensures bytes == Serialize(tokens)
  {
    bytes := [];
    var k := 0;
    while k < |tokens|
      invariant k <= |tokens|
      invariant k == 0 ==> bytes == []
      invariant 0 < k ==> bytes + Serialize(tokens[k..]) == Serialize(tokens)
    {
      var record := Record(tokens[k]);
      assert tokens[k..][1..] == tokens[k + 1..];
      if k == 0 {
        bytes := record;
        assert tokens[0..] == tokens;
      } else {
        AppendAssoc(bytes, record, Serialize(tokens[k + 1..]));
        bytes := bytes + record;
      }
      k := k + 1;
    }
    if k > 0 {
      AppendEmpty(bytes);
    }
  }

  /** `compress` (main.py:170-217). */
  method Compress(data: seq<Byte>) returns (compressed: seq<Byte>, originalLength: nat)
    ensures (compressed, originalLength) == Compressed(data)
  {
    if |data| == 0 {
      return [], 0;
    }
    var tokens := Tokenize(data);
    compressed := SerializeTokens(tokens);
    originalLength := |data|;
  }

  /** The copy loop (main.py:234-237). */
  method CopyWindow(out: seq<Byte>, offset: nat, length: nat) returns (r: seq<Byte>)
    ensures r == CopyFrom(out, |out| - offset, 0, length)
  {
    r := out;
    var startPos := |out| - offset;
    for j := 0 to length
      invariant CopyFrom(r, startPos, j, length) == CopyFrom(out, startPos, 0, length)
    {
      if 0 <= startPos + j < |r| {
        r := r + [r[startPos + j]];
      }
    }
  }

  /** `decompress` (main.py:219-245); the metadata is not read. */
  method Decompress(compressed: seq<Byte>) returns (decompressed: seq<Byte>)
    ensures decompressed == Decompressed(compressed)
  {
    if |compressed| == 0 {
      return [];
    }
    decompressed := [];
    var i := 0;
    while i + 3 < |compressed|
      invariant i <= |compressed|
      invariant DecodedFrom(compressed[i..], decompressed) == DecodedFrom(compressed, [])
      decreases |compressed| - i
    {
      var offset: nat := (compressed[i] as int) * 256 + compressed[i + 1] as int;
      var length := compressed[i + 2];
      var nextByte := compressed[i + 3];
      ghost var before := decompressed;
      if offset > 0 && length > 0 {
        decompressed := CopyWindow(decompressed, offset, length);
      }
      if nextByte != 0 || (offset == 0 && length == 0) {
        decompressed := decompressed + [nextByte];
      }
      assert compressed[i..][4..] == compressed[i + 4..];
      assert decompressed == ApplyToken(before, DecodeRecord(compressed[i], compressed[i + 1], length, nextByte));
      i := i + 4;
    }
  }
}
