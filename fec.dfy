/**
 * Repetition forward error correction: every byte is sent `repetition`
 * times and the receiver takes a majority vote over each group, counting
 * the bytes it overruled as corrections.
 */
module Fec {
  import opened Wrappers
  import opened Exceptions
  import opened Digits
  import opened BitCodec

  /** A codec; the repetition factor is fixed when it is built. */
  datatype FecCodec = FecCodec(repetition: nat)
  {
    predicate Valid() { 1 <= repetition <= 15 }
  }

  /** `FECCodec(repetition)`: factors outside 1..15 are refused. */
  function NewCodec(repetition: int): (r: Result<FecCodec, Exception>)
    ensures r.Ok? <==> 1 <= repetition <= 15
    ensures r.Ok? ==> r.value.Valid() && r.value.repetition == repetition
    ensures r.Err? ==> r.error == ValueError
  {
    if repetition < 1 || repetition > 15 then Err(ValueError) else Ok(FecCodec(repetition))
  }

  /** The codec built with the default factor. */
  const DefaultCodec: FecCodec := FecCodec(3)

  /** `bytes([b]) * n` */
  function Repeat(b: Byte, n: nat): (r: seq<Byte>)
    ensures |r| == n && forall i :: 0 <= i < n ==> r[i] == b
  {
    if n == 0 then [] else [b] + Repeat(b, n - 1)
  }

  lemma DivStep(i: nat, r: nat)
    requires r >= 1 && i >= r
    ensures (i - r) / r == i / r - 1
  {
    var q, m := (i - r) / r, (i - r) % r;
    DivModRecompose(i - r, r);
    assert i == (q + 1) * r + m by {
      assert (q + 1) * r == q * r + r;
    }
    DivModOfSum(q + 1, m, r);
  }

  lemma MulSucc(a: nat, n: nat)
    ensures a * (n + 1) == a * n + a
  {
  }

  lemma LengthStep(n: nat, r: nat)
    requires n >= 1
    ensures r + (n - 1) * r == n * r
  {
  }

  /** `encode`: each byte repeated r times, in order. */
  function Encode(c: FecCodec, data: seq<Byte>): seq<Byte>
    requires c.Valid()
  {
    if |data| == 0 then [] else Repeat(data[0], c.repetition) + Encode(c, data[1..])
  }

  lemma {:induction false} EncodeLength(c: FecCodec, data: seq<Byte>)
    requires c.Valid()
    ensures |Encode(c, data)| == |data| * c.repetition
  {
    if |data| > 0 {
      EncodeLength(c, data[1..]);
      LengthStep(|data|, c.repetition);
    }
  }

  /** Byte i of the encoding is byte i div r of the input. */
  lemma {:induction false} EncodeAt(c: FecCodec, data: seq<Byte>, i: nat)
    requires c.Valid() && i < |Encode(c, data)|
    ensures i / c.repetition < |data| && Encode(c, data)[i] == data[i / c.repetition]
  {
    var r := c.repetition;
    EncodeLength(c, data);
    DivBelow(i, r, |data|);
    var head, tail := Repeat(data[0], r), Encode(c, data[1..]);
    LengthStep(|data|, r);
    EncodeLength(c, data[1..]);
    assert Encode(c, data) == head + tail;
    if i < r {
      DivModOfSum(0, i, r);
    } else {
      DivStep(i, r);
      EncodeAt(c, data[1..], i - r);
      assert (head + tail)[i] == tail[i - r];
    }
  }

  /** The encoding is r times as long, and byte i of it is byte i div r of the input. */
  lemma {:induction false} EncodeSpec(c: FecCodec, data: seq<Byte>)
    requires c.Valid()
    ensures |Encode(c, data)| == |data| * c.repetition
    ensures forall i :: 0 <= i < |Encode(c, data)| ==>
      i / c.repetition < |data| && Encode(c, data)[i] == data[i / c.repetition]
  {
    var e, r := Encode(c, data), c.repetition;
    forall i | 0 <= i < |e|
      ensures i / r < |data| && e[i] == data[i / r]
    {
      EncodeAt(c, data, i);
    }
    EncodeLength(c, data);
  }

  /** The number of times b occurs in s. */
  function Count(s: seq<Byte>, b: Byte): nat
  {
    if |s| == 0 then 0 else (if s[0] == b then 1 else 0) + Count(s[1..], b)
  }

  /**
   * The position, among the first n, of the earliest element whose count in
   * the chunk is largest.
   */
  function BestIndex(chunk: seq<Byte>, n: nat): (j: nat)
    requires 1 <= n <= |chunk|
    ensures j < n
  {
    if n == 1 then 0
    else
      var j := BestIndex(chunk, n - 1);
      if Count(chunk, chunk[n - 1]) > Count(chunk, chunk[j]) then n - 1 else j
  }

  /** BestIndex picks a largest count, and no earlier position has as large a one. */
  lemma {:induction false} BestIndexSpec(chunk: seq<Byte>, n: nat)
    requires 1 <= n <= |chunk|
    ensures var j := BestIndex(chunk, n);
      (forall k :: 0 <= k < n ==> Count(chunk, chunk[k]) <= Count(chunk, chunk[j]))
      && (forall k :: 0 <= k < j ==> Count(chunk, chunk[k]) < Count(chunk, chunk[j]))
  {
    if n > 1 {
      BestIndexSpec(chunk, n - 1);
    }
  }

  lemma {:induction false} CountBound(s: seq<Byte>, b: Byte)
    ensures Count(s, b) <= |s|
  {
    if |s| > 0 {
      CountBound(s[1..], b);
      assert s == [s[0]] + s[1..];
    }
  }

  /** An element occurs at least once. */
  lemma {:induction false} CountOfMember(s: seq<Byte>, k: nat)
    requires k < |s|
    ensures Count(s, s[k]) >= 1
  {
    if k > 0 {
      CountOfMember(s[1..], k - 1);
    }
  }

  /**
   * `Counter(chunk).most_common(1)[0]`: a most frequent byte and its count;
   * among equally frequent bytes, the one that occurs first.
   */
  function MostCommon(chunk: seq<Byte>): (r: (Byte, nat))
    requires |chunk| >= 1
    ensures r.0 in chunk && r.1 == Count(chunk, r.0) && 1 <= r.1 <= |chunk|
  {
    var j := BestIndex(chunk, |chunk|);
    var b := chunk[j];
    CountBound(chunk, b);
    CountOfMember(chunk, j);
    (b, Count(chunk, b))
  }

  /**
   * The byte MostCommon returns occurs at least as often as any other, and
   * it is the first to occur among those that occur that often.
   */
  lemma MostCommonIsMode(chunk: seq<Byte>)
    requires |chunk| >= 1
    ensures forall b: Byte :: Count(chunk, b) <= MostCommon(chunk).1
    ensures forall k :: 0 <= k < |chunk| && Count(chunk, chunk[k]) == MostCommon(chunk).1 ==>
      exists k' :: 0 <= k' <= k && chunk[k'] == MostCommon(chunk).0
  {
    var j := BestIndex(chunk, |chunk|);
    BestIndexSpec(chunk, |chunk|);
    forall b: Byte ensures Count(chunk, b) <= Count(chunk, chunk[j]) {
      if b in chunk {
        var k :| 0 <= k < |chunk| && chunk[k] == b;
      }
    }
  }

  /** The bytes chosen by the majority vote, one per complete group of r. */
  function Voted(data: seq<Byte>, r: nat): seq<Byte>
    requires r >= 1
    decreases |data|
  {
    if |data| < r then [] else [MostCommon(data[..r]).0] + Voted(data[r..], r)
  }

  /** One decoded byte per complete group. */
  lemma {:induction false} VotedLength(data: seq<Byte>, r: nat)
    requires r >= 1
    ensures |Voted(data, r)| == |data| / r
    decreases |data|
  {
    if |data| >= r {
      VotedLength(data[r..], r);
      DivStep(|data|, r);
    }
  }

  /** The number of bytes the vote overruled, summed over the groups. */
  function Corrections(data: seq<Byte>, r: nat): nat
    requires r >= 1
    decreases |data|
  {
    if |data| < r then 0 else (r - MostCommon(data[..r]).1) + Corrections(data[r..], r)
  }

  /** What `decode` returns: the decoded bytes and the correction count, or its error. */
  function DecodeSpec(c: FecCodec, data: seq<Byte>): Result<(seq<Byte>, nat), Exception>
    requires c.Valid()
  {
    if |data| % c.repetition != 0 then Err(ValueError)
    else Ok((Voted(data, c.repetition), Corrections(data, c.repetition)))
  }

  lemma ModStep(x: nat, r: nat)
    requires r >= 1 && x % r == 0 && x > 0
    ensures x >= r && (x - r) % r == 0
  {
    var q := x / r;
    DivModRecompose(x, r);
    assert x == q * r;
    if q == 0 {
      assert false;
    }
    assert x - r == (q - 1) * r by {
      assert q * r == (q - 1) * r + r;
    }
    DivModOfSum(q - 1, 0, r);
  }

  /** Peeling the group that starts at i off the vote and the correction count. */
  lemma GroupStep(data: seq<Byte>, i: nat, next: nat, r: nat)
    requires r >= 1 && next == i + r && next <= |data|
    ensures Voted(data[i..], r) == [MostCommon(data[i..next]).0] + Voted(data[next..], r)
    ensures Corrections(data[i..], r) == (r - MostCommon(data[i..next]).1) + Corrections(data[next..], r)
  {
    var rest := data[i..];
    assert rest[..r] == data[i..next] && rest[r..] == data[next..];
  }

  lemma DecodeLoopStep(
    data: seq<Byte>, i: nat, next: nat, r: nat, decoded: seq<Byte>, corrections: nat, vote: (Byte, nat))
    requires r >= 1 && next == i + r && next <= |data| && vote == MostCommon(data[i..next])
    requires decoded + Voted(data[i..], r) == Voted(data, r)
    requires corrections + Corrections(data[i..], r) == Corrections(data, r)
    ensures (decoded + [vote.0]) + Voted(data[next..], r) == Voted(data, r)
    ensures (corrections + (r - vote.1)) + Corrections(data[next..], r) == Corrections(data, r)
  {
    GroupStep(data, i, next, r);
    var later := Voted(data[next..], r);
    assert (decoded + [vote.0]) + later == decoded + ([vote.0] + later);
  }

  /** Fewer than r bytes left: no further group. */
  lemma ShortTail(data: seq<Byte>, i: nat, r: nat)
    requires r >= 1 && i <= |data| < i + r
    ensures Voted(data[i..], r) == [] && Corrections(data[i..], r) == 0
  {
  }

  lemma AppendNil(s: seq<Byte>)
    ensures s + [] == s
  {
  }

  /** `decode`: majority vote over each group of r bytes, counting corrections. */
  method Decode(c: FecCodec, data: seq<Byte>) returns (res: Result<(seq<Byte>, nat), Exception>)
    requires c.Valid()
    ensures res == DecodeSpec(c, data)
  {
    var r := c.repetition;
    if |data| % r != 0 {
      return Err(ValueError);
    }
    if |data| == 0 {
      return Ok(([], 0));
    }
    var decoded: seq<Byte> := [];
    var corrections: nat := 0;
    var i := 0;
    assert data[i..] == data;
    // The length is a multiple of r, so the groups at 0, r, 2r, ... are all complete.
    while i + r <= |data|
      invariant 0 <= i <= |data|
      invariant decoded + Voted(data[i..], r) == Voted(data, r)
      invariant corrections + Corrections(data[i..], r) == Corrections(data, r)
      decreases |data| - i
    {
      var vote := MostCommon(data[i..i + r]);
      var next := i + r;
      DecodeLoopStep(data, i, next, r, decoded, corrections, vote);
      decoded := decoded + [vote.0];
      corrections := corrections + (r - vote.1);
      i := next;
    }
    ShortTail(data, i, r);
    AppendNil(decoded);
    return Ok((decoded, corrections));
  }

  /** Each group adds at most r - 1 corrections. */
  lemma {:induction false} CorrectionsBound(data: seq<Byte>, r: nat)
    requires r >= 1
    ensures Corrections(data, r) <= (r - 1) * (|data| / r)
    decreases |data|
  {
    if |data| >= r {
      CorrectionsBound(data[r..], r);
      DivStep(|data|, r);
      var k, m := r - 1, |data[r..]| / r;
      assert |data| / r == m + 1;
      MulSucc(k, m);
      assert Corrections(data, r) <= k + k * m;
    }
  }

  lemma VoteOnRepeat(b: Byte, r: nat)
    requires r >= 1
    ensures MostCommon(Repeat(b, r)) == (b, r)
  {
    var chunk := Repeat(b, r);
    assert chunk == [b] + Repeat(b, r - 1);
    var (m, n) := MostCommon(chunk);
    assert m == b;
    assert Count(chunk, b) == r by {
      RepeatCount(b, r);
    }
  }

  lemma {:induction false} RepeatCount(b: Byte, r: nat)
    ensures Count(Repeat(b, r), b) == r
  {
    if r > 0 {
      RepeatCount(b, r - 1);
      assert Repeat(b, r) == [b] + Repeat(b, r - 1);
    }
  }

  /** `decode(encode(x)) == (x, 0)` for every codec and every byte string. */
  lemma {:induction false} DecodeEncode(c: FecCodec, x: seq<Byte>)
    requires c.Valid()
    ensures DecodeSpec(c, Encode(c, x)) == Ok((x, 0))
  {
    var r := c.repetition;
    EncodeVoted(c, x);
    EncodeSpec(c, x);
    DivModOfSum(|x|, 0, r);
    assert |x| * r + 0 == |x| * r;
  }

  lemma {:induction false} EncodeVoted(c: FecCodec, x: seq<Byte>)
    requires c.Valid()
    ensures Voted(Encode(c, x), c.repetition) == x
    ensures Corrections(Encode(c, x), c.repetition) == 0
  {
    var r := c.repetition;
    if |x| > 0 {
      var e, head, tail := Encode(c, x), Repeat(x[0], r), Encode(c, x[1..]);
      assert e[..r] == head && e[r..] == tail;
      VoteOnRepeat(x[0], r);
      EncodeVoted(c, x[1..]);
    }
  }

  /** Positions of the group that differ from the byte that was sent. */
  function Mismatches(chunk: seq<Byte>, b: Byte): nat
  {
    CountBound(chunk, b);
    |chunk| - Count(chunk, b)
  }

  /**
   * `y` is `encode(x)` with every group corrupted in fewer than half of its
   * bytes, that is in at most (r - 1) div 2 of them.
   */
  predicate Correctable(y: seq<Byte>, x: seq<Byte>, r: nat)
    requires r >= 1
    decreases |x|
  {
    if |x| == 0 then |y| == 0
    else |y| >= r && 2 * Mismatches(y[..r], x[0]) < r && Correctable(y[r..], x[1..], r)
  }

  /** The total number of corrupted bytes, group by group. */
  function TotalMismatches(y: seq<Byte>, x: seq<Byte>, r: nat): nat
    requires r >= 1
    decreases |x|
  {
    if |x| == 0 || |y| < r then 0 else Mismatches(y[..r], x[0]) + TotalMismatches(y[r..], x[1..], r)
  }

  lemma {:induction false} CountsBounded(s: seq<Byte>, a: Byte, b: Byte)
    requires a != b
    ensures Count(s, a) + Count(s, b) <= |s|
  {
    if |s| > 0 {
      CountsBounded(s[1..], a, b);
      assert s == [s[0]] + s[1..];
    }
  }

  /** A group with fewer than half of its bytes wrong votes for the byte that was sent. */
  lemma VoteCorrects(chunk: seq<Byte>, b: Byte)
    requires |chunk| >= 1 && 2 * Mismatches(chunk, b) < |chunk|
    ensures MostCommon(chunk) == (b, Count(chunk, b))
  {
    MostCommonIsMode(chunk);
    var (m, n) := MostCommon(chunk);
    if m != b {
      CountsBounded(chunk, m, b);
      assert false;
    }
  }

  /**
   * If each group has at most (r - 1) div 2 corrupted bytes, decoding gives
   * back the original and the correction count is the number of corrupted bytes.
   */
  lemma {:induction false} DecodeCorrects(c: FecCodec, y: seq<Byte>, x: seq<Byte>)
    requires c.Valid() && Correctable(y, x, c.repetition)
    ensures Voted(y, c.repetition) == x
    ensures Corrections(y, c.repetition) == TotalMismatches(y, x, c.repetition)
    decreases |x|
  {
    var r := c.repetition;
    if |x| > 0 {
      VoteCorrects(y[..r], x[0]);
      DecodeCorrects(c, y[r..], x[1..]);
    }
  }

  /** `get_overhead`: the expansion factor of the code. */
  function GetOverhead(c: FecCodec): (f: real)
    requires c.Valid()
    ensures 1.0 <= f <= 15.0
  {
    c.repetition as real
  }

  /** The overhead factor is the ratio of encoded to original length. */
  lemma OverheadIsExpansion(c: FecCodec, data: seq<Byte>)
    requires c.Valid()
    ensures |Encode(c, data)| as real == GetOverhead(c) * |data| as real
  {
    EncodeSpec(c, data);
  }

  /** `max_correctable_errors_per_byte`: the largest per-group error count a vote survives. */
  function MaxCorrectable(c: FecCodec): (m: nat)
    requires c.Valid()
    ensures forall e: nat :: e <= m <==> 2 * e < c.repetition
  {
    (c.repetition - 1) / 2
  }

  /** `fec_encode(data, repeat)` */
  function FecEncode(data: seq<Byte>, repeat: int): (r: Result<seq<Byte>, Exception>)
    ensures r.Ok? <==> 1 <= repeat <= 15
    ensures r.Ok? ==> |r.value| == |data| * repeat
  {
    match NewCodec(repeat)
    case Ok(c) =>
      EncodeSpec(c, data);
      Ok(Encode(c, data))
    case Err(e) => Err(e)
  }

  /** `fec_decode_with_stats(data, repeat)` */
  method FecDecodeWithStats(data: seq<Byte>, repeat: int)
    returns (res: Result<(seq<Byte>, nat), Exception>)
    ensures res.Err? <==> !(1 <= repeat <= 15) || |data| % repeat != 0
    ensures res.Err? ==> res.error == ValueError
    ensures res.Ok? ==> res == DecodeSpec(FecCodec(repeat), data)
  {
    var codec := NewCodec(repeat);
    if codec.Err? {
      return Err(codec.error);
    }
    res := Decode(codec.value, data);
  }

  /** `fec_decode(data, repeat)`: the decoded bytes only. */
  method FecDecode(data: seq<Byte>, repeat: int) returns (res: Result<seq<Byte>, Exception>)
    ensures res.Err? <==> !(1 <= repeat <= 15) || |data| % repeat != 0
    ensures res.Ok? ==> res.value == Voted(data, repeat)
  {
    var full := FecDecodeWithStats(data, repeat);
    if full.Err? {
      return Err(full.error);
    }
    return Ok(full.value.0);
  }

  /** Round trip through the module-level helpers. */
  lemma FecRoundTrip(x: seq<Byte>, repeat: int)
    requires 1 <= repeat <= 15
    ensures FecEncode(x, repeat).Ok?
    ensures DecodeSpec(FecCodec(repeat), FecEncode(x, repeat).value) == Ok((x, 0))
  {
    DecodeEncode(FecCodec(repeat), x);
  }
}
