/**
 * Batching of ru.maklas.mrudp2.PacketType: `buildSafeBatch` packs as many
 * queued payloads as fit into one datagram of at most `bufferSize` bytes,
 * and `breakBatchDown` splits such a datagram back into its payloads.
 *
 * A batch datagram is laid out as
 *   [settings] [sequence number: 4 bytes] [count: 1 byte]
 *   then, per payload, [length: 2 bytes] [payload bytes]
 * with every multi-byte field big-endian.
 *
 * The payload list of the source (`MRUDPBatch.array`) is `batch` here, and
 * the payloads a datagram carries are the run `batch[lo..hi]`; the layout
 * functions take the run by its bounds.
 */
module PacketBatch {
  import opened JavaInts
  import opened Wrappers
  import opened PacketType

  /** The exceptions the two operations can throw. */
  datatype Fault =
    | IndexOutOfBounds                           // ArrayList.get, array indexing or System.arraycopy out of range
    | NegativeArraySize                          // `new byte[n]` with n < 0
    | CannotFit(length: int, bufferSize: int)    // the RuntimeException for a first payload too big for the buffer

  /** `buildSafeBatch`'s `Object[]{ret, endIIncluded + 1}`: the datagram and the index of the first payload left over. */
  datatype Batch = Batch(datagram: array<int8>, next: int)

  // ---------------------------------------------------------------- the frame layout

  /** Bytes taken by the payloads `batch[lo..hi]` with their 2-byte length prefixes. */
  function FramedSize(batch: seq<seq<int8>>, lo: int, hi: int): (n: nat)
    requires 0 <= lo <= hi <= |batch|
    ensures n >= 2 * (hi - lo)
    decreases hi - lo
  {
    if lo == hi then 0 else FramedSize(batch, lo, hi - 1) + |batch[hi - 1]| + 2
  }

  /** One payload after its length, as `putShort` and `System.arraycopy` write them. */
  function Entry(e: seq<int8>): (s: seq<int8>)
    ensures |s| == |e| + 2
  {
    ShortBytes(|e|) + e
  }

  /** The entries of `batch[lo..hi]`, one after the other. */
  function Frame(batch: seq<seq<int8>>, lo: int, hi: int): (s: seq<int8>)
    requires 0 <= lo <= hi <= |batch|
    ensures |s| == FramedSize(batch, lo, hi)
    decreases hi - lo
  {
    if lo == hi then [] else Frame(batch, lo, hi - 1) + Entry(batch[hi - 1])
  }

  /** The datagram `buildSafeBatch` produces for the payloads `batch[lo..hi]`. */
  function BatchBytes(seqNo: int, settings: int8, batch: seq<seq<int8>>, lo: int, hi: int): (s: seq<int8>)
    requires 0 <= lo <= hi <= |batch|
    ensures |s| == 6 + FramedSize(batch, lo, hi)
  {
    [settings] + IntBytes(seqNo) + [ToByte(hi - lo)] + Frame(batch, lo, hi)
  }

  /**
   * How many payloads from `batch[lo]` on fit in `room` bytes, taken
   * greedily: the first one that does not fit ends the batch, even if a later,
   * smaller one would fit.
   */
  function Fit(batch: seq<seq<int8>>, lo: int, room: int): (k: nat)
    requires 0 <= lo <= |batch|
    ensures lo + k <= |batch|
    decreases |batch| - lo
  {
    if lo == |batch| || |batch[lo]| + 2 > room then 0 else 1 + Fit(batch, lo + 1, room - |batch[lo]| - 2)
  }

  /** Java `int` arithmetic on sizes never overflows: every payload is far smaller than 2 GiB. */
  predicate NoSizeOverflow(batch: seq<seq<int8>>, bufferSize: int)
  {
    IsInt32(bufferSize)
    && forall i :: 0 <= i < |batch| ==> |batch[i]| + 8 < 0x8000_0000 && |batch[i]| + 2 + bufferSize < 0x8000_0000
  }

  // ---------------------------------------------------------------- building

  /** `System.arraycopy(src, 0, dest, destPos, src.length)`. */
  method ArrayCopy(src: seq<int8>, dest: array<int8>, destPos: int)
    requires 0 <= destPos && destPos + |src| <= dest.Length
    modifies dest
    ensures dest[..] == Overwrite(old(dest[..]), destPos, src)
  {
    forall k | 0 <= k < |src| {
      dest[destPos + k] := src[k];
    }
    OverwriteExt(dest[..], old(dest[..]), destPos, src);
  }

  /**
   * `buildSafeBatch`'s first loop: from `pos`, add payloads while the next
   * one's bytes and length prefix still fit in `bufferSize`.
   */
  method MeasureBatch(batch: seq<seq<int8>>, pos: int, bufferSize: int) returns (retSize: int, endIIncluded: int)
    requires 0 <= pos <= |batch|
    requires NoSizeOverflow(batch, bufferSize)
    ensures var k := Fit(batch, pos, bufferSize - 6);
      && retSize == 6 + FramedSize(batch, pos, pos + k)
      && endIIncluded == if k == 0 then pos else pos + k - 1
  {
    retSize := 6;
    endIIncluded := pos;
    var i := pos;
    while i < |batch|
      invariant pos <= i <= |batch|
      invariant endIIncluded == if i == pos then pos else i - 1
      invariant retSize == 6 + FramedSize(batch, pos, i)
      invariant Fit(batch, pos, bufferSize - 6) == (i - pos) + Fit(batch, i, bufferSize - retSize)
    {
      var length := |batch[i]|;
      if retSize + length + 2 > bufferSize {
        break;
      }
      endIIncluded := i;
      retSize := retSize + length + 2;
      i := i + 1;
    }
  }

  /** The body of `buildSafeBatch`'s second loop: one payload's length, then the payload. */
  method PutEntry(ret: array<int8>, src: seq<int8>, position: int)
    requires 0 <= position && position + 2 + |src| <= ret.Length && IsInt32(ret.Length)
    modifies ret
    ensures ret[..] == Overwrite(old(ret[..]), position, Entry(src))
  {
    PutShort(ret, |src|, position);
    ArrayCopy(src, ret, position + 2);
    OverwriteTwice(old(ret[..]), position, ShortBytes(|src|), src);
  }

  /** `buildSafeBatch`'s second loop: each payload after its length, from byte 6 on. */
  method FillBatch(ret: array<int8>, batch: seq<seq<int8>>, pos: int, endIIncluded: int)
    requires 0 <= pos <= endIIncluded + 1 <= |batch|
    requires ret.Length == 6 + FramedSize(batch, pos, endIIncluded + 1) && IsInt32(ret.Length)
    modifies ret
    ensures ret[..] == Overwrite(old(ret[..]), 6, Frame(batch, pos, endIIncluded + 1))
  {
    var position := 6;
    var j := pos;
    ghost var blank := ret[..];
    assert blank == Overwrite(blank, 6, []);
    while j <= endIIncluded
      invariant pos <= j <= endIIncluded + 1
      invariant position == 6 + FramedSize(batch, pos, j) <= ret.Length
      invariant ret[..] == Overwrite(blank, 6, Frame(batch, pos, j))
    {
      var src := batch[j];
      var srcLen := |src|;
      FramedSizeGrows(batch, pos, j + 1, endIIncluded + 1);
      PutEntry(ret, src, position);
      OverwriteTwice(blank, 6, Frame(batch, pos, j), Entry(src));
      position := position + srcLen + 2;
      j := j + 1;
    }
  }

  /**
   * `buildSafeBatch(seq, settings, batch, pos, bufferSize)`: the greedy run of
   * payloads from `pos` on that fits, framed behind the 6-byte header, or the
   * exception the source throws.
   */
  method BuildSafeBatch(seqNo: int, settings: int8, batch: seq<seq<int8>>, pos: int, bufferSize: int)
    returns (r: Result<Batch, Fault>)
    requires IsInt32(seqNo)
    requires NoSizeOverflow(batch, bufferSize)
    ensures r.Success? <==> 0 <= pos < |batch| && |batch[pos]| + 8 <= bufferSize
    ensures !(0 <= pos < |batch|) ==> r == Failure(IndexOutOfBounds)
    ensures 0 <= pos < |batch| && |batch[pos]| + 8 > bufferSize ==> r == Failure(CannotFit(|batch[pos]|, bufferSize))
    ensures r.Success? ==>
      && r.value.next == pos + Fit(batch, pos, bufferSize - 6)
      && pos < r.value.next <= |batch|
      && fresh(r.value.datagram)
      && r.value.datagram[..] == BatchBytes(seqNo, settings, batch, pos, r.value.next)
      && r.value.datagram.Length <= bufferSize
  {
    if pos < 0 || pos > |batch| {
      // the loop's first `array.get(pos)`, or the `array.get(pos)` of the exception message, throws
      return Failure(IndexOutOfBounds);
    }
    var retSize, endIIncluded := MeasureBatch(batch, pos, bufferSize);
    FitSummary(batch, pos, bufferSize - 6);
    if retSize == 6 {
      if pos == |batch| {
        return Failure(IndexOutOfBounds);
      }
      return Failure(CannotFit(|batch[pos]|, bufferSize));
    }
    ghost var k := Fit(batch, pos, bufferSize - 6);
    assert k > 0 && endIIncluded + 1 == pos + k && retSize <= bufferSize;
    var safeBatchSize := endIIncluded - pos + 1;
    var ret := new int8[retSize];
    ret[0] := settings;
    ghost var blank := ret[..];
    PutInt(ret, seqNo, 1);
    ghost var numbered := ret[..];
    ret[5] := ToByte(safeBatchSize);
    ghost var headed := ret[..];
    FillBatch(ret, batch, pos, endIIncluded);
    Layout(blank, numbered, headed, ret[..], settings, IntBytes(seqNo), ToByte(safeBatchSize), Frame(batch, pos, endIIncluded + 1));
    return Success(Batch(ret, endIIncluded + 1));
  }

  // ---------------------------------------------------------------- breaking down

  /** `r` with `done` put in front of the payloads, or its fault unchanged. */
  function Prepend(done: seq<seq<int8>>, r: Result<seq<seq<int8>>, Fault>): Result<seq<seq<int8>>, Fault>
  {
    match r
    case Success(rest) => Success(done + rest)
    case Failure(f) => Failure(f)
  }

  /**
   * The payload `breakBatchDown`'s loop reads at `pos`: `extractShort` of
   * the length prefix, then `new byte[packetSize]` and the copy, with the
   * exception each of those would throw.
   */
  function NextPacket(data: seq<int8>, pos: nat): (r: Result<seq<int8>, Fault>)
    ensures r.Success? ==> pos + 2 + |r.value| <= |data| && ExtractShort(data, pos) == |r.value|
  {
    if pos + 2 > |data| then Failure(IndexOutOfBounds)
    else
      var size := ExtractShort(data, pos);
      if size < 0 then Failure(NegativeArraySize)
      else if pos + 2 + size > |data| then Failure(IndexOutOfBounds)
      else Success(seq(size, k requires 0 <= k < size => data[pos + 2 + k]))
  }

  /** `n` more payloads read from `data` starting at `pos`, or the first exception on the way. */
  function UnbatchFrom(data: seq<int8>, pos: nat, n: nat): (r: Result<seq<seq<int8>>, Fault>)
    ensures r.Success? ==> |r.value| == n
    decreases n
  {
    if n == 0 then Success([])
    else
      match NextPacket(data, pos)
      case Failure(f) => Failure(f)
      case Success(e) => Prepend([e], UnbatchFrom(data, pos + 2 + |e|, n - 1))
  }

  /** What `breakBatchDown(fullData)` returns or throws; bytes after the last payload are ignored. */
  function Unbatch(data: seq<int8>): (r: Result<seq<seq<int8>>, Fault>)
    ensures r.Success? ==> |data| >= 6 && |r.value| == data[5] as int
  {
    if |data| < 6 then Failure(IndexOutOfBounds)
    else if data[5] < 0 then Failure(NegativeArraySize)
    else UnbatchFrom(data, 6, data[5])
  }

  method BreakBatchDown(fullData: array<int8>) returns (r: Result<seq<seq<int8>>, Fault>)
    ensures r == Unbatch(fullData[..])
  {
    var data := fullData[..];
    if |data| < 6 {
      return Failure(IndexOutOfBounds);
    }
    var arrSize := data[5];
    if arrSize < 0 {
      return Failure(NegativeArraySize);
    }
    var ret := new seq<int8>[arrSize];
    var pos := 6;
    var i := 0;
    ghost var done: seq<seq<int8>> := [];
    PrependNil(UnbatchFrom(data, pos, arrSize));
    while i < arrSize
      invariant 0 <= i <= arrSize && 6 <= pos && |done| == i
      invariant forall k :: 0 <= k < i ==> ret[k] == done[k]
      invariant Unbatch(data) == Prepend(done, UnbatchFrom(data, pos, arrSize - i))
    {
      var packet := NextPacket(data, pos);
      if packet.Failure? {
        return Failure(packet.error);
      }
      PrependTwice(done, [packet.value], UnbatchFrom(data, pos + 2 + |packet.value|, arrSize - i - 1));
      ret[i] := packet.value;
      done := done + [packet.value];
      pos := pos + 2 + |packet.value|;
      i := i + 1;
    }
    assert UnbatchFrom(data, pos, 0) == Success([]);
    assert done + [] == ret[..];
    return Success(ret[..]);
  }

  // ---------------------------------------------------------------- properties

  /** `Fit` is greedy: the payload after the ones it takes would overflow the room. */
  lemma {:induction false} FitMaximal(batch: seq<seq<int8>>, lo: int, room: int)
    requires 0 <= lo <= |batch|
    ensures var k := Fit(batch, lo, room); lo + k < |batch| ==> FramedSize(batch, lo, lo + k + 1) > room
    decreases |batch| - lo
  {
    var k := Fit(batch, lo, room);
    if lo + k < |batch| {
      FramedSizeUncons(batch, lo, lo + k + 1);
      if k > 0 {
        FitMaximal(batch, lo + 1, room - |batch[lo]| - 2);
      }
    }
  }

  /** Three 100-byte payloads and a 256-byte buffer: the first datagram carries two of them. */
  lemma FitExample(a: seq<int8>, b: seq<int8>, c: seq<int8>)
    requires |a| == 100 && |b| == 100 && |c| == 100
    ensures Fit([a, b, c], 0, 256 - 6) == 2
    ensures 6 + FramedSize([a, b, c], 0, 2) == 210
  {
    var batch := [a, b, c];
    assert Fit(batch, 2, 46) == 0;
    assert Fit(batch, 1, 148) == 1;
    assert FramedSize(batch, 0, 1) == 102;
  }

  /** The batch header: settings, the sequence number as `extractInt` reads it, and the count byte. */
  lemma BatchHeader(seqNo: int, settings: int8, batch: seq<seq<int8>>, lo: int, hi: int)
    requires IsInt32(seqNo) && 0 <= lo <= hi <= |batch|
    ensures BatchBytes(seqNo, settings, batch, lo, hi)[0] == settings
    ensures ExtractInt(BatchBytes(seqNo, settings, batch, lo, hi), 1) == seqNo
    ensures BatchBytes(seqNo, settings, batch, lo, hi)[5] == ToByte(hi - lo)
  {
    var d := BatchBytes(seqNo, settings, batch, lo, hi);
    assert d[1..5] == IntBytes(seqNo);
    IntRoundTrip(seqNo);
    assert ExtractInt(d, 1) == ExtractInt(IntBytes(seqNo), 0);
  }

  /**
   * Reading `data` from `pos` on yields, one after the other, the payloads
   * of `batch[lo..hi]`.
   */
  predicate Framed(data: seq<int8>, pos: nat, batch: seq<seq<int8>>, lo: int, hi: int)
    requires 0 <= lo <= hi <= |batch|
    decreases hi - lo
  {
    lo == hi
    || (NextPacket(data, pos) == Success(batch[lo]) && Framed(data, pos + 2 + |batch[lo]|, batch, lo + 1, hi))
  }

  /** Framed payloads read back one by one. */
  lemma {:induction false} UnbatchFramed(data: seq<int8>, pos: nat, batch: seq<seq<int8>>, lo: int, hi: int)
    requires 0 <= lo <= hi <= |batch|
    requires Framed(data, pos, batch, lo, hi)
    ensures UnbatchFrom(data, pos, hi - lo) == Success(batch[lo..hi])
    decreases hi - lo
  {
    if lo < hi {
      UnbatchFramed(data, pos + 2 + |batch[lo]|, batch, lo + 1, hi);
      assert [batch[lo]] + batch[lo + 1..hi] == batch[lo..hi];
    } else {
      assert batch[lo..hi] == [];
    }
  }

  /** The frame layout, with lengths that fit a signed short, is framed. */
  lemma {:induction false} FrameIsFramed(data: seq<int8>, pos: nat, batch: seq<seq<int8>>, lo: int, hi: int)
    requires 0 <= lo <= hi <= |batch|
    requires pos + FramedSize(batch, lo, hi) <= |data| && data[pos..pos + FramedSize(batch, lo, hi)] == Frame(batch, lo, hi)
    requires forall i :: lo <= i < hi ==> |batch[i]| < 0x8000
    ensures Framed(data, pos, batch, lo, hi)
    decreases hi - lo
  {
    if lo < hi {
      FrameHead(data, pos, batch, lo, hi);
      FrameIsFramed(data, pos + 2 + |batch[lo]|, batch, lo + 1, hi);
    }
  }

  /** The first payload of a frame layout, and the layout of the rest. */
  lemma FrameHead(data: seq<int8>, pos: nat, batch: seq<seq<int8>>, lo: int, hi: int)
    requires 0 <= lo < hi <= |batch| && |batch[lo]| < 0x8000
    requires pos + FramedSize(batch, lo, hi) <= |data| && data[pos..pos + FramedSize(batch, lo, hi)] == Frame(batch, lo, hi)
    ensures pos + 2 + |batch[lo]| + FramedSize(batch, lo + 1, hi) == pos + FramedSize(batch, lo, hi)
    ensures NextPacket(data, pos) == Success(batch[lo])
    ensures data[pos + 2 + |batch[lo]|..pos + 2 + |batch[lo]| + FramedSize(batch, lo + 1, hi)] == Frame(batch, lo + 1, hi)
  {
    var e, sb := batch[lo], ShortBytes(|batch[lo]|);
    var next := pos + 2 + |e|;
    var end := pos + FramedSize(batch, lo, hi);
    FrameUncons(batch, lo, hi);
    FramedSizeUncons(batch, lo, hi);
    assert Frame(batch, lo, hi) == (sb + e) + Frame(batch, lo + 1, hi);
    SliceSplit(data, pos, end, sb + e, Frame(batch, lo + 1, hi));
    SliceSplit(data, pos, next, sb, e);
    assert data[pos] == sb[0] && data[pos + 1] == sb[1];
    ShortRoundTrip(|e|);
    PacketAt(data, pos, e);
  }

  /** A payload behind a length prefix that `extractShort` reads as its length is read back whole. */
  lemma PacketAt(data: seq<int8>, pos: nat, e: seq<int8>)
    requires pos + 2 + |e| <= |data|
    requires ExtractShort(data, pos) == |e| && data[pos + 2..pos + 2 + |e|] == e
    ensures NextPacket(data, pos) == Success(e)
  {
    var size := |e|;
    var copy := seq(size, k requires 0 <= k < size => data[pos + 2 + k]);
    forall k | 0 <= k < size
      ensures copy[k] == e[k]
    {
      assert data[pos + 2..pos + 2 + size][k] == e[k];
    }
    assert copy == e;
  }

  /**
   * `breakBatchDown(buildSafeBatch(...))` gives back the payloads packed, as
   * long as the count fits a signed byte and every length a signed short.
   */
  lemma BatchRoundTrip(seqNo: int, settings: int8, batch: seq<seq<int8>>, lo: int, hi: int)
    requires IsInt32(seqNo) && 0 <= lo <= hi <= |batch|
    requires hi - lo < 128
    requires forall i :: lo <= i < hi ==> |batch[i]| < 0x8000
    ensures Unbatch(BatchBytes(seqNo, settings, batch, lo, hi)) == Success(batch[lo..hi])
  {
    var data := BatchBytes(seqNo, settings, batch, lo, hi);
    assert data[6..6 + FramedSize(batch, lo, hi)] == Frame(batch, lo, hi);
    FrameIsFramed(data, 6, batch, lo, hi);
    UnbatchFramed(data, 6, batch, lo, hi);
  }

  /** A count of 128 to 255 becomes a negative byte, and decoding throws. */
  lemma BatchCountNegative(seqNo: int, settings: int8, batch: seq<seq<int8>>, lo: int, hi: int)
    requires 0 <= lo <= hi <= |batch| && 128 <= hi - lo < 256
    ensures Unbatch(BatchBytes(seqNo, settings, batch, lo, hi)) == Failure(NegativeArraySize)
  {
    CountByte(seqNo, settings, batch, lo, hi);
    ToByteCongruent(hi - lo, hi - lo - 256);
  }

  /** A count that is a multiple of 256 becomes 0, and decoding silently returns no payload. */
  lemma BatchCountWraps(seqNo: int, settings: int8, batch: seq<seq<int8>>, lo: int, hi: int)
    requires 0 <= lo <= hi <= |batch| && (hi - lo) % 256 == 0
    ensures Unbatch(BatchBytes(seqNo, settings, batch, lo, hi)) == Success([])
  {
    CountByte(seqNo, settings, batch, lo, hi);
    ToByteCongruent(hi - lo, 0);
  }

  /** A first payload of 32768 to 65535 bytes has a negative length prefix, and decoding throws. */
  lemma BatchLengthNegative(seqNo: int, settings: int8, batch: seq<seq<int8>>, lo: int, hi: int)
    requires IsInt32(seqNo) && 0 <= lo < hi <= |batch| && hi - lo < 128
    requires 0x8000 <= |batch[lo]| < TWO_16
    ensures Unbatch(BatchBytes(seqNo, settings, batch, lo, hi)) == Failure(NegativeArraySize)
  {
    var data := BatchBytes(seqNo, settings, batch, lo, hi);
    var e, sb := batch[lo], ShortBytes(|batch[lo]|);
    var end := 6 + FramedSize(batch, lo, hi);
    FrameUncons(batch, lo, hi);
    FramedSizeUncons(batch, lo, hi);
    assert data[6..end] == Frame(batch, lo, hi) == (sb + e) + Frame(batch, lo + 1, hi);
    SliceSplit(data, 6, end, sb + e, Frame(batch, lo + 1, hi));
    SliceSplit(data, 6, 8 + |e|, sb, e);
    assert data[6] == sb[0] && data[7] == sb[1];
    ShortRoundTrip(|e|);
    assert ExtractShort(data, 6) == ExtractShort(sb, 0);
    assert NextPacket(data, 6) == Failure(NegativeArraySize);
    CountByte(seqNo, settings, batch, lo, hi);
    assert data[5] == hi - lo;
  }

  // ---------------------------------------------------------------- helpers

  lemma CountByte(seqNo: int, settings: int8, batch: seq<seq<int8>>, lo: int, hi: int)
    requires 0 <= lo <= hi <= |batch|
    ensures |BatchBytes(seqNo, settings, batch, lo, hi)| >= 6
    ensures BatchBytes(seqNo, settings, batch, lo, hi)[5] == ToByte(hi - lo)
  {
  }

  lemma PrependNil(r: Result<seq<seq<int8>>, Fault>)
    ensures Prepend([], r) == r
  {
    if r.Success? {
      assert [] + r.value == r.value;
    }
  }

  lemma PrependTwice(a: seq<seq<int8>>, b: seq<seq<int8>>, r: Result<seq<seq<int8>>, Fault>)
    ensures Prepend(a, Prepend(b, r)) == Prepend(a + b, r)
  {
    if r.Success? {
      assert a + (b + r.value) == (a + b) + r.value;
    }
  }

  /** What `buildSafeBatch` needs to know of `Fit` from `pos` on. */
  lemma FitSummary(batch: seq<seq<int8>>, pos: int, room: int)
    requires 0 <= pos <= |batch|
    ensures var k := Fit(batch, pos, room);
      && (k > 0 <==> pos < |batch| && |batch[pos]| + 2 <= room)
      && (k > 0 <==> FramedSize(batch, pos, pos + k) > 0)
      && (k > 0 ==> FramedSize(batch, pos, pos + k) <= room)
  {
    FitFits(batch, pos, room);
  }

  /** The payloads `Fit` takes fit in the room. */
  lemma {:induction false} FitFits(batch: seq<seq<int8>>, lo: int, room: int)
    requires 0 <= lo <= |batch|
    ensures Fit(batch, lo, room) > 0 ==> FramedSize(batch, lo, lo + Fit(batch, lo, room)) <= room
    decreases |batch| - lo
  {
    var k := Fit(batch, lo, room);
    if k > 0 {
      FitFits(batch, lo + 1, room - |batch[lo]| - 2);
      FramedSizeUncons(batch, lo, lo + k);
    }
  }

  lemma {:induction false} FramedSizeGrows(batch: seq<seq<int8>>, lo: int, mid: int, hi: int)
    requires 0 <= lo <= mid <= hi <= |batch|
    ensures FramedSize(batch, lo, mid) <= FramedSize(batch, lo, hi)
    decreases hi - mid
  {
    if mid < hi {
      FramedSizeGrows(batch, lo, mid, hi - 1);
    }
  }

  lemma {:induction false} FramedSizeUncons(batch: seq<seq<int8>>, lo: int, hi: int)
    requires 0 <= lo < hi <= |batch|
    ensures FramedSize(batch, lo, hi) == |batch[lo]| + 2 + FramedSize(batch, lo + 1, hi)
    decreases hi - lo
  {
    if lo + 1 < hi {
      FramedSizeUncons(batch, lo, hi - 1);
    }
  }

  lemma {:induction false} FrameUncons(batch: seq<seq<int8>>, lo: int, hi: int)
    requires 0 <= lo < hi <= |batch|
    ensures Frame(batch, lo, hi) == Entry(batch[lo]) + Frame(batch, lo + 1, hi)
    decreases hi - lo
  {
    if lo + 1 < hi {
      FrameUncons(batch, lo, hi - 1);
      var head, mid, last := Entry(batch[lo]), Frame(batch, lo + 1, hi - 1), Entry(batch[hi - 1]);
      assert (head + mid) + last == head + (mid + last);
    } else {
      assert Frame(batch, lo, hi) == [] + Entry(batch[lo]);
    }
  }

  /** A slice that is two words side by side splits into a slice for each. */
  lemma SliceSplit(data: seq<int8>, p: nat, q: nat, x: seq<int8>, y: seq<int8>)
    requires q == p + |x| + |y| <= |data| && data[p..q] == x + y
    ensures data[p..p + |x|] == x && data[p + |x|..q] == y
  {
    forall i | 0 <= i < |x|
      ensures data[p + i] == x[i]
    {
      assert data[p..q][i] == x[i];
    }
    forall i | 0 <= i < |y|
      ensures data[p + |x| + i] == y[i]
    {
      assert data[p..q][|x| + i] == y[i];
    }
  }

  /** The four writes of `buildSafeBatch` over a fresh buffer, for any header word `w` and frame `f`. */
  lemma Layout(blank: seq<int8>, numbered: seq<int8>, headed: seq<int8>, after: seq<int8>,
               settings: int8, w: seq<int8>, count: int8, f: seq<int8>)
    requires |w| == 4 && |blank| == 6 + |f| && blank[0] == settings
    requires numbered == Overwrite(blank, 1, w)
    requires headed == numbered[5 := count]
    requires after == Overwrite(headed, 6, f)
    ensures after == [settings] + w + [count] + f
  {
    var b := [settings] + w + [count] + f;
    forall i | 0 <= i < |b|
      ensures after[i] == b[i]
    {
      if i < 6 {
        assert after[i] == headed[i];
        if 1 <= i < 5 {
          assert numbered[i] == w[i - 1];
        }
      } else {
        assert after[i] == f[i - 6];
      }
    }
  }

  lemma OverwriteTwice(s: seq<int8>, p: int, a: seq<int8>, b: seq<int8>)
    requires 0 <= p && p + |a| + |b| <= |s|
    ensures Overwrite(Overwrite(s, p, a), p + |a|, b) == Overwrite(s, p, a + b)
  {
    var t := Overwrite(s, p, a);
    assert t[..p + |a|] == s[..p] + a;
    assert t[p + |a| + |b|..] == s[p + |a| + |b|..];
  }
}
