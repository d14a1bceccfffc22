/** concatenateWAVBuffers (static/js/main.js): joins WAV files that share the canonical
    44-byte PCM header of the RIFF format. The output keeps the first file's header, with
    its two size fields rewritten (the RIFF chunk size at bytes 4..7, which is 36 plus the
    data length, and the data chunk size at bytes 40..43), followed by every file's samples
    (its bytes from 44 on) in order. */
module Wav {
  import opened Octets

  /** Size of the canonical PCM WAVE header: "RIFF", size, "WAVE", the 24-byte fmt chunk,
      "data", size. */
  const HeaderSize: nat := 44

  /** The RIFF chunk size counts everything after its own field: "WAVE" (4 bytes), the fmt
      chunk (8 + 16 bytes) and the data chunk's 8-byte header, plus the data. */
  const RiffOverhead: nat := 36

  const TwoTo32: int := 0x1_0000_0000

  /** A JavaScript number as its bitwise operators see it, reduced modulo 2^32. */
  function Uint32(n: int): (r: int)
    ensures 0 <= r < TwoTo32
  {
    n % TwoTo32
  }

  /** The value of the RIFF chunk size field for a given data length. */
  function RiffChunkSize(dataLength: int): (r: int)
    ensures 0 <= r < TwoTo32
  {
    Uint32(RiffOverhead + dataLength)
  }

  /** The n low bytes of x, least significant first: byte k is (x >> 8k) & 0xff. */
  function LittleEndian(x: int, n: nat): (r: Bytes)
    requires 0 <= x
    ensures |r| == n
  {
    if n == 0 then [] else [(x % 0x100) as Byte] + LittleEndian(x / 0x100, n - 1)
  }

  /** A 32-bit field as the header stores it. */
  function Le32(x: int): (r: Bytes)
    requires 0 <= x < TwoTo32
    ensures |r| == 4
  {
    LittleEndian(x, 4)
  }

  /** The little-endian value of a field, as a reader of the header computes it. */
  function FromLittleEndian(b: Bytes): int
  {
    if b == [] then 0 else b[0] as int + 0x100 * FromLittleEndian(b[1..])
  }

  /** 256 to the power n: one more than the largest value n bytes hold. */
  function Radix(n: nat): (r: nat)
    ensures r >= 1
  {
    if n == 0 then 1 else 0x100 * Radix(n - 1)
  }

  /** Writing a number that fits in n bytes and reading the bytes back gives the number. */
  lemma {:induction false} LittleEndianRoundTrip(x: int, n: nat)
    requires 0 <= x < Radix(n)
    ensures FromLittleEndian(LittleEndian(x, n)) == x
  {
    if n > 0 {
      var q := x / 0x100;
      assert x == 0x100 * q + x % 0x100;
      assert q < Radix(n - 1);
      LittleEndianRoundTrip(q, n - 1);
    }
  }

  /** The four bytes are the ones the shifts and masks pick out. */
  lemma Le32Bytes(x: int)
    requires 0 <= x < TwoTo32
    ensures Le32(x) == [(x % 0x100) as Byte, (x / 0x100 % 0x100) as Byte,
                        (x / 0x1_0000 % 0x100) as Byte, (x / 0x100_0000 % 0x100) as Byte]
  {
    var q1 := x / 0x100;
    var q2 := q1 / 0x100;
    var q3 := q2 / 0x100;
    assert x == 0x100 * q1 + x % 0x100;
    assert q1 == 0x100 * q2 + q1 % 0x100;
    assert q2 == 0x100 * q3 + q2 % 0x100;
    assert x == 0x1_0000 * q2 + (0x100 * (q1 % 0x100) + x % 0x100);
    assert x / 0x1_0000 == q2;
    assert x == 0x100_0000 * q3 + (0x1_0000 * (q2 % 0x100) + 0x100 * (q1 % 0x100) + x % 0x100);
    assert x / 0x100_0000 == q3;
    calc {
      Le32(x);
      [(x % 0x100) as Byte] + LittleEndian(q1, 3);
      [(x % 0x100) as Byte] + [(q1 % 0x100) as Byte] + LittleEndian(q2, 2);
      [(x % 0x100) as Byte] + [(q1 % 0x100) as Byte] + [(q2 % 0x100) as Byte] + LittleEndian(q3, 1);
      [(x % 0x100) as Byte] + [(q1 % 0x100) as Byte] + [(q2 % 0x100) as Byte] + [(q3 % 0x100) as Byte];
    }
  }

  /** Decoding a size field gives back the number written. */
  lemma Le32RoundTrip(x: int)
    requires 0 <= x < TwoTo32
    ensures FromLittleEndian(Le32(x)) == x
  {
    assert Radix(4) == TwoTo32;
    LittleEndianRoundTrip(x, 4);
  }

  /** The total of the buffers' lengths beyond their headers (the reduce that computes
      dataLength). */
  function DataLength(buffers: seq<Bytes>): int
  {
    if buffers == [] then 0
    else DataLength(buffers[..|buffers| - 1]) + |buffers[|buffers| - 1]| - HeaderSize
  }

  /** Every buffer carries at least a header. */
  ghost predicate WellFormed(buffers: seq<Bytes>)
  {
    forall i :: 0 <= i < |buffers| ==> |buffers[i]| >= HeaderSize
  }

  /** The buffers' samples, each buffer's bytes after its header, one after another. */
  function Payloads(buffers: seq<Bytes>): (r: Bytes)
    requires WellFormed(buffers)
    ensures |r| == DataLength(buffers)
  {
    if buffers == [] then []
    else Payloads(buffers[..|buffers| - 1]) + buffers[|buffers| - 1][HeaderSize..]
  }

  /** The output header: the first buffer's header with both size fields rewritten for a
      data chunk of dataLength bytes. */
  function Header(first: Bytes, dataLength: int): (r: Bytes)
    requires |first| >= HeaderSize
    ensures |r| == HeaderSize
  {
    first[..4] + Le32(RiffChunkSize(dataLength)) + first[8..40] + Le32(Uint32(dataLength))
  }

  /** The concatenated file. */
  function Concatenated(buffers: seq<Bytes>): Bytes
    requires |buffers| > 0 && WellFormed(buffers)
  {
    Header(buffers[0], DataLength(buffers)) + Payloads(buffers)
  }

  /** Where buffer i's samples start in the output. */
  function Offset(buffers: seq<Bytes>, i: nat): int
    requires i <= |buffers|
  {
    HeaderSize + DataLength(buffers[..i])
  }

  lemma {:induction false} DataLengthNonNegative(buffers: seq<Bytes>)
    requires WellFormed(buffers)
    ensures DataLength(buffers) >= 0
    decreases |buffers|
  {
    if buffers != [] {
      DataLengthNonNegative(buffers[..|buffers| - 1]);
    }
  }

  /** The samples of the first i buffers are a prefix of those of the first j. */
  lemma {:induction false} PayloadsPrefix(buffers: seq<Bytes>, i: nat, j: nat)
    requires WellFormed(buffers) && i <= j <= |buffers|
    ensures Payloads(buffers[..i]) <= Payloads(buffers[..j])
    decreases j - i
  {
    if i < j {
      PayloadsPrefix(buffers, i, j - 1);
      assert buffers[..j][..j - 1] == buffers[..j - 1];
    }
  }

  /** The samples of the first i + 1 buffers: those of the first i, then buffer i's. */
  lemma PayloadsSnoc(buffers: seq<Bytes>, i: nat)
    requires WellFormed(buffers) && i < |buffers|
    ensures Payloads(buffers[..i + 1]) == Payloads(buffers[..i]) + buffers[i][HeaderSize..]
  {
    assert buffers[..i + 1][..i] == buffers[..i];
  }

  /** The output is 44 bytes plus the sum over all buffers of their length less 44. */
  lemma ConcatenatedLength(buffers: seq<Bytes>)
    requires |buffers| > 0 && WellFormed(buffers)
    ensures |Concatenated(buffers)| == HeaderSize + DataLength(buffers)
  {
  }

  /** Bytes 0..3 ("RIFF") and 8..39 ("WAVE" and the fmt chunk, up to "data") are the first
      buffer's. */
  lemma HeaderKept(buffers: seq<Bytes>)
    requires |buffers| > 0 && WellFormed(buffers)
    ensures forall j :: 0 <= j < 4 || 8 <= j < 40 ==> Concatenated(buffers)[j] == buffers[0][j]
  {
  }

  /** Where the two size fields sit in a header: the first at bytes 4..7, ... */
  lemma HeaderRiffSize(first: Bytes, dataLength: int)
    requires |first| >= HeaderSize
    ensures Header(first, dataLength)[4..8] == Le32(RiffChunkSize(dataLength))
  {
    var total := Le32(RiffChunkSize(dataLength));
    var data := Le32(Uint32(dataLength));
    assert Header(first, dataLength) == first[..4] + (total + (first[8..40] + data));
  }

  /** ... and the second at bytes 40..43. */
  lemma HeaderDataSize(first: Bytes, dataLength: int)
    requires |first| >= HeaderSize
    ensures Header(first, dataLength)[40..44] == Le32(Uint32(dataLength))
  {
  }

  /** Bytes 4..7, the RIFF chunk size, hold (36 + dataLength) mod 2^32 least significant
      byte first (so by Le32RoundTrip a reader decodes them to that value). */
  lemma RiffSizeField(buffers: seq<Bytes>)
    requires |buffers| > 0 && WellFormed(buffers)
    ensures Concatenated(buffers)[4..8] == Le32(RiffChunkSize(DataLength(buffers)))
  {
    var h := Header(buffers[0], DataLength(buffers));
    assert Concatenated(buffers)[4..8] == h[4..8] by {
      SliceOfPrefix(h, Payloads(buffers), 4, 8);
    }
    assert h[4..8] == Le32(RiffChunkSize(DataLength(buffers))) by {
      HeaderRiffSize(buffers[0], DataLength(buffers));
    }
  }

  /** Bytes 40..43, the data chunk size, hold dataLength mod 2^32 least significant byte
      first. */
  lemma DataSizeField(buffers: seq<Bytes>)
    requires |buffers| > 0 && WellFormed(buffers)
    ensures Concatenated(buffers)[40..44] == Le32(Uint32(DataLength(buffers)))
  {
    var h := Header(buffers[0], DataLength(buffers));
    assert Concatenated(buffers) == h + Payloads(buffers);
    SliceOfPrefix(h, Payloads(buffers), 40, 44);
    HeaderDataSize(buffers[0], DataLength(buffers));
  }

  /** Storing the two size fields over a copied header keeps its other bytes. */
  lemma StoreFields(s: Bytes, total: Bytes, data: Bytes)
    requires |s| >= HeaderSize && |total| == 4 && |data| == 4
    ensures (var withTotal := s[..4] + total + s[8..];
             (withTotal[..40] + data + withTotal[44..])[..HeaderSize] == s[..4] + total + s[8..40] + data)
  {
    var withTotal := s[..4] + total + s[8..];
    assert withTotal[..40] == s[..4] + total + s[8..40];
  }

  /** The header as the method leaves it: the first buffer's header copied, then the RIFF
      size stored at byte 4 and the data size at byte 40. */
  lemma HeaderWritten(first: Bytes, dataLength: int, copied: Bytes, withTotal: Bytes, stored: Bytes)
    requires |first| >= HeaderSize && |copied| >= HeaderSize
    requires copied[..HeaderSize] == first[..HeaderSize]
    requires withTotal == copied[..4] + Le32(RiffChunkSize(dataLength)) + copied[8..]
    requires stored == withTotal[..40] + Le32(Uint32(dataLength)) + withTotal[44..]
    ensures stored[..HeaderSize] == Header(first, dataLength)
  {
    StoreFields(copied, Le32(RiffChunkSize(dataLength)), Le32(Uint32(dataLength)));
    assert copied[..4] == first[..4] && copied[8..40] == first[8..40];
  }

  /** A slice within the first part of a concatenation is a slice of that part. */
  lemma SliceOfPrefix(h: Bytes, p: Bytes, i: nat, j: nat)
    requires i <= j <= |h|
    ensures (h + p)[i..j] == h[i..j]
  {
  }

  /** Buffer i's samples start where those of the buffers before it end, and the last
      buffer's end at the end of the output. */
  lemma OffsetStep(buffers: seq<Bytes>, i: nat)
    requires |buffers| > 0 && WellFormed(buffers) && i < |buffers|
    ensures HeaderSize <= Offset(buffers, i)
    ensures Offset(buffers, i + 1) == Offset(buffers, i) + |buffers[i]| - HeaderSize
    ensures Offset(buffers, i + 1) <= Offset(buffers, |buffers|) == HeaderSize + DataLength(buffers)
  {
    assert buffers[..i + 1][..i] == buffers[..i];
    assert buffers[..|buffers|] == buffers;
    DataLengthNonNegative(buffers[..i]);
    PayloadsPrefix(buffers, i + 1, |buffers|);
  }

  /** Buffer i's samples are copied to the output from Offset(i) on, in order. */
  lemma PayloadPlacement(buffers: seq<Bytes>, i: nat)
    requires |buffers| > 0 && WellFormed(buffers) && i < |buffers|
    ensures HeaderSize <= Offset(buffers, i)
    ensures Offset(buffers, i) + |buffers[i]| - HeaderSize <= |Concatenated(buffers)|
    ensures forall k :: HeaderSize <= k < |buffers[i]| ==>
      Concatenated(buffers)[Offset(buffers, i) + k - HeaderSize] == buffers[i][k]
  {
    OffsetStep(buffers, i);
    var before := Payloads(buffers[..i]);
    var through := Payloads(buffers[..i + 1]);
    assert buffers[..i + 1][..i] == buffers[..i];
    assert through == before + buffers[i][HeaderSize..];
    PayloadsPrefix(buffers, i + 1, |buffers|);
    assert buffers[..|buffers|] == buffers;
    var all := Payloads(buffers);
    assert through <= all;
    forall k | HeaderSize <= k < |buffers[i]|
      ensures Concatenated(buffers)[Offset(buffers, i) + k - HeaderSize] == buffers[i][k]
    {
      var at := |before| + k - HeaderSize;
      assert through[at] == buffers[i][k];
      assert all[at] == through[at];
    }
  }

  /** Regions of different buffers do not overlap: an earlier buffer's samples end no later
      than a later buffer's begin. */
  lemma {:induction false} PayloadsDisjoint(buffers: seq<Bytes>, i: nat, j: nat)
    requires |buffers| > 0 && WellFormed(buffers) && i < j < |buffers|
    ensures Offset(buffers, i) + |buffers[i]| - HeaderSize <= Offset(buffers, j)
    decreases j - i
  {
    OffsetStep(buffers, i);
    if i + 1 < j {
      OffsetStep(buffers, i + 1);
      PayloadsDisjoint(buffers, i + 1, j);
    }
  }

  /** Uint8Array.prototype.set: copies source into target from offset on, and leaves the
      rest of target as it was. */
  method Set(target: array<Byte>, source: Bytes, offset: nat)
    requires offset + |source| <= target.Length
    modifies target
    ensures target[..] == old(target[..offset]) + source + old(target[offset + |source|..])
  {
    forall k | 0 <= k < |source| {
      target[offset + k] := source[k];
    }
    assert target[..] == old(target[..offset]) + source + old(target[offset + |source|..]);
  }

  /** The four assignments that store x at target[at..at + 4], least significant byte
      first: byte k is (x >> 8k) & 0xff, that is (x / 256^k) % 256. */
  method SetLe32(target: array<Byte>, at: nat, x: int)
    requires at + 4 <= target.Length && 0 <= x < TwoTo32
    modifies target
    ensures target[..] == old(target[..at]) + Le32(x) + old(target[at + 4..])
  {
    target[at] := (x % 0x100) as Byte;
    target[at + 1] := (x / 0x100 % 0x100) as Byte;
    target[at + 2] := (x / 0x1_0000 % 0x100) as Byte;
    target[at + 3] := (x / 0x100_0000 % 0x100) as Byte;
    Le32Bytes(x);
    assert target[..] == old(target[..at]) + target[at..at + 4] + old(target[at + 4..]);
  }

  /** The forEach that copies every buffer's samples into target behind the header, buffer
      i at offset Offset(i). */
  method CopySamples(target: array<Byte>, wavBuffers: seq<Bytes>)
    requires |wavBuffers| > 0 && WellFormed(wavBuffers)
    requires HeaderSize <= target.Length == HeaderSize + DataLength(wavBuffers)
    modifies target
    ensures target[..] == old(target[..HeaderSize]) + Payloads(wavBuffers)
  {
    ghost var header := target[..HeaderSize];
    var offset := HeaderSize;
    for i := 0 to |wavBuffers|
      invariant HeaderSize <= offset <= target.Length
      invariant offset == Offset(wavBuffers, i)
      invariant target[..offset] == header + Payloads(wavBuffers[..i])
    {
      var buffer := wavBuffers[i];
      OffsetStep(wavBuffers, i);
      PayloadsSnoc(wavBuffers, i);
      Set(target, buffer[HeaderSize..], offset);
      offset := offset + |buffer| - HeaderSize;
      assert target[..offset] == header + Payloads(wavBuffers[..i + 1]);
    }
    assert wavBuffers[..|wavBuffers|] == wavBuffers;
    assert target[..] == target[..offset];
  }

  /** The start of concatenateWAVBuffers: the first buffer's 44 header bytes copied to the
      front of target, then the RIFF size stored at byte 4 and the data size at byte 40. */
  method WriteHeader(target: array<Byte>, first: Bytes, dataLength: int)
    requires |first| >= HeaderSize && HeaderSize <= target.Length
    modifies target
    ensures target[..] == Header(first, dataLength) + old(target[HeaderSize..])
  {
    Set(target, first[..HeaderSize], 0);
    ghost var copied := target[..];
    var totalSize := RiffChunkSize(dataLength);
    SetLe32(target, 4, totalSize);
    ghost var withTotal := target[..];
    var dataSize := Uint32(dataLength);
    SetLe32(target, 40, dataSize);
    assert copied[..HeaderSize] == first[..HeaderSize];
    HeaderWritten(first, dataLength, copied, withTotal, target[..]);
    assert target[..] == target[..HeaderSize] + target[HeaderSize..];
  }

  /** concatenateWAVBuffers. The caller always passes at least one buffer, each produced by a
      WAV encoder and so at least a header long. */
  method ConcatenateWavBuffers(wavBuffers: seq<Bytes>) returns (concatenated: array<Byte>)
    requires |wavBuffers| > 0 && WellFormed(wavBuffers)
    ensures fresh(concatenated)
    ensures concatenated[..] == Concatenated(wavBuffers)
  {
    var dataLength := DataLength(wavBuffers);
    DataLengthNonNegative(wavBuffers);
    concatenated := new Byte[HeaderSize + dataLength];

    WriteHeader(concatenated, wavBuffers[0], dataLength);
    assert concatenated[..HeaderSize] == Header(wavBuffers[0], dataLength);
    CopySamples(concatenated, wavBuffers);
  }
}
