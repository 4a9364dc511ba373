/** Building requests (src/aml/protocol.c, protocol_build_request) and reading them back from a stream. */
module Requests {
  import opened Common
  import opened Protocol

  const MAX_ARGUMENTS := 249

  /** Bitwise exclusive or of the `bits` low bits: bit k of the result is set iff it differs in `a` and `b`. */
  function XorBits(a: nat, b: nat, bits: nat): (r: nat)
    requires a < Power2(bits) && b < Power2(bits)
    ensures r < Power2(bits)
    ensures r == 0 <==> a == b
  {
    if bits == 0 then 0
    else 2 * XorBits(a / 2, b / 2, bits - 1) + (if a % 2 == b % 2 then 0 else 1)
  }

  lemma {:induction false} XorBitByBit(a: nat, b: nat, bits: nat, k: nat)
    requires a < Power2(bits) && b < Power2(bits) && k < bits
    ensures Bit(XorBits(a, b, bits), k) <==> Bit(a, k) != Bit(b, k)
    decreases bits
  {
    if k > 0 {
      XorBitByBit(a / 2, b / 2, bits - 1, k - 1);
    }
  }

  function Xor(a: Byte, b: Byte): (r: Byte)
    ensures r == 0 <==> a == b
  {
    assert Power2(8) == 256;
    XorBits(a, b, 8)
  }

  /** XOR of all the bytes, in order. */
  function XorAll(s: seq<Byte>): Byte {
    if s == [] then 0 else Xor(XorAll(s[..|s| - 1]), s[|s| - 1])
  }

  /** How many of the bytes have bit `k` set. */
  function CountBit(s: seq<Byte>, k: nat): nat {
    if s == [] then 0 else CountBit(s[..|s| - 1], k) + if Bit(s[|s| - 1], k) then 1 else 0
  }

  /** A bit of the checksum is set exactly if it is set in an odd number of bytes. */
  lemma {:induction false} XorAllBitByBit(s: seq<Byte>, k: nat)
    requires k < 8
    ensures Bit(XorAll(s), k) <==> CountBit(s, k) % 2 == 1
    decreases |s|
  {
    hide Xor, Bit;
    if s == [] {
      ZeroHasNoBit(k);
    } else {
      var past, last := s[..|s| - 1], s[|s| - 1];
      XorAllBitByBit(past, k);
      XorBit(XorAll(past), last, k);
      assert XorAll(s) == Xor(XorAll(past), last);
      assert CountBit(s, k) == CountBit(past, k) + if Bit(last, k) then 1 else 0;
    }
  }

  lemma XorBit(a: Byte, b: Byte, k: nat)
    requires k < 8
    ensures Bit(Xor(a, b), k) <==> Bit(a, k) != Bit(b, k)
  {
    hide XorBits, Bit;
    assert Power2(8) == 256;
    XorBitByBit(a, b, 8, k);
  }

  /** The bytes covered by the checksum: inner length, code and arguments. */
  function Covered(code: Byte, arguments: seq<Byte>): seq<Byte>
    requires |arguments| <= MAX_ARGUMENTS
  {
    [(|arguments| + 3) as Byte, code] + arguments
  }

  /** The request frame; its length byte is a byte, so it wraps from 248 arguments on. */
  function RequestFrame(code: Byte, arguments: seq<Byte>): (f: seq<Byte>)
    requires |arguments| <= MAX_ARGUMENTS
    ensures |f| == |arguments| + 12
  {
    [START_1, START_2, TYPE_REQUEST, ((|arguments| + 8) % 256) as Byte, HEADER, HEADER_REQUEST]
    + Covered(code, arguments)
    + [XorAll(Covered(code, arguments)), END_MARK, CR, LF]
  }

  /** The checksum loop: XOR of the bytes from the inner length to the last argument. */
  method Checksum(bytes: array<Byte>, from: nat, to: nat) returns (checksum: Byte)
    requires from <= to <= bytes.Length
    ensures checksum == XorAll(bytes[from..to])
  {
    checksum := 0;
    var i := from;
    while i < to
      invariant from <= i <= to
      invariant checksum == XorAll(bytes[from..i])
    {
      assert bytes[from..i + 1][..i - from] == bytes[from..i];
      checksum := Xor(checksum, bytes[i]);
      i := i + 1;
    }
  }

  /** A sequence is a request frame when it holds the right byte at every position. */
  lemma FrameByPosition(f: seq<Byte>, code: Byte, arguments: seq<Byte>)
    requires |arguments| <= MAX_ARGUMENTS && |f| == |arguments| + 12
    requires f[..6] == [START_1, START_2, TYPE_REQUEST, ((|arguments| + 8) % 256) as Byte, HEADER, HEADER_REQUEST]
    requires f[6..8] == [(|arguments| + 3) as Byte, code] && f[8..|f| - 4] == arguments
    requires f[|f| - 4] == XorAll(f[6..|f| - 4]) && f[|f| - 3..] == [END_MARK, CR, LF]
    ensures f == RequestFrame(code, arguments)
  {
    hide XorAll;
    assert f[6..|f| - 4] == f[6..8] + f[8..|f| - 4];
    assert f == f[..6] + f[6..|f| - 4] + ([f[|f| - 4]] + f[|f| - 3..]);
  }

  /** The part of the construction that writes: everything before the checksum. */
  method WriteUpToArguments(code: Byte, arguments: seq<Byte>, output: array<Byte>)
    requires |arguments| <= MAX_ARGUMENTS && |arguments| + 12 <= output.Length
    modifies output
    ensures output[..6] == [START_1, START_2, TYPE_REQUEST, ((|arguments| + 8) % 256) as Byte, HEADER, HEADER_REQUEST]
    ensures output[6..8] == [(|arguments| + 3) as Byte, code]
    ensures output[8..|arguments| + 8] == arguments
    ensures forall k :: |arguments| + 8 <= k < output.Length ==> output[k] == old(output[k])
  {
    output[0], output[1], output[2] := START_1, START_2, TYPE_REQUEST;
    output[3] := (|arguments| + 8) % 256;
    output[4], output[5] := HEADER, HEADER_REQUEST;
    output[6], output[7] := |arguments| + 3, code;
    forall i | 0 <= i < |arguments| { output[8 + i] := arguments[i]; }
  }

  /**
   * protocol_build_request: a request is built iff its inner length fits a byte with room to spare and
   * the frame fits the output; bytes beyond the frame, or all of them on failure, are left alone.
   */
  method BuildRequest(code: Byte, arguments: seq<Byte>, output: array<Byte>)
    returns (result: int, outputLength: nat)
    modifies output
    ensures result == 0 || result == -1
    ensures result == 0 <==> |arguments| <= MAX_ARGUMENTS && |arguments| + 12 <= output.Length
    ensures result == 0 ==> outputLength == |arguments| + 12 && output[..outputLength] == RequestFrame(code, arguments)
    ensures forall k :: (if result == 0 then outputLength else 0) <= k < output.Length ==> output[k] == old(output[k])
  {
    hide XorAll, RequestFrame;
    var internalLength := |arguments| + 4;
    if internalLength - 1 > 255 { return -1, 0; }
    if internalLength > 255 - 2 { return -1, 0; }
    var frameLength := internalLength + 8;
    if output.Length < frameLength { return -1, 0; }

    WriteUpToArguments(code, arguments, output);
    var checksumIndex := 8 + |arguments|;
    var checksum := Checksum(output, 6, checksumIndex);
    ghost var before := output[..checksumIndex];
    output[checksumIndex] := checksum;
    output[checksumIndex + 1] := END_MARK;
    output[frameLength - 2], output[frameLength - 1] := CR, LF;
    ghost var f := output[..frameLength];
    assert f[..checksumIndex] == before;
    assert f[..6] == before[..6] && f[6..8] == before[6..8] && f[8..checksumIndex] == before[8..];
    assert f[6..checksumIndex] == before[6..];
    FrameByPosition(f, code, arguments);
    return 0, frameLength;
  }

  /** The status request, as documented. */
  lemma StatusRequest()
    ensures RequestFrame(REQ_STATUS, [STATUS_ARG]) ==
            [0xFE, 0xEF, 0x0A, 0x09, 0xAB, 0xAA, 0x04, 0x00, 0x16, 0x12, 0x55, 0x0D, 0x0A]
  {
    var covered := Covered(REQ_STATUS, [STATUS_ARG]);
    assert covered == [0x04, 0x00, 0x16] && covered[..2] == [0x04, 0x00] && covered[..2][..1] == [0x04];
    assert covered[..2][..1][..0] == [];
    assert Xor(0, 0x04) == 0x04 && Xor(0x04, 0x00) == 0x04 && Xor(0x04, 0x16) == 0x12 by {
      XorExamples();
    }
    assert XorAll(covered[..2][..1]) == 0x04;
    assert XorAll(covered[..2]) == 0x04;
    assert XorAll(covered) == 0x12;
  }

  lemma XorExamples()
    ensures Xor(0, 4) == 4 && Xor(4, 0) == 4 && Xor(4, 22) == 18
  {
    assert Power2(8) == 256;
    assert XorBits(0, 1, 6) == 1 && XorBits(1, 0, 6) == 1 by { assert XorBits(0, 0, 5) == 0; }
    assert XorBits(0, 4, 8) == 4 && XorBits(4, 0, 8) == 4 by {
      assert XorBits(0, 2, 7) == 2 && XorBits(2, 0, 7) == 2;
    }
    assert XorBits(0, 1, 4) == 1 by { assert XorBits(0, 0, 3) == 0; }
    assert XorBits(0, 2, 5) == 2;
    assert XorBits(1, 5, 6) == 4;
    assert XorBits(2, 11, 7) == 9;
    assert XorBits(4, 22, 8) == 18;
  }

  // ---------------------------------------------------------------------
  // Reading requests back
  // ---------------------------------------------------------------------

  /** A request is a well-formed frame exactly when its length byte did not wrap. */
  lemma RequestIsFrame(code: Byte, arguments: seq<Byte>)
    requires |arguments| <= MAX_ARGUMENTS
    ensures IsFrame(RequestFrame(code, arguments)) <==> |arguments| <= 247
  {
    hide XorAll;
    var f := RequestFrame(code, arguments);
    assert f[|f| - 3..] == [END_MARK, CR, LF];
    assert f[|f| - 3] == f[|f| - 3..][0] && f[|f| - 2] == f[|f| - 3..][1] && f[|f| - 1] == f[|f| - 3..][2];
  }

  /** The parser recovers a request, whatever follows it, iff it has at most 247 argument bytes. */
  lemma RequestIsExtracted(code: Byte, arguments: seq<Byte>, t: seq<Byte>)
    requires |arguments| <= MAX_ARGUMENTS
    ensures Next(RequestFrame(code, arguments) + t) == Extracted(RequestFrame(code, arguments), t)
            <==> |arguments| <= 247
  {
    hide RequestFrame;
    var f := RequestFrame(code, arguments);
    RequestIsFrame(code, arguments);
    assert (f + t)[..|f|] == f && (f + t)[|f|..] == t;
    if |arguments| <= 247 {
      hide IsFrame;
      JudgeFindsFrame(f + t, |f|);
    } else {
      hide IsFrame, Judge;
      assert Next(f + t).Extracted? ==> IsFrame(Next(f + t).frame);
    }
  }

  /** Code, arguments and checksum stand at fixed positions. */
  lemma RequestPositions(code: Byte, arguments: seq<Byte>)
    requires |arguments| <= MAX_ARGUMENTS
    ensures var f := RequestFrame(code, arguments);
            && f[CODE_OFFSET] == code
            && f[DATA_OFFSET..|f| - 4] == arguments
            && f[|f| - 4] == XorAll(f[6..|f| - 4])
            && XorAll(f[6..|f| - 3]) == 0
  {
    hide Xor;
    var f := RequestFrame(code, arguments);
    var covered := Covered(code, arguments);
    assert f[6..|f| - 4] == covered;
    assert f[6..|f| - 3][..|f| - 10] == covered;
    assert f[6..|f| - 3][|f| - 10] == XorAll(covered);
  }

  /** Conversely, a well-formed request frame with the right inner length and checksum is the one that is built. */
  lemma FrameIsRequest(f: seq<Byte>)
    requires IsFrame(f) && f[2] == TYPE_REQUEST
    requires f[6] as int == |f| - 9 && XorAll(f[6..|f| - 3]) == 0
    ensures |f| - 12 <= 247 && f == RequestFrame(f[CODE_OFFSET], f[DATA_OFFSET..|f| - 4])
  {
    hide Xor;
    var arguments := f[DATA_OFFSET..|f| - 4];
    assert f[6..|f| - 3][..|f| - 10] == f[6..|f| - 4];
    assert f[..6] == [START_1, START_2, TYPE_REQUEST, ((|arguments| + 8) % 256) as Byte, HEADER, HEADER_REQUEST];
    assert f[6..8] == [(|arguments| + 3) as Byte, f[CODE_OFFSET]];
    assert f[|f| - 3..] == [END_MARK, CR, LF];
    FrameByPosition(f, f[CODE_OFFSET], arguments);
  }

  // ---------------------------------------------------------------------
  // A noisy stream of requests
  // ---------------------------------------------------------------------

  datatype Emission = Emission(noise: seq<Byte>, code: Byte, arguments: seq<Byte>)

  /** No FE EF pair inside. The last byte may be FE: a frame starts with FE, which does not complete the pair. */
  predicate IsNoise(s: seq<Byte>) {
    forall i :: 0 <= i < |s| - 1 ==> !(s[i] == START_1 && s[i + 1] == START_2)
  }

  predicate Sendable(emissions: seq<Emission>) {
    forall i :: 0 <= i < |emissions| ==> IsNoise(emissions[i].noise) && |emissions[i].arguments| <= 247
  }

  function Stream(emissions: seq<Emission>, tail: seq<Byte>): seq<Byte>
    requires Sendable(emissions)
  {
    if emissions == [] then tail
    else
      var e := emissions[0];
      e.noise + (RequestFrame(e.code, e.arguments) + Stream(emissions[1..], tail))
  }

  function Sent(emissions: seq<Emission>): seq<seq<Byte>>
    requires Sendable(emissions)
  {
    if emissions == [] then []
    else [RequestFrame(emissions[0].code, emissions[0].arguments)] + Sent(emissions[1..])
  }

  lemma {:induction false} NoiseIsSkipped(noise: seq<Byte>, t: seq<Byte>)
    requires IsNoise(noise) && t != [] && t[0] == START_1
    ensures Next(noise + t) == Next(t)
    decreases |noise|
  {
    if noise == [] {
      assert noise + t == t;
    } else {
      var s := noise + t;
      assert s[0] == noise[0] && s[1] == if |noise| > 1 then noise[1] else t[0];
      assert Judge(s) == Rejected;
      assert s[1..] == noise[1..] + t;
      NoiseIsSkipped(noise[1..], t);
    }
  }

  /** What noise leaves behind: a final FE, which the next byte may turn into a frame start. */
  function NoiseResidue(s: seq<Byte>): seq<Byte> {
    if s != [] && s[|s| - 1] == START_1 then [START_1] else []
  }

  lemma {:induction false} NoiseResidueIsScan(s: seq<Byte>)
    requires IsNoise(s)
    ensures Next(s) == Waiting(NoiseResidue(s))
    decreases |s|
  {
    if |s| == 1 {
      assert s == [s[0]] && s[1..] == [];
    } else if |s| > 1 {
      assert Judge(s) == Rejected;
      NoiseResidueIsScan(s[1..]);
    }
  }

  /** Requests separated by noise come back as exactly those frames, in order. */
  lemma {:induction false} StreamRoundTrip(emissions: seq<Emission>, tail: seq<Byte>)
    requires Sendable(emissions) && IsNoise(tail)
    ensures Scan(Stream(emissions, tail)) == Harvest(Sent(emissions), NoiseResidue(tail))
    decreases |emissions|
  {
    hide Judge, Next, RequestFrame, IsNoise;
    if emissions == [] {
      NoiseResidueIsScan(tail);
    } else {
      var e := emissions[0];
      assert IsNoise(e.noise);
      var f := RequestFrame(e.code, e.arguments);
      var rest := Stream(emissions[1..], tail);
      RequestIsFrame(e.code, e.arguments);
      assert (f + rest)[0] == START_1;
      NoiseIsSkipped(e.noise, f + rest);
      RequestIsExtracted(e.code, e.arguments, rest);
      StreamRoundTrip(emissions[1..], tail);
    }
  }

  /** The same through any chunking, and the contents of every request can be read from the frames. */
  lemma ChunkedStreamRoundTrip(emissions: seq<Emission>, tail: seq<Byte>, chunks: seq<seq<Byte>>)
    requires Sendable(emissions) && IsNoise(tail) && Concat(chunks) == Stream(emissions, tail)
    ensures Session([], chunks) == Harvest(Sent(emissions), NoiseResidue(tail))
    ensures |Sent(emissions)| == |emissions|
    ensures forall i :: 0 <= i < |emissions| ==>
              var f := Sent(emissions)[i];
              |f| == |emissions[i].arguments| + 12
              && f[CODE_OFFSET] == emissions[i].code
              && f[DATA_OFFSET..|f| - 4] == emissions[i].arguments
              && XorAll(f[6..|f| - 3]) == 0
  {
    hide Scan, Stream, RequestFrame, XorAll, Session, IsNoise;
    ChunkingIndependence(chunks, chunks);
    StreamRoundTrip(emissions, tail);
    SentByPosition(emissions);
    forall i | 0 <= i < |emissions|
      ensures var f := Sent(emissions)[i];
              |f| == |emissions[i].arguments| + 12
              && f[CODE_OFFSET] == emissions[i].code
              && f[DATA_OFFSET..|f| - 4] == emissions[i].arguments
              && XorAll(f[6..|f| - 3]) == 0
    {
      RequestPositions(emissions[i].code, emissions[i].arguments);
    }
  }

  lemma {:induction false} SentByPosition(emissions: seq<Emission>)
    requires Sendable(emissions)
    ensures |Sent(emissions)| == |emissions|
    ensures forall i :: 0 <= i < |emissions| ==>
              Sent(emissions)[i] == RequestFrame(emissions[i].code, emissions[i].arguments)
    decreases |emissions|
  {
    hide RequestFrame;
    if emissions != [] {
      SentByPosition(emissions[1..]);
    }
  }
}
