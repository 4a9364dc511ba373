/** The bounded, in-place parser (src/aml/protocol.c), proved to refine the unbounded scanner. */
module Parser {
  import opened Common
  import opened Protocol

  /** Dropping bytes before which no FE EF pair starts changes nothing. */
  lemma {:induction false} SkipToPair(s: seq<Byte>, i: nat)
    requires i < |s|
    requires forall j :: 0 <= j < i ==> !(s[j] == START_1 && s[j + 1] == START_2)
    ensures Next(s[i..]) == Next(s)
    decreases i
  {
    if i == 0 {
      assert s[0..] == s;
    } else {
      assert Judge(s) == Rejected;
      SkipToPair(s[1..], i - 1);
      assert s[1..][i - 1..] == s[i..];
    }
  }

  class ProtocolParser {
    const data: array<Byte>
    var length: nat

    ghost predicate Valid()
      reads this
    {
      data.Length == BUFFER_SIZE && length <= BUFFER_SIZE
    }

    /** The bytes received and not yet extracted. */
    function Contents(): (s: seq<Byte>)
      requires Valid()
      reads this, data
      ensures |s| == length
    {
      data[..length]
    }

    constructor ()
      ensures Valid() && fresh(data) && Contents() == []
    {
      data := new Byte[BUFFER_SIZE];
      length := 0;
    }

    /** protocol_parser_init */
    method Init()
      requires Valid()
      modifies this
      ensures Valid() && Contents() == []
    {
      length := 0;
    }

    /** protocol_parser_feed: all of the bytes or none of them. */
    method Feed(bytes: seq<Byte>) returns (result: int)
      requires Valid()
      modifies this, data
      ensures Valid()
      ensures result == if old(length) + |bytes| <= BUFFER_SIZE then 0 else -1
      ensures Contents() == if result == 0 then old(Contents()) + bytes else old(Contents())
    {
      if |bytes| > BUFFER_SIZE - length {
        return -1;
      }
      forall i | 0 <= i < |bytes| { data[length + i] := bytes[i]; }
      length := length + |bytes|;
      return 0;
    }

    /** protocol_parser_consume */
    method Consume(count: nat)
      requires Valid()
      modifies this, data
      ensures Valid()
      ensures Contents() == if count >= old(length) then [] else old(Contents())[count..]
    {
      if count >= length {
        length := 0;
        return;
      }
      forall i | 0 <= i < length - count { data[i] := data[count + i]; }
      length := length - count;
    }

    /**
     * The search loop and the removal of noise: the buffer then starts at the first FE EF pair, or keeps
     * at most a final FE when there is no pair.
     */
    method Align() returns (found: bool)
      requires Valid() && length > 0
      modifies this, data
      ensures Valid() && length <= old(length) && Next(Contents()) == Next(old(Contents()))
      ensures if found then length >= 2 && data[0] == START_1 && data[1] == START_2
              else Next(Contents()) == Waiting(Contents()) && (Contents() == [] || Contents() == [START_1])
    {
      hide Judge, IsFrame;
      ghost var s := Contents();
      var i := 0;
      while i + 1 < length
        invariant i < length
        invariant forall j :: 0 <= j < i ==> !(s[j] == START_1 && s[j + 1] == START_2)
      {
        if data[i] == START_1 && data[i + 1] == START_2 {
          break;
        }
        i := i + 1;
      }
      SkipToPair(s, i);
      if i + 1 >= length {
        assert s[i..] == [s[i]];
        SingleByte(s[i]);
        if data[length - 1] == START_1 {
          data[0] := START_1;
          length := 1;
        } else {
          length := 0;
        }
        assert Contents() == if s[i] == START_1 then [s[i]] else [];
        return false;
      }
      assert s[i] == START_1 && s[i + 1] == START_2;
      if i > 0 {
        Consume(i);
      }
      assert Contents() == s[i..];
      assert data[0] == Contents()[0] == s[i] && data[1] == Contents()[1] == s[i + 1];
      return true;
    }

    /** The checks on the candidate at the head of the buffer. */
    method Examine() returns (v: Verdict)
      requires Valid() && length >= 2 && data[0] == START_1 && data[1] == START_2
      ensures v == Judge(Contents())
      ensures (v.Complete? <==> BeginsWithFrame(Contents())) && (v.Incomplete? <==> Undecided(Contents()))
    {
      hide BeginsWithFrame, Undecided;
      JudgeMeans(Contents());
      if length < 4 {
        return Incomplete;
      }
      if data[2] != TYPE_REQUEST && data[2] != TYPE_RESPONSE {
        return Rejected;
      }
      if length >= 6 {
        if data[4] != HEADER || data[5] != ExpectedHeader(data[2]) {
          return Rejected;
        }
      } else {
        return Incomplete;
      }
      var frameLength := data[3] as int + 4;
      if frameLength < 12 || frameLength > MAX_FRAME_SIZE {
        return Rejected;
      }
      if length < frameLength {
        return Incomplete;
      }
      if data[frameLength - 3] != END_MARK || data[frameLength - 2] != CR || data[frameLength - 1] != LF {
        return Rejected;
      }
      return Complete(frameLength);
    }

    /**
     * protocol_parser_next: extracts what the scanner extracts and keeps what it keeps. A frame larger
     * than the output is an error and stays at the head of the buffer.
     */
    method NextFrame(output: array<Byte>) returns (result: int, outputLength: nat)
      requires Valid() && output != data
      modifies this, data, output
      ensures Valid()
      ensures match Next(old(Contents()))
              case Waiting(rest) =>
                result == 0 && Contents() == rest && output[..] == old(output[..])
              case Extracted(frame, rest) =>
                if |frame| <= output.Length then
                  && result == 1 && outputLength == |frame|
                  && output[..outputLength] == frame && Contents() == rest
                else
                  result == -1 && Contents() == frame + rest && output[..] == old(output[..])
      // Nothing is kept waiting that cannot be the start of a frame any more.
      ensures result == 0 ==> Undecided(Contents())
      decreases length
    {
      hide Judge, IsFrame, Undecided, BeginsWithFrame;
      WaitingIsUndecided(Contents());
      if length == 0 {
        return 0, 0;
      }
      var found := Align();
      if !found {
        return 0, 0;
      }
      var verdict := Examine();
      ghost var s := Contents();
      match verdict
      case Incomplete =>
        return 0, 0;
      case Rejected =>
        Consume(1);
        result, outputLength := NextFrame(output);
      case Complete(frameLength) =>
        assert s == s[..frameLength] + s[frameLength..];
        if output.Length < frameLength {
          return -1, 0;
        }
        forall k | 0 <= k < frameLength { output[k] := data[k]; }
        assert output[..frameLength] == s[..frameLength];
        Consume(frameLength);
        return 1, frameLength;
    }
  }

  lemma SingleByte(b: Byte)
    ensures Next([b]) == Waiting(if b == START_1 then [START_1] else [])
  {
  }
}
