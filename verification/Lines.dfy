/** Lines of a byte stream: what both ends of the local socket agree on. */
module Lines {
  import opened Common

  const NL: Byte := 10
  const RETURN: Byte := 13

  /** The complete lines of a stream, without their '\n', and the bytes after the last '\n'. */
  datatype Split = Split(lines: seq<seq<Byte>>, tail: seq<Byte>)

  function SplitLines(s: seq<Byte>): Split
    decreases |s|
  {
    if s == [] then Split([], [])
    else
      var before, last := SplitLines(s[..|s| - 1]), s[|s| - 1];
      if last == NL then Split(before.lines + [before.tail], [])
      else Split(before.lines, before.tail + [last])
  }

  /** A stream may be split into lines piece by piece, keeping only the unfinished line in between. */
  lemma {:induction false} SplitAppends(s: seq<Byte>, t: seq<Byte>)
    ensures SplitLines(s + t) == Split(SplitLines(s).lines + SplitLines(SplitLines(s).tail + t).lines,
                                       SplitLines(SplitLines(s).tail + t).tail)
    decreases |t|
  {
    var tail := SplitLines(s).tail;
    if t == [] {
      assert s + t == s && tail + t == tail;
      TailIsUnfinished(s);
    } else {
      var u, last := t[..|t| - 1], t[|t| - 1];
      SplitAppends(s, u);
      assert (s + t)[..|s + t| - 1] == s + u && (tail + t)[..|tail + t| - 1] == tail + u;
    }
  }

  predicate NoNewline(s: seq<Byte>) {
    forall i :: 0 <= i < |s| ==> s[i] != NL
  }

  lemma {:induction false} UnfinishedLine(s: seq<Byte>)
    requires NoNewline(s)
    ensures SplitLines(s) == Split([], s)
    decreases |s|
  {
    if s != [] {
      UnfinishedLine(s[..|s| - 1]);
      assert s == s[..|s| - 1] + [s[|s| - 1]];
    }
  }

  lemma {:induction false} TailIsUnfinished(s: seq<Byte>)
    ensures NoNewline(SplitLines(s).tail)
    ensures SplitLines(SplitLines(s).tail) == Split([], SplitLines(s).tail)
    decreases |s|
  {
    if s != [] {
      TailIsUnfinished(s[..|s| - 1]);
    }
    UnfinishedLine(SplitLines(s).tail);
  }

  lemma OneLine(line: seq<Byte>)
    requires NoNewline(line)
    ensures SplitLines(line + [NL]) == Split([line], [])
  {
    UnfinishedLine(line);
    assert (line + [NL])[..|line|] == line;
  }

  /** Taking a first line off a stream leaves the other lines. */
  lemma FirstLine(line: seq<Byte>, rest: seq<Byte>)
    requires NoNewline(line)
    ensures SplitLines(line + [NL] + rest) == Split([line] + SplitLines(rest).lines, SplitLines(rest).tail)
  {
    OneLine(line);
    SplitAppends(line + [NL], rest);
    assert [] + rest == rest;
  }

  /** Every complete line fits in the stream with its '\n', and so does the unfinished one. */
  lemma {:induction false} LinesFit(s: seq<Byte>)
    ensures forall i :: 0 <= i < |SplitLines(s).lines| ==> |SplitLines(s).lines[i]| < |s|
    ensures |SplitLines(s).tail| <= |s|
    decreases |s|
  {
    if s != [] {
      LinesFit(s[..|s| - 1]);
    }
  }

  /** Some line, finished or not, has at least `limit` bytes before its '\n'. */
  predicate HasLongLine(s: seq<Byte>, limit: nat) {
    || |SplitLines(s).tail| >= limit
    || exists i :: 0 <= i < |SplitLines(s).lines| && |SplitLines(s).lines[i]| >= limit
  }

  /** A long line stays one whatever follows. */
  lemma {:induction false} LongLineStays(s: seq<Byte>, t: seq<Byte>, limit: nat)
    requires HasLongLine(s, limit)
    ensures HasLongLine(s + t, limit)
    decreases |t|
  {
    if t == [] {
      assert s + t == s;
    } else {
      var u := t[..|t| - 1];
      LongLineStays(s, u, limit);
      assert (s + t)[..|s + t| - 1] == s + u;
      var before, after := SplitLines(s + u), SplitLines(s + t);
      if |before.tail| >= limit {
        if t[|t| - 1] == NL {
          assert after.lines[|before.lines|] == before.tail;
        }
      } else {
        var i :| 0 <= i < |before.lines| && |before.lines[i]| >= limit;
        assert after.lines[i] == before.lines[i];
      }
    }
  }

  // ---------------------------------------------------------------------
  // Writing lines
  // ---------------------------------------------------------------------

  function Joined(texts: seq<seq<Byte>>): seq<Byte>
    decreases |texts|
  {
    if texts == [] then [] else Joined(texts[..|texts| - 1]) + (texts[|texts| - 1] + [NL])
  }

  lemma {:induction false} JoinedSplits(texts: seq<seq<Byte>>)
    requires forall i :: 0 <= i < |texts| ==> NoNewline(texts[i])
    ensures SplitLines(Joined(texts)) == Split(texts, [])
    decreases |texts|
  {
    if texts != [] {
      hide SplitLines, NoNewline;
      var past, last := texts[..|texts| - 1], texts[|texts| - 1];
      JoinedSplits(past);
      OneLine(last);
      SplitAppends(Joined(past), last + [NL]);
      assert [] + (last + [NL]) == last + [NL];
      assert past + [last] == texts;
    }
  }

  /** Whoever has read only a part of the joined lines has whole lines, in order, from the first on. */
  lemma PartIsWholeLines(texts: seq<seq<Byte>>, part: seq<Byte>)
    requires forall i :: 0 <= i < |texts| ==> NoNewline(texts[i])
    requires part <= Joined(texts)
    ensures SplitLines(part).lines <= texts
    ensures part == Joined(texts) ==> SplitLines(part).lines == texts
  {
    var rest := Joined(texts)[|part|..];
    assert part + rest == Joined(texts);
    JoinedSplits(texts);
    SplitAppends(part, rest);
  }
}
