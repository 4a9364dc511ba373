/**
 * Frames exchanged with the AML005 and the incremental parser that recovers
 * them from a noisy byte stream (src/aml/protocol.c).
 *
 *   FE EF TT LL AB KK IL CC [arguments] XX 55 0D 0A
 */
module Protocol {
  import opened Common

  const START_1: Byte := 0xFE
  const START_2: Byte := 0xEF
  const END_MARK: Byte := 0x55
  const CR: Byte := 0x0D
  const LF: Byte := 0x0A
  const TYPE_REQUEST: Byte := 0x0A
  const TYPE_RESPONSE: Byte := 0x0C
  const HEADER: Byte := 0xAB
  const HEADER_REQUEST: Byte := 0xAA
  const HEADER_RESPONSE: Byte := 0xBB
  const CODE_OFFSET := 7
  const DATA_OFFSET := 8
  const MAX_FRAME_SIZE := 259
  const BUFFER_SIZE := 1024

  // The requests and replies the model names, and the messages the device sends of its own accord.
  const REQ_STATUS: Byte := 0x00
  const REQ_WRITE_SETTINGS: Byte := 0x02
  const REQ_READ_SETTINGS: Byte := 0x12
  const STATUS_ARG: Byte := 0x16
  const RSP_STATUS: Byte := 0xF0
  const RSP_SYNC_TIME: Byte := 0xF1
  const RSP_WRITE_SETTINGS: Byte := 0xF2
  const RSP_READ_SETTINGS: Byte := 0xE2
  const RSP_ALARM: Byte := 0xF3
  const RSP_ALARM_STATUS: Byte := 0xC5
  const RSP_ALARM_SNOOZE: Byte := 0xC8
  const RSP_ALARM_STOP: Byte := 0xC9
  const RSP_LIGHT_QUERY: Byte := 0xD0
  const RSP_RADIO_LIST: Byte := 0xF4
  const RSP_RADIO_QUERY: Byte := 0xF7
  const RSP_RADIO_ENABLE: Byte := 0xF8
  const RSP_RADIO_PRESET: Byte := 0xF9
  const RSP_RADIO_TUNE: Byte := 0xFA
  const RSP_RADIO_SAVE_PRESET: Byte := 0xFE
  const RSP_A2DP_STATUS: Byte := 0xFF
  const RSP_SPEAKER_ON: Byte := 0xE0
  const RSP_MUSIC_TIMER_ENABLE: Byte := 0xE5
  const RSP_MUSIC_QUERY: Byte := 0xE7
  const EVT_SUNRISE_START: Byte := 0xC6
  const EVT_ALARM_RING: Byte := 0xC7
  const EVT_LIGHT_REFRESH: Byte := 0xCA
  const EVT_LIGHT_TIMER_END: Byte := 0xEB
  const EVT_MOOD_TIMER_END: Byte := 0xEC
  const EVT_RADIO_TIMER_END: Byte := 0xED
  const EVT_MUSIC_TIMER_END: Byte := 0xEE

  /** A spontaneous message, as the event handler gets it. */
  datatype Notice = Notice(code: Byte, data: seq<Byte>)

  // ---------------------------------------------------------------------
  // Structure of a frame
  // ---------------------------------------------------------------------

  function ExpectedHeader(frameType: Byte): Byte {
    if frameType == TYPE_REQUEST then HEADER_REQUEST else HEADER_RESPONSE
  }

  /** The checks the parser makes on a complete frame, as one statement. */
  predicate IsFrame(f: seq<Byte>) {
    && 12 <= |f| <= MAX_FRAME_SIZE
    && f[0] == START_1 && f[1] == START_2
    && (f[2] == TYPE_REQUEST || f[2] == TYPE_RESPONSE)
    && f[3] as int + 4 == |f|
    && f[4] == HEADER && f[5] == ExpectedHeader(f[2])
    && f[|f| - 3] == END_MARK && f[|f| - 2] == CR && f[|f| - 1] == LF
  }

  /** What the first bytes of `s` say about a frame starting there. */
  datatype Verdict = Rejected | Incomplete | Complete(size: nat)

  function Judge(s: seq<Byte>): (v: Verdict)
    requires s != []
    ensures v.Incomplete? ==> |s| < MAX_FRAME_SIZE
    ensures v.Complete? ==> 12 <= v.size <= |s| && IsFrame(s[..v.size])
  {
    if s[0] != START_1 then Rejected
    else if |s| < 2 then Incomplete
    else if s[1] != START_2 then Rejected
    else if |s| < 4 then Incomplete
    else if s[2] != TYPE_REQUEST && s[2] != TYPE_RESPONSE then Rejected
    else if |s| < 6 then Incomplete
    else if s[4] != HEADER || s[5] != ExpectedHeader(s[2]) then Rejected
    else
      var size := s[3] as int + 4;
      if size < 12 then Rejected
      else if |s| < size then Incomplete
      else if s[size - 3] != END_MARK || s[size - 2] != CR || s[size - 1] != LF then Rejected
      else Complete(size)
  }

  /** The verdict on a prefix is the structural check of the frame it announces. */
  lemma JudgeFindsFrame(s: seq<Byte>, n: nat)
    requires n <= |s| && IsFrame(s[..n])
    ensures Judge(s) == Complete(n)
  {
    var f := s[..n];
    assert s[0] == f[0] && s[1] == f[1] && s[2] == f[2] && s[3] == f[3] && s[4] == f[4] && s[5] == f[5];
    assert s[n - 3] == f[n - 3] && s[n - 2] == f[n - 2] && s[n - 1] == f[n - 1];
  }

  /** Only an incomplete candidate can be judged differently once more bytes are there. */
  lemma JudgeIsStable(s: seq<Byte>, t: seq<Byte>)
    requires s != [] && !Judge(s).Incomplete?
    ensures Judge(s + t) == Judge(s)
  {
  }

  // ---------------------------------------------------------------------
  // The unbounded scanner: one byte at a time, no buffer
  // ---------------------------------------------------------------------

  datatype Extraction = Waiting(rest: seq<Byte>) | Extracted(frame: seq<Byte>, rest: seq<Byte>)

  function Next(s: seq<Byte>): (r: Extraction)
    ensures r.Waiting? ==> |r.rest| < MAX_FRAME_SIZE && |r.rest| <= |s|
    ensures r.Extracted? ==> IsFrame(r.frame) && |r.frame| + |r.rest| <= |s|
    decreases |s|
  {
    if s == [] then Waiting([])
    else match Judge(s)
      case Rejected => Next(s[1..])
      case Incomplete => Waiting(s)
      case Complete(n) => Extracted(s[..n], s[n..])
  }

  datatype Harvest = Harvest(frames: seq<seq<Byte>>, rest: seq<Byte>)

  /** All the frames of `s`, and the bytes still waiting for more. */
  function Scan(s: seq<Byte>): (h: Harvest)
    ensures |h.rest| < MAX_FRAME_SIZE
    decreases |s|
  {
    match Next(s)
    case Waiting(rest) => Harvest([], rest)
    case Extracted(frame, rest) =>
      var h := Scan(rest);
      Harvest([frame] + h.frames, h.rest)
  }

  lemma {:induction false} NextExtends(s: seq<Byte>, t: seq<Byte>)
    ensures match Next(s)
            case Waiting(rest) => Next(s + t) == Next(rest + t)
            case Extracted(frame, rest) => Next(s + t) == Extracted(frame, rest + t)
    decreases |s|
  {
    if s == [] {
      assert s + t == t;
    } else if !Judge(s).Incomplete? {
      JudgeIsStable(s, t);
      if Judge(s).Rejected? {
        assert (s + t)[1..] == s[1..] + t;
        NextExtends(s[1..], t);
      } else {
        var n := Judge(s).size;
        assert (s + t)[..n] == s[..n] && (s + t)[n..] == s[n..] + t;
      }
    }
  }

  /** Bytes may be scanned in two parts: nothing is lost, repeated or reordered at the cut. */
  lemma {:induction false} ScanSplits(s: seq<Byte>, t: seq<Byte>)
    ensures Scan(s + t) == Harvest(Scan(s).frames + Scan(Scan(s).rest + t).frames,
                                   Scan(Scan(s).rest + t).rest)
    decreases |s|
  {
    hide Next;
    NextExtends(s, t);
    match Next(s)
    case Waiting(rest) =>
      assert Scan(s) == Harvest([], rest);
      assert Scan(s + t) == Scan(rest + t);
    case Extracted(frame, rest) =>
      ScanSplits(rest, t);
  }

  // ---------------------------------------------------------------------
  // Chunking
  // ---------------------------------------------------------------------

  function Concat(chunks: seq<seq<Byte>>): seq<Byte> {
    if chunks == [] then [] else chunks[0] + Concat(chunks[1..])
  }

  /** Feed each chunk in turn and extract frames until none is left, starting with `pending` bytes. */
  function Session(pending: seq<Byte>, chunks: seq<seq<Byte>>): Harvest
    decreases |chunks|
  {
    if chunks == [] then Harvest([], pending)
    else
      var now := Scan(pending + chunks[0]);
      var later := Session(now.rest, chunks[1..]);
      Harvest(now.frames + later.frames, later.rest)
  }

  lemma {:induction false} SessionIsScan(pending: seq<Byte>, chunks: seq<seq<Byte>>)
    requires Next(pending) == Waiting(pending)
    ensures Session(pending, chunks) == Scan(pending + Concat(chunks))
    decreases |chunks|
  {
    hide Next;
    if chunks == [] {
      assert pending + Concat(chunks) == pending;
      assert Scan(pending) == Harvest([], pending);
    } else {
      var s := pending + chunks[0];
      ScanRestWaits(s);
      SessionIsScan(Scan(s).rest, chunks[1..]);
      ScanSplits(s, Concat(chunks[1..]));
      assert s + Concat(chunks[1..]) == pending + Concat(chunks);
    }
  }

  lemma {:induction false} WaitingIsStable(s: seq<Byte>)
    requires Next(s).Waiting?
    ensures Next(Next(s).rest) == Next(s)
    decreases |s|
  {
    hide Judge;
    if s != [] && Judge(s).Rejected? {
      WaitingIsStable(s[1..]);
    }
  }

  lemma {:induction false} ScanRestWaits(s: seq<Byte>)
    ensures Next(Scan(s).rest) == Waiting(Scan(s).rest)
    ensures Scan(Scan(s).rest) == Harvest([], Scan(s).rest)
    decreases |s|
  {
    hide Next;
    if Next(s).Extracted? {
      ScanRestWaits(Next(s).rest);
    } else {
      WaitingIsStable(s);
    }
  }

  /** However a stream is cut into chunks, the same frames come out and the same bytes stay behind. */
  lemma ChunkingIndependence(chunks: seq<seq<Byte>>, others: seq<seq<Byte>>)
    requires Concat(chunks) == Concat(others)
    ensures Session([], chunks) == Session([], others) == Scan(Concat(chunks))
  {
    SessionIsScan([], chunks);
    SessionIsScan([], others);
    assert [] + Concat(chunks) == Concat(chunks);
  }

  // ---------------------------------------------------------------------
  // Where the frames come from
  // ---------------------------------------------------------------------

  datatype Span = Span(start: nat, end: nat)

  /** The places in `s`, from `p` on, of the frames that scanning emits. */
  function Spans(s: seq<Byte>, p: nat): seq<Span>
    requires p <= |s|
    decreases |s| - p
  {
    if p == |s| then []
    else match Judge(s[p..])
      case Rejected => Spans(s, p + 1)
      case Incomplete => []
      case Complete(n) => [Span(p, p + n)] + Spans(s, p + n)
  }

  /** Where the residue starts. */
  function Residue(s: seq<Byte>, p: nat): (r: nat)
    requires p <= |s|
    ensures p <= r <= |s|
    decreases |s| - p
  {
    if p == |s| then p
    else match Judge(s[p..])
      case Rejected => Residue(s, p + 1)
      case Incomplete => p
      case Complete(n) => Residue(s, p + n)
  }

  function Slices(s: seq<Byte>, spans: seq<Span>): seq<seq<Byte>>
    requires forall i :: 0 <= i < |spans| ==> spans[i].start <= spans[i].end <= |s|
  {
    seq(|spans|, i requires 0 <= i < |spans| => s[spans[i].start..spans[i].end])
  }

  ghost predicate InOrder(spans: seq<Span>, from: nat, to: nat) {
    && (forall i :: 0 <= i < |spans| ==> from <= spans[i].start < spans[i].end <= to)
    && (forall i, j :: 0 <= i < j < |spans| ==> spans[i].end <= spans[j].start)
  }

  lemma {:induction false} SpansInOrder(s: seq<Byte>, p: nat)
    requires p <= |s|
    ensures InOrder(Spans(s, p), p, Residue(s, p))
    ensures forall i :: 0 <= i < |Spans(s, p)| ==>
              IsFrame(s[Spans(s, p)[i].start..Spans(s, p)[i].end])
    decreases |s| - p
  {
    hide Judge, IsFrame;
    if p < |s| {
      match Judge(s[p..])
      case Rejected => SpansInOrder(s, p + 1);
      case Incomplete =>
      case Complete(n) =>
        SpansInOrder(s, p + n);
        assert s[p..][..n] == s[p..p + n];
    }
  }

  lemma {:induction false} SpansAreScan(s: seq<Byte>, p: nat)
    requires p <= |s|
    ensures InOrder(Spans(s, p), p, Residue(s, p))
    ensures Scan(s[p..]) == Harvest(Slices(s, Spans(s, p)), s[Residue(s, p)..])
    decreases |s| - p
  {
    hide Judge, IsFrame;
    SpansInOrder(s, p);
    if p < |s| {
      match Judge(s[p..])
      case Rejected =>
        assert s[p..][1..] == s[p + 1..];
        SpansAreScan(s, p + 1);
      case Incomplete =>
      case Complete(n) =>
        assert s[p..][n..] == s[p + n..] && s[p..][..n] == s[p..p + n];
        SpansAreScan(s, p + n);
        assert Spans(s, p) == [Span(p, p + n)] + Spans(s, p + n);
        assert Slices(s, Spans(s, p)) == [s[p..p + n]] + Slices(s, Spans(s, p + n));
    }
  }

  /** The frame at `a..b` is emitted, starts inside an emitted one, or is left in the residue. */
  ghost predicate Accounted(spans: seq<Span>, residue: nat, a: nat, b: nat) {
    || a >= residue
    || Span(a, b) in spans
    || exists e :: e in spans && e.start < a < e.end
  }

  lemma {:induction false} NoFrameIsSkipped(s: seq<Byte>, p: nat, a: nat, b: nat)
    requires p <= a < b <= |s| && Judge(s[a..]) == Complete(b - a)
    ensures Accounted(Spans(s, p), Residue(s, p), a, b)
    decreases |s| - p
  {
    hide Judge, IsFrame;
    match Judge(s[p..])
    case Rejected =>
      NoFrameIsSkipped(s, p + 1, a, b);
    case Incomplete =>
    case Complete(n) =>
      var later := Spans(s, p + n);
      assert Spans(s, p) == [Span(p, p + n)] + later;
      assert Spans(s, p)[0] == Span(p, p + n);
      if a >= p + n {
        NoFrameIsSkipped(s, p + n, a, b);
        assert forall e :: e in later ==> e in Spans(s, p);
      } else if a > p {
        assert Span(p, p + n) in Spans(s, p);
      }
  }

  /** Scanning a stream emits disjoint slices of it, in order, each of them well formed, and keeps a suffix. */
  lemma ScanConservation(s: seq<Byte>)
    ensures InOrder(Spans(s, 0), 0, Residue(s, 0))
    ensures Scan(s) == Harvest(Slices(s, Spans(s, 0)), s[Residue(s, 0)..])
    ensures forall i :: 0 <= i < |Scan(s).frames| ==> IsFrame(Scan(s).frames[i])
  {
    hide Judge, Scan, Spans, Residue, IsFrame;
    assert s[0..] == s;
    SpansAreScan(s, 0);
    SpansInOrder(s, 0);
  }

  /** Every well-formed frame of the stream is emitted, starts inside an earlier emitted one, or is in that suffix. */
  lemma ScanIsComplete(s: seq<Byte>, a: nat, b: nat)
    requires a <= b <= |s| && IsFrame(s[a..b])
    ensures Accounted(Spans(s, 0), Residue(s, 0), a, b)
  {
    hide Judge, Accounted, Spans, Residue;
    assert s[a..][..b - a] == s[a..b];
    JudgeFindsFrame(s[a..], b - a);
    NoFrameIsSkipped(s, 0, a, b);
  }

  // ---------------------------------------------------------------------
  // When a frame is waited for
  // ---------------------------------------------------------------------

  /** How much of `n` bytes is looked at: nothing is read into the length byte before the whole header is there. */
  function Examined(n: nat): (k: nat)
    ensures k <= n
  {
    if n < 2 then n else if n < 4 then 2 else if n < 6 then 3 else 6
  }

  /** What is looked at is also the start of some frame longer than `s`. */
  ghost predicate Undecided(s: seq<Byte>) {
    exists f :: IsFrame(f) && |f| > |s| && f[..Examined(|s|)] == s[..Examined(|s|)]
  }

  ghost predicate BeginsWithFrame(s: seq<Byte>) {
    exists n :: 0 <= n <= |s| && IsFrame(s[..n])
  }

  /** A frame that starts like `s`, of the size it announces or, if the length is not looked at, of 12 bytes. */
  function Completion(s: seq<Byte>): (f: seq<Byte>)
    requires |s| >= 6 ==> s[3] >= 8
    ensures |f| >= 12
  {
    if |s| < 6 then
      var frameType := if |s| < 4 then TYPE_RESPONSE else s[2];
      [START_1, START_2, frameType, 8, HEADER, ExpectedHeader(frameType), 0, 0, 0, END_MARK, CR, LF]
    else s[..6] + seq(s[3] as int - 5, _ => 0) + [END_MARK, CR, LF]
  }

  lemma CompletionIsFrame(s: seq<Byte>)
    requires s != [] && Judge(s).Incomplete?
    ensures |s| >= 6 ==> s[3] >= 8
    ensures IsFrame(Completion(s)) && |Completion(s)| > |s| && Completion(s)[..Examined(|s|)] == s[..Examined(|s|)]
  {
    if |s| >= 6 {
      var f := Completion(s);
      assert f[|f| - 3..] == [END_MARK, CR, LF];
      assert f[|f| - 3] == f[|f| - 3..][0] && f[|f| - 2] == f[|f| - 3..][1] && f[|f| - 1] == f[|f| - 3..][2];
    }
  }

  /** A candidate starts a frame exactly if it is judged complete, and is kept undecided exactly if it may still start one. */
  lemma JudgeMeans(s: seq<Byte>)
    requires s != []
    ensures Judge(s).Complete? <==> BeginsWithFrame(s)
    ensures Judge(s).Incomplete? <==> Undecided(s)
  {
    if BeginsWithFrame(s) {
      var n :| 0 <= n <= |s| && IsFrame(s[..n]);
      JudgeFindsFrame(s, n);
    }
    if Judge(s).Incomplete? {
      CompletionIsFrame(s);
    }
    if Undecided(s) {
      var f :| IsFrame(f) && |f| > |s| && f[..Examined(|s|)] == s[..Examined(|s|)];
      SameStart(f, s);
    }
  }

  lemma SameStart(f: seq<Byte>, s: seq<Byte>)
    requires s != [] && IsFrame(f) && |f| > |s| && f[..Examined(|s|)] == s[..Examined(|s|)]
    ensures Judge(s).Incomplete?
  {
    var k := Examined(|s|);
    assert forall i :: 0 <= i < k ==> f[i] == f[..k][i] == s[i];
  }

  /** Neither a frame nor, as far as it is looked at, the start of one. */
  ghost predicate Hopeless(s: seq<Byte>) {
    !BeginsWithFrame(s) && !Undecided(s)
  }

  /** Everything before position `p` is given up, and nothing else: a frame starts there, or may still start there. */
  ghost predicate GivesUpTo(s: seq<Byte>, p: nat, r: Extraction) {
    && p <= |s| && (forall q :: 0 <= q < p ==> Hopeless(s[q..]))
    && match r
       case Waiting(rest) => rest == s[p..] && Undecided(rest)
       case Extracted(frame, rest) => s[p..] == frame + rest && IsFrame(frame)
  }

  /** The parser takes the first position where a frame starts or may still start. */
  lemma {:induction false} NextMeans(s: seq<Byte>)
    ensures exists p: nat :: GivesUpTo(s, p, Next(s))
    decreases |s|
  {
    hide Judge, IsFrame, Undecided, BeginsWithFrame;
    if s == [] {
      NothingIsUndecided();
      assert GivesUpTo(s, 0, Next(s));
    } else {
      JudgeMeans(s);
      if Judge(s).Rejected? {
        NextMeans(s[1..]);
        var p: nat :| GivesUpTo(s[1..], p, Next(s[1..]));
        GivesUpOneMore(s, p, Next(s));
      } else {
        assert s[0..] == s;
        assert GivesUpTo(s, 0, Next(s));
      }
    }
  }

  lemma WaitingIsUndecided(s: seq<Byte>)
    ensures Next(s).Waiting? ==> Undecided(Next(s).rest)
  {
    hide Next, Undecided;
    NextMeans(s);
  }

  lemma NothingIsUndecided()
    ensures Undecided([])
  {
    var f := Completion([START_1]);
    assert IsFrame(f) && f[..0] == [];
  }

  lemma GivesUpOneMore(s: seq<Byte>, p: nat, r: Extraction)
    requires s != [] && Hopeless(s) && GivesUpTo(s[1..], p, r)
    ensures GivesUpTo(s, p + 1, r)
  {
    hide IsFrame, Hopeless, Undecided;
    assert s[1..][p..] == s[p + 1..];
    forall q | 0 <= q < p + 1 ensures Hopeless(s[q..]) {
      assert q == 0 ==> s[q..] == s;
      assert q > 0 ==> s[q..] == s[1..][q - 1..];
    }
  }

  /** Bytes stay behind only if a frame may still start there, so that one more read may complete it. */
  lemma {:induction false} ResidueIsUndecided(s: seq<Byte>)
    ensures Undecided(Scan(s).rest)
    decreases |s|
  {
    hide Next, Undecided;
    NextMeans(s);
    if Next(s).Extracted? {
      ResidueIsUndecided(Next(s).rest);
    }
  }
}
