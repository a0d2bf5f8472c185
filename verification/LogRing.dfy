/** The console log: a byte ring indexed by a running count of bytes, the slice reader,
    the BLE poller and the HTTP drain, all against the unbounded history. The count is
    taken to stay below 2^32. */
module LogRing {
  import opened Prelude

  const RING := 8192

  /** What one append adds: an entry larger than the ring keeps only its tail. */
  function Kept(data: seq<byte>): (r: seq<byte>) {
    if |data| > RING then data[|data| - RING..] else data
  }

  /** Where a reader that asks for `since` really starts. */
  function Clamp(since: nat, seqNo: nat): (r: nat)
    ensures r <= seqNo && seqNo - r <= RING
    ensures since <= seqNo && seqNo - since <= RING ==> r == since
  {
    if since > seqNo then seqNo
    else if seqNo - since > RING then seqNo - RING
    else since
  }

  /** How much one slice takes: up to the end of what there is, of the ring, and of the buffer. */
  function SliceLen(since: nat, seqNo: nat, cap: nat): (n: nat)
    requires since <= seqNo
    ensures since + n <= seqNo && n <= cap
    ensures n == 0 <==> since == seqNo || cap == 0
  {
    Min(Min(seqNo - since, RING - since % RING), cap)
  }

  class LogBuffer {
    const ring: array<byte>
    var seqNo: nat
    ghost var history: seq<byte>

    /** The byte with number `i` sits at `i` modulo the ring size while it is resident. */
    ghost predicate Valid()
      reads this, ring
    {
      && ring.Length == RING
      && seqNo == |history|
      && forall i :: 0 <= i < seqNo && seqNo - i <= RING ==> ring[i % RING] == history[i]
    }

    constructor ()
      ensures Valid() && history == [] && fresh(ring)
    {
      ring := new byte[RING](_ => 0);
      seqNo := 0;
      history := [];
    }

    method CopyIn(at: nat, data: seq<byte>, from: nat, n: nat)
      requires at + n <= ring.Length && from + n <= |data|
      modifies ring
      ensures forall k :: at <= k < at + n ==> ring[k] == data[from + (k - at)]
      ensures forall k :: 0 <= k < ring.Length && !(at <= k < at + n) ==> ring[k] == old(ring[k])
    {
      var i := 0;
      while i < n
        invariant 0 <= i <= n
        invariant forall k :: at <= k < at + i ==> ring[k] == data[from + (k - at)]
        invariant forall k :: 0 <= k < ring.Length && !(at <= k < at + i) ==> ring[k] == old(ring[k])
      {
        ring[at + i] := data[from + i];
        i := i + 1;
      }
    }

    method Append(data: seq<byte>)
      requires Valid()
      modifies this, ring
      ensures Valid()
      ensures history == old(history) + Kept(data)
      ensures |data| <= 8192 ==> history == old(history) + data
      ensures |data| > 8192 ==> history == old(history) + data[|data| - 8192..]
    {
      if |data| == 0 {
        assert history + data == history;
        return;
      }
      var skip := if |data| > RING then |data| - RING else 0;
      var len := |data| - skip;
      var pos := seqNo % RING;
      var first := Min(len, RING - pos);
      CopyIn(pos, data, skip, first);
      if len > first {
        CopyIn(0, data, skip + first, len - first);
      }
      ghost var kept := Kept(data);
      assert kept == data[skip..];
      forall i | 0 <= i < seqNo + len && seqNo + len - i <= RING
        ensures ring[i % RING] == (history + kept)[i]
      {
        WrittenPlace(seqNo, len, i);
      }
      history := history + kept;
      seqNo := seqNo + len;
    }

    /** Copies a slice to `buf[at..]`; `since` is clamped first. */
    method BuildSlice(since: nat, buf: array<byte>, at: nat, cap: nat) returns (start: nat, n: nat, seqOut: nat)
      requires Valid() && at + cap <= buf.Length && buf != ring
      modifies buf
      ensures start == Clamp(since, |history|) && n == SliceLen(start, |history|, cap) && seqOut == |history|
      ensures since > |history| ==> start == |history|
      ensures |history| - since > RING ==> start == |history| - RING
      ensures since <= |history| <= since + RING ==> start == since
      ensures buf[at..at + n] == history[start..start + n]
      ensures buf[..at] == old(buf[..at]) && buf[at + n..] == old(buf[at + n..])
    {
      seqOut := seqNo;
      start := since;
      if start > seqNo {
        start := seqNo;
      } else if seqNo - start > RING {
        start := seqNo - RING;
      }
      var backlog := seqNo - start;
      if backlog == 0 || cap == 0 {
        return start, 0, seqOut;
      }
      var place := start % RING;
      var contig := Min(backlog, RING - place);
      n := Min(contig, cap);
      CopyOut(start, n, buf, at);
    }

    method CopyOut(start: nat, n: nat, buf: array<byte>, at: nat)
      requires Valid() && at + n <= buf.Length && buf != ring
      requires start + n <= |history| && |history| - start <= RING && start % RING + n <= RING
      modifies buf
      ensures buf[at..at + n] == history[start..start + n]
      ensures buf[..at] == old(buf[..at]) && buf[at + n..] == old(buf[at + n..])
    {
      var place := start % RING;
      var i := 0;
      while i < n
        invariant 0 <= i <= n
        invariant forall k :: at <= k < at + i ==> buf[k] == history[start + (k - at)]
        invariant forall k :: 0 <= k < buf.Length && !(at <= k < at + i) ==> buf[k] == old(buf[k])
      {
        SamePlace(start, i);
        assert ring[(start + i) % RING] == history[start + i];
        buf[at + i] := ring[place + i];
        i := i + 1;
      }
    }
  }

  lemma SamePlace(start: nat, k: nat)
    requires start % RING + k < RING
    ensures (start + k) % RING == start % RING + k
  {
  }

  /** After a write of `len` bytes at `n`: a resident byte is a new one at its place, or
      an old one that was not overwritten. */
  lemma WrittenPlace(n: nat, len: nat, i: nat)
    requires len <= RING && i < n + len && n + len - i <= RING
    ensures var pos := n % RING;
            var first := Min(len, RING - pos);
            && (i >= n && i - n < first ==> i % RING == pos + (i - n))
            && (i >= n && i - n >= first ==> i % RING == i - n - first && i - n - first < pos)
            && (i < n ==> n - i <= RING && (i % RING < pos || i % RING >= pos + first) && i % RING >= len - first)
  {
    var q := n / RING;
    assert n == q * RING + n % RING;
    if i < n {
      if i >= q * RING {
        assert i % RING == i - q * RING by { ModIs(i, q, i - q * RING); }
      } else {
        assert i % RING == i - (q - 1) * RING by { ModIs(i, q - 1, i - (q - 1) * RING); }
      }
    } else if i - n < RING - n % RING {
      ModIs(i, q, i - q * RING);
    } else {
      ModIs(i, q + 1, i - (q + 1) * RING);
    }
  }

  lemma ModIs(i: nat, q: int, r: int)
    requires i == q * RING + r && 0 <= r < RING
    ensures i % RING == r
  {
  }

  // ------------------------------------------------------ pieces of history

  /** A run of bytes handed to a reader, with the number of its first byte. */
  datatype Piece = Piece(start: nat, bytes: seq<byte>)

  function EndOf(p: Piece): nat {
    p.start + |p.bytes|
  }

  /** Every piece is exactly that part of the history, and none overlaps a later one. */
  ghost predicate Chain(pieces: seq<Piece>, h: seq<byte>) {
    && (forall i :: 0 <= i < |pieces| ==>
          EndOf(pieces[i]) <= |h| && pieces[i].bytes == h[pieces[i].start..EndOf(pieces[i])])
    && (forall i, j :: 0 <= i < j < |pieces| ==> EndOf(pieces[i]) <= pieces[j].start)
  }

  lemma ChainExtends(pieces: seq<Piece>, h: seq<byte>, more: seq<byte>)
    requires Chain(pieces, h)
    ensures Chain(pieces, h + more)
  {
    forall i | 0 <= i < |pieces|
      ensures EndOf(pieces[i]) <= |h + more| && pieces[i].bytes == (h + more)[pieces[i].start..EndOf(pieces[i])]
    {
      assert pieces[i].bytes == h[pieces[i].start..EndOf(pieces[i])];
    }
  }

  lemma ChainSnoc(pieces: seq<Piece>, h: seq<byte>, last: Piece)
    requires Chain(pieces, h) && EndOf(last) <= |h| && last.bytes == h[last.start..EndOf(last)]
    requires forall i :: 0 <= i < |pieces| ==> EndOf(pieces[i]) <= last.start
    ensures Chain(pieces + [last], h)
  {
  }

  function Bytes(pieces: seq<Piece>): seq<byte> {
    if pieces == [] then [] else Bytes(pieces[..|pieces| - 1]) + pieces[|pieces| - 1].bytes
  }

  // -------------------------------------------------------------- BLE poller

  const PREFIX := 11
  const LOG_MAX := 1024

  /** The device's log and one client that asks again from where the last answer ended. */
  datatype Monitor = Monitor(history: seq<byte>, next: nat, pieces: seq<Piece>)

  datatype Event = Appended(data: seq<byte>) | Polled

  function Poll(m: Monitor): Monitor {
    var start := Clamp(m.next, |m.history|);
    var n := SliceLen(start, |m.history|, LOG_MAX);
    Monitor(m.history, start + n, m.pieces + [Piece(start, m.history[start..start + n])])
  }

  function After(m: Monitor, e: Event): Monitor {
    match e
    case Appended(data) => m.(history := m.history + Kept(data))
    case Polled => Poll(m)
  }

  function Run(m: Monitor, events: seq<Event>): Monitor {
    if events == [] then m else After(Run(m, events[..|events| - 1]), events[|events| - 1])
  }

  ghost predicate PollerOk(m: Monitor) {
    && Chain(m.pieces, m.history)
    && m.next <= |m.history|
    && (m.pieces != [] ==> EndOf(m.pieces[|m.pieces| - 1]) == m.next)
    && (forall i :: 0 <= i < |m.pieces| ==> EndOf(m.pieces[i]) <= m.next)
  }

  lemma PollStep(m: Monitor)
    requires PollerOk(m)
    ensures PollerOk(Poll(m))
    ensures Poll(m).pieces[|m.pieces|].start == if |m.history| - m.next > RING then |m.history| - RING else m.next
    ensures m.next < |m.history| ==> m.next < Poll(m).next
  {
    ChainSnoc(m.pieces, m.history, Poll(m).pieces[|m.pieces|]);
    hide Chain;
  }

  /** The poller never gets a byte twice or out of place: over every run of appends and
      polls its pieces are exact, disjoint and increasing parts of the history. */
  lemma {:induction false} PollerGetsHistory(history: seq<byte>, events: seq<Event>)
    ensures PollerOk(Run(Monitor(history, 0, []), events))
  {
    if events != [] {
      var before := events[..|events| - 1];
      PollerGetsHistory(history, before);
      var m := Run(Monitor(history, 0, []), before);
      match events[|events| - 1] {
        case Appended(data) => ChainExtends(m.pieces, m.history, Kept(data));
        case Polled => PollStep(m);
      }
    }
  }

  /** The lines logged in a run, one behind the other. */
  function LinesOf(events: seq<Event>): seq<byte> {
    if events == [] then []
    else
      LinesOf(events[..|events| - 1])
      + match events[|events| - 1] case Appended(data) => data case Polled => []
  }

  predicate Short(events: seq<Event>) {
    forall i :: 0 <= i < |events| && events[i].Appended? ==> |events[i].data| <= RING
  }

  /** While no line is longer than the ring, the history is the lines themselves. */
  lemma {:induction false} HistoryIsTheLines(events: seq<Event>)
    requires Short(events)
    ensures Run(Monitor([], 0, []), events).history == LinesOf(events)
  {
    if events != [] {
      var before, e := events[..|events| - 1], events[|events| - 1];
      HistoryIsTheLines(before);
      hide Run, Poll;
      RunSnoc(Monitor([], 0, []), events);
      PollKeepsHistory(Run(Monitor([], 0, []), before));
      assert e.Appended? ==> |e.data| <= RING;
    }
  }

  lemma RunSnoc(m: Monitor, events: seq<Event>)
    requires events != []
    ensures Run(m, events) == After(Run(m, events[..|events| - 1]), events[|events| - 1])
  {
  }

  lemma PollKeepsHistory(m: Monitor)
    ensures Poll(m).history == m.history
  {
  }

  /** A longer line leaves its last ring of bytes. */
  lemma KeptSuffix(data: seq<byte>)
    ensures |data| <= 8192 ==> Kept(data) == data
    ensures |data| > 8192 ==> |Kept(data)| == 8192 && data[..|data| - 8192] + Kept(data) == data
  {
  }

  /** No poll in the run came more than a ring behind. */
  ghost predicate KeptUp(m: Monitor, events: seq<Event>) {
    forall i :: 0 <= i < |events| && events[i] == Polled ==>
      var before := Run(m, events[..i]); |before.history| - before.next <= RING
  }

  /** So a poller that keeps up holds the lines themselves, up to where it stands. */
  lemma PollerHoldsTheLines(events: seq<Event>)
    requires Short(events) && KeptUp(Monitor([], 0, []), events)
    ensures var m := Run(Monitor([], 0, []), events);
            m.next <= |LinesOf(events)| && Bytes(m.pieces) == LinesOf(events)[..m.next]
  {
    HistoryIsTheLines(events);
    NoGapWithoutLag(events);
    hide Run, Bytes, LinesOf, KeptUp;
  }

  lemma PollSeamless(m: Monitor)
    requires m.next <= |m.history| && |m.history| - m.next <= RING && Bytes(m.pieces) == m.history[..m.next]
    ensures Poll(m).next <= |m.history| && Bytes(Poll(m).pieces) == m.history[..Poll(m).next]
  {
    var m' := Poll(m);
    assert m'.pieces[..|m'.pieces| - 1] == m.pieces;
    assert m.history[..m.next] + m.history[m.next..m'.next] == m.history[..m'.next];
  }

  /** A gap needs a lag of more than one ring: without one the poller holds the
      whole history up to where it stands. */
  lemma {:induction false} NoGapWithoutLag(events: seq<Event>)
    requires KeptUp(Monitor([], 0, []), events)
    ensures var m := Run(Monitor([], 0, []), events);
            m.next <= |m.history| && Bytes(m.pieces) == m.history[..m.next]
  {
    if events != [] {
      var before := events[..|events| - 1];
      assert forall i :: 0 <= i < |before| ==> before[..i] == events[..i];
      NoGapWithoutLag(before);
      var m := Run(Monitor([], 0, []), before);
      match events[|events| - 1] {
        case Appended(data) =>
          assert (m.history + Kept(data))[..m.next] == m.history[..m.next];
        case Polled =>
          assert before == events[..|events| - 1];
          PollerGetsHistory([], before);
          hide PollerOk, Poll, Bytes;
          PollSeamless(m);
      }
    }
  }

  /** Without appends every poll makes progress until the client is up to date. */
  lemma {:induction false} PollsCatchUp(m: Monitor, k: nat)
    requires PollerOk(m) && k >= |m.history| - m.next
    ensures Run(m, seq(k, _ => Polled)).next == |m.history|
    ensures Run(m, seq(k, _ => Polled)).history == m.history
    decreases k
  {
    PollsKeep(m, k);
  }

  lemma {:induction false} PollsKeep(m: Monitor, k: nat)
    requires PollerOk(m)
    ensures var r := Run(m, seq(k, _ => Polled));
            PollerOk(r) && r.history == m.history && r.next >= Min(m.next + k, |m.history|)
  {
    if k > 0 {
      PollsKeep(m, k - 1);
      var events := seq(k, _ => Polled);
      assert events[..k - 1] == seq(k - 1, _ => Polled);
      PollStep(Run(m, events[..k - 1]));
    }
  }

  // The answer's envelope: ten digits, a newline, the bytes

  function Digits(v: nat, count: nat): (s: seq<byte>)
    ensures |s| == count
    ensures forall i :: 0 <= i < count ==> 48 <= s[i] <= 57
  {
    if count == 0 then [] else Digits(v / 10, count - 1) + [48 + v % 10]
  }

  function Number(digits: seq<byte>): int {
    if digits == [] then 0 else 10 * Number(digits[..|digits| - 1]) + digits[|digits| - 1] - 48
  }

  function Pow10(n: nat): nat {
    if n == 0 then 1 else 10 * Pow10(n - 1)
  }

  lemma {:induction false} DigitsRoundTrip(v: nat, count: nat)
    requires v < Pow10(count)
    ensures Number(Digits(v, count)) == v
  {
    if count > 0 {
      DigitsRoundTrip(v / 10, count - 1);
      assert Digits(v, count)[..count - 1] == Digits(v / 10, count - 1);
    }
  }

  function Envelope(next: nat, bytes: seq<byte>): seq<byte> {
    Digits(next, 10) + [10] + bytes
  }

  /** The dashboard splits at the first newline. */
  function ReadEnvelope(body: seq<byte>, i: nat): Option<(int, seq<byte>)>
    requires i <= |body|
    decreases |body| - i
  {
    if i == |body| then None
    else if body[i] == 10 then Some((Number(body[..i]), body[i + 1..]))
    else ReadEnvelope(body, i + 1)
  }

  lemma EnvelopeRoundTrip(next: nat, bytes: seq<byte>)
    requires next < 0x1_0000_0000
    ensures ReadEnvelope(Envelope(next, bytes), 0) == Some((next, bytes))
  {
    var body := Envelope(next, bytes);
    assert Pow10(10) == 10000000000;
    DigitsRoundTrip(next, 10);
    SplitAt(body, 0, 10);
    assert body[..10] == Digits(next, 10);
    assert body[11..] == bytes;
  }

  lemma {:induction false} SplitAt(body: seq<byte>, i: nat, at: nat)
    requires i <= at < |body| && body[at] == 10
    requires forall k :: i <= k < at ==> body[k] != 10
    ensures ReadEnvelope(body, i) == Some((Number(body[..at]), body[at + 1..]))
    decreases at - i
  {
    if i < at {
      SplitAt(body, i + 1, at);
    }
  }

  /** The `/log` branch of the BLE dashboard. */
  method AnswerPoll(log: LogBuffer, since: nat, out: array<byte>, cap: nat) returns (len: nat)
    requires log.Valid() && cap <= out.Length && out != log.ring && log.seqNo < 0x1_0000_0000
    modifies out
    ensures cap <= 11 ==> len == 0 && out[..] == old(out[..])
    ensures cap > 11 ==>
              var start := Clamp(since, |log.history|);
              var n := SliceLen(start, |log.history|, Min(cap - 11, 1024));
              len <= cap && out[..len] == Envelope(start + n, log.history[start..start + n])
  {
    if cap <= PREFIX {
      return 0;
    }
    var logCap := Min(cap - PREFIX, LOG_MAX);
    var start, n, _ := log.BuildSlice(since, out, PREFIX, logCap);
    var hdr := Digits(start + n, 10) + [10];
    hide Digits, Clamp, SliceLen;
    ghost var was := out[..];
    BackFill(out, hdr);
    len := PREFIX + n;
    BehindPrefix(was, out[..], PREFIX, n);
  }

  /** A buffer whose front was filled in holds the front and what stood behind it. */
  lemma BehindPrefix(was: seq<byte>, now: seq<byte>, at: nat, n: nat)
    requires |was| == |now| && at + n <= |now| && was[at..] == now[at..]
    ensures now[..at + n] == now[..at] + was[at..at + n]
  {
    assert was[at..at + n] == was[at..][..n] == now[at..][..n] == now[at..at + n];
  }

  method BackFill(out: array<byte>, hdr: seq<byte>)
    requires |hdr| <= out.Length
    modifies out
    ensures out[..|hdr|] == hdr && out[|hdr|..] == old(out[|hdr|..])
  {
    var i := 0;
    while i < |hdr|
      invariant 0 <= i <= |hdr|
      invariant forall k :: 0 <= k < i ==> out[k] == hdr[k]
      invariant forall k :: |hdr| <= k < out.Length ==> out[k] == old(out[k])
    {
      out[i] := hdr[i];
      i := i + 1;
    }
  }

  // -------------------------------------------------------------- HTTP drain

  const CHUNK := 1024

  /** A drain under way: the log so far, what was sent, where the next slice is asked for, and where
      the last one began with how much log there was. */
  datatype Drained = Drained(history: seq<byte>, pieces: seq<Piece>, at: nat, start: nat, seqNo: nat)

  /** What a list of lines adds to the history. */
  function Logged(lines: seq<seq<byte>>): seq<byte> {
    if lines == [] then [] else Logged(lines[..|lines| - 1]) + Kept(lines[|lines| - 1])
  }

  /** One slice, asked for at `at`; an empty one sends nothing. */
  function Slice(h: seq<byte>, pieces: seq<Piece>, at: nat): Drained {
    var start := Clamp(at, |h|);
    var n := SliceLen(start, |h|, CHUNK);
    Drained(h, if n == 0 then pieces else pieces + [Piece(start, h[start..start + n])], start + n, start, |h|)
  }

  /** The slice after `more` was logged. */
  function NextSlice(d: Drained, more: seq<byte>): Drained {
    Slice(d.history + more, d.pieces, d.at)
  }

  /** What is logged before the next slice, and before those behind it. */
  function Gap(gaps: seq<seq<byte>>): seq<byte> {
    if gaps == [] then [] else gaps[0]
  }

  function Later(gaps: seq<seq<byte>>): seq<seq<byte>> {
    if gaps == [] then [] else gaps[1..]
  }

  lemma SliceMoves(d: Drained, more: seq<byte>)
    requires d.at <= |d.history| && d.at < |d.history + more|
    ensures var e := NextSlice(d, more);
            && e.history == d.history + more && e.start == Clamp(d.at, |e.history|)
            && d.at <= e.start < e.at <= |e.history| == e.seqNo
            && e.at == e.start + SliceLen(e.start, e.seqNo, CHUNK)
            && e.pieces == d.pieces + [Piece(e.start, e.history[e.start..e.at])]
            && e.start == (if e.seqNo - d.at > RING then e.seqNo - RING else d.at)
  {
  }

  /** The loop: slices until the advertised position is reached. */
  function Finish(d: Drained, target: nat, gaps: seq<seq<byte>>): Drained
    requires d.at <= |d.history| && target <= |d.history|
    decreases target - d.at
  {
    if d.at >= target then d
    else
      SliceMoves(d, Gap(gaps));
      Finish(NextSlice(d, Gap(gaps)), target, Later(gaps))
  }

  /** `GET /log` run to its end: the position advertised is that of the history `h` at its start,
      and `gaps` is logged between slices. */
  function DrainOf(h: seq<byte>, since: nat, gaps: seq<seq<byte>>): Drained {
    Finish(Slice(h, [], since), |h|, gaps)
  }

  /** A drain that began at `first` has sent up to `at`. */
  ghost predicate Draining(pieces: seq<Piece>, h: seq<byte>, first: nat, at: nat) {
    && Chain(pieces, h) && pieces != []
    && pieces[0].start == first && EndOf(pieces[|pieces| - 1]) == at && first <= at <= |h|
    && forall i :: 0 <= i < |pieces| ==> EndOf(pieces[i]) <= at
  }

  /** What was sent is everything from `first` on: nothing has been skipped on the way. */
  ghost predicate Seamless(pieces: seq<Piece>, h: seq<byte>, first: nat, at: nat) {
    first <= at <= |h| && Bytes(pieces) == h[first..at]
  }

  lemma DrainStart(h: seq<byte>, at: nat, n: nat)
    requires at + n <= |h|
    ensures Draining([Piece(at, h[at..at + n])], h, at, at + n)
  {
  }

  lemma DrainGrows(pieces: seq<Piece>, h: seq<byte>, more: seq<byte>, first: nat, at: nat)
    requires Draining(pieces, h, first, at)
    ensures Draining(pieces, h + more, first, at)
  {
    ChainExtends(pieces, h, more);
  }

  lemma DrainNext(pieces: seq<Piece>, h: seq<byte>, first: nat, at: nat, start: nat, n: nat)
    requires Draining(pieces, h, first, at) && at <= start && start + n <= |h|
    ensures Draining(pieces + [Piece(start, h[start..start + n])], h, first, start + n)
  {
    ChainSnoc(pieces, h, Piece(start, h[start..start + n]));
    hide Chain;
  }

  /** What other tasks log between two slices. */
  method AppendAll(log: LogBuffer, lines: seq<seq<byte>>)
    requires log.Valid()
    modifies log, log.ring
    ensures log.Valid() && log.history == old(log.history) + Logged(lines)
  {
    hide Logged;
    var i := 0;
    LoggedSnoc(lines, 0);
    while i < |lines|
      invariant 0 <= i <= |lines| && log.Valid() && log.history == old(log.history) + Logged(lines[..i])
    {
      LoggedSnoc(lines, i);
      log.Append(lines[i]);
      i := i + 1;
    }
    assert lines[..i] == lines;
  }

  /** Lines within the ring add themselves. */
  lemma {:induction false} LoggedIsTheLines(lines: seq<seq<byte>>)
    requires forall k :: 0 <= k < |lines| ==> |lines[k]| <= RING
    ensures Logged(lines) == Concat(lines)
  {
    if lines != [] {
      var n := |lines| - 1;
      LoggedIsTheLines(lines[..n]);
      ConcatSnoc(lines[..n], lines[n]);
      assert lines[..n] + [lines[n]] == lines;
      hide Concat;
    }
  }

  lemma LoggedSnoc(lines: seq<seq<byte>>, i: nat)
    requires i <= |lines|
    ensures Logged(lines[..0]) == []
    ensures i < |lines| ==> Logged(lines[..i + 1]) == Logged(lines[..i]) + Kept(lines[i])
  {
    if i < |lines| {
      assert lines[..i + 1][..i] == lines[..i];
    }
  }

  function Gaps(env: seq<seq<seq<byte>>>): (g: seq<seq<byte>>)
    ensures |g| == |env| && forall k :: 0 <= k < |g| ==> g[k] == Logged(env[k])
  {
    seq(|env|, k requires 0 <= k < |env| => Logged(env[k]))
  }

  /** `GET /log`. Between two slices other tasks may append lines (`env`), and any chunk may
      fail to go out. The loop always ends; what was sent are disjoint increasing parts
      of the history from the clamped start on; and a drain that was not cut off is the drain
      the appends determine, which reaches the advertised position at least. */
  method Drain(log: LogBuffer, since: nat, env: seq<seq<seq<byte>>>) returns (target: nat, pieces: seq<Piece>, complete: bool)
    requires log.Valid()
    modifies log, log.ring
    ensures log.Valid() && old(log.history) <= log.history
    ensures target == |old(log.history)|
    ensures pieces == [] ==> Clamp(since, target) == target && complete
    ensures pieces != [] ==> exists at: nat :: Draining(pieces, log.history, Clamp(since, target), at)
                                          && (complete ==> at >= target)
    ensures complete ==>
              var d := DrainOf(old(log.history), since, Gaps(env));
              pieces == d.pieces && log.history == d.history
    ensures env == [] && complete ==> Bytes(pieces) == old(log.history)[Clamp(since, target)..]
    ensures env == [] ==> log.history == old(log.history)
  {
    hide Draining, Bytes, Clamp, SliceLen, Finish, Logged, Slice;
    var bounce := new byte[CHUNK];
    var at, n;
    at, n, target := log.BuildSlice(since, bounce, 0, CHUNK);
    ghost var d := Slice(log.history, [], since);
    FirstSlice(log.history, since);
    FinishAt(d, target, Gaps(env));
    if env == [] {
      QuietDrain(log.history, since);
      assert Gaps(env) == [];
    }
    if n == 0 {
      return target, [], true;
    }
    assert bounce[..n] == bounce[0..0 + n];
    DrainStart(log.history, at, n);
    pieces, complete := SendRest(log, bounce, at + n, target, [Piece(at, bounce[..n])], env, d, at);
  }

  /** The loop behind the first chunk, which may itself have failed to go out. */
  method SendRest(log: LogBuffer, bounce: array<byte>, at0: nat, target: nat, pieces0: seq<Piece>,
                  env: seq<seq<seq<byte>>>, ghost d0: Drained, ghost first: nat)
    returns (pieces: seq<Piece>, complete: bool)
    requires log.Valid() && bounce != log.ring && bounce.Length == CHUNK
    requires d0.history == log.history && d0.pieces == pieces0 && d0.at == at0 <= |log.history| && target <= |log.history|
    requires pieces0 != [] && Draining(pieces0, log.history, first, at0)
    modifies log, log.ring, bounce
    ensures log.Valid() && old(log.history) <= log.history && pieces != []
    ensures env == [] ==> log.history == old(log.history)
    ensures exists at: nat :: Draining(pieces, log.history, first, at) && (complete ==> at >= target)
    ensures complete ==>
              var d := Finish(d0, target, Gaps(env));
              pieces == d.pieces && log.history == d.history
  {
    hide Draining, Bytes, Clamp, SliceLen, Finish, Logged, Slice, NextSlice, Gap;
    pieces := pieces0;
    var at, left := at0, env;
    ghost var d := d0;
    var sent: bool := *;
    while sent && at < target
      invariant log.Valid() && old(log.history) <= log.history && at <= |log.history|
      invariant pieces != [] && Draining(pieces, log.history, first, at)
      invariant env == [] ==> left == [] && log.history == old(log.history)
      invariant d.history == log.history && d.pieces == pieces && d.at == at
      invariant Finish(d, target, Gaps(left)) == Finish(d0, target, Gaps(env))
      decreases target - at
    {
      Advance(d, target, left, first);
      var piece := NextChunk(log, bounce, at, left, d);
      d := NextSlice(d, Gap(Gaps(left)));
      pieces := pieces + [piece];
      at := piece.start + |piece.bytes|;
      left := if left == [] then [] else left[1..];
      sent := *;
    }
    complete := sent && at >= target;
    FinishAt(d, target, Gaps(left));
  }

  /** One turn of the loop. */
  lemma Advance(d: Drained, target: nat, left: seq<seq<seq<byte>>>, first: nat)
    requires d.at < target <= |d.history| && Draining(d.pieces, d.history, first, d.at)
    ensures var e := NextSlice(d, Gap(Gaps(left)));
            && e.history == (if left == [] then d.history else d.history + Logged(left[0]))
            && e.start == Clamp(d.at, |e.history|) && e.at == e.start + SliceLen(e.start, |e.history|, CHUNK)
            && d.at < e.at <= |e.history|
            && e.pieces == d.pieces + [Piece(e.start, e.history[e.start..e.at])]
            && Draining(e.pieces, e.history, first, e.at)
            && Finish(d, target, Gaps(left)) == Finish(e, target, Gaps(if left == [] then [] else left[1..]))
  {
    hide *;
    var more := Gap(Gaps(left));
    NextGap(left);
    FinishAt(d, target, Gaps(left));
    SliceMoves(d, more);
    var e := NextSlice(d, more);
    assert d.history + [] == d.history;
    DrainGrows(d.pieces, d.history, more, first, d.at);
    DrainNext(d.pieces, e.history, first, d.at, e.start, e.at - e.start);
  }

  lemma FirstSlice(h: seq<byte>, since: nat)
    ensures var d := Slice(h, [], since);
            && d.history == h && d.start == Clamp(since, |h|) && d.seqNo == |h|
            && d.at == d.start + SliceLen(d.start, |h|, CHUNK) <= |h|
            && d.pieces == (if d.at == d.start then [] else [Piece(d.start, h[d.start..d.at])])
            && (d.at == d.start ==> d.at == |h|)
  {
  }

  lemma FinishAt(d: Drained, target: nat, gaps: seq<seq<byte>>)
    requires d.at <= |d.history| && target <= |d.history|
    ensures d.at >= target ==> Finish(d, target, gaps) == d
    ensures d.at < target ==>
              var e := NextSlice(d, Gap(gaps));
              && d.at < e.at <= |e.history| && target <= |e.history|
              && Finish(d, target, gaps) == Finish(e, target, Later(gaps))
  {
    if d.at < target {
      SliceMoves(d, Gap(gaps));
      hide NextSlice;
    }
  }

  lemma NextGap(left: seq<seq<seq<byte>>>)
    ensures Gap(Gaps(left)) == if left == [] then [] else Logged(left[0])
    ensures Later(Gaps(left)) == Gaps(if left == [] then [] else left[1..])
  {
  }

  // What the drain promises

  /** A slice of a drain: what is known of one behind it. */
  ghost predicate DrainOk(d: Drained, first: nat) {
    && d.at <= |d.history| && first <= d.at
    && |Bytes(d.pieces)| <= d.at - first
    && (|Bytes(d.pieces)| == d.at - first ==> Bytes(d.pieces) == d.history[first..d.at])
  }

  /** No slice of the rest of the drain begins more than a ring behind the log. */
  ghost predicate KeepsUp(d: Drained, target: nat, gaps: seq<seq<byte>>)
    requires d.at <= |d.history| && target <= |d.history|
    decreases target - d.at
  {
    d.at < target ==>
      && |d.history + Gap(gaps)| - d.at <= RING
      && (SliceMoves(d, Gap(gaps)); KeepsUp(NextSlice(d, Gap(gaps)), target, Later(gaps)))
  }

  lemma BytesSnoc(pieces: seq<Piece>, last: Piece)
    ensures Bytes(pieces + [last]) == Bytes(pieces) + last.bytes
  {
    assert (pieces + [last])[..|pieces|] == pieces;
  }

  lemma SliceOk(d: Drained, more: seq<byte>, first: nat)
    requires DrainOk(d, first) && d.at < |d.history + more|
    ensures var e := NextSlice(d, more);
            && DrainOk(e, first)
            && (|Bytes(e.pieces)| == e.at - first <==>
                |Bytes(d.pieces)| == d.at - first && |d.history + more| - d.at <= RING)
  {
    SliceMoves(d, more);
    var e := NextSlice(d, more);
    BytesSnoc(d.pieces, Piece(e.start, e.history[e.start..e.at]));
    hide NextSlice, Bytes;
    if e.start == d.at && Bytes(d.pieces) == d.history[first..d.at] {
      assert d.history[first..d.at] + e.history[d.at..e.at] == e.history[first..e.at];
    }
  }

  lemma {:induction false} FinishOk(d: Drained, target: nat, gaps: seq<seq<byte>>, first: nat)
    requires DrainOk(d, first) && target <= |d.history|
    ensures var e := Finish(d, target, gaps);
            && DrainOk(e, first) && target <= e.at
            && d.history <= e.history
            && (Bytes(e.pieces) == e.history[first..e.at] <==>
                Bytes(d.pieces) == d.history[first..d.at] && KeepsUp(d, target, gaps))
    decreases target - d.at
  {
    FinishAt(d, target, gaps);
    if d.at < target {
      SliceMoves(d, Gap(gaps));
      SliceOk(d, Gap(gaps), first);
      FinishOk(NextSlice(d, Gap(gaps)), target, Later(gaps), first);
      hide Finish, NextSlice, Bytes;
    }
  }

  lemma BeginOk(h: seq<byte>, since: nat)
    ensures var d := Slice(h, [], since);
            DrainOk(d, Clamp(since, |h|)) && Bytes(d.pieces) == d.history[Clamp(since, |h|)..d.at]
  {
    FirstSlice(h, since);
    var d := Slice(h, [], since);
    assert d.pieces != [] ==> d.pieces[..0] == [];
    assert d.pieces != [] ==> Bytes(d.pieces[..0]) == [];
    hide Slice, Clamp, SliceLen;
  }

  /** A drain has sent the whole history from its clamped start to where it ended if and only if no
      slice began more than a ring behind the log. */
  lemma DrainSeamlessIff(h: seq<byte>, since: nat, gaps: seq<seq<byte>>)
    ensures var d := Slice(h, [], since);
            var e, first := DrainOf(h, since, gaps), Clamp(since, |h|);
            && d.at <= |d.history| == |h|
            && (Seamless(e.pieces, e.history, first, e.at) <==> KeepsUp(d, |h|, gaps))
            && |h| <= e.at <= |e.history| && h <= e.history
  {
    BeginOk(h, since);
    FirstSlice(h, since);
    hide Slice, Clamp, SliceLen, Bytes, Finish, KeepsUp;
    FinishOk(Slice(h, [], since), |h|, gaps, Clamp(since, |h|));
  }

  /** The chunk of one turn, behind what is logged before it. */
  method NextChunk(log: LogBuffer, bounce: array<byte>, at: nat, left: seq<seq<seq<byte>>>, ghost d: Drained)
    returns (piece: Piece)
    requires log.Valid() && bounce != log.ring && bounce.Length == CHUNK
    requires d.history == log.history && d.at == at < |log.history|
    modifies log, log.ring, bounce
    ensures log.Valid() && old(log.history) <= log.history
    ensures left == [] ==> log.history == old(log.history)
    ensures var e := NextSlice(d, Gap(Gaps(left)));
            && log.history == e.history && piece.start == e.start
            && piece.start + |piece.bytes| == e.at && e.pieces == d.pieces + [piece]
  {
    hide Clamp, SliceLen, Logged, Slice;
    NextGap(left);
    SliceMoves(d, Gap(Gaps(left)));
    assert left == [] ==> log.history + [] == log.history;
    if left != [] {
      AppendAll(log, left[0]);
    }
    var start, len, _ := log.BuildSlice(at, bounce, 0, CHUNK);
    assert bounce[..len] == bounce[0..0 + len];
    hide NextSlice;
    piece := Piece(start, bounce[..len]);
  }

  /** What a drain leaves in the log: what was there, and the first of the gaps. */
  lemma {:induction false} FinishHistory(d: Drained, target: nat, gaps: seq<seq<byte>>) returns (n: nat)
    requires d.at <= |d.history| && target <= |d.history|
    ensures n <= |gaps| && Finish(d, target, gaps).history == d.history + Concat(gaps[..n])
    decreases target - d.at
  {
    n := 0;
    FinishAt(d, target, gaps);
    assert d.history + Concat(gaps[..0]) == d.history;
    if d.at < target {
      SliceMoves(d, Gap(gaps));
      var m := FinishHistory(NextSlice(d, Gap(gaps)), target, Later(gaps));
      hide Finish, NextSlice;
      if gaps != [] {
        n := m + 1;
        hide Concat;
        GapsJoin(d.history, gaps, m);
      } else {
        assert d.history + [] + Concat([]) == d.history;
      }
    }
  }

  lemma GapsJoin(h: seq<byte>, gaps: seq<seq<byte>>, m: nat)
    requires m < |gaps|
    ensures h + gaps[0] + Concat(gaps[1..][..m]) == h + Concat(gaps[..m + 1])
  {
    assert gaps[..m + 1][0] == gaps[0] && gaps[..m + 1][1..] == gaps[1..][..m];
    assert Concat(gaps[..m + 1]) == gaps[0] + Concat(gaps[1..][..m]);
  }

  lemma GapsAreTheLines(env: seq<seq<seq<byte>>>)
    requires forall i, k :: 0 <= i < |env| && 0 <= k < |env[i]| ==> |env[i][k]| <= RING
    ensures forall i :: 0 <= i < |env| ==> Gaps(env)[i] == Concat(env[i])
  {
    forall i | 0 <= i < |env| ensures Gaps(env)[i] == Concat(env[i]) {
      LoggedIsTheLines(env[i]);
    }
  }

  /** A drain that keeps up sends, from its start to its end, the lines logged before it and behind
      them the first of those logged meanwhile, which `GapsAreTheLines` spells out. */
  lemma DrainSendsTheLines(before: seq<Event>, since: nat, env: seq<seq<seq<byte>>>) returns (n: nat)
    requires Short(before) && KeepsUp(Slice(LinesOf(before), [], since), |LinesOf(before)|, Gaps(env))
    ensures Run(Monitor([], 0, []), before).history == LinesOf(before)
    ensures n <= |env|
    ensures var d := DrainOf(LinesOf(before), since, Gaps(env));
            var sent := LinesOf(before) + Concat(Gaps(env)[..n]);
            && Clamp(since, |LinesOf(before)|) <= d.at <= |sent|
            && Bytes(d.pieces) == sent[Clamp(since, |LinesOf(before)|)..d.at]
  {
    var h := LinesOf(before);
    hide Run, LinesOf, KeepsUp, Bytes, Finish, Slice, Clamp;
    HistoryIsTheLines(before);
    FirstSlice(h, since);
    DrainSeamlessIff(h, since, Gaps(env));
    n := FinishHistory(Slice(h, [], since), |h|, Gaps(env));
  }

  /** The last slice of a drain, or the one it began with. */
  lemma {:induction false} LastSlice(d: Drained, target: nat, gaps: seq<seq<byte>>)
    requires d.at <= |d.history| == d.seqNo && target <= d.seqNo
    requires d.start <= d.seqNo && d.at == d.start + SliceLen(d.start, d.seqNo, CHUNK)
    ensures var e := Finish(d, target, gaps);
            && target <= e.at <= e.seqNo == |e.history|
            && e.start <= e.seqNo && e.at == e.start + SliceLen(e.start, e.seqNo, CHUNK)
    decreases target - d.at
  {
    FinishAt(d, target, gaps);
    if d.at < target {
      SliceMoves(d, Gap(gaps));
      LastSlice(NextSlice(d, Gap(gaps)), target, Later(gaps));
      hide Finish, NextSlice, SliceLen;
    }
  }

  /** A slice that begins at `start` when `seqNo` bytes were logged runs past the position: bytes
      were appended behind it, and neither the buffer nor the end of the ring stops the copy there. */
  predicate Overruns(start: nat, seqNo: nat, target: nat, cap: nat) {
    seqNo > target && cap > target - start && RING - start % RING > target - start
  }

  lemma PastTheTarget(start: nat, target: nat, seqNo: nat, cap: nat)
    requires start <= seqNo && target <= seqNo && 0 < cap
    ensures start + SliceLen(start, seqNo, cap) > target <==> Overruns(start, seqNo, target, cap)
  {
    assert start % RING < RING;
  }

  /** A drain ends exactly at the advertised position if and only if its last slice does not
      overrun it; it never ends before. */
  lemma EndsAtTheTargetIff(h: seq<byte>, since: nat, gaps: seq<seq<byte>>)
    ensures var e := DrainOf(h, since, gaps);
            && |h| <= e.at
            && (e.at == |h| <==> !Overruns(e.start, e.seqNo, |h|, CHUNK))
  {
    FirstSlice(h, since);
    hide Slice, SliceLen, Finish, Overruns;
    LastSlice(Slice(h, [], since), |h|, gaps);
    var e := DrainOf(h, since, gaps);
    PastTheTarget(e.start, |h|, e.seqNo, CHUNK);
  }

  /** Nothing logged in between: the drain is the resident history from its start. */
  lemma QuietDrain(h: seq<byte>, since: nat)
    ensures var d := DrainOf(h, since, []);
            Bytes(d.pieces) == h[Clamp(since, |h|)..] && d.history == h
  {
    var b, first := Slice(h, [], since), Clamp(since, |h|);
    BeginOk(h, since);
    FirstSlice(h, since);
    hide Slice, Clamp, Bytes, Finish, SliceLen;
    assert |h| - b.at <= RING;
    QuietKeepsUp(b, |h|);
    FinishOk(b, |h|, [], first);
    hide DrainOk;
    assert h[first..|h|] == h[first..];
  }

  lemma {:induction false} QuietKeepsUp(d: Drained, target: nat)
    requires d.at <= |d.history| == target && target - d.at <= RING
    ensures KeepsUp(d, target, []) && Finish(d, target, []).history == d.history
    decreases target - d.at
  {
    FinishAt(d, target, []);
    if d.at < target {
      SliceMoves(d, []);
      assert d.history + [] == d.history;
      QuietKeepsUp(NextSlice(d, []), target);
      hide NextSlice, Finish;
    }
  }

  /** A client that drains and then resumes from the advertised position holds the history without
      loss or repetition if and only if the drain ended where the resume begins: at the advertised
      position, unless the client comes back more than a ring later. */
  lemma ResumeIsExactIff(h: seq<byte>, since: nat, gaps: seq<seq<byte>>, more: seq<byte>)
    requires KeepsUp(Slice(h, [], since), |h|, gaps)
    ensures var d := DrainOf(h, since, gaps);
            var now := d.history + more;
            && Clamp(since, |h|) <= |h| <= |now|
            && (Bytes(d.pieces) + Bytes(DrainOf(now, |h|, []).pieces) == now[Clamp(since, |h|)..]
                <==> d.at == Clamp(|h|, |now|))
            && (|now| - |h| <= RING ==> Clamp(|h|, |now|) == |h|)
  {
    hide DrainOf, KeepsUp, Slice, Clamp, Bytes;
    DrainSeamlessIff(h, since, gaps);
    var d, first := DrainOf(h, since, gaps), Clamp(since, |h|);
    var now := d.history + more;
    QuietDrain(now, |h|);
    assert Bytes(d.pieces) == d.history[first..d.at] == now[first..d.at];
    hide Seamless;
    Rejoin(now, first, d.at, Clamp(|h|, |now|), Bytes(d.pieces));
  }

  lemma Rejoin(now: seq<byte>, first: nat, at: nat, back: nat, sent: seq<byte>)
    requires first <= at <= |now| && back <= |now| && sent == now[first..at]
    ensures sent + now[back..] == now[first..] <==> at == back
  {
    if at == back {
      assert now[first..] == now[first..at] + now[at..];
    }
  }

  /** And a drain need not end there: five bytes logged before the second slice of a 1025-byte drain
      are sent with it, and again to the client that resumes from the advertised 1025. */
  lemma DrainCanRepeat(h: seq<byte>, x: seq<byte>)
    requires |h| == 1025 && |x| == 5
    ensures var d := DrainOf(h, 0, [x]);
            Bytes(d.pieces) == h + x && Bytes(DrainOf(d.history, |h|, []).pieces) == x
  {
    hide *;
    var b := Slice(h, [], 0);
    var e := NextSlice(b, x);
    FirstChunk(h);
    SecondChunk(b, x);
    FinishAt(b, 1025, [x]);
    assert Gap([x]) == x && Later([x]) == [] by {
      OneGap(x);
    }
    FinishAt(e, 1025, []);
    DrainIs(h, 0, [x]);
    QuietDrain(h + x, 1025);
    TwoPieces(b.pieces[0], Piece(1024, e.history[1024..1030]));
    assert e.history == h + x && h[0..1024] + (h + x)[1024..1030] == h + x;
    assert (h + x)[1025..] == x;
  }

  lemma DrainIs(h: seq<byte>, since: nat, gaps: seq<seq<byte>>)
    ensures Slice(h, [], since).at <= |Slice(h, [], since).history| == |h|
    ensures DrainOf(h, since, gaps) == Finish(Slice(h, [], since), |h|, gaps)
  {
  }

  lemma OneGap(x: seq<byte>)
    ensures Gap([x]) == x && Later([x]) == []
  {
  }

  lemma FirstChunk(h: seq<byte>)
    requires |h| == 1025
    ensures var b := Slice(h, [], 0);
            b.history == h && b.at == 1024 && b.pieces == [Piece(0, h[0..1024])]
  {
    FirstSlice(h, 0);
    hide Slice;
  }

  lemma SecondChunk(b: Drained, x: seq<byte>)
    requires b.at == 1024 && |b.history| == 1025 && |x| == 5 && |b.pieces| == 1
    ensures var e := NextSlice(b, x);
            && e.history == b.history + x && e.at == 1030
            && e.pieces == [b.pieces[0], Piece(1024, e.history[1024..1030])]
            && Clamp(1025, |e.history|) == 1025
  {
    SliceMoves(b, x);
    hide NextSlice;
    assert b.pieces == [b.pieces[0]];
  }

  lemma TwoPieces(a: Piece, b: Piece)
    ensures Bytes([a, b]) == a.bytes + b.bytes
  {
    assert [a, b][..1] == [a] && [a][..0] == [];
    assert Bytes([]) == [];
    assert Bytes([a]) == a.bytes;
  }

  /** The envelope in characters: ten decimal digits, a newline, the bytes. */
  lemma EnvelopeExample(b: byte)
    ensures var text := "1234567890";
            forall i :: 0 <= i < 10 ==> Digits(1234567890, 10)[i] as int == text[i] as int
    ensures Envelope(7, [b]) == [48, 48, 48, 48, 48, 48, 48, 48, 48, 55, 10, b]
  {
    assert Digits(0, 0) == [];
    assert Digits(1, 1) == [49];
    assert Digits(12, 2) == [49, 50];
    assert Digits(123, 3) == [49, 50, 51];
    assert Digits(1234, 4) == [49, 50, 51, 52];
    assert Digits(12345, 5) == [49, 50, 51, 52, 53];
    assert Digits(123456, 6) == [49, 50, 51, 52, 53, 54];
    assert Digits(1234567, 7) == [49, 50, 51, 52, 53, 54, 55];
    assert Digits(12345678, 8) == [49, 50, 51, 52, 53, 54, 55, 56];
    assert Digits(123456789, 9) == [49, 50, 51, 52, 53, 54, 55, 56, 57];
    assert Digits(1234567890, 10) == [49, 50, 51, 52, 53, 54, 55, 56, 57, 48];
    Zeros(9);
    assert Digits(7, 10) == Digits(0, 9) + [55];
    hide Digits;
  }

  lemma {:induction false} Zeros(n: nat)
    ensures Digits(0, n) == seq(n, _ => 48)
  {
    if n > 0 {
      Zeros(n - 1);
    }
  }
}
