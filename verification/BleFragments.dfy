/** Dashboard responses over GATT: the device cuts a response into notifications and
    the client puts them together again, several responses at a time. */
module BleFragments {
  import opened Prelude

  const MAX_FRAG := 242
  const ATTEMPTS := 6

  /** Bit 0 marks the last fragment, bit 1 an error body. */
  function Flags(last: bool, err: bool): byte {
    (if last then 1 else 0) + (if err then 2 else 0)
  }

  predicate IsFin(flags: byte) {
    flags % 2 == 1
  }

  predicate IsErr(flags: byte) {
    flags / 2 % 2 == 1
  }

  /** The notifications that carry one response. */
  function Fragments(rid: byte, payload: seq<byte>, err: bool): (f: seq<seq<byte>>)
    ensures |f| >= 1
    decreases |payload|
  {
    if |payload| <= MAX_FRAG then [[Flags(true, err), rid] + payload]
    else [[Flags(false, err), rid] + payload[..MAX_FRAG]] + Fragments(rid, payload[MAX_FRAG..], err)
  }

  /** Enough frames and no more, none above 244 bytes, the end marked on the last only. */
  lemma {:induction false} FragmentShape(rid: byte, payload: seq<byte>, err: bool)
    ensures var f := Fragments(rid, payload, err);
            && |f| == Max(1, (|payload| + MAX_FRAG - 1) / MAX_FRAG)
            && forall i :: 0 <= i < |f| ==>
                 && 2 <= |f[i]| <= 244 && f[i][1] == rid && IsErr(f[i][0]) == err
                 && (IsFin(f[i][0]) <==> i == |f| - 1)
    decreases |payload|
  {
    if |payload| > MAX_FRAG {
      var rest := Fragments(rid, payload[MAX_FRAG..], err);
      FragmentShape(rid, payload[MAX_FRAG..], err);
      var f := Fragments(rid, payload, err);
      forall i | 0 <= i < |f|
        ensures 2 <= |f[i]| <= 244 && f[i][1] == rid && IsErr(f[i][0]) == err
        ensures IsFin(f[i][0]) <==> i == |f| - 1
      {
        if i > 0 {
          assert f[i] == rest[i - 1];
        }
      }
    }
  }

  /** The outgoing characteristic: a notification may be dropped when buffers run out. */
  class Radio {
    var sent: seq<seq<byte>>
    /** How each notification so far ended. */
    ghost var tries: seq<bool>

    method Notify(frame: seq<byte>) returns (ok: bool)
      modifies this
      ensures sent == old(sent) + (if ok then [frame] else [])
      ensures tries == old(tries) + [ok]
    {
      ok := *;
      tries := tries + [ok];
      if ok {
        sent := sent + [frame];
      }
    }
  }

  /** A dropped notification is tried again until it goes out, and given up after six tries. */
  method NotifyRetrying(radio: Radio, frame: seq<byte>) returns (ok: bool)
    modifies radio
    ensures radio.sent == old(radio.sent) + (if ok then [frame] else [])
    ensures var n := |old(radio.tries)|;
            && n < |radio.tries| <= n + 6 && radio.tries[..n] == old(radio.tries)
            && (forall k :: n <= k < |radio.tries| ==> (radio.tries[k] <==> ok && k == |radio.tries| - 1))
            && (!ok ==> |radio.tries| == n + 6)
  {
    ok := false;
    var attempt := 0;
    while attempt < ATTEMPTS && !ok
      invariant 0 <= attempt <= ATTEMPTS && (ok ==> attempt > 0)
      invariant |radio.tries| == |old(radio.tries)| + attempt
      invariant radio.tries[..|old(radio.tries)|] == old(radio.tries)
      invariant forall k :: |old(radio.tries)| <= k < |radio.tries| ==>
                  (radio.tries[k] <==> ok && k == |radio.tries| - 1)
      invariant radio.sent == old(radio.sent) + (if ok then [frame] else [])
    {
      ok := radio.Notify(frame);
      attempt := attempt + 1;
    }
  }

  /** Sends a beginning of the fragments, all of them unless one was dropped six times. */
  method SendResponse(radio: Radio, rid: byte, payload: seq<byte>, err: bool) returns (delivered: bool)
    modifies radio
    ensures old(radio.sent) <= radio.sent <= old(radio.sent) + Fragments(rid, payload, err)
    ensures delivered <==> radio.sent == old(radio.sent) + Fragments(rid, payload, err)
    ensures |radio.tries| > |old(radio.tries)| && (delivered <==> radio.tries[|radio.tries| - 1])
    ensures !delivered ==>
              && |radio.tries| >= |old(radio.tries)| + 6
              && forall k :: |radio.tries| - 6 <= k < |radio.tries| ==> !radio.tries[k]
  {
    hide Fragments;
    ghost var before := radio.sent;
    ghost var done: seq<seq<byte>> := [];
    var off := 0;
    assert payload[off..] == payload;
    assert before + done == before;
    while true
      invariant 0 <= off <= |payload|
      invariant radio.sent == before + done && |radio.tries| >= |old(radio.tries)|
      invariant Fragments(rid, payload, err) == done + Fragments(rid, payload[off..], err)
      decreases |payload| - off
    {
      var take := |payload| - off;
      var last := take <= MAX_FRAG;
      if !last {
        take := MAX_FRAG;
      }
      var frame := [Flags(last, err), rid] + payload[off..off + take];
      FragmentAt(rid, payload, off, take, last, err);
      var ok := NotifyRetrying(radio, frame);
      if !ok {
        Beginning(before, done, Fragments(rid, payload, err), Fragments(rid, payload[off..], err));
        return false;
      }
      ghost var rest := if last then [] else Fragments(rid, payload[off + take..], err);
      assert done + ([frame] + rest) == (done + [frame]) + rest;
      assert before + done + [frame] == before + (done + [frame]);
      done := done + [frame];
      off := off + take;
      if last {
        assert done + rest == done;
        return true;
      }
    }
  }

  lemma Beginning<T>(before: seq<T>, done: seq<T>, all: seq<T>, rest: seq<T>)
    requires all == done + rest && rest != []
    ensures before <= before + done + [] <= before + all && before + done + [] != before + all
  {
  }

  lemma FragmentAt(rid: byte, payload: seq<byte>, off: nat, take: nat, last: bool, err: bool)
    requires off <= |payload| && take == (if last then |payload| - off else MAX_FRAG) && off + take <= |payload|
    requires last <==> |payload| - off <= MAX_FRAG
    ensures Fragments(rid, payload[off..], err) ==
            [[Flags(last, err), rid] + payload[off..off + take]]
            + (if last then [] else Fragments(rid, payload[off + take..], err))
  {
    NextFragment(payload, off, take);
  }

  lemma NextFragment(payload: seq<byte>, off: nat, take: nat)
    requires off + take <= |payload|
    ensures payload[off..][..take] == payload[off..off + take]
    ensures payload[off..][take..] == payload[off + take..]
    ensures off + take == |payload| ==> payload[off..] == payload[off..off + take]
  {
  }

  // -------------------------------------------------------------- the client

  datatype Answer = Answer(rid: byte, body: seq<byte>, err: bool)

  /** Fragments kept by request, requests still waited for, and answers handed out. */
  datatype Client = Client(chunks: map<byte, seq<seq<byte>>>, pending: set<byte>, answers: seq<Answer>)

  function OnNotify(c: Client, data: seq<byte>): Client {
    if |data| < 2 then c
    else
      var flags, rid := data[0], data[1];
      var parts := (if rid in c.chunks then c.chunks[rid] else []) + [data[2..]];
      if !IsFin(flags) then c.(chunks := c.chunks[rid := parts])
      else if rid in c.pending
      then Client(c.chunks - {rid}, c.pending - {rid}, c.answers + [Answer(rid, Concat(parts), IsErr(flags))])
      else c.(chunks := c.chunks - {rid})
  }

  class Dashboard {
    var chunks: map<byte, seq<seq<byte>>>
    var pending: set<byte>
    var answers: seq<Answer>
    var nextId: byte

    function State(): Client
      reads this
    {
      Client(chunks, pending, answers)
    }

    method Notified(data: seq<byte>)
      modifies this
      ensures State() == OnNotify(old(State()), data) && nextId == old(nextId)
    {
      if |data| < 2 {
        return;
      }
      var flags, rid := data[0], data[1];
      if rid !in chunks {
        chunks := chunks[rid := []];
      }
      chunks := chunks[rid := chunks[rid] + [data[2..]]];
      if IsFin(flags) {
        var payload := Concat(chunks[rid]);
        chunks := chunks - {rid};
        if rid in pending {
          pending := pending - {rid};
          answers := answers + [Answer(rid, payload, IsErr(flags))];
        }
      }
    }

    /** The next request number; the caller then waits for it. */
    method Begin() returns (rid: byte)
      modifies this
      ensures rid == (old(nextId) + 1) % 256 && nextId == rid
      ensures State() == old(State()).(pending := old(pending) + {rid})
    {
      nextId := (nextId + 1) % 256;
      rid := nextId;
      pending := pending + {rid};
    }

    /** A caller that gives up clears both the wait and what had arrived. */
    method GiveUp(rid: byte)
      modifies this
      ensures State() == old(State()).(pending := old(pending) - {rid}, chunks := old(chunks) - {rid})
      ensures nextId == old(nextId)
    {
      pending := pending - {rid};
      chunks := chunks - {rid};
    }
  }

  function Receive(c: Client, trace: seq<seq<byte>>): Client {
    if trace == [] then c else OnNotify(Receive(c, trace[..|trace| - 1]), trace[|trace| - 1])
  }

  /** What concerns one request. */
  datatype View = View(parts: seq<seq<byte>>, waiting: bool, answers: seq<Answer>)

  function AnswersTo(answers: seq<Answer>, rid: byte): seq<Answer> {
    if answers == [] then []
    else
      var before := AnswersTo(answers[..|answers| - 1], rid);
      if answers[|answers| - 1].rid == rid then before + [answers[|answers| - 1]] else before
  }

  function ViewOf(c: Client, rid: byte): View {
    View(if rid in c.chunks then c.chunks[rid] else [], rid in c.pending, AnswersTo(c.answers, rid))
  }

  /** The frames of a trace that carry the request number. */
  function FramesOf(trace: seq<seq<byte>>, rid: byte): seq<seq<byte>> {
    if trace == [] then []
    else
      var before := FramesOf(trace[..|trace| - 1], rid);
      var last := trace[|trace| - 1];
      if |last| >= 2 && last[1] == rid then before + [last] else before
  }

  function ViewStep(v: View, rid: byte, data: seq<byte>): View
    requires |data| >= 2
  {
    var parts := v.parts + [data[2..]];
    if !IsFin(data[0]) then v.(parts := parts)
    else View([], false, v.answers + (if v.waiting then [Answer(rid, Concat(parts), IsErr(data[0]))] else []))
  }

  lemma AnswersToSnoc(answers: seq<Answer>, a: Answer, rid: byte)
    ensures AnswersTo(answers + [a], rid) == AnswersTo(answers, rid) + (if a.rid == rid then [a] else [])
  {
    assert (answers + [a])[..|answers + [a]| - 1] == answers;
  }

  /** A frame touches only the view of the request it carries. */
  lemma FrameTouchesOne(c: Client, data: seq<byte>, rid: byte)
    ensures ViewOf(OnNotify(c, data), rid) ==
            if |data| >= 2 && data[1] == rid then ViewStep(ViewOf(c, rid), rid, data) else ViewOf(c, rid)
  {
    hide AnswersTo, Concat, IsFin, IsErr;
    if |data| >= 2 && data[1] == rid {
      TouchesItsOwn(c, data);
    } else if |data| >= 2 {
      TouchesNoOther(c, data, rid);
    }
  }

  lemma TouchesItsOwn(c: Client, data: seq<byte>)
    requires |data| >= 2
    ensures ViewOf(OnNotify(c, data), data[1]) == ViewStep(ViewOf(c, data[1]), data[1], data)
  {
    var parts := (if data[1] in c.chunks then c.chunks[data[1]] else []) + [data[2..]];
    AnswersToSnoc(c.answers, Answer(data[1], Concat(parts), IsErr(data[0])), data[1]);
    hide AnswersTo, Concat, IsFin, IsErr;
  }

  lemma TouchesNoOther(c: Client, data: seq<byte>, rid: byte)
    requires |data| >= 2 && data[1] != rid
    ensures ViewOf(OnNotify(c, data), rid) == ViewOf(c, rid)
  {
    var parts := (if data[1] in c.chunks then c.chunks[data[1]] else []) + [data[2..]];
    AnswersToSnoc(c.answers, Answer(data[1], Concat(parts), IsErr(data[0])), rid);
    hide AnswersTo, Concat, IsFin, IsErr;
  }

  function ViewRun(v: View, rid: byte, frames: seq<seq<byte>>): View {
    if frames == [] then v
    else
      var last := frames[|frames| - 1];
      var before := ViewRun(v, rid, frames[..|frames| - 1]);
      if |last| >= 2 then ViewStep(before, rid, last) else before
  }

  /** Whatever else is interleaved, a request sees its own frames only. */
  lemma {:induction false} NonInterference(c: Client, trace: seq<seq<byte>>, rid: byte)
    ensures ViewOf(Receive(c, trace), rid) == ViewRun(ViewOf(c, rid), rid, FramesOf(trace, rid))
  {
    if trace != [] {
      var before, last := trace[..|trace| - 1], trace[|trace| - 1];
      NonInterference(c, before, rid);
      FrameTouchesOne(Receive(c, before), last, rid);
      hide OnNotify, ViewStep, ViewOf;
      if |last| >= 2 && last[1] == rid {
        var f := FramesOf(before, rid);
        assert (f + [last])[..|f + [last]| - 1] == f;
      }
    }
  }

  lemma {:induction false} ViewRunAppend(v: View, rid: byte, a: seq<seq<byte>>, b: seq<seq<byte>>)
    ensures ViewRun(v, rid, a + b) == ViewRun(ViewRun(v, rid, a), rid, b)
  {
    if b == [] {
      assert a + b == a;
    } else {
      hide ViewStep;
      ViewRunAppend(v, rid, a, b[..|b| - 1]);
      assert (a + b)[..|a + b| - 1] == a + b[..|b| - 1];
    }
  }

  lemma ViewRunOne(v: View, rid: byte, f: seq<byte>)
    requires |f| >= 2
    ensures ViewRun(v, rid, [f]) == ViewStep(v, rid, f)
  {
    assert [f][..0] == [];
  }

  lemma MoreThenLast(v: View, rid: byte, data: seq<byte>, last: bool, err: bool)
    ensures var f := [Flags(last, err), rid] + data;
            && ViewStep(v, rid, f).parts == (if last then [] else v.parts + [data])
            && ViewStep(v, rid, f).waiting == (v.waiting && !last)
            && ViewStep(v, rid, f).answers ==
               v.answers + (if last && v.waiting then [Answer(rid, Concat(v.parts) + data, err)] else [])
  {
    var f := [Flags(last, err), rid] + data;
    assert f[2..] == data;
    ConcatSnoc(v.parts, data);
    hide Concat;
  }

  /** The fragments of one response, in order, yield its body behind whatever was there. */
  lemma {:induction false} FragmentsJoin(v: View, rid: byte, payload: seq<byte>, err: bool)
    requires v.waiting
    ensures ViewRun(v, rid, Fragments(rid, payload, err)) ==
            View([], false, v.answers + [Answer(rid, Concat(v.parts) + payload, err)])
    decreases |payload|
  {
    hide ViewRun, ViewStep, Concat, Flags;
    if |payload| <= MAX_FRAG {
      var f := [Flags(true, err), rid] + payload;
      ViewRunOne(v, rid, f);
      MoreThenLast(v, rid, payload, true, err);
    } else {
      var head, tail := payload[..MAX_FRAG], payload[MAX_FRAG..];
      var f := [Flags(false, err), rid] + head;
      ViewRunAppend(v, rid, [f], Fragments(rid, tail, err));
      ViewRunOne(v, rid, f);
      MoreThenLast(v, rid, head, false, err);
      var v' := ViewStep(v, rid, f);
      FragmentsJoin(v', rid, tail, err);
      ConcatSnoc(v.parts, head);
      assert Concat(v.parts) + head + tail == Concat(v.parts) + payload;
    }
  }

  /** Under any interleaving with other traffic, a response that was waited for is
      answered once, with everything left over for its number in front of its body;
      so exactly when nothing was left over, with its body and its error flag. */
  lemma ResponseRecovered(c: Client, trace: seq<seq<byte>>, rid: byte, payload: seq<byte>, err: bool)
    requires rid in c.pending && FramesOf(trace, rid) == Fragments(rid, payload, err)
    ensures ViewOf(Receive(c, trace), rid).answers ==
            ViewOf(c, rid).answers + [Answer(rid, Concat(ViewOf(c, rid).parts) + payload, err)]
    ensures ViewOf(Receive(c, trace), rid).parts == [] && !ViewOf(Receive(c, trace), rid).waiting
    ensures Concat(ViewOf(c, rid).parts) == [] <==>
            ViewOf(Receive(c, trace), rid).answers == ViewOf(c, rid).answers + [Answer(rid, payload, err)]
  {
    NonInterference(c, trace, rid);
    FragmentsJoin(ViewOf(c, rid), rid, payload, err);
    var left := Concat(ViewOf(c, rid).parts);
    var a := ViewOf(c, rid).answers;
    hide Receive, ViewRun, FramesOf, Fragments, Concat, ViewOf;
    assert [] + payload == payload;
    var x, y := Answer(rid, left + payload, err), Answer(rid, payload, err);
    assert a + [x] == a + [y] ==> x == y by {
      assert (a + [x])[|a|] == x && (a + [y])[|a|] == y;
    }
    assert |left + payload| == |left| + |payload|;
  }

  /** The same for several responses at once: any set of requests with distinct numbers,
      none with leftovers, all recovered from one interleaved trace. */
  lemma AllRecovered(c: Client, trace: seq<seq<byte>>, responses: seq<Answer>)
    requires forall r :: r in responses ==>
               r.rid in c.pending && r.rid !in c.chunks && FramesOf(trace, r.rid) == Fragments(r.rid, r.body, r.err)
    ensures forall r :: r in responses ==>
              ViewOf(Receive(c, trace), r.rid).answers == ViewOf(c, r.rid).answers + [r]
              && r.rid !in Receive(c, trace).pending
  {
    forall r | r in responses
      ensures ViewOf(Receive(c, trace), r.rid).answers == ViewOf(c, r.rid).answers + [r]
      ensures r.rid !in Receive(c, trace).pending
    {
      ResponseRecovered(c, trace, r.rid, r.body, r.err);
    }
  }

  // ------------------------------------------------------------ the frames themselves

  /** Byte by byte: bit 0 of the first byte marks the last frame and bit 1 an error, the second byte is
      the id, and the rest are the next 242 bytes of the payload, or what is left. */
  lemma {:induction false} FragmentBytes(rid: byte, payload: seq<byte>, err: bool, i: nat)
    requires i < |Fragments(rid, payload, err)|
    ensures var f := Fragments(rid, payload, err);
            && 242 * i <= |payload| && |f[i]| >= 2
            && (i < |f| - 1 ==> 242 * (i + 1) <= |payload|)
            && f[i][0] == (if i == |f| - 1 then 1 else 0) + (if err then 2 else 0)
            && f[i][1] == rid
            && f[i][2..] == payload[242 * i..if i == |f| - 1 then |payload| else 242 * (i + 1)]
    decreases |payload|
  {
    if |payload| > MAX_FRAG {
      var rest := payload[MAX_FRAG..];
      var tail := Fragments(rid, rest, err);
      assert Fragments(rid, payload, err) == [[Flags(false, err), rid] + payload[..MAX_FRAG]] + tail;
      if i > 0 {
        FragmentBytes(rid, rest, err, i - 1);
        hide Fragments;
        assert forall a, b :: 0 <= a <= b <= |rest| ==> rest[a..b] == payload[MAX_FRAG + a..MAX_FRAG + b];
      } else {
        hide Fragments;
        assert payload[242 * 0..242] == payload[..MAX_FRAG];
      }
    } else {
      assert payload[0..|payload|] == payload;
    }
  }

  /** What the client makes of a frame: too short is ignored; bit 0 clear adds a part; bit 0 set ends the
      response, which answers its caller, as an error by bit 1, and nobody if none is waiting. */
  lemma NotifiedMeans(c: Client, data: seq<byte>)
    ensures |data| < 2 ==> OnNotify(c, data) == c
    ensures |data| >= 2 && data[0] % 2 == 0 ==>
              OnNotify(c, data).answers == c.answers && OnNotify(c, data).pending == c.pending
    ensures |data| >= 2 && data[0] % 2 == 1 && data[1] !in c.pending ==>
              OnNotify(c, data).answers == c.answers && OnNotify(c, data).pending == c.pending
    ensures |data| >= 2 && data[0] % 2 == 1 && data[1] in c.pending ==>
              && |OnNotify(c, data).answers| == |c.answers| + 1
              && var a := OnNotify(c, data).answers[|c.answers|];
              a.rid == data[1] && (a.err <==> data[0] % 4 >= 2) && data[1] !in OnNotify(c, data).pending
    ensures |data| >= 2 && data[0] % 2 == 1 ==> data[1] !in OnNotify(c, data).chunks
  {
    if |data| >= 2 {
      assert data[0] % 4 >= 2 <==> data[0] / 2 % 2 == 1;
    }
  }
}
