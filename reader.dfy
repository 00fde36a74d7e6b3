/** The keyboard-reader goroutine of timer.go as a sequential state machine.
    The blocking read becomes a `Byte` event, the firing of the lone-ESC timer
    a `Timeout` event (it can only fire while the timer is armed), and a read
    error or the session's quit signal a `Stop` event. The buffered channel
    `keysCh` is the bounded `queue`; the timer loop takes keys from its front. */
module Reader {
  import opened Wrappers
  import opened Input
  import opened Config

  datatype ReaderState = ReaderState(acc: seq<byte>, armed: bool, queue: seq<byte>, stopped: bool)

  datatype ReaderEvent = Byte(b: byte) | Timeout | Stop

  /** The reader as the goroutine starts: nothing accumulated, no timer, no keys. */
  const Idle: ReaderState := ReaderState([], false, [], false)

  /** What every reachable state satisfies: the queue respects its capacity
      and never holds key 0, the ESC timer is armed exactly while a lone ESC
      waits, and the accumulator is always an unresolved prefix. */
  ghost predicate Valid(d: Decoder, st: ReaderState)
  {
    && |st.queue| <= KEY_BUFFER_SIZE
    && (forall i :: 0 <= i < |st.queue| ==> st.queue[i] != 0)
    && (st.armed <==> !st.stopped && st.acc == [ESC])
    && Decode(d, st.acc).Unresolved()
  }

  /** A non-blocking send on the buffered channel: dropped when it is full. */
  function Push(q: seq<byte>, k: byte): (r: seq<byte>)
    ensures r == q || r == q + [k]
    ensures r == q + [k] <==> |q| < KEY_BUFFER_SIZE
    ensures |q| <= KEY_BUFFER_SIZE ==> |r| <= KEY_BUFFER_SIZE
  {
    if |q| < KEY_BUFFER_SIZE then q + [k] else q
  }

  /** One byte read from the terminal (timer.go:141-162). */
  function OnByte(d: Decoder, st: ReaderState, b: byte): (r: ReaderState)
    ensures st.stopped ==> r == st
    ensures !st.stopped ==> !r.stopped
    // the byte is appended; a resolved parse empties the accumulator
    ensures !st.stopped && Decode(d, st.acc + [b]).resolved ==> r.acc == []
    ensures !st.stopped && !Decode(d, st.acc + [b]).resolved ==> r.acc == st.acc + [b]
    // the timer is armed only for a lone ESC
    ensures !st.stopped ==> (r.armed <==> r.acc == [ESC])
    // at most one key is enqueued, never key 0, and none onto a full queue
    ensures r.queue == st.queue || (|st.queue| < KEY_BUFFER_SIZE && r.queue == st.queue + [Decode(d, st.acc + [b]).key])
    ensures r.queue != st.queue ==> Decode(d, st.acc + [b]).key != 0
    ensures |st.queue| >= KEY_BUFFER_SIZE ==> r.queue == st.queue
    // a resolved non-zero key is delivered whenever the channel has room
    ensures var p := Decode(d, st.acc + [b]);
      !st.stopped && p.resolved && p.key != 0 && |st.queue| < KEY_BUFFER_SIZE ==> r.queue == st.queue + [p.key]
    ensures Valid(d, st) ==> Valid(d, r)
  {
    if st.stopped then st
    else
      var acc := st.acc + [b];
      var p := Decode(d, acc);
      if p.resolved then
        ReaderState([], false, if p.key != 0 then Push(st.queue, p.key) else st.queue, false)
      else
        ReaderState(acc, |acc| == 1 && acc[0] == ESC, st.queue, false)
  }

  /** The lone-ESC timer firing (timer.go:163-173): ESC is sent on the same
      drop-when-full terms, and the accumulator and the timer are cleared. A
      timer that is not armed cannot fire, so the event changes nothing then. */
  function OnTimeout(st: ReaderState): (r: ReaderState)
    ensures st.armed && !st.stopped ==> r.acc == [] && !r.armed && r.queue == Push(st.queue, ESC)
    ensures !st.armed || st.stopped ==> r == st
    ensures r.stopped == st.stopped
  {
    if st.stopped || !st.armed then st
    else ReaderState([], false, Push(st.queue, ESC), false)
  }

  /** A read error or the quit signal: the timer is stopped and the goroutine returns. */
  function OnStop(st: ReaderState): (r: ReaderState)
    ensures r.stopped && !r.armed
    ensures r.acc == st.acc && r.queue == st.queue
  {
    st.(armed := false, stopped := true)
  }

  function Step(d: Decoder, st: ReaderState, e: ReaderEvent): ReaderState
  {
    match e
    case Byte(b) => OnByte(d, st, b)
    case Timeout => OnTimeout(st)
    case Stop => OnStop(st)
  }

  /** The goroutine's `for` loop over a sequence of events. */
  function Run(d: Decoder, st: ReaderState, evs: seq<ReaderEvent>): ReaderState
    decreases |evs|
  {
    if |evs| == 0 then st else Run(d, Step(d, st, evs[0]), evs[1..])
  }

  /** A receive on `keysCh`: the oldest key, if any. */
  function Receive(st: ReaderState): (r: (Option<byte>, ReaderState))
    ensures st.queue == [] ==> r.0 == None && r.1 == st
    ensures st.queue != [] ==> r.0 == Some(st.queue[0]) && r.1 == st.(queue := st.queue[1..])
  {
    if st.queue == [] then (None, st) else (Some(st.queue[0]), st.(queue := st.queue[1..]))
  }

  function Bytes(bs: seq<byte>): (evs: seq<ReaderEvent>)
    ensures |evs| == |bs|
    ensures forall i :: 0 <= i < |bs| ==> evs[i] == Byte(bs[i])
  {
    seq(|bs|, i requires 0 <= i < |bs| => Byte(bs[i]))
  }

  lemma StepValid(d: Decoder, st: ReaderState, e: ReaderEvent)
    requires Valid(d, st)
    ensures Valid(d, Step(d, st, e))
  {
  }

  /** Every state reached from a valid one by any events is valid. */
  lemma {:induction false} RunValid(d: Decoder, st: ReaderState, evs: seq<ReaderEvent>)
    requires Valid(d, st)
    ensures Valid(d, Run(d, st, evs))
    decreases |evs|
  {
    if |evs| > 0 {
      StepValid(d, st, evs[0]);
      RunValid(d, Step(d, st, evs[0]), evs[1..]);
    }
  }

  lemma RunCons(d: Decoder, st: ReaderState, e: ReaderEvent, rest: seq<ReaderEvent>)
    ensures Run(d, st, [e] + rest) == Run(d, Step(d, st, e), rest)
  {
    assert ([e] + rest)[1..] == rest;
  }

  lemma {:induction false} RunSnoc(d: Decoder, st: ReaderState, evs: seq<ReaderEvent>, e: ReaderEvent)
    ensures Run(d, st, evs + [e]) == Step(d, Run(d, st, evs), e)
    decreases |evs|
  {
    if |evs| > 0 {
      assert (evs + [e])[1..] == evs[1..] + [e];
      RunSnoc(d, Step(d, st, evs[0]), evs[1..], e);
    }
  }

  lemma {:induction false} RunAppend(d: Decoder, st: ReaderState, a: seq<ReaderEvent>, b: seq<ReaderEvent>)
    ensures Run(d, st, a + b) == Run(d, Run(d, st, a), b)
    decreases |a|
  {
    if |a| == 0 {
      assert a + b == b;
    } else {
      assert (a + b)[1..] == a[1..] + b;
      RunAppend(d, Step(d, st, a[0]), a[1..], b);
    }
  }

  lemma BytesAppend(a: seq<byte>, b: seq<byte>)
    ensures Bytes(a + b) == Bytes(a) + Bytes(b)
  {
  }

  lemma RunBytesCons(d: Decoder, st: ReaderState, b: byte, rest: seq<byte>)
    ensures Run(d, st, Bytes([b] + rest)) == Run(d, OnByte(d, st, b), Bytes(rest))
  {
    assert Bytes([b] + rest) == [Byte(b)] + Bytes(rest);
    RunCons(d, st, Byte(b), Bytes(rest));
  }

  /** A lone ESC followed by silence delivers the quit key ESC exactly once:
      the queue gains one ESC, and a second timeout changes nothing. */
  lemma LoneEscapeThenTimeout(d: Decoder, st: ReaderState)
    requires !st.stopped && st.acc == [] && |st.queue| < KEY_BUFFER_SIZE
    ensures var s1 := Run(d, st, [Byte(ESC), Timeout]);
      s1.queue == st.queue + [ESC] && s1.acc == [] && !s1.armed
      && Run(d, st, [Byte(ESC), Timeout, Timeout]) == s1
  {
    var s0 := OnByte(d, st, ESC);
    assert s0.acc == [ESC] && s0.armed && s0.queue == st.queue;
    var s1 := OnTimeout(s0);
    RunCons(d, st, Byte(ESC), [Timeout]);
    RunCons(d, s0, Timeout, []);
    assert Run(d, st, [Byte(ESC), Timeout]) == s1;
    RunCons(d, st, Byte(ESC), [Timeout, Timeout]);
    RunCons(d, s0, Timeout, [Timeout]);
    RunCons(d, s1, Timeout, []);
  }

  /** Parameter bytes of a CSI sequence (digits, ';', '<' and the like). */
  predicate ParameterBytes(bs: seq<byte>)
  {
    forall i :: 0 <= i < |bs| ==> 0x30 <= bs[i] <= 0x3f
  }

  lemma EscBracket(d: Decoder, st: ReaderState)
    requires !st.stopped && st.acc == []
    ensures var r := Run(d, st, Bytes([ESC, LBRACKET]));
      r.acc == [ESC, LBRACKET] && r.queue == st.queue && !r.stopped && !r.armed
  {
    var s1 := OnByte(d, st, ESC);
    assert st.acc + [ESC] == [ESC];
    assert s1.acc == [ESC] && s1.queue == st.queue;
    var s2 := OnByte(d, s1, LBRACKET);
    assert s1.acc + [LBRACKET] == [ESC, LBRACKET];
    assert s2.acc == [ESC, LBRACKET] && s2.queue == st.queue;
    assert [ESC, LBRACKET] == [ESC] + [LBRACKET];
    assert [LBRACKET] == [LBRACKET] + [];
    RunBytesCons(d, st, ESC, [LBRACKET]);
    RunBytesCons(d, s1, LBRACKET, []);
    assert Bytes([]) == [];
  }

  lemma ParametersUnresolved(d: Decoder, params: seq<byte>)
    requires ParameterBytes(params)
    ensures Decode(d, [ESC, LBRACKET] + params).Unresolved()
  {
    var s := [ESC, LBRACKET] + params;
    assert s[0] == ESC && s[1] == LBRACKET;
    if |params| > 0 {
      assert s[2] == params[0] && Last(s) == params[|params| - 1];
    }
  }

  /** While an ESC '[' sequence is still receiving parameter bytes, both
      decoders keep accumulating it and deliver nothing. */
  lemma {:induction false} ParametersAccumulate(d: Decoder, st: ReaderState, params: seq<byte>)
    requires !st.stopped && st.acc == []
    requires ParameterBytes(params)
    ensures var r := Run(d, st, Bytes([ESC, LBRACKET] + params));
      r.acc == [ESC, LBRACKET] + params && r.queue == st.queue && !r.stopped && !r.armed
    decreases |params|
  {
    if |params| == 0 {
      assert [ESC, LBRACKET] + params == [ESC, LBRACKET];
      EscBracket(d, st);
    } else {
      var init := params[..|params| - 1];
      var x := params[|params| - 1];
      assert ParameterBytes(init);
      assert [ESC, LBRACKET] + params == ([ESC, LBRACKET] + init) + [x];
      BytesAppend([ESC, LBRACKET] + init, [x]);
      ParametersAccumulate(d, st, init);
      var prev := Run(d, st, Bytes([ESC, LBRACKET] + init));
      RunSnoc(d, st, Bytes([ESC, LBRACKET] + init), Byte(x));
      assert Bytes([x]) == [Byte(x)];
      assert prev.acc + [x] == [ESC, LBRACKET] + params;
      ParametersUnresolved(d, params);
    }
  }

  /** A complete SGR mouse report, ESC '[' '<' parameters and a final 'M'
      (press) or 'm' (release), is discarded by either decoder: no key is
      delivered and the accumulator is drained. */
  lemma SgrMouseReportDiscarded(d: Decoder, st: ReaderState, params: seq<byte>, fin: byte)
    requires !st.stopped && st.acc == []
    requires ParameterBytes(params) && (fin == UPPER_M || fin == LOWER_M)
    ensures var r := Run(d, st, Bytes([ESC, LBRACKET, 0x3c] + params + [fin]));
      r.acc == [] && r.queue == st.queue && !r.armed
  {
    var body := [0x3c as byte] + params;
    assert ParameterBytes(body);
    assert [ESC, LBRACKET, 0x3c] + params == [ESC, LBRACKET] + body;
    ParametersAccumulate(d, st, body);
    BytesAppend([ESC, LBRACKET] + body, [fin]);
    assert Bytes([fin]) == [Byte(fin)];
    RunSnoc(d, st, Bytes([ESC, LBRACKET] + body), Byte(fin));
  }

  /** As written, ESC '[' followed by bytes none of which is 'm' or 'M' is never
      resolved: every one of those bytes is swallowed and no key is delivered. */
  lemma {:induction false} BracketSwallowsAsWritten(st: ReaderState, rest: seq<byte>)
    requires !st.stopped && st.acc == []
    requires forall i :: 0 <= i < |rest| ==> rest[i] != UPPER_M && rest[i] != LOWER_M
    ensures var r := Run(AsWritten, st, Bytes([ESC, LBRACKET] + rest));
      r.acc == [ESC, LBRACKET] + rest && r.queue == st.queue && !r.stopped
    decreases |rest|
  {
    if |rest| == 0 {
      assert [ESC, LBRACKET] + rest == [ESC, LBRACKET];
      EscBracket(AsWritten, st);
    } else {
      var init := rest[..|rest| - 1];
      assert [ESC, LBRACKET] + rest == ([ESC, LBRACKET] + init) + [rest[|rest| - 1]];
      BytesAppend([ESC, LBRACKET] + init, [rest[|rest| - 1]]);
      assert Bytes([rest[|rest| - 1]]) == [Byte(rest[|rest| - 1])];
      BracketSwallowsAsWritten(st, init);
      RunSnoc(AsWritten, st, Bytes([ESC, LBRACKET] + init), Byte(rest[|rest| - 1]));
    }
  }

  /** Up arrow (ESC '[' 'A') and then 'q': as written the 'q' never arrives. */
  lemma ArrowKeySwallowsQuitAsWritten(st: ReaderState)
    requires !st.stopped && st.acc == []
    ensures Run(AsWritten, st, Bytes([ESC, LBRACKET, 0x41, 0x71])).queue == st.queue
  {
    assert [ESC, LBRACKET, 0x41, 0x71] == [ESC, LBRACKET] + [0x41, 0x71];
    BracketSwallowsAsWritten(st, [0x41, 0x71]);
  }

  /** With the corrected decoder an arrow key is discarded at its final byte
      and the key typed after it is delivered. */
  lemma ArrowKeyThenKeyCorrected(st: ReaderState, fin: byte, k: byte)
    requires !st.stopped && st.acc == [] && |st.queue| < KEY_BUFFER_SIZE
    requires IsFinalByte(fin) && fin != UPPER_M
    requires k != ESC && k != 0
    ensures var r := Run(Corrected, st, Bytes([ESC, LBRACKET, fin, k]));
      r.queue == st.queue + [k] && r.acc == []
  {
    var s1 := OnByte(Corrected, st, ESC);
    assert st.acc + [ESC] == [ESC];
    var s2 := OnByte(Corrected, s1, LBRACKET);
    assert s1.acc + [LBRACKET] == [ESC, LBRACKET];
    var s3 := OnByte(Corrected, s2, fin);
    assert s2.acc + [fin] == [ESC, LBRACKET, fin];
    assert s3.acc == [] && s3.queue == st.queue;
    var s4 := OnByte(Corrected, s3, k);
    assert s3.acc + [k] == [k];
    assert s4.queue == st.queue + [k] && s4.acc == [];
    assert [ESC, LBRACKET, fin, k] == [ESC] + [LBRACKET, fin, k];
    assert [LBRACKET, fin, k] == [LBRACKET] + [fin, k];
    assert [fin, k] == [fin] + [k];
    assert [k] == [k] + [];
    RunBytesCons(Corrected, st, ESC, [LBRACKET, fin, k]);
    RunBytesCons(Corrected, s1, LBRACKET, [fin, k]);
    RunBytesCons(Corrected, s2, fin, [k]);
    RunBytesCons(Corrected, s3, k, []);
    assert Bytes([]) == [];
  }

  /** An X10 mouse report ESC '[' 'M' Cb Cx Cy (each of Cb, Cx, Cy is 32 plus
      a button code or a coordinate). As written the decoder resolves after
      ESC '[' 'M' and the three report bytes arrive as keys: a left-button
      press (Cb = 0x20, the space key) toggles pause. */
  lemma X10MouseReportLeaksAsWritten(st: ReaderState, cb: byte, cx: byte, cy: byte)
    requires !st.stopped && st.acc == [] && |st.queue| + 3 <= KEY_BUFFER_SIZE
    requires cb >= 0x20 && cx >= 0x20 && cy >= 0x20
    ensures var r := Run(AsWritten, st, Bytes([ESC, LBRACKET, UPPER_M, cb, cx, cy]));
      r.queue == st.queue + [cb, cx, cy] && r.acc == []
  {
    X10PrefixResolvesAsWritten(st);
    var s3 := ReaderState([], false, st.queue, false);
    ThreePlainKeys(AsWritten, s3, cb, cx, cy);
    assert [ESC, LBRACKET, UPPER_M, cb, cx, cy] == [ESC, LBRACKET, UPPER_M] + [cb, cx, cy];
    BytesAppend([ESC, LBRACKET, UPPER_M], [cb, cx, cy]);
    RunAppend(AsWritten, st, Bytes([ESC, LBRACKET, UPPER_M]), Bytes([cb, cx, cy]));
  }

  /** As written, ESC '[' 'M' is complete after three bytes. */
  lemma X10PrefixResolvesAsWritten(st: ReaderState)
    requires !st.stopped && st.acc == []
    ensures Run(AsWritten, st, Bytes([ESC, LBRACKET, UPPER_M])) == ReaderState([], false, st.queue, false)
  {
    EscBracket(AsWritten, st);
    var s2 := Run(AsWritten, st, Bytes([ESC, LBRACKET]));
    assert s2.acc + [UPPER_M] == [ESC, LBRACKET, UPPER_M];
    assert [ESC, LBRACKET, UPPER_M] == [ESC, LBRACKET] + [UPPER_M];
    BytesAppend([ESC, LBRACKET], [UPPER_M]);
    assert Bytes([UPPER_M]) == [Byte(UPPER_M)];
    RunSnoc(AsWritten, st, Bytes([ESC, LBRACKET]), Byte(UPPER_M));
  }

  lemma ThreePlainKeys(d: Decoder, st: ReaderState, a: byte, b: byte, c: byte)
    requires !st.stopped && st.acc == [] && |st.queue| + 3 <= KEY_BUFFER_SIZE
    requires a != ESC && a != 0 && b != ESC && b != 0 && c != ESC && c != 0
    ensures Run(d, st, Bytes([a, b, c])) == ReaderState([], false, st.queue + [a, b, c], false)
  {
    PlainKeyDelivered(d, st, a);
    var s1 := OnByte(d, st, a);
    PlainKeyDelivered(d, s1, b);
    var s2 := OnByte(d, s1, b);
    PlainKeyDelivered(d, s2, c);
    assert st.queue + [a] + [b] + [c] == st.queue + [a, b, c];
    assert [a, b, c] == [a] + [b, c];
    assert [b, c] == [b] + [c];
    assert [c] == [c] + [];
    RunBytesCons(d, st, a, [b, c]);
    RunBytesCons(d, s1, b, [c]);
    RunBytesCons(d, s2, c, []);
    assert Bytes([]) == [];
  }

  /** A byte other than ESC and 0 arriving at an empty accumulator is
      delivered at once (when the queue has room). */
  lemma PlainKeyDelivered(d: Decoder, st: ReaderState, k: byte)
    requires !st.stopped && st.acc == [] && |st.queue| < KEY_BUFFER_SIZE
    requires k != ESC && k != 0
    ensures OnByte(d, st, k) == ReaderState([], false, st.queue + [k], false)
  {
    assert st.acc + [k] == [k];
  }

  /** With the corrected decoder the whole X10 report is discarded. */
  lemma X10MouseReportDiscardedCorrected(st: ReaderState, cb: byte, cx: byte, cy: byte)
    requires !st.stopped && st.acc == []
    ensures var r := Run(Corrected, st, Bytes([ESC, LBRACKET, UPPER_M, cb, cx, cy]));
      r.queue == st.queue && r.acc == [] && !r.armed
  {
    EscBracket(Corrected, st);
    var s2 := Run(Corrected, st, Bytes([ESC, LBRACKET]));
    X10TailCorrected(s2, cb, cx, cy);
    assert [ESC, LBRACKET, UPPER_M, cb, cx, cy] == [ESC, LBRACKET] + [UPPER_M, cb, cx, cy];
    BytesAppend([ESC, LBRACKET], [UPPER_M, cb, cx, cy]);
    RunAppend(Corrected, st, Bytes([ESC, LBRACKET]), Bytes([UPPER_M, cb, cx, cy]));
  }

  /** The corrected decoder, having seen ESC '[', waits through 'M', Cb and Cx
      and discards the report at Cy. */
  lemma X10TailCorrected(st: ReaderState, cb: byte, cx: byte, cy: byte)
    requires !st.stopped && st.acc == [ESC, LBRACKET] && !st.armed
    ensures var r := Run(Corrected, st, Bytes([UPPER_M, cb, cx, cy]));
      r.queue == st.queue && r.acc == [] && !r.armed
  {
    var s3 := OnByte(Corrected, st, UPPER_M);
    assert st.acc + [UPPER_M] == [ESC, LBRACKET, UPPER_M];
    var s4 := OnByte(Corrected, s3, cb);
    assert s3.acc + [cb] == [ESC, LBRACKET, UPPER_M, cb];
    var s5 := OnByte(Corrected, s4, cx);
    assert s4.acc + [cx] == [ESC, LBRACKET, UPPER_M, cb, cx];
    var s6 := OnByte(Corrected, s5, cy);
    assert s5.acc + [cy] == [ESC, LBRACKET, UPPER_M, cb, cx, cy];
    assert s6.queue == st.queue && s6.acc == [] && !s6.armed;
    assert [UPPER_M, cb, cx, cy] == [UPPER_M] + [cb, cx, cy];
    assert [cb, cx, cy] == [cb] + [cx, cy];
    assert [cx, cy] == [cx] + [cy];
    assert [cy] == [cy] + [];
    RunBytesCons(Corrected, st, UPPER_M, [cb, cx, cy]);
    RunBytesCons(Corrected, s3, cb, [cx, cy]);
    RunBytesCons(Corrected, s4, cx, [cy]);
    RunBytesCons(Corrected, s5, cy, []);
    assert Bytes([]) == [];
  }

  /** The goroutine's local state, updated in place. */
  class KeyboardReader {
    const decoder: Decoder
    var acc: seq<byte>
    var armed: bool
    var queue: seq<byte>
    var stopped: bool

    function State(): ReaderState
      reads this
    {
      ReaderState(acc, armed, queue, stopped)
    }

    constructor (d: Decoder)
      ensures decoder == d && State() == Idle
    {
      decoder := d;
      acc, armed, queue, stopped := [], false, [], false;
    }

    method HandleByte(b: byte)
      modifies this
      ensures State() == OnByte(decoder, old(State()), b)
    {
      if stopped {
        return;
      }
      acc := acc + [b];
      if armed {
        armed := false;
      }
      var p := Decode(decoder, acc);
      if p.resolved {
        if p.key != 0 {
          if |queue| < KEY_BUFFER_SIZE {
            queue := queue + [p.key];
          }
        }
        acc := [];
      } else if |acc| == 1 && acc[0] == ESC {
        armed := true;
      }
    }

    method HandleTimeout()
      modifies this
      ensures State() == OnTimeout(old(State()))
    {
      if stopped || !armed {
        return;
      }
      if |queue| < KEY_BUFFER_SIZE {
        queue := queue + [ESC];
      }
      acc := [];
      armed := false;
    }

    method HandleStop()
      modifies this
      ensures State() == OnStop(old(State()))
    {
      armed := false;
      stopped := true;
    }

    /** The timer loop's receive on the key channel. */
    method TakeKey() returns (k: Option<byte>)
      modifies this
      ensures (k, State()) == Receive(old(State()))
    {
      if queue == [] {
        k := None;
      } else {
        k := Some(queue[0]);
        queue := queue[1..];
      }
    }

    /** The reader loop, one event per iteration. */
    method RunEvents(evs: seq<ReaderEvent>)
      modifies this
      ensures State() == Run(decoder, old(State()), evs)
    {
      var i := 0;
      while i < |evs|
        invariant 0 <= i <= |evs|
        invariant Run(decoder, State(), evs[i..]) == Run(decoder, old(State()), evs)
        decreases |evs| - i
      {
        assert evs[i..][1..] == evs[i + 1..];
        match evs[i] {
          case Byte(b) => HandleByte(b);
          case Timeout => HandleTimeout();
          case Stop => HandleStop();
        }
        i := i + 1;
      }
    }
  }
}
