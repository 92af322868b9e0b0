/**
 The keepalive reaction to frames from the device. Timers are abstract: a
 scheduled ping is one more `pending` timer, and `TimerFired` is the moment
 one of them runs and sends a Ping tagged with the next counter value.
 */
module Keepalive {
  import opened Results
  import opened Protocol
  import opened PTFrame

  /** `tagno` is the counter of the last Ping sent, `pending` the number of
      ping timers scheduled but not yet run, `established` whether the
      session promise has been resolved by a DeviceInfo. */
  datatype State = State(tagno: nat, pending: nat, established: bool)

  const Init: State := State(0, 0, false)

  datatype Output =
    | Send(fields: FrameFields)  // a frame handed to the tunnel for encoding
    | EmitClose                  // the tunnel's `close` event
    | LogFrame(frame: Frame)     // a frame of any other kind, printed

  datatype Event = Received(frame: Frame) | TimerFired

  datatype Reaction = Reaction(state: State, out: seq<Output>)

  /** The kinds that schedule a ping. */
  predicate Schedules(frameType: nat) {
    frameType == DeviceInfo || frameType == Pong
  }

  /** The Ping a timer sends. */
  function PingFields(tag: nat): FrameFields {
    FrameFields(None, Ping, Some(tag), Absent)
  }

  /** The device `data` handler: dispatch on the frame type. */
  function OnData(s: State, fr: Frame): (r: Reaction)
    ensures r.state.tagno == s.tagno
    ensures r.state.pending == s.pending + (if Schedules(fr.frameType) then 1 else 0)
    ensures r.state.established <==> s.established || fr.frameType == DeviceInfo
    ensures EmitClose in r.out <==> fr.frameType == Stop
    ensures |r.out| <= 1 && forall o :: o in r.out ==> !o.Send?
    ensures r.out == [] <==> Schedules(fr.frameType)
    ensures !Schedules(fr.frameType) && fr.frameType != Stop ==> r.out == [LogFrame(fr)]
  {
    if fr.frameType == DeviceInfo then
      Reaction(s.(pending := s.pending + 1, established := true), [])
    else if fr.frameType == Pong then
      Reaction(s.(pending := s.pending + 1), [])
    else if fr.frameType == Stop then
      Reaction(s, [EmitClose])
    else
      Reaction(s, [LogFrame(fr)])
  }

  /** One scheduled timer runs: it sends a Ping tagged `++tagno`. With no
      timer scheduled there is nothing to run. */
  function Fire(s: State): (r: Reaction)
    ensures s.pending == 0 ==> r == Reaction(s, [])
    ensures s.pending > 0 ==>
              && r.state == s.(tagno := s.tagno + 1, pending := s.pending - 1)
              && r.out == [Send(PingFields(r.state.tagno))]
  {
    if s.pending == 0 then
      Reaction(s, [])
    else
      var s' := s.(tagno := s.tagno + 1, pending := s.pending - 1);
      Reaction(s', [Send(PingFields(s'.tagno))])
  }

  function Step(s: State, e: Event): Reaction {
    match e
    case Received(fr) => OnData(s, fr)
    case TimerFired => Fire(s)
  }

  /** The session after a sequence of events, with everything it emitted. */
  function Run(s: State, events: seq<Event>): (r: Reaction)
    decreases |events|
  {
    if events == [] then
      Reaction(s, [])
    else
      var first := Step(s, events[0]);
      var rest := Run(first.state, events[1..]);
      Reaction(rest.state, first.out + rest.out)
  }

  /** The tags of the Pings among the outputs, in order. */
  function PingTags(out: seq<Output>): (tags: seq<nat>)
    ensures |tags| <= |out|
  {
    if out == [] then []
    else
      var o := out[0];
      (if o.Send? && o.fields.frameType == Ping then [TagOf(o.fields)] else []) + PingTags(out[1..])
  }

  lemma {:induction false} PingTagsAppend(a: seq<Output>, b: seq<Output>)
    ensures PingTags(a + b) == PingTags(a) + PingTags(b)
    decreases |a|
  {
    if a == [] {
      assert a + b == b;
    } else {
      assert (a + b)[0] == a[0];
      assert (a + b)[1..] == a[1..] + b;
      PingTagsAppend(a[1..], b);
    }
  }

  /** How many elements satisfy `p`. */
  function Count<T>(s: seq<T>, p: T -> bool): (n: nat)
    ensures n <= |s|
  {
    if s == [] then 0 else (if p(s[0]) then 1 else 0) + Count(s[1..], p)
  }

  lemma {:induction false} CountAppend<T>(a: seq<T>, b: seq<T>, p: T -> bool)
    ensures Count(a + b, p) == Count(a, p) + Count(b, p)
    decreases |a|
  {
    if a == [] {
      assert a + b == b;
    } else {
      assert (a + b)[0] == a[0];
      assert (a + b)[1..] == a[1..] + b;
      CountAppend(a[1..], b, p);
    }
  }

  predicate IsScheduling(e: Event) { e.Received? && Schedules(e.frame.frameType) }
  predicate IsStop(e: Event) { e.Received? && e.frame.frameType == Stop }
  predicate IsDeviceInfo(e: Event) { e.Received? && e.frame.frameType == DeviceInfo }
  predicate IsClose(o: Output) { o.EmitClose? }

  /** Pings are tagged 1, 2, 3, ... after the counter's value: the i-th
      Ping sent carries `tagno + 1 + i`, and the counter ends at the last
      tag sent. */
  lemma {:induction false} RunPingTags(s: State, events: seq<Event>)
    ensures var r := Run(s, events);
            var tags := PingTags(r.out);
            && r.state.tagno == s.tagno + |tags|
            && forall i :: 0 <= i < |tags| ==> tags[i] == s.tagno + 1 + i
    decreases |events|
  {
    if events != [] {
      var first := Step(s, events[0]);
      var rest := Run(first.state, events[1..]);
      RunPingTags(first.state, events[1..]);
      PingTagsAppend(first.out, rest.out);
      if events[0].TimerFired? && s.pending > 0 {
        assert PingTags(first.out) == [s.tagno + 1];
      } else {
        assert PingTags(first.out) == [];
      }
    }
  }

  /** From the initial state the Pings carry tags 1, 2, 3, ... in strictly
      increasing order. */
  lemma PingTagsIncrease(events: seq<Event>)
    ensures var tags := PingTags(Run(Init, events).out);
            && (forall i :: 0 <= i < |tags| ==> tags[i] == i + 1)
            && (forall i, j :: 0 <= i < j < |tags| ==> tags[i] < tags[j])
  {
    RunPingTags(Init, events);
  }

  /** Every DeviceInfo or Pong schedules exactly one Ping, and a Ping is
      sent only for a timer scheduled earlier: the timers scheduled equal
      the Pings sent plus the timers still pending. */
  lemma {:induction false} RunPendingBalance(s: State, events: seq<Event>)
    ensures var r := Run(s, events);
            r.state.pending + |PingTags(r.out)| == s.pending + Count(events, IsScheduling)
    decreases |events|
  {
    if events != [] {
      var first := Step(s, events[0]);
      var rest := Run(first.state, events[1..]);
      RunPendingBalance(first.state, events[1..]);
      PingTagsAppend(first.out, rest.out);
      assert events == [events[0]] + events[1..];
      CountAppend([events[0]], events[1..], IsScheduling);
      if events[0].TimerFired? && s.pending > 0 {
        assert PingTags(first.out) == [s.tagno + 1];
      } else {
        assert PingTags(first.out) == [];
      }
    }
  }

  /** Each Stop frame emits exactly one close, and nothing else does. */
  lemma {:induction false} RunCloses(s: State, events: seq<Event>)
    ensures Count(Run(s, events).out, IsClose) == Count(events, IsStop)
    decreases |events|
  {
    if events != [] {
      var first := Step(s, events[0]);
      var rest := Run(first.state, events[1..]);
      RunCloses(first.state, events[1..]);
      CountAppend(first.out, rest.out, IsClose);
      assert events == [events[0]] + events[1..];
      CountAppend([events[0]], events[1..], IsStop);
      assert Count(first.out, IsClose) == (if IsStop(events[0]) then 1 else 0) by {
        if first.out != [] {
          assert first.out[1..] == [];
        }
      }
    }
  }

  /** The session is established exactly when it already was or a
      DeviceInfo has arrived; no other frame and no timer changes that. */
  lemma {:induction false} RunEstablished(s: State, events: seq<Event>)
    ensures Run(s, events).state.established <==> s.established || Count(events, IsDeviceInfo) > 0
    decreases |events|
  {
    if events != [] {
      RunEstablished(Step(s, events[0]).state, events[1..]);
      assert events == [events[0]] + events[1..];
      CountAppend([events[0]], events[1..], IsDeviceInfo);
    }
  }

  /** Timers are not replaced: two Pongs leave two Pings scheduled. */
  lemma RepeatedPongsStack(s: State, pong: Frame)
    requires pong.frameType == Pong
    ensures Run(s, [Received(pong), Received(pong)]).state.pending == s.pending + 2
  {
    var once := OnData(s, pong).state;
    assert [Received(pong), Received(pong)][1..] == [Received(pong)];
    assert Run(once, [Received(pong)]).state == OnData(once, pong).state;
  }

  /** A fired Ping goes on the wire as a bare 16-octet header of version 1,
      type 2000 and its tag. */
  lemma PingWire(tag: nat)
    requires tag < 0x1_0000_0000
    ensures Encode(PingFields(tag)).Success?
    ensures |Encode(PingFields(tag)).value| == HeadSize
    ensures Decode(Encode(PingFields(tag)).value) == Success(Frame(ProtocolVersion1, Ping, tag, 0, []))
  {
    DecodeEncode(PingFields(tag));
  }
}
