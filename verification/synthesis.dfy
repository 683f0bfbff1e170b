/**
 The orchestration of `request` (src/tts.rs): open the connection, send
 the `speech.config` message, send the SSML message, then run the read
 loop. Every step that talks to the network is an answer supplied up front
 in a `Session`, so one call of `Request` is one run of the function, and
 its `trace` records what the client did, in order.
 */
module Synthesis {
  import opened Wrappers
  import opened Strings
  import opened Errors
  import opened Framing
  import opened Messages
  import opened FrameDecoder

  /** The arguments of `request`. */
  datatype Speech = Speech(
    lang: string, voice: string, pitch: string, rate: string, volume: string,
    outputFormat: string, text: string)

  /**
   What the world answers in one run: the error text of a failed handshake
   or send (`None` when it succeeds), the clock readings and request id drawn
   while building the messages, and the read results the socket delivers.
   */
  datatype Session = Session(
    connectError: Option<string>,
    configTimestamp: string,
    configSendError: Option<string>,
    requestId: string,
    ssmlTimestamp: string,
    ssmlSendError: Option<string>,
    events: seq<Event>)

  /** One observable action of the client. */
  datatype Action = Connect | Send(message: string) | Read(event: Event)

  datatype Outcome = Outcome(trace: seq<Action>, result: State)

  function ConfigMessage(args: Speech, env: Session): string
  {
    Request1(env.configTimestamp, args.outputFormat)
  }

  function SsmlMessage(args: Speech, env: Session): string
  {
    Request2(env.requestId, env.ssmlTimestamp, args.lang, args.voice, args.pitch,
             args.rate, args.volume, args.text)
  }

  /** The handshake and both sends succeed. */
  predicate Connected(env: Session)
  {
    env.connectError.None? && env.configSendError.None? && env.ssmlSendError.None?
  }

  /** The error text of the first step that failed. */
  function FirstFailure(env: Session): string
    requires !Connected(env)
  {
    if env.connectError.Some? then env.connectError.value
    else if env.configSendError.Some? then env.configSendError.value
    else env.ssmlSendError.value
  }

  /** The messages handed to the socket, in order. */
  function Sent(trace: seq<Action>): (r: seq<string>)
    ensures |r| <= |trace|
  {
    if |trace| == 0 then []
    else (if trace[0].Send? then [trace[0].message] else []) + Sent(trace[1..])
  }

  /** The read results taken from the socket, in order. */
  function Reads(trace: seq<Action>): (r: seq<Event>)
    ensures |r| <= |trace|
  {
    if |trace| == 0 then []
    else (if trace[0].Read? then [trace[0].event] else []) + Reads(trace[1..])
  }

  function ReadAll(evs: seq<Event>): (r: seq<Action>)
    ensures |r| == |evs| && forall i | 0 <= i < |evs| :: r[i] == Read(evs[i])
  {
    if |evs| == 0 then [] else [Read(evs[0])] + ReadAll(evs[1..])
  }

  /**
   The steps of `request` once its two messages are built: each `?`
   returns the first failure as an error built from its text, and nothing
   after it happens; with both messages sent, the result is the read loop's.
   */
  function Run(config: string, ssml: string, env: Session): (r: Outcome)
    ensures |r.trace| > 0 && r.trace[0] == Connect
    ensures Connected(env) ==> r.result == Decode(env.events).state
    ensures !Connected(env) ==> r.result == Failed(FromMessage(FirstFailure(env)))
  {
    if env.connectError.Some? then
      Outcome([Connect], Failed(FromMessage(env.connectError.value)))
    else if env.configSendError.Some? then
      Outcome([Connect, Send(config)], Failed(FromMessage(env.configSendError.value)))
    else if env.ssmlSendError.Some? then
      Outcome([Connect, Send(config), Send(ssml)], Failed(FromMessage(env.ssmlSendError.value)))
    else
      var d := Decode(env.events);
      Outcome([Connect, Send(config), Send(ssml)] + ReadAll(env.events[..d.consumed]), d.state)
  }

  /** `request`: build the config message and the SSML message, then run. */
  function Request(args: Speech, env: Session): (r: Outcome)
    ensures |r.trace| > 0 && r.trace[0] == Connect
    ensures Connected(env) ==> r.result == Decode(env.events).state
    ensures !Connected(env) ==> r.result == Failed(FromMessage(FirstFailure(env)))
  {
    Run(ConfigMessage(args, env), SsmlMessage(args, env), env)
  }

  // ---------------------------------------------------------------------
  // Properties of a run

  lemma SentOfReads(evs: seq<Event>)
    ensures Sent(ReadAll(evs)) == [] && Reads(ReadAll(evs)) == evs
  {
    if |evs| > 0 {
      assert ReadAll(evs)[1..] == ReadAll(evs[1..]);
      SentOfReads(evs[1..]);
    }
  }

  lemma SentAppend(a: seq<Action>, b: seq<Action>)
    ensures Sent(a + b) == Sent(a) + Sent(b) && Reads(a + b) == Reads(a) + Reads(b)
  {
    if |a| > 0 {
      assert (a + b)[0] == a[0];
      assert (a + b)[1..] == a[1..] + b;
      SentAppend(a[1..], b);
      var s := if a[0].Send? then [a[0].message] else [];
      var e := if a[0].Read? then [a[0].event] else [];
      assert Sent(a + b) == s + (Sent(a[1..]) + Sent(b));
      assert s + (Sent(a[1..]) + Sent(b)) == (s + Sent(a[1..])) + Sent(b);
      assert Reads(a + b) == e + (Reads(a[1..]) + Reads(b));
      assert e + (Reads(a[1..]) + Reads(b)) == (e + Reads(a[1..])) + Reads(b);
    } else {
      assert a + b == b;
    }
  }

  /** What the three handshake-and-send prefixes of a trace send and read. */
  lemma SendPrefixes(config: string, ssml: string)
    ensures Sent([Connect]) == [] && Reads([Connect]) == []
    ensures Sent([Connect, Send(config)]) == [config] && Reads([Connect, Send(config)]) == []
    ensures Sent([Connect, Send(config), Send(ssml)]) == [config, ssml]
    ensures Reads([Connect, Send(config), Send(ssml)]) == []
  {
    var one, two := [Send(ssml)], [Send(config), Send(ssml)];
    assert Sent(one) == [ssml] && Reads(one) == [];
    assert two[1..] == one;
    assert Sent(two) == [config, ssml] && Reads(two) == [];
    assert [Connect, Send(config), Send(ssml)][1..] == two;
    assert [Send(config)][1..] == [];
    assert [Connect, Send(config)][1..] == [Send(config)];
  }

  /**
   The messages go out in the order given, and the socket is read only
   after both went out: a failed handshake sends nothing, a failed first
   send sends nothing more, and no failure reads at all. When everything
   succeeds, the reads are exactly the events the loop consumed, up to and
   including the one that ended it.
   */
  lemma RunSendOrder(config: string, ssml: string, env: Session)
    ensures var r := Run(config, ssml, env);
      && |Sent(r.trace)| <= 2
      && Sent(r.trace) == [config, ssml][..|Sent(r.trace)|]
      && (env.connectError.Some? ==> Sent(r.trace) == [])
      && (env.connectError.None? && env.configSendError.Some? ==> Sent(r.trace) == [config])
      && (!Connected(env) ==> Reads(r.trace) == [])
      && (Connected(env) ==> |Sent(r.trace)| == 2)
      && (Connected(env) ==> Reads(r.trace) == env.events[..Decode(env.events).consumed])
  {
    SendPrefixes(config, ssml);
    if Connected(env) {
      var evs := env.events[..Decode(env.events).consumed];
      SentAppend([Connect, Send(config), Send(ssml)], ReadAll(evs));
      SentOfReads(evs);
    }
  }

  /**
   The config message is sent before the SSML message; a failed handshake
   sends nothing, a failed config send never sends the SSML, no failure
   reads, and a successful run reads exactly the events the loop consumed.
   */
  lemma SendOrder(args: Speech, env: Session)
    ensures var r := Request(args, env);
      && |Sent(r.trace)| <= 2
      && Sent(r.trace) == [ConfigMessage(args, env), SsmlMessage(args, env)][..|Sent(r.trace)|]
      && (env.connectError.Some? ==> Sent(r.trace) == [])
      && (env.connectError.None? && env.configSendError.Some? ==> Sent(r.trace) == [ConfigMessage(args, env)])
      && (!Connected(env) ==> Reads(r.trace) == [])
      && (Connected(env) ==> |Sent(r.trace)| == 2)
      && (Connected(env) ==> Reads(r.trace) == env.events[..Decode(env.events).consumed])
  {
    RunSendOrder(ConfigMessage(args, env), SsmlMessage(args, env), env);
  }

  /**
   A trace is the handshake, then sends, then reads: position `i` is a read
   exactly when the run got through both sends and `i` is past them, and
   the reads are the events in order.
   */
  lemma RunReadsAfterSends(config: string, ssml: string, env: Session)
    ensures var t := Run(config, ssml, env).trace;
      forall i | 0 <= i < |t| ::
        t[i].Read? <==> Connected(env) && 3 <= i && t[i] == Read(env.events[i - 3])
  {
    if Connected(env) {
      SendsThenReads(config, ssml, env.events, Decode(env.events).consumed);
    }
  }

  /** The three steps before the loop, then reads of the first `n` events. */
  lemma SendsThenReads(config: string, ssml: string, events: seq<Event>, n: nat)
    requires n <= |events|
    ensures var t := [Connect, Send(config), Send(ssml)] + ReadAll(events[..n]);
      forall i | 0 <= i < |t| :: t[i].Read? <==> 3 <= i && t[i] == Read(events[i - 3])
  {
    var head, tail := [Connect, Send(config), Send(ssml)], ReadAll(events[..n]);
    var t := head + tail;
    assert forall i | 3 <= i < |t| :: t[i] == tail[i - 3] == Read(events[i - 3]);
  }

  /** Every read comes after every send in the trace. */
  lemma ReadsAfterSends(args: Speech, env: Session)
    ensures var t := Request(args, env).trace;
      forall i, j | 0 <= i < j < |t| :: t[i].Read? ==> t[j].Read?
  {
    RunReadsAfterSends(ConfigMessage(args, env), SsmlMessage(args, env), env);
  }

  /**
   A run returns audio exactly when the handshake and both sends succeed
   and the stream reaches an end-of-turn text with only benign events
   before it; the audio is then the in-order payloads of those events.
   */
  lemma RequestDone(args: Speech, env: Session, audio: seq<byte>)
    ensures Request(args, env).result == Done(audio)
        <==> && Connected(env)
             && exists k | 0 <= k < |env.events| ::
                  && (forall i | 0 <= i < k :: Benign(env.events[i]))
                  && IsTurnEnd(env.events[k])
                  && audio == Payloads(env.events[..k])
  {
    DecodeDone(env.events, audio);
  }

  /**
   Both messages a run sends read back as their header blocks and bodies,
   given a clock and request id without carriage returns.
   */
  lemma SentMessagesParse(args: Speech, env: Session)
    requires '\r' !in env.configTimestamp && '\r' !in env.ssmlTimestamp && '\r' !in env.requestId
    ensures Parse(ConfigMessage(args, env))
         == Some((ConfigHeaders(env.configTimestamp), ConfigHead + args.outputFormat + ConfigTail))
    ensures Parse(SsmlMessage(args, env))
         == Some((SsmlHeaders(env.requestId, env.ssmlTimestamp),
                  SsmlBody(args.lang, args.voice, args.pitch, args.rate, args.volume, args.text)))
  {
    Request1Parses(env.configTimestamp, args.outputFormat);
    Request2Parses(env.requestId, env.ssmlTimestamp, args.lang, args.voice, args.pitch,
                   args.rate, args.volume, args.text);
  }
}
