/**
 The read loop of `request` (src/tts.rs): after both messages are sent,
 the client reads websocket messages until the service marks the end of
 the turn. Binary messages carry audio behind a length-prefixed metadata
 header; a text message holding `Path:turn.end` ends the stream; anything
 else ends it with an error. The loop is modelled as a fold over the
 sequence of read results the socket delivers.
 */
module FrameDecoder {
  import opened Wrappers
  import opened Strings
  import opened Errors

  /** One result of `socket.read()`, reduced to what the loop tells apart. */
  datatype Event =
    | Text(text: string)
    | Binary(frame: seq<byte>)
      /** `Ping`, `Pong`, `Close` or a raw `Frame` message. */
    | Other
      /** `ConnectionClosed` or `AlreadyClosed`. */
    | Closed
      /** Any other read error, by its `to_string()` text. */
    | ReadErr(description: string)

  /**
   Where the loop stands. `Streaming` is still reading with the audio so
   far; `Done` returned the audio; `Failed` returned an error, which
   carries no audio; `Aborted` is the panic of an out-of-range index.
   */
  datatype State =
    | Streaming(audio: seq<byte>)
    | Done(audio: seq<byte>)
    | Failed(err: Error)
    | Aborted

  predicate Terminal(st: State)
  {
    !st.Streaming?
  }

  /** The text that marks the end of the turn. */
  const TurnEnd := "Path:turn.end"
  const UndefinedLogic := "Undefined logic"
  const ConnectionClosed := "Connection closed"

  // ---------------------------------------------------------------------
  // Binary frames: a big-endian u16 metadata length, the metadata, the audio

  /** `u16::from_be_bytes([frame[0], frame[1]])`. */
  function MetadataLength(frame: seq<byte>): (n: nat)
    requires |frame| >= 2
    ensures n < 0x1_0000
    ensures n / 256 == frame[0] as nat && n % 256 == frame[1] as nat
  {
    frame[0] as nat * 256 + frame[1] as nat
  }

  /** Both indexings in the source stay in range: the frame holds its length prefix and its metadata. */
  predicate WellSized(frame: seq<byte>)
  {
    |frame| >= 2 && MetadataLength(frame) + 2 <= |frame|
  }

  /** `frame[len + 2..]`: the audio after the metadata. */
  function Payload(frame: seq<byte>): (p: seq<byte>)
    requires WellSized(frame)
    ensures |p| == |frame| - MetadataLength(frame) - 2
    ensures frame == frame[..MetadataLength(frame) + 2] + p
  {
    frame[MetadataLength(frame) + 2..]
  }

  /**
   `data.append(&mut frame[len + 2..].to_vec())`: the payload goes to the
   end of the buffer and the earlier contents stay as they were. `None`
   when the frame is too short to index, where the source panics.
   */
  function AppendFrame(audio: seq<byte>, frame: seq<byte>): (r: Option<seq<byte>>)
    ensures r.Some? <==> WellSized(frame)
    ensures r.Some? ==> |r.value| == |audio| + |frame| - MetadataLength(frame) - 2
    ensures r.Some? ==> r.value[..|audio|] == audio
    ensures r.Some? ==> r.value[|audio|..] == frame[MetadataLength(frame) + 2..]
  {
    if WellSized(frame) then Some(audio + Payload(frame)) else None
  }

  /** The frame a service sends: the two-byte length, the metadata, the audio. */
  function EncodeFrame(metadata: seq<byte>, payload: seq<byte>): (f: seq<byte>)
    requires |metadata| < 0x1_0000
    ensures |f| == 2 + |metadata| + |payload|
  {
    [(|metadata| / 256) as byte, (|metadata| % 256) as byte] + metadata + payload
  }

  /** Decoding an encoded frame gives back its metadata length and its audio. */
  lemma EncodeFrameRoundTrip(metadata: seq<byte>, payload: seq<byte>)
    requires |metadata| < 0x1_0000
    ensures WellSized(EncodeFrame(metadata, payload))
    ensures MetadataLength(EncodeFrame(metadata, payload)) == |metadata|
    ensures EncodeFrame(metadata, payload)[2..MetadataLength(EncodeFrame(metadata, payload)) + 2] == metadata
    ensures Payload(EncodeFrame(metadata, payload)) == payload
  {
    var f := EncodeFrame(metadata, payload);
    assert f[0] as nat == |metadata| / 256 && f[1] as nat == |metadata| % 256;
    assert f[2..|metadata| + 2] == metadata;
    assert f[|metadata| + 2..] == payload;
  }

  /** Every frame the loop accepts is an encoded frame. */
  lemma WellSizedIsEncoded(frame: seq<byte>)
    requires WellSized(frame)
    ensures frame == EncodeFrame(frame[2..MetadataLength(frame) + 2], Payload(frame))
  {
    var n := MetadataLength(frame);
    var f := EncodeFrame(frame[2..n + 2], Payload(frame));
    assert f[0] == frame[0] && f[1] == frame[1];
    assert f[2..] == frame[2..];
  }

  // ---------------------------------------------------------------------
  // One iteration of the loop

  /** A text frame holding the end-of-turn marker. */
  predicate IsTurnEnd(ev: Event)
  {
    ev.Text? && Contains(ev.text, TurnEnd)
  }

  /** The events after which the loop keeps reading. */
  predicate Benign(ev: Event)
  {
    (ev.Text? && !IsTurnEnd(ev)) || (ev.Binary? && WellSized(ev.frame))
  }

  /** The audio an event contributes: the payload of a well-sized binary frame, else nothing. */
  function PayloadOf(ev: Event): seq<byte>
  {
    if ev.Binary? && WellSized(ev.frame) then Payload(ev.frame) else []
  }

  /** The body of the loop for one read result, given the audio so far. */
  function Step(audio: seq<byte>, ev: Event): (r: State)
    ensures r.Streaming? <==> Benign(ev)
    ensures r.Streaming? ==> r.audio == audio + PayloadOf(ev)
    ensures r.Done? <==> IsTurnEnd(ev)
    ensures r.Done? ==> r.audio == audio
    ensures r.Aborted? <==> ev.Binary? && !WellSized(ev.frame)
    ensures r.Failed? <==> ev.Other? || ev.Closed? || ev.ReadErr?
    ensures ev.Other? ==> r == Failed(FromMessage(UndefinedLogic))
    ensures ev.Closed? ==> r == Failed(FromMessage(ConnectionClosed))
    ensures ev.ReadErr? ==> r == Failed(FromMessage(ev.description))
  {
    match ev
    case Text(s) => if Contains(s, TurnEnd) then Done(audio) else Streaming(audio)
    case Binary(frame) =>
      (match AppendFrame(audio, frame)
       case None => Aborted
       case Some(a) => Streaming(a))
    case Other => Failed(FromMessage(UndefinedLogic))
    case Closed => Failed(FromMessage(ConnectionClosed))
    case ReadErr(d) => Failed(FromMessage(d))
  }

  // ---------------------------------------------------------------------
  // The loop

  /** Where the loop stopped, and how many read results it took. */
  datatype Stop = Stop(state: State, consumed: nat)

  /**
   The loop from a buffer holding `audio`. It reads one event at a time and
   returns at the first terminal state. When the events run out while it is
   still streaming, the real loop would block in `socket.read()`; the model
   reports `Streaming` with the audio so far.
   */
  function Loop(audio: seq<byte>, evs: seq<Event>): (r: Stop)
    ensures r.consumed <= |evs|
    ensures Terminal(r.state) ==> r.consumed > 0
    ensures r.state.Streaming? ==> r.consumed == |evs|
    decreases |evs|
  {
    if |evs| == 0 then Stop(Streaming(audio), 0)
    else
      var st := Step(audio, evs[0]);
      if st.Streaming? then
        var rest := Loop(st.audio, evs[1..]);
        Stop(rest.state, rest.consumed + 1)
      else Stop(st, 1)
  }

  /** The loop as `request` runs it, from an empty buffer. */
  function Decode(evs: seq<Event>): (r: Stop)
    ensures r == Reference([], evs)
  {
    LoopReference([], evs);
    Loop([], evs)
  }

  // ---------------------------------------------------------------------
  // A reference description of the outcome

  /** The index of the first event that ends the loop, or `|evs|` if none does. */
  function FirstStop(evs: seq<Event>): (k: nat)
    ensures k <= |evs|
    ensures forall i | 0 <= i < k :: Benign(evs[i])
    ensures k < |evs| ==> !Benign(evs[k])
  {
    if |evs| == 0 then 0
    else if Benign(evs[0]) then 1 + FirstStop(evs[1..])
    else 0
  }

  /** The in-order concatenation of the payloads of the well-sized binary frames. */
  function Payloads(evs: seq<Event>): seq<byte>
  {
    if |evs| == 0 then [] else PayloadOf(evs[0]) + Payloads(evs[1..])
  }

  lemma PayloadsCons(ev: Event, evs: seq<Event>)
    ensures Payloads([ev] + evs) == PayloadOf(ev) + Payloads(evs)
  {
    assert ([ev] + evs)[1..] == evs;
  }

  /**
   The loop, described without iterating: it reads up to and including the
   first event that is not benign; every benign event before it only adds
   its payload; and the outcome is what that one event does to the audio
   gathered so far.
   */
  function Reference(audio: seq<byte>, evs: seq<Event>): Stop
  {
    var k := FirstStop(evs);
    if k < |evs| then Stop(Step(audio + Payloads(evs[..k]), evs[k]), k + 1)
    else Stop(Streaming(audio + Payloads(evs)), |evs|)
  }

  /** The loop agrees with its reference description on every input. */
  lemma {:induction false} LoopReference(audio: seq<byte>, evs: seq<Event>)
    ensures Loop(audio, evs) == Reference(audio, evs)
    decreases |evs|
  {
    if |evs| == 0 {
      assert evs == [];
    } else if Benign(evs[0]) {
      var a := audio + PayloadOf(evs[0]);
      assert Step(audio, evs[0]) == Streaming(a);
      LoopReference(a, evs[1..]);
      ReferenceBenignHead(audio, evs);
    } else {
      assert evs[..0] == [];
      assert audio + [] == audio;
    }
  }

  /** A benign first event moves the reference description one event along. */
  lemma ReferenceBenignHead(audio: seq<byte>, evs: seq<Event>)
    requires |evs| > 0 && Benign(evs[0])
    ensures var r := Reference(audio + PayloadOf(evs[0]), evs[1..]);
      Reference(audio, evs) == Stop(r.state, r.consumed + 1)
  {
    var a := audio + PayloadOf(evs[0]);
    BenignHead(evs);
    var k := FirstStop(evs);
    if k < |evs| {
      assert evs[1..][k - 1] == evs[k];
      Associative(audio, PayloadOf(evs[0]), Payloads(evs[1..][..k - 1]));
    } else {
      Associative(audio, PayloadOf(evs[0]), Payloads(evs[1..]));
    }
  }

  /** Splitting the first event off a prefix of the events. */
  lemma PayloadsPrefix(evs: seq<Event>, k: nat)
    requires 0 < k <= |evs|
    ensures Payloads(evs[..k]) == PayloadOf(evs[0]) + Payloads(evs[1..][..k - 1])
  {
    assert evs[1..][..k - 1] == evs[1..k];
    assert evs[..k] == [evs[0]] + evs[1..k];
    PayloadsCons(evs[0], evs[1..k]);
  }

  lemma BenignHead(evs: seq<Event>)
    requires |evs| > 0 && Benign(evs[0])
    ensures FirstStop(evs) == FirstStop(evs[1..]) + 1
    ensures Payloads(evs[..FirstStop(evs)]) == PayloadOf(evs[0]) + Payloads(evs[1..][..FirstStop(evs[1..])])
    ensures Payloads(evs) == PayloadOf(evs[0]) + Payloads(evs[1..])
  {
    PayloadsPrefix(evs, FirstStop(evs));
  }

  /**
   The stream succeeds with exactly the in-order payloads of the binary
   frames before the first end-of-turn text, provided every event before
   it was benign; and only then.
   */
  lemma DecodeDone(evs: seq<Event>, audio: seq<byte>)
    ensures Decode(evs).state == Done(audio)
        <==> exists k | 0 <= k < |evs| ::
               && (forall i | 0 <= i < k :: Benign(evs[i]))
               && IsTurnEnd(evs[k])
               && audio == Payloads(evs[..k])
  {
    var k := FirstStop(evs);
    if Decode(evs).state == Done(audio) {
      assert [] + Payloads(evs[..k]) == Payloads(evs[..k]);
      assert IsTurnEnd(evs[k]);
    }
    if exists j | 0 <= j < |evs| ::
         (forall i | 0 <= i < j :: Benign(evs[i])) && IsTurnEnd(evs[j]) && audio == Payloads(evs[..j]) {
      var j :| 0 <= j < |evs| &&
        (forall i | 0 <= i < j :: Benign(evs[i])) && IsTurnEnd(evs[j]) && audio == Payloads(evs[..j]);
      assert !Benign(evs[j]);
      assert j == k;
      assert [] + Payloads(evs[..k]) == Payloads(evs[..k]);
    }
  }

  /**
   The error text of a read result that ends the loop with a failure:
   `Undefined logic` for a frame of another kind, `Connection closed` for a
   closed connection, and the error's own text for any other read error.
   */
  function FailureText(ev: Event): Option<string>
  {
    match ev
    case Other => Some(UndefinedLogic)
    case Closed => Some(ConnectionClosed)
    case ReadErr(d) => Some(d)
    case _ => None
  }

  /**
   The loop fails exactly when the first event that is not benign has a
   failure text; it then stops after reading that event, with an error
   carrying only that text.
   */
  lemma DecodeFailed(evs: seq<Event>)
    ensures Decode(evs).state.Failed?
        <==> FirstStop(evs) < |evs| && FailureText(evs[FirstStop(evs)]).Some?
    ensures Decode(evs).state.Failed? ==>
      var k := FirstStop(evs);
      Decode(evs) == Stop(Failed(FromMessage(FailureText(evs[k]).value)), k + 1)
  {
    var k := FirstStop(evs);
    if k < |evs| {
      StepFailure([] + Payloads(evs[..k]), evs[k]);
    }
  }

  /** One step fails exactly on a result with a failure text, and with that text. */
  lemma StepFailure(audio: seq<byte>, ev: Event)
    ensures Step(audio, ev).Failed? <==> FailureText(ev).Some?
    ensures FailureText(ev).Some? ==> Step(audio, ev) == Failed(FromMessage(FailureText(ev).value))
  {
  }

  /** A binary frame too short for its own length prefix aborts the loop; no audio is taken from it. */
  lemma DecodeAborted(evs: seq<Event>)
    ensures Decode(evs).state.Aborted?
        <==> FirstStop(evs) < |evs| && evs[FirstStop(evs)].Binary? && !WellSized(evs[FirstStop(evs)].frame)
  {
  }

  /**
   The loop never looks past the event that ends it: whatever follows,
   the outcome and the number of reads are the same.
   */
  lemma {:induction false} LoopIgnoresLater(audio: seq<byte>, evs: seq<Event>, more: seq<Event>)
    requires Terminal(Loop(audio, evs).state)
    ensures Loop(audio, evs + more) == Loop(audio, evs)
    decreases |evs|
  {
    assert (evs + more)[0] == evs[0];
    var st := Step(audio, evs[0]);
    if st.Streaming? {
      assert (evs + more)[1..] == evs[1..] + more;
      LoopIgnoresLater(st.audio, evs[1..], more);
    }
  }

  /** A text frame without the marker changes nothing. */
  lemma TextWithoutMarkerIsSkipped(audio: seq<byte>, s: string, evs: seq<Event>)
    requires !Contains(s, TurnEnd)
    ensures Loop(audio, [Text(s)] + evs).state == Loop(audio, evs).state
  {
    assert ([Text(s)] + evs)[1..] == evs;
  }

  // ---------------------------------------------------------------------
  // Examples

  /** A frame with three bytes of metadata and two of audio, then the end of the turn. */
  lemma ExampleStream()
    ensures Decode([Binary([0, 3, 1, 2, 3, 7, 9]), Text(TurnEnd), Other]) == Stop(Done([7, 9]), 2)
  {
    var frame: seq<byte> := [0, 3, 1, 2, 3, 7, 9];
    var evs := [Binary(frame), Text(TurnEnd), Other];
    ContainsSelf(TurnEnd);
    assert MetadataLength(frame) == 3;
    assert frame[5..] == [7, 9];
    assert Step([], evs[0]) == Streaming([7, 9]);
    assert evs[1..] == [Text(TurnEnd), Other];
    assert Step([7, 9], evs[1]) == Done([7, 9]);
    assert Loop([7, 9], evs[1..]) == Stop(Done([7, 9]), 1);
    assert Loop([], evs) == Stop(Done([7, 9]), 2);
  }

  /** Two frames without metadata carrying `AB` and `CD`, then the end of the turn: the audio is `ABCD`. */
  lemma ExampleTwoFrames()
    ensures Decode([Binary([0, 0, 65, 66]), Binary([0, 0, 67, 68]), Text(TurnEnd)]).state == Done([65, 66, 67, 68])
  {
    var f1: seq<byte>, f2: seq<byte> := [0, 0, 65, 66], [0, 0, 67, 68];
    var evs := [Binary(f1), Binary(f2), Text(TurnEnd)];
    ContainsSelf(TurnEnd);
    assert f1[2..] == [65, 66] && f2[2..] == [67, 68];
    assert Step([], evs[0]) == Streaming([65, 66]);
    assert Step([65, 66], evs[1]) == Streaming([65, 66, 67, 68]);
    assert evs[1..] == [Binary(f2), Text(TurnEnd)] && evs[1..][1..] == [Text(TurnEnd)];
    assert Loop([65, 66, 67, 68], evs[1..][1..]) == Stop(Done([65, 66, 67, 68]), 1);
    assert Loop([65, 66], evs[1..]) == Stop(Done([65, 66, 67, 68]), 2);
  }

  /** A one-byte binary frame is not audio: the source's indexing panics. */
  lemma ExampleShortFrame(audio: seq<byte>, b: byte)
    ensures Loop(audio, [Binary([b])]) == Stop(Aborted, 1)
  {
  }
}
