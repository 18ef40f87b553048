/** The session over bytes: the messages of `Protocol` encoded, framed, cut into arbitrary pieces on the way, taken off
    and decoded by the other party. Every run of it is a run of `Protocol`, with the same outcome. */
module Session {
  import opened Wrappers
  import opened Arith
  import opened Curve
  import opened Octets
  import opened Scalars
  import opened Secp256k1
  import opened Messages
  import opened ProtoCodec
  import opened PointCodec
  import opened Frames
  import opened Transfer
  import opened Wire
  import P = Protocol

  /** One direction: bytes that have arrived and are not yet taken, and bytes on the way. */
  datatype Pipe = Pipe(arrived: seq<uint8>, flying: seq<uint8>)

  /** The two parties (whose own channels stay empty), the two directions, and the settings once the server has them. */
  datatype Wired = Wired(parties: P.State, toBob: Pipe, toAlice: Pipe, settings: Option<bool>)

  /** A session with 256 rounds or fewer, over a field in which the programs take roots. */
  ghost predicate ValidSession(f: P.Config) {
    P.ValidConfig(f) && Rootable(f.setup.c)
  }

  function Alone(s: P.State): P.State {
    s.(toBob := [], toAlice := [])
  }

  // ---- the steps -------------------------------------------------------------------------------

  /** The type a party decodes the next body as; none while it does not read. */
  function AliceAwaits(rounds: nat, s: P.State): Option<MessageType> {
    if s.alice.Some? then Some(OTResponse) else if |s.uis| == rounds && s.u.None? then Some(MTAShare) else None
  }

  function BobAwaits(rounds: nat, s: P.State): Option<MessageType> {
    if s.bob.Some? then Some(OTEncrypted) else if |s.mcs| < rounds then Some(OTInit) else None
  }

  ghost predicate AliceReads(f: P.Config, s: P.State, t: P.State)
    requires P.ValidConfig(f)
  {
    P.AliceAnswers(f, s, t) || P.AliceFinishes(f, s, t)
  }

  ghost predicate BobReads(f: P.Config, s: P.State, t: P.State)
    requires P.ValidConfig(f)
  {
    (exists b :: P.BobAnswers(f, s, b, t)) || P.BobDecrypts(s, t)
  }

  ghost predicate AliceOpens(f: P.Config, s: P.State, t: P.State)
    requires P.ValidConfig(f)
  {
    exists m0, a :: P.AliceOpens(f, s, m0, a, t)
  }

  /** Messages are written behind what is on the way. */
  ghost predicate Sent(c: Params, ms: seq<P.Message>, p: Pipe, p': Pipe) {
    exists bodies :: BodiesOf(c, ms, bodies) && p' == p.(flying := p.flying + Stream(bodies))
  }

  /** The parties after a step, and what they wrote. */
  ghost predicate Wrote(c: Params, w: Wired, t: P.State, w': Wired) {
    && w'.parties == Alone(t) && w'.settings == w.settings
    && Sent(c, t.toBob, w.toBob, w'.toBob) && Sent(c, t.toAlice, w.toAlice, w'.toAlice)
  }

  function Failed(w: Wired): Wired {
    w.(parties := w.parties.(failed := true))
  }

  ghost predicate Settles(c: Params, w: Wired, t: P.State, w': Wired) {
    if t.failed then w' == Failed(w) else Wrote(c, w, t, w')
  }

  /** Bytes arrive, any number at a time. */
  ghost predicate Moves(p: Pipe, n: nat, p': Pipe) {
    0 < n <= |p.flying| && p' == Pipe(p.arrived + p.flying[..n], p.flying[n..])
  }

  ghost predicate Delivers(w: Wired, n: nat, w': Wired) {
    || (Moves(w.toBob, n, w'.toBob) && w' == w.(toBob := w'.toBob))
    || (Moves(w.toAlice, n, w'.toAlice) && w' == w.(toAlice := w'.toAlice))
  }

  /** The client takes a frame off, decodes it as the type it awaits, and acts on it. */
  ghost predicate AliceTakes(f: P.Config, w: Wired, w': Wired)
    requires P.ValidConfig(f)
  {
    && !w.parties.failed && AliceAwaits(f.rounds, w.parties).Some? && TakeFrame(w.toAlice.arrived).Some?
    && var (body, rest) := TakeFrame(w.toAlice.arrived).value;
       var left := w.(toAlice := w.toAlice.(arrived := rest));
       match Received(f.setup.c, AliceAwaits(f.rounds, w.parties).value, body)
       case None => w' == Failed(left)
       case Some(m) => exists t :: AliceReads(f, w.parties.(toAlice := [m]), t) && Settles(f.setup.c, left, t, w')
  }

  /** The server likewise, once it has the settings. */
  ghost predicate BobTakes(f: P.Config, w: Wired, w': Wired)
    requires P.ValidConfig(f)
  {
    && !w.parties.failed && w.settings.Some?
    && BobAwaits(f.rounds, w.parties).Some? && TakeFrame(w.toBob.arrived).Some?
    && var (body, rest) := TakeFrame(w.toBob.arrived).value;
       var left := w.(toBob := w.toBob.(arrived := rest));
       match Received(f.setup.c, BobAwaits(f.rounds, w.parties).value, body)
       case None => w' == Failed(left)
       case Some(m) => exists t :: BobReads(f, w.parties.(toBob := [m]), t) && Settles(f.setup.c, left, t, w')
  }

  /** The server reads the settings first of all. */
  ghost predicate BobConfigures(w: Wired, w': Wired) {
    && !w.parties.failed && w.settings.None? && TakeFrame(w.toBob.arrived).Some?
    && var (body, rest) := TakeFrame(w.toBob.arrived).value;
       var left := w.(toBob := w.toBob.(arrived := rest));
       match DecodeMessage(SpecsOf(SessionConfig), body)
       case None => w' == Failed(left)
       case Some(v) => w' == left.(settings := Some(v[0].b))
  }

  ghost predicate AliceStarts(f: P.Config, w: Wired, w': Wired)
    requires P.ValidConfig(f)
  {
    exists t :: AliceOpens(f, w.parties, t) && Wrote(f.setup.c, w, t, w')
  }

  ghost predicate BobEnds(f: P.Config, w: Wired, w': Wired)
    requires P.ValidConfig(f)
  {
    w.settings.Some? && exists t :: P.BobFinishes(f, w.parties, t) && Wrote(f.setup.c, w, t, w')
  }

  ghost predicate Next(f: P.Config, w: Wired, w': Wired)
    requires P.ValidConfig(f)
  {
    || (exists n :: Delivers(w, n, w')) || BobConfigures(w, w')
    || AliceStarts(f, w, w') || AliceTakes(f, w, w') || BobTakes(f, w, w') || BobEnds(f, w, w')
  }

  ghost predicate SettingsBody(debug: bool, body: seq<uint8>) {
    Carries(SessionConfig, [Flag(debug)], body)
  }

  /** The client has connected and sent its settings. */
  ghost predicate Begins(debug: bool, w: Wired) {
    && w.parties == P.Start() && w.settings.None? && w.toAlice == Pipe([], []) && w.toBob.arrived == []
    && exists body :: SettingsBody(debug, body) && w.toBob.flying == Frame(body)
  }

  ghost predicate Run(f: P.Config, debug: bool, run: seq<Wired>)
    requires P.ValidConfig(f)
  {
    |run| > 0 && Begins(debug, run[0]) && forall i :: 0 <= i < |run| - 1 ==> Next(f, run[i], run[i + 1])
  }

  // ---- bytes and messages ------------------------------------------------------------------------

  /** The bytes of a direction are the frames of `front` and of the messages. */
  ghost predicate Holds(c: Params, p: Pipe, front: seq<seq<uint8>>, ms: seq<P.Message>) {
    exists bodies :: BodiesOf(c, ms, bodies) && p.arrived + p.flying == Stream(front + bodies)
  }

  lemma {:induction false} StreamConcat(a: seq<seq<uint8>>, b: seq<seq<uint8>>)
    ensures Stream(a + b) == Stream(a) + Stream(b)
  {
    hide Frame;
    if |a| == 0 {
      assert a + b == b && Stream(a) + Stream(b) == Stream(b);
    } else {
      assert (a + b)[1..] == a[1..] + b;
      StreamConcat(a[1..], b);
      assert Frame(a[0]) + (Stream(a[1..]) + Stream(b)) == Stream(a) + Stream(b);
    }
  }

  lemma JoinedBodies(c: Params, ms: seq<P.Message>, ns: seq<P.Message>, a: seq<seq<uint8>>, b: seq<seq<uint8>>)
    requires BodiesOf(c, ms, a) && BodiesOf(c, ns, b)
    ensures BodiesOf(c, ms + ns, a + b)
  {
    hide IsBody;
  }

  lemma SentHolds(c: Params, p: Pipe, front: seq<seq<uint8>>, ms: seq<P.Message>, ns: seq<P.Message>, p': Pipe)
    requires Holds(c, p, front, ms) && Sent(c, ns, p, p')
    ensures Holds(c, p', front, ms + ns)
  {
    hide BodiesOf, Stream;
    var a :| BodiesOf(c, ms, a) && p.arrived + p.flying == Stream(front + a);
    var b :| BodiesOf(c, ns, b) && p' == p.(flying := p.flying + Stream(b));
    JoinedBodies(c, ms, ns, a, b);
    StreamConcat(front + a, b);
    assert front + (a + b) == (front + a) + b;
    assert p'.arrived + p'.flying == (p.arrived + p.flying) + Stream(b);
  }

  lemma MovedHolds(c: Params, p: Pipe, n: nat, front: seq<seq<uint8>>, ms: seq<P.Message>, p': Pipe)
    requires Holds(c, p, front, ms) && Moves(p, n, p')
    ensures Holds(c, p', front, ms) && |p'.flying| < |p.flying|
  {
    hide BodiesOf, Stream;
    var a :| BodiesOf(c, ms, a) && p.arrived + p.flying == Stream(front + a);
    assert p'.arrived + p'.flying == p.arrived + p.flying;
  }

  /** What follows a complete frame does not matter. */
  lemma TakenWhole(s: seq<uint8>, t: seq<uint8>)
    requires TakeFrame(s).Some?
    ensures TakeFrame(s + t) == Some((TakeFrame(s).value.0, TakeFrame(s).value.1 + t))
  {
    hide IntOf;
    assert (s + t)[..4] == s[..4];
    var end := 4 + IntOf(s[..4]);
    assert (s + t)[4..end] == s[4..end] && (s + t)[end..] == s[end..] + t;
  }

  /** A frame that has arrived is the first of the direction. */
  lemma FirstFrame(p: Pipe, bodies: seq<seq<uint8>>)
    requires AllSendable(bodies) && p.arrived + p.flying == Stream(bodies) && TakeFrame(p.arrived).Some?
    ensures var (body, rest) := TakeFrame(p.arrived).value;
      |bodies| > 0 && body == bodies[0] && rest + p.flying == Stream(bodies[1..])
  {
    TakenWhole(p.arrived, p.flying);
    assert |p.arrived + p.flying| > 0;
    hide TakeFrame, Stream;
    var first := FirstBody(bodies);
    TakesInOrder(bodies);
  }

  /** All that was sent has arrived: the first frame can be taken. */
  lemma FrameThere(p: Pipe, bodies: seq<seq<uint8>>)
    requires AllSendable(bodies) && p.arrived == Stream(bodies) && |bodies| > 0
    ensures TakeFrame(p.arrived) == Some((bodies[0], Stream(bodies[1..])))
  {
    hide TakeFrame, Stream;
    TakesInOrder(bodies);
  }

  /** What is taken off decodes to the first message. */
  lemma TakenHolds(c: Params, p: Pipe, ms: seq<P.Message>)
    requires Rootable(c) && Holds(c, p, [], ms) && TakeFrame(p.arrived).Some?
    ensures var (body, rest) := TakeFrame(p.arrived).value;
      && |ms| > 0 && Received(c, TypeOf(ms[0]), body) == Some(ms[0])
      && Holds(c, p.(arrived := rest), [], ms[1..])
  {
    hide Stream, TakeFrame, Received, IsBody;
    var bodies :| BodiesOf(c, ms, bodies) && p.arrived + p.flying == Stream([] + bodies);
    assert [] + bodies == bodies;
    AllArrive(c, ms, bodies);
    FirstFrame(p, bodies);
    assert BodiesOf(c, ms[1..], bodies[1..]);
    assert [] + bodies[1..] == bodies[1..];
  }

  /** Messages that can travel can be sent. */
  lemma CanSend(c: Params, ms: seq<P.Message>, p: Pipe) returns (p': Pipe)
    requires forall k :: 0 <= k < |ms| ==> CanTravel(c, ms[k])
    ensures Sent(c, ms, p, p')
  {
    hide CanTravel, IsBody, BodyOf, Stream;
    var bodies := OwnBodies(c, ms);
    p' := p.(flying := p.flying + Stream(bodies));
  }

  lemma OwnFirst(c: Params, m: P.Message) returns (body: seq<uint8>)
    requires CanTravel(c, m)
    ensures IsBody(c, m, body)
  {
    hide IsBody, EncodeMessage;
    var nonce: Bytes12 := seq(12, _ => 0);
    OwnBody(c, m, nonce);
    body := BodyOf(m, nonce);
  }

  lemma {:induction false} OwnBodies(c: Params, ms: seq<P.Message>) returns (bodies: seq<seq<uint8>>)
    requires forall k :: 0 <= k < |ms| ==> CanTravel(c, ms[k])
    ensures BodiesOf(c, ms, bodies)
  {
    hide IsBody, CanTravel;
    if |ms| == 0 { return []; }
    var first := OwnFirst(c, ms[0]);
    var rest := OwnBodies(c, ms[1..]);
    bodies := [first] + rest;
    JoinedBodies(c, [ms[0]], ms[1..], [first], rest);
    assert [ms[0]] + ms[1..] == ms;
  }

  // ---- every step is one of the protocol ---------------------------------------------------------

  /** The settings are still on the way, or known. */
  ghost predicate Front(debug: bool, settings: Option<bool>, front: seq<seq<uint8>>) {
    if settings.Some? then front == [] && settings.value == debug else |front| == 1 && SettingsBody(debug, front[0])
  }

  ghost predicate HoldsBehind(c: Params, p: Pipe, debug: bool, settings: Option<bool>, ms: seq<P.Message>) {
    exists front :: Front(debug, settings, front) && Holds(c, p, front, ms)
  }

  /** The bytes say what the channels of the protocol hold. */
  ghost predicate Tied(f: P.Config, debug: bool, w: Wired, s: P.State) {
    && w.parties == Alone(s)
    && (w.settings.None? ==> s.bob.None? && s.v.None?) && (w.settings.Some? ==> w.settings.value == debug)
    && (!s.failed ==>
          Holds(f.setup.c, w.toAlice, [], s.toAlice) && HoldsBehind(f.setup.c, w.toBob, debug, w.settings, s.toBob))
  }

  /** The message in front is of the type that is awaited. */
  lemma HeadAwaited(f: P.Config, s: P.State)
    requires P.ValidConfig(f) && P.Invariant(f, s) && !s.failed
    ensures |s.toAlice| > 0 && AliceAwaits(f.rounds, s).Some? ==> TypeOf(s.toAlice[0]) == AliceAwaits(f.rounds, s).value
    ensures |s.toBob| > 0 && BobAwaits(f.rounds, s).Some? ==> TypeOf(s.toBob[0]) == BobAwaits(f.rounds, s).value
  {
  }

  /** A step of a party alone with the message in front of it, as a step of the whole. */
  function Joined(s: P.State, t: P.State, takenByBob: nat, takenByAlice: nat): P.State
    requires takenByBob <= |s.toBob| && takenByAlice <= |s.toAlice|
  {
    if t.failed then s.(failed := true)
    else t.(toBob := s.toBob[takenByBob..] + t.toBob, toAlice := s.toAlice[takenByAlice..] + t.toAlice)
  }

  lemma AliceReadsJoined(f: P.Config, s: P.State, t: P.State)
    requires P.ValidConfig(f) && |s.toAlice| > 0
    requires AliceReads(f, Alone(s).(toAlice := [s.toAlice[0]]), t)
    ensures AliceReads(f, s, Joined(s, t, 0, 1)) && t.bob == s.bob && t.v == s.v
    ensures !t.failed ==> |t.toBob| + |t.toAlice| <= 1
  {
    hide OnCurve, ProcessResponse;
    assert s.toBob[0..] == s.toBob;
    assert s.toAlice[1..] + [] == s.toAlice[1..] && [s.toAlice[0]][1..] == [];
    assert s.toBob + [] == s.toBob;
  }

  lemma BobReadsJoined(f: P.Config, s: P.State, t: P.State)
    requires P.ValidConfig(f) && |s.toBob| > 0
    requires BobReads(f, Alone(s).(toBob := [s.toBob[0]]), t)
    ensures BobReads(f, s, Joined(s, t, 1, 0))
    ensures !t.failed ==> |t.toBob| + |t.toAlice| <= 1
  {
    hide OnCurve, BobKey, BobReply, GetBit, Decrypt;
    var s0, s' := Alone(s).(toBob := [s.toBob[0]]), Joined(s, t, 1, 0);
    assert s.toAlice[0..] == s.toAlice;
    assert s.toBob[1..] + [] == s.toBob[1..] && [s.toBob[0]][1..] == [];
    assert s.toAlice + [] == s.toAlice;
    if b :| P.BobAnswers(f, s0, b, t) {
      assert P.BobAnswers(f, s, b, s');
    }
  }

  lemma AliceOpensJoined(f: P.Config, s: P.State, t: P.State)
    requires P.ValidConfig(f) && AliceOpens(f, Alone(s), t)
    ensures AliceOpens(f, s, Joined(s, t, 0, 0)) && t.bob == s.bob && t.v == s.v && !t.failed
    ensures |t.toBob| + |t.toAlice| <= 1
  {
    var m0, a :| P.AliceOpens(f, Alone(s), m0, a, t);
    assert s.toBob[0..] == s.toBob && s.toAlice[0..] + [] == s.toAlice;
    assert P.AliceOpens(f, s, m0, a, Joined(s, t, 0, 0));
  }

  lemma BobFinishesJoined(f: P.Config, s: P.State, t: P.State)
    requires P.ValidConfig(f) && P.BobFinishes(f, Alone(s), t)
    ensures P.BobFinishes(f, s, Joined(s, t, 0, 0)) && !t.failed
    ensures |t.toBob| + |t.toAlice| <= 1
  {
    assert s.toAlice[0..] == s.toAlice && s.toBob[0..] + [] == s.toBob;
  }

  lemma NextIs(f: P.Config, s: P.State, s': P.State)
    requires P.ValidConfig(f)
    ensures P.Next(f, s, s') <==>
      AliceOpens(f, s, s') || AliceReads(f, s, s') || BobReads(f, s, s') || P.BobFinishes(f, s, s')
  {}

  // ---- sizes -------------------------------------------------------------------------------------

  function InTransit(w: Wired): nat {
    |w.toBob.flying| + |w.toAlice.flying|
  }

  /** No frame is longer than its header and what the header can say. */
  const FRAME: nat := WORD + 3

  lemma SentLength(c: Params, ms: seq<P.Message>, p: Pipe, p': Pipe)
    requires Rootable(c) && |ms| <= 1 && Sent(c, ms, p, p')
    ensures |p'.flying| <= |p.flying| + |ms| * FRAME
  {
    hide IsBody, Received;
    var bodies :| BodiesOf(c, ms, bodies) && p' == p.(flying := p.flying + Stream(bodies));
    AllArrive(c, ms, bodies);
    if |ms| == 1 {
      FrameLength(bodies[0]);
      assert bodies == [] + [bodies[0]];
      StreamSnoc([], bodies[0]);
    }
  }

  lemma WroteLength(c: Params, w: Wired, t: P.State, w': Wired)
    requires Rootable(c) && Wrote(c, w, t, w') && |t.toBob| + |t.toAlice| <= 1
    ensures InTransit(w') <= InTransit(w) + FRAME
  {
    hide Sent;
    SentLength(c, t.toBob, w.toBob, w'.toBob);
    SentLength(c, t.toAlice, w.toAlice, w'.toAlice);
  }

  // ---- refinement --------------------------------------------------------------------------------

  /** What a party writes after taking its message keeps bytes and channels tied. */
  lemma WroteTied(f: P.Config, debug: bool, w: Wired, s: P.State, t: P.State, takenByBob: nat, takenByAlice: nat,
                  w': Wired)
    requires takenByBob <= |s.toBob| && takenByAlice <= |s.toAlice| && !t.failed
    requires w.settings.None? ==> t.bob.None? && t.v.None?
    requires w.settings.Some? ==> w.settings.value == debug
    requires Holds(f.setup.c, w.toAlice, [], s.toAlice[takenByAlice..])
    requires HoldsBehind(f.setup.c, w.toBob, debug, w.settings, s.toBob[takenByBob..])
    requires Wrote(f.setup.c, w, t, w')
    ensures Tied(f, debug, w', Joined(s, t, takenByBob, takenByAlice))
  {
    hide Holds, Front, Sent;
    var c := f.setup.c;
    SentHolds(c, w.toAlice, [], s.toAlice[takenByAlice..], t.toAlice, w'.toAlice);
    var front :| Front(debug, w.settings, front) && Holds(c, w.toBob, front, s.toBob[takenByBob..]);
    SentHolds(c, w.toBob, front, s.toBob[takenByBob..], t.toBob, w'.toBob);
  }

  /** The client's step on a frame is its step on the message. */
  lemma AliceTakesMatched(f: P.Config, debug: bool, w: Wired, s: P.State, w': Wired) returns (s': P.State)
    requires ValidSession(f) && P.Invariant(f, s) && Tied(f, debug, w, s) && AliceTakes(f, w, w')
    ensures P.Next(f, s, s') && Tied(f, debug, w', s')
    ensures InTransit(w') <= InTransit(w) + FRAME && w'.settings == w.settings
  {
    hide P.Invariant, Received, Holds, Sent, TakeFrame, HoldsBehind, AliceReads, Rootable, P.ValidConfig, P.Next;
    var c := f.setup.c;
    TakenHolds(c, w.toAlice, s.toAlice);
    HeadAwaited(f, s);
    var (body, rest) := TakeFrame(w.toAlice.arrived).value;
    var left := w.(toAlice := w.toAlice.(arrived := rest));
    var t :| AliceReads(f, w.parties.(toAlice := [s.toAlice[0]]), t) && Settles(c, left, t, w');
    AliceReadsJoined(f, s, t);
    s' := Joined(s, t, 0, 1);
    NextIs(f, s, s');
    if !t.failed {
      assert s.toBob[0..] == s.toBob;
      WroteTied(f, debug, left, s, t, 0, 1, w');
      WroteLength(c, left, t, w');
    }
  }

  /** The server's step on a frame is its step on the message. */
  lemma BobTakesMatched(f: P.Config, debug: bool, w: Wired, s: P.State, w': Wired) returns (s': P.State)
    requires ValidSession(f) && P.Invariant(f, s) && Tied(f, debug, w, s) && BobTakes(f, w, w')
    ensures P.Next(f, s, s') && Tied(f, debug, w', s')
    ensures InTransit(w') <= InTransit(w) + FRAME && w'.settings == w.settings
  {
    hide P.Invariant, Received, Holds, Sent, TakeFrame, BobReads, Rootable, P.ValidConfig, P.Next;
    var c := f.setup.c;
    TakenHolds(c, w.toBob, s.toBob);
    HeadAwaited(f, s);
    var (body, rest) := TakeFrame(w.toBob.arrived).value;
    var left := w.(toBob := w.toBob.(arrived := rest));
    var t :| BobReads(f, w.parties.(toBob := [s.toBob[0]]), t) && Settles(c, left, t, w');
    BobReadsJoined(f, s, t);
    s' := Joined(s, t, 1, 0);
    NextIs(f, s, s');
    if !t.failed {
      assert s.toAlice[0..] == s.toAlice;
      WroteTied(f, debug, left, s, t, 1, 0, w');
      WroteLength(c, left, t, w');
    }
  }

  lemma AliceStartsMatched(f: P.Config, debug: bool, w: Wired, s: P.State, w': Wired) returns (s': P.State)
    requires ValidSession(f) && Tied(f, debug, w, s) && AliceStarts(f, w, w')
    ensures P.Next(f, s, s') && Tied(f, debug, w', s')
    ensures InTransit(w') <= InTransit(w) + FRAME && w'.settings == w.settings
  {
    hide Holds, Sent, HoldsBehind, Rootable, P.ValidConfig, P.Next;
    var c := f.setup.c;
    var t :| AliceOpens(f, w.parties, t) && Wrote(c, w, t, w');
    AliceOpensJoined(f, s, t);
    s' := Joined(s, t, 0, 0);
    NextIs(f, s, s');
    assert s.toBob[0..] == s.toBob && s.toAlice[0..] == s.toAlice;
    WroteTied(f, debug, w, s, t, 0, 0, w');
    WroteLength(c, w, t, w');
  }

  lemma BobEndsMatched(f: P.Config, debug: bool, w: Wired, s: P.State, w': Wired) returns (s': P.State)
    requires ValidSession(f) && Tied(f, debug, w, s) && BobEnds(f, w, w')
    ensures P.Next(f, s, s') && Tied(f, debug, w', s')
    ensures InTransit(w') <= InTransit(w) + FRAME && w'.settings == w.settings
  {
    hide Holds, Sent, HoldsBehind, Rootable, P.ValidConfig, P.Next;
    var c := f.setup.c;
    var t :| P.BobFinishes(f, w.parties, t) && Wrote(c, w, t, w');
    BobFinishesJoined(f, s, t);
    s' := Joined(s, t, 0, 0);
    NextIs(f, s, s');
    assert s.toBob[0..] == s.toBob && s.toAlice[0..] == s.toAlice;
    WroteTied(f, debug, w, s, t, 0, 0, w');
    WroteLength(c, w, t, w');
  }

  /** Reading the settings is no step of the protocol, and never fails. */
  lemma BobConfiguresMatched(f: P.Config, debug: bool, w: Wired, s: P.State, w': Wired)
    requires ValidSession(f) && Tied(f, debug, w, s) && BobConfigures(w, w')
    ensures Tied(f, debug, w', s) && InTransit(w') == InTransit(w) && w'.settings == Some(debug)
  {
    hide BodiesOf, TakeFrame, Stream, DecodeMessage, Carries, Rootable, P.ValidConfig;
    var c := f.setup.c;
    var front :| Front(debug, w.settings, front) && Holds(c, w.toBob, front, s.toBob);
    var bodies :| BodiesOf(c, s.toBob, bodies) && w.toBob.arrived + w.toBob.flying == Stream(front + bodies);
    FrontSendable(c, debug, front, s.toBob, bodies);
    FirstFrame(w.toBob, front + bodies);
    CarriedDecodes(SessionConfig, [Flag(debug)], front[0]);
    assert (front + bodies)[1..] == [] + bodies;
    assert Front(debug, w'.settings, []) && Holds(c, w'.toBob, [], s.toBob);
  }

  lemma FrontSendable(c: Params, debug: bool, front: seq<seq<uint8>>, ms: seq<P.Message>, bodies: seq<seq<uint8>>)
    requires Rootable(c) && |front| == 1 && SettingsBody(debug, front[0]) && BodiesOf(c, ms, bodies)
    ensures AllSendable(front + bodies)
  {
    hide BodiesOf, Received;
    AllArrive(c, ms, bodies);
  }

  lemma DeliversMatched(f: P.Config, debug: bool, w: Wired, s: P.State, n: nat, w': Wired)
    requires Tied(f, debug, w, s) && Delivers(w, n, w')
    ensures Tied(f, debug, w', s) && InTransit(w') < InTransit(w) && w'.settings == w.settings
  {
    hide Holds, Front;
    var c := f.setup.c;
    if s.failed { return; }
    var front :| Front(debug, w.settings, front) && Holds(c, w.toBob, front, s.toBob);
    if Moves(w.toBob, n, w'.toBob) && w' == w.(toBob := w'.toBob) {
      MovedHolds(c, w.toBob, n, front, s.toBob, w'.toBob);
    } else {
      MovedHolds(c, w.toAlice, n, [], s.toAlice, w'.toAlice);
    }
  }

  /** What is still to happen: steps of the protocol, bytes to arrive, and the settings to read. */
  function Remaining(rounds: nat, w: Wired, s: P.State): int {
    (FRAME + 1) * (4 * rounds + 5 - P.Taken(s)) + InTransit(w) + if w.settings.None? then 1 else 0
  }

  lemma LessRemains(rounds: nat, w: Wired, s: P.State, w': Wired, s': P.State)
    requires P.Taken(s') == P.Taken(s) + 1 && InTransit(w') <= InTransit(w) + FRAME && w'.settings == w.settings
    ensures Remaining(rounds, w', s') < Remaining(rounds, w, s)
  {
    hide P.Taken, InTransit;
  }

  /** Every step over bytes is a step of the protocol, or none, and brings the end nearer. */
  lemma NextMatched(f: P.Config, debug: bool, w: Wired, s: P.State, w': Wired) returns (s': P.State)
    requires ValidSession(f) && P.Invariant(f, s) && Tied(f, debug, w, s) && Next(f, w, w')
    ensures (s' == s || P.Next(f, s, s')) && Tied(f, debug, w', s')
    ensures Remaining(f.rounds, w', s') < Remaining(f.rounds, w, s)
  {
    hide Tied, P.Invariant, P.Next, Rootable, P.ValidConfig, InTransit;
    if n :| Delivers(w, n, w') {
      DeliversMatched(f, debug, w, s, n, w');
      return s;
    }
    if BobConfigures(w, w') {
      BobConfiguresMatched(f, debug, w, s, w');
      return s;
    }
    if AliceStarts(f, w, w') {
      s' := AliceStartsMatched(f, debug, w, s, w');
    } else if AliceTakes(f, w, w') {
      s' := AliceTakesMatched(f, debug, w, s, w');
    } else if BobTakes(f, w, w') {
      s' := BobTakesMatched(f, debug, w, s, w');
    } else {
      s' := BobEndsMatched(f, debug, w, s, w');
    }
    P.NextTaken(f, s, s');
    LessRemains(f.rounds, w, s, w', s');
  }

  lemma BeginsTied(f: P.Config, debug: bool, w: Wired)
    requires Begins(debug, w)
    ensures Tied(f, debug, w, P.Start())
  {
    hide SettingsBody;
    var body :| SettingsBody(debug, body) && w.toBob.flying == Frame(body);
    var c := f.setup.c;
    assert BodiesOf(c, [], []);
    StreamSnoc([], body);
    assert [] + [body] == [body] && [body] + [] == [body] && [] + Frame(body) == Frame(body);
    assert Holds(c, w.toBob, [body], []) && Front(debug, w.settings, [body]);
    assert w.toAlice.arrived + w.toAlice.flying == Stream([] + []);
  }

  /** Every run over bytes is a run of the protocol, in which only the protocol's own steps count. */
  lemma {:induction false} Refines(f: P.Config, debug: bool, run: seq<Wired>) returns (model: seq<P.State>)
    requires ValidSession(f) && Run(f, debug, run)
    ensures P.Run(f, model) && |model| > 0 && Tied(f, debug, run[|run| - 1], model[|model| - 1])
    ensures |run| - 1
      <= Remaining(f.rounds, run[0], P.Start()) - Remaining(f.rounds, run[|run| - 1], model[|model| - 1])
  {
    hide Tied, P.Next, Remaining, Next, Rootable, Begins, P.ValidConfig;
    var n := |run| - 1;
    if n == 0 {
      BeginsTied(f, debug, run[0]);
      return [P.Start()];
    }
    assert Next(f, run[n - 1], run[n - 1 + 1]);
    model := Refines(f, debug, run[..n]);
    P.RunKeeps(f, model);
    var s' := NextMatched(f, debug, run[n - 1], model[|model| - 1], run[n]);
    if s' != model[|model| - 1] {
      model := model + [s'];
    }
  }

  /** A session that completes leaves shares of the product with the two parties, and the server has the settings. */
  lemma SessionCorrect(f: P.Config, debug: bool, run: seq<Wired>)
    requires ValidSession(f) && Run(f, debug, run) && run[|run| - 1].parties.u.Some?
    ensures var w := run[|run| - 1];
      && w.parties.v.Some? && w.settings == Some(debug)
      && IntOf(w.parties.u.value) < ORDER && IntOf(w.parties.v.value) < ORDER
      && Cong(IntOf(w.parties.u.value) + IntOf(w.parties.v.value), IntOf(f.x) * IntOf(f.y), ORDER)
  {
    hide Cong, IntOf, Holds, Front, P.Run, Run;
    var model := Refines(f, debug, run);
    P.CompletedRunCorrect(f, model);
  }

  /** A session fails exactly if the last step of the protocol in it read a colliding point. */
  lemma SessionFails(f: P.Config, debug: bool, run: seq<Wired>) returns (model: seq<P.State>)
    requires ValidSession(f) && Run(f, debug, run)
    ensures P.Run(f, model) && Tied(f, debug, run[|run| - 1], model[|model| - 1])
    ensures var n := |model| - 1;
      run[|run| - 1].parties.failed <==> n > 0 && P.CollisionStep(f, model[n - 1], model[n])
  {
    hide P.CollisionStep, Run, P.Next;
    model := Refines(f, debug, run);
    P.FailedByCollision(f, model);
  }

  lemma SomethingRemains(f: P.Config, w: Wired, s: P.State)
    requires P.ValidConfig(f) && P.Invariant(f, s)
    ensures Remaining(f.rounds, w, s) >= 0
  {
    hide P.InFlight, P.Shares, InTransit;
    assert P.Taken(s) <= 4 * f.rounds + 5;
  }

  /** However the bytes are cut and delayed, a session is over after a bounded number of steps. */
  lemma SessionLength(f: P.Config, debug: bool, run: seq<Wired>)
    requires ValidSession(f) && Run(f, debug, run)
    ensures |run| - 1 <= (FRAME + 1) * (4 * f.rounds + 5) + |run[0].toBob.flying| + 1
  {
    hide P.Run, P.Invariant, P.Taken, P.ValidConfig, Rootable, Next, Tied;
    var model := Refines(f, debug, run);
    P.RunKeeps(f, model);
    SomethingRemains(f, run[|run| - 1], model[|model| - 1]);
  }

  // ---- no deadlock -------------------------------------------------------------------------------

  ghost predicate AllTravel(c: Params, ms: seq<P.Message>) {
    forall k :: 0 <= k < |ms| ==> CanTravel(c, ms[k])
  }

  /** A step of the whole, as a step of a party alone with the message in front of it. */
  function Parted(s: P.State, s0: P.State, s': P.State): P.State {
    if s'.failed then s0.(failed := true)
    else s'.(toBob := Behind(s.toBob, s0.toBob, s'.toBob), toAlice := Behind(s.toAlice, s0.toAlice, s'.toAlice))
  }

  /** What was added behind those not taken. */
  function Behind(before: seq<P.Message>, taken: seq<P.Message>, after: seq<P.Message>): seq<P.Message> {
    if |taken| <= |before| <= |after| + |taken| then after[|before| - |taken|..] else []
  }

  lemma GeneratedAffine(s: Setup, k: Scalar)
    requires ValidSetup(s) && ValidScalar(k)
    ensures Generated(s, k).Affine? && OnCurve(s.c, Generated(s, k))
  {
    NonZeroScalar(s, IntOf(k));
    NestedMultiple(s, 1, IntOf(k));
  }

  lemma AliceReadsParted(f: P.Config, s: P.State, s': P.State)
    requires P.ValidConfig(f) && AliceReads(f, s, s')
    ensures |s.toAlice| > 0 && !s.failed && AliceAwaits(f.rounds, s).Some?
    ensures var s0 := Alone(s).(toAlice := [s.toAlice[0]]);
      AliceReads(f, s0, Parted(s, s0, s'))
      && (!s'.failed ==> AllTravel(f.setup.c, Parted(s, s0, s').toBob + Parted(s, s0, s').toAlice))
  {
    hide OnCurve, ProcessResponse;
    assert s.toAlice[1..][|s.toAlice| - 1..] == [] && [s.toAlice[0]][1..] == [];
    assert s'.toBob[|s.toBob|..] == [] || s'.toBob[|s.toBob|..] == [s'.toBob[|s.toBob|]];
  }

  lemma BobReadsParted(f: P.Config, s: P.State, s': P.State)
    requires P.ValidConfig(f) && BobReads(f, s, s')
    ensures |s.toBob| > 0 && !s.failed && BobAwaits(f.rounds, s).Some?
    ensures var s0 := Alone(s).(toBob := [s.toBob[0]]);
      BobReads(f, s0, Parted(s, s0, s'))
      && (!s'.failed ==> AllTravel(f.setup.c, Parted(s, s0, s').toBob + Parted(s, s0, s').toAlice))
  {
    hide OnCurve, BobKey, GetBit, Decrypt, Generated;
    var s0 := Alone(s).(toBob := [s.toBob[0]]);
    var t := Parted(s, s0, s');
    assert s.toBob[1..][|s.toBob| - 1..] == [] && [s.toBob[0]][1..] == [];
    assert s'.toAlice[|s.toAlice|..] == [] || s'.toAlice[|s.toAlice|..] == [s'.toAlice[|s.toAlice|]];
    if b :| P.BobAnswers(f, s, b, s') {
      assert P.BobAnswers(f, s0, b, t);
      if !s'.failed { ReplyTravels(f.setup, GetBit(f.y, |s.mcs|), b, s.toBob[0].pointA); }
    }
  }

  lemma ReplyTravels(s: Setup, choice: int, b: Scalar, pointA: Point)
    requires ValidSetup(s) && ValidScalar(b) && OnCurve(s.c, pointA) && BobReply(s, choice, b, pointA).Some?
    ensures CanTravel(s.c, P.Response(BobReply(s, choice, b, pointA).value))
  {
    GeneratedAffine(s, b);
    AddOnCurve(s.c, Generated(s, b), pointA);
  }

  lemma AliceOpensParted(f: P.Config, s: P.State, s': P.State)
    requires P.ValidConfig(f) && AliceOpens(f, s, s')
    ensures AliceOpens(f, Alone(s), Parted(s, Alone(s), s')) && !Parted(s, Alone(s), s').failed
    ensures AllTravel(f.setup.c, Parted(s, Alone(s), s').toBob + Parted(s, Alone(s), s').toAlice)
  {
    hide OnCurve, Generated;
    var m0, a :| P.AliceOpens(f, s, m0, a, s');
    GeneratedAffine(f.setup, a);
    var alice := NewAlice(f.setup, f.x, m0, a);
    assert s'.toBob[|s.toBob|..] == [P.Init(alice.pointA, |s.uis|)] && s'.toAlice[|s.toAlice|..] == [];
    assert P.AliceOpens(f, Alone(s), m0, a, Parted(s, Alone(s), s'));
  }

  lemma BobFinishesParted(f: P.Config, s: P.State, s': P.State)
    requires P.ValidConfig(f) && P.BobFinishes(f, s, s')
    ensures P.BobFinishes(f, Alone(s), Parted(s, Alone(s), s')) && !Parted(s, Alone(s), s').failed
    ensures AllTravel(f.setup.c, Parted(s, Alone(s), s').toBob + Parted(s, Alone(s), s').toAlice)
  {
    assert s'.toBob[|s.toBob|..] == [] && s'.toAlice[|s.toAlice|..] == [s'.toAlice[|s.toAlice|]];
  }

  /** A party's step can be written down. */
  lemma CanSettle(c: Params, w: Wired, t: P.State) returns (w': Wired)
    requires !t.failed ==> AllTravel(c, t.toBob + t.toAlice)
    ensures Settles(c, w, t, w') && (!t.failed ==> Wrote(c, w, t, w'))
  {
    hide Sent, CanTravel;
    if t.failed { return Failed(w); }
    var all := t.toBob + t.toAlice;
    assert t.toBob == all[..|t.toBob|] && t.toAlice == all[|t.toBob|..];
    var p := CanSend(c, t.toBob, w.toBob);
    var q := CanSend(c, t.toAlice, w.toAlice);
    w' := Wired(Alone(t), p, q, w.settings);
  }

  /** A step of the protocol can be taken over bytes that have all arrived. */
  lemma CanMatch(f: P.Config, debug: bool, w: Wired, s: P.State, s': P.State) returns (w': Wired)
    requires ValidSession(f) && P.Invariant(f, s) && Tied(f, debug, w, s) && !s.failed
    requires P.Next(f, s, s') && w.settings.Some? && InTransit(w) == 0
    ensures Next(f, w, w')
  {
    hide P.Invariant, P.Next, Holds, AliceReads, BobReads, AliceOpens, P.BobFinishes, AllTravel, Settles, Wrote;
    hide Received, TakeFrame, Rootable, P.ValidConfig;
    var c := f.setup.c;
    NextIs(f, s, s');
    if AliceReads(f, s, s') {
      w' := CanAliceTake(f, debug, w, s, s');
    } else if BobReads(f, s, s') {
      w' := CanBobTake(f, debug, w, s, s');
    } else if AliceOpens(f, s, s') {
      AliceOpensParted(f, s, s');
      w' := CanSettle(c, w, Parted(s, Alone(s), s'));
    } else {
      BobFinishesParted(f, s, s');
      w' := CanSettle(c, w, Parted(s, Alone(s), s'));
    }
  }

  lemma CanAliceTake(f: P.Config, debug: bool, w: Wired, s: P.State, s': P.State) returns (w': Wired)
    requires ValidSession(f) && P.Invariant(f, s) && Tied(f, debug, w, s) && !s.failed
    requires AliceReads(f, s, s') && InTransit(w) == 0
    ensures AliceTakes(f, w, w')
  {
    hide P.Invariant, AliceReads, AllTravel, Settles, Received, TakeFrame, Rootable, P.ValidConfig, Holds;
    var c := f.setup.c;
    AliceReadsParted(f, s, s');
    HeadAwaited(f, s);
    Arrived(c, w.toAlice, s.toAlice);
    TakenHolds(c, w.toAlice, s.toAlice);
    var (body, rest) := TakeFrame(w.toAlice.arrived).value;
    var s0 := Alone(s).(toAlice := [s.toAlice[0]]);
    w' := CanSettle(c, w.(toAlice := w.toAlice.(arrived := rest)), Parted(s, s0, s'));
  }

  lemma CanBobTake(f: P.Config, debug: bool, w: Wired, s: P.State, s': P.State) returns (w': Wired)
    requires ValidSession(f) && P.Invariant(f, s) && Tied(f, debug, w, s) && !s.failed
    requires BobReads(f, s, s') && w.settings.Some? && InTransit(w) == 0
    ensures BobTakes(f, w, w')
  {
    hide P.Invariant, BobReads, AllTravel, Settles, Received, TakeFrame, Rootable, P.ValidConfig, Holds;
    var c := f.setup.c;
    BobReadsParted(f, s, s');
    HeadAwaited(f, s);
    Arrived(c, w.toBob, s.toBob);
    TakenHolds(c, w.toBob, s.toBob);
    var (body, rest) := TakeFrame(w.toBob.arrived).value;
    var s0 := Alone(s).(toBob := [s.toBob[0]]);
    w' := CanSettle(c, w.(toBob := w.toBob.(arrived := rest)), Parted(s, s0, s'));
  }

  /** With nothing on the way, the first message can be taken off. */
  lemma Arrived(c: Params, p: Pipe, ms: seq<P.Message>)
    requires Rootable(c) && Holds(c, p, [], ms) && |ms| > 0 && p.flying == []
    ensures TakeFrame(p.arrived).Some?
  {
    hide Stream, TakeFrame, Received, IsBody;
    var bodies :| BodiesOf(c, ms, bodies) && p.arrived + p.flying == Stream([] + bodies);
    assert [] + bodies == bodies && p.arrived + [] == p.arrived;
    AllArrive(c, ms, bodies);
    FrameThere(p, bodies);
  }

  /** With nothing on the way, the settings can be read. */
  lemma CanConfigure(f: P.Config, debug: bool, w: Wired, s: P.State) returns (w': Wired)
    requires ValidSession(f) && Tied(f, debug, w, s) && !s.failed && w.settings.None? && w.toBob.flying == []
    ensures BobConfigures(w, w')
  {
    hide BodiesOf, TakeFrame, Stream, DecodeMessage, Carries, Rootable, P.ValidConfig;
    var c := f.setup.c;
    var front :| Front(debug, w.settings, front) && Holds(c, w.toBob, front, s.toBob);
    var bodies :| BodiesOf(c, s.toBob, bodies) && w.toBob.arrived + w.toBob.flying == Stream(front + bodies);
    FrontSendable(c, debug, front, s.toBob, bodies);
    assert w.toBob.arrived + [] == w.toBob.arrived;
    FrameThere(w.toBob, front + bodies);
    CarriedDecodes(SessionConfig, [Flag(debug)], front[0]);
    w' := w.(toBob := w.toBob.(arrived := TakeFrame(w.toBob.arrived).value.1), settings := Some(debug));
  }

  /** A session that is neither complete nor failed goes on, and so does one with bytes on the way. */
  lemma CanStep(f: P.Config, debug: bool, w: Wired, s: P.State) returns (w': Wired)
    requires ValidSession(f) && P.Invariant(f, s) && Tied(f, debug, w, s)
    requires InTransit(w) > 0 || (!s.failed && s.u.None?)
    ensures Next(f, w, w')
  {
    hide P.Invariant, Tied, BobConfigures, AliceStarts, AliceTakes, BobTakes, BobEnds, Rootable, P.ValidConfig, P.Next;
    if |w.toBob.flying| > 0 {
      w' := w.(toBob := Pipe(w.toBob.arrived + w.toBob.flying[..1], w.toBob.flying[1..]));
      assert Delivers(w, 1, w');
    } else if |w.toAlice.flying| > 0 {
      w' := w.(toAlice := Pipe(w.toAlice.arrived + w.toAlice.flying[..1], w.toAlice.flying[1..]));
      assert Delivers(w, 1, w');
    } else if w.settings.None? {
      w' := CanConfigure(f, debug, w, s);
    } else {
      var s' := P.CanStep(f, s);
      w' := CanMatch(f, debug, w, s, s');
    }
  }

  ghost predicate Stuck(f: P.Config, w: Wired)
    requires P.ValidConfig(f)
  {
    forall w' :: !Next(f, w, w')
  }

  /** A session that cannot go on has failed by a collision, or both parties have their shares, after 4n + 2 steps of
      the protocol, and nothing is left in either direction. */
  lemma MaximalSession(f: P.Config, debug: bool, run: seq<Wired>) returns (model: seq<P.State>)
    requires ValidSession(f) && Run(f, debug, run) && Stuck(f, run[|run| - 1])
    ensures P.Run(f, model) && Tied(f, debug, run[|run| - 1], model[|model| - 1])
    ensures var w, n := run[|run| - 1], |model| - 1;
      if w.parties.failed then n > 0 && P.CollisionStep(f, model[n - 1], model[n])
      else w.parties.u.Some? && n == 4 * f.rounds + 2 && w.toBob == w.toAlice == Pipe([], [])
  {
    hide P.CollisionStep, P.Next, P.Invariant, Next, Holds, Begins, P.ValidConfig, Rootable;
    model := SessionFails(f, debug, run);
    var w, s := run[|run| - 1], model[|model| - 1];
    P.RunKeeps(f, model);
    P.RunLength(f, model);
    if InTransit(w) > 0 || (!s.failed && s.u.None?) {
      var w' := CanStep(f, debug, w, s);
      assert false;
    }
    if !s.failed {
      NothingLeft(f, debug, w, s);
    }
  }

  lemma NothingLeft(f: P.Config, debug: bool, w: Wired, s: P.State)
    requires P.ValidConfig(f) && P.Invariant(f, s) && Tied(f, debug, w, s) && !s.failed && s.u.Some?
    ensures P.Taken(s) == 4 * f.rounds + 2 && w.toBob == w.toAlice == Pipe([], [])
  {
    assert s.toBob == [] && s.toAlice == [];
    assert w.settings.Some?;
    hide P.Invariant;
    EmptyPipe(f.setup.c, w.toAlice);
    EmptyPipe(f.setup.c, w.toBob);
  }

  lemma EmptyPipe(c: Params, p: Pipe)
    requires Holds(c, p, [], [])
    ensures p == Pipe([], [])
  {
    var bodies :| BodiesOf(c, [], bodies) && p.arrived + p.flying == Stream([] + bodies);
    assert |p.arrived + p.flying| == 0;
  }
}
