/** The whole session between client (Alice) and server (Bob): two parties, two first-in-first-out channels,
    one oblivious transfer per bit of Bob's secret, and the additive shares at the end. */
module Protocol {
  import opened Wrappers
  import opened Arith
  import opened Digits
  import opened Residues
  import opened Octets
  import opened Scalars
  import opened Secp256k1
  import opened Curve
  import opened Mta
  import opened Transfer

  datatype Message =
    | Init(pointA: Point, bitIndex: nat)
    | Response(pointB: Point)
    | Payload(e: Encrypted)
    | Share(share: Scalar)

  /** Alice's secret x, Bob's secret y, and the number of rounds (256 in both programs). */
  datatype Config = Config(setup: Setup, x: Scalar, y: Scalar, rounds: nat)

  ghost predicate ValidConfig(f: Config) {
    ValidSetup(f.setup) && f.rounds <= 256 && IntOf(f.y) < Pow(2, f.rounds)
  }

  /** Bob's object for the current transfer, once he has answered. */
  datatype BobOT = BobOT(choice: int, b: Scalar, key: Scalar)

  datatype State = State(
    alice: Option<AliceOT>, uis: seq<Scalar>, u: Option<Scalar>,
    bob: Option<BobOT>, mcs: seq<Scalar>, v: Option<Scalar>,
    toBob: seq<Message>, toAlice: seq<Message>, failed: bool)

  function Start(): State {
    State(None, [], None, None, [], None, [], [], false)
  }

  // ---- the steps -------------------------------------------------------------------------

  /** Alice draws m0 and a and sends her point. She need not wait for Bob to have read the last payload. */
  ghost predicate AliceOpens(f: Config, s: State, m0: Scalar, a: Scalar, s': State)
    requires ValidConfig(f)
  {
    && !s.failed && s.alice.None? && |s.uis| < f.rounds && ValidScalar(m0) && ValidScalar(a)
    && var alice := NewAlice(f.setup, f.x, m0, a);
       s' == s.(alice := Some(alice), toBob := s.toBob + [Init(alice.pointA, |s.uis|)])
  }

  /** Alice reads Bob's point and sends the two masked messages, or gives up. */
  ghost predicate AliceAnswers(f: Config, s: State, s': State)
    requires ValidConfig(f)
  {
    && !s.failed && s.alice.Some? && |s.toAlice| > 0
    && match s.toAlice[0] {
         case Response(pointB) =>
           if !OnCurve(f.setup.c, pointB) || !OnCurve(f.setup.c, s.alice.value.pointA) then s' == s.(failed := true)
           else
             var e := ProcessResponse(f.setup, s.alice.value, pointB);
             if e.None? then s' == s.(failed := true)
             else s' == s.(alice := None, uis := s.uis + [s.alice.value.ui],
                           toBob := s.toBob + [Payload(e.value)], toAlice := s.toAlice[1..])
         case _ => s' == s.(failed := true)
       }
  }

  /** Alice reads Bob's share and computes hers. */
  ghost predicate AliceFinishes(f: Config, s: State, s': State) {
    && !s.failed && s.alice.None? && |s.uis| == f.rounds && s.u.None? && |s.toAlice| > 0
    && match s.toAlice[0] {
         case Share(v) => s' == s.(u := Some(AliceShare(s.uis)), toAlice := s.toAlice[1..])
         case _ => s' == s.(failed := true)
       }
  }

  /** Bob reads Alice's point, checks the index, draws b and answers, or gives up. */
  ghost predicate BobAnswers(f: Config, s: State, b: Scalar, s': State)
    requires ValidConfig(f)
  {
    && !s.failed && s.bob.None? && |s.mcs| < f.rounds && |s.toBob| > 0 && ValidScalar(b)
    && match s.toBob[0] {
         case Init(pointA, bitIndex) =>
           if bitIndex != |s.mcs| || !OnCurve(f.setup.c, pointA) then s' == s.(failed := true)
           else
             var choice := GetBit(f.y, |s.mcs|);
             var key, reply := BobKey(f.setup, b, pointA), BobReply(f.setup, choice, b, pointA);
             if key.None? || reply.None? then s' == s.(failed := true)
             else s' == s.(bob := Some(BobOT(choice, b, key.value)),
                           toAlice := s.toAlice + [Response(reply.value)], toBob := s.toBob[1..])
         case _ => s' == s.(failed := true)
       }
  }

  /** Bob opens the message he chose. */
  ghost predicate BobDecrypts(s: State, s': State) {
    && !s.failed && s.bob.Some? && |s.toBob| > 0
    && match s.toBob[0] {
         case Payload(e) =>
           s' == s.(bob := None, mcs := s.mcs + [Decrypt(s.bob.value.choice, s.bob.value.key, e)],
                    toBob := s.toBob[1..])
         case _ => s' == s.(failed := true)
       }
  }

  /** Bob computes and sends his share. */
  ghost predicate BobFinishes(f: Config, s: State, s': State) {
    && !s.failed && s.bob.None? && |s.mcs| == f.rounds && s.v.None?
    && s' == s.(v := Some(BobShare(s.mcs)), toAlice := s.toAlice + [Share(BobShare(s.mcs))])
  }

  ghost predicate Next(f: Config, s: State, s': State)
    requires ValidConfig(f)
  {
    || (exists m0, a :: AliceOpens(f, s, m0, a, s'))
    || AliceAnswers(f, s, s')
    || AliceFinishes(f, s, s')
    || (exists b :: BobAnswers(f, s, b, s'))
    || BobDecrypts(s, s')
    || BobFinishes(f, s, s')
  }

  /** Runs: any interleaving of any length. */
  ghost predicate Run(f: Config, run: seq<State>)
    requires ValidConfig(f)
  {
    |run| > 0 && run[0] == Start() && forall i :: 0 <= i < |run| - 1 ==> Next(f, run[i], run[i + 1])
  }

  // ---- the invariant ---------------------------------------------------------------------

  /** Round k is settled: Bob holds U_k, plus x if his bit is set. */
  ghost predicate Settled(f: Config, s: State, k: nat)
    requires k < |s.mcs| <= |s.uis| && k < 256
  {
    s.mcs[k] == Correlated(f.x, s.uis[k], GetBit(f.y, k))
  }

  /** Alice has opened round i. */
  ghost predicate Opened(f: Config, alice: AliceOT)
    requires ValidConfig(f)
  {
    ValidScalar(alice.a) && alice == NewAlice(f.setup, f.x, alice.m0, alice.a)
  }

  /** The payload in flight opens, under Bob's key, to his message of round j. */
  ghost predicate WillOpen(f: Config, s: State, m: Message, j: nat)
    requires s.bob.Some? && j < |s.uis| && j < 256
  {
    && m.Payload? && s.bob.value.choice == GetBit(f.y, j)
    && Decrypt(s.bob.value.choice, s.bob.value.key, m.e) == Correlated(f.x, s.uis[j], GetBit(f.y, j))
  }

  /** Bob has answered Alice's point of round j. */
  ghost predicate Answered(f: Config, s: State, m: Message, j: nat)
    requires ValidConfig(f) && s.alice.Some? && s.bob.Some? && j < 256
  {
    var bob := s.bob.value;
    && m.Response? && bob.choice == GetBit(f.y, j) && ValidScalar(bob.b)
    && OnCurve(f.setup.c, s.alice.value.pointA)
    && BobKey(f.setup, bob.b, s.alice.value.pointA) == Some(bob.key)
    && BobReply(f.setup, bob.choice, bob.b, s.alice.value.pointA) == Some(m.pointB)
  }

  /** What is in flight, by who is in the middle of a transfer. */
  ghost predicate InFlight(f: Config, s: State)
    requires ValidConfig(f) && |s.uis| <= f.rounds && |s.mcs| <= f.rounds
  {
    var i, j := |s.uis|, |s.mcs|;
    match (s.alice, s.bob)
    case (None, None) =>
      i == j && s.toBob == [] && s.toAlice == if s.v.Some? && s.u.None? then [Share(s.v.value)] else []
    case (None, Some(bob)) =>
      i == j + 1 && |s.toBob| == 1 && WillOpen(f, s, s.toBob[0], j) && s.toAlice == []
    case (Some(alice), None) =>
      i == j < f.rounds && Opened(f, alice) && s.toBob == [Init(alice.pointA, i)] && s.toAlice == []
    case (Some(alice), Some(bob)) =>
      && i < f.rounds && Opened(f, alice)
      && (|| (i == j && s.toBob == [] && |s.toAlice| == 1 && Answered(f, s, s.toAlice[0], j))
          || (i == j + 1 && s.toAlice == [] && |s.toBob| == 2
              && WillOpen(f, s, s.toBob[0], j) && s.toBob[1] == Init(alice.pointA, i)))
  }

  ghost predicate Shares(f: Config, s: State) {
    && (s.v.Some? ==> |s.mcs| == |s.uis| == f.rounds && s.alice.None? && s.bob.None? && s.v.value == BobShare(s.mcs))
    && (s.u.Some? ==> s.v.Some? && s.u.value == AliceShare(s.uis))
  }

  ghost predicate Invariant(f: Config, s: State)
    requires ValidConfig(f)
  {
    && |s.mcs| <= |s.uis| <= f.rounds
    && (forall k :: 0 <= k < |s.mcs| ==> Settled(f, s, k))
    && Shares(f, s)
    && (!s.failed ==> InFlight(f, s))
  }

  lemma StartInvariant(f: Config)
    requires ValidConfig(f)
    ensures Invariant(f, Start())
  {}

  lemma AliceOpensKeeps(f: Config, s: State, m0: Scalar, a: Scalar, s': State)
    requires ValidConfig(f) && Invariant(f, s) && AliceOpens(f, s, m0, a, s')
    ensures Invariant(f, s')
  {
    forall k | 0 <= k < |s'.mcs| ensures Settled(f, s', k) { assert Settled(f, s, k); }
    if s.bob.Some? {
      assert WillOpen(f, s', s'.toBob[0], |s'.mcs|);
    }
  }

  /** Alice gives up exactly on a collision for choice 0. */
  lemma AliceAnswersKeeps(f: Config, s: State, s': State)
    requires ValidConfig(f) && Invariant(f, s) && AliceAnswers(f, s, s')
    ensures Invariant(f, s')
    ensures s.bob.Some? && (s'.failed <==> s.bob.value.choice == 0 && Collision(0, s.alice.value.a, s.bob.value.b))
  {
    forall k | 0 <= k < |s'.mcs| ensures Settled(f, s', k) { assert Settled(f, s, k); }
    var alice, bob, j := s.alice.value, s.bob.value, |s.mcs|;
    assert Answered(f, s, s.toAlice[0], j);
    TransferCorrect(f.setup, f.x, alice.m0, alice.a, bob.b, bob.choice);
    if !s'.failed {
      assert s'.toBob[0] == Payload(ProcessResponse(f.setup, alice, s.toAlice[0].pointB).value);
      assert WillOpen(f, s', s'.toBob[0], j);
    }
  }

  lemma AliceFinishesKeeps(f: Config, s: State, s': State)
    requires ValidConfig(f) && Invariant(f, s) && AliceFinishes(f, s, s')
    ensures Invariant(f, s') && !s'.failed
  {
    forall k | 0 <= k < |s'.mcs| ensures Settled(f, s', k) { assert Settled(f, s, k); }
  }

  /** Bob gives up exactly on a collision for choice 1. */
  lemma BobAnswersKeeps(f: Config, s: State, b: Scalar, s': State)
    requires ValidConfig(f) && Invariant(f, s) && BobAnswers(f, s, b, s')
    ensures Invariant(f, s')
    ensures s.alice.Some? && (s'.failed <==> GetBit(f.y, |s.mcs|) == 1 && Collision(1, s.alice.value.a, b))
  {
    forall k | 0 <= k < |s'.mcs| ensures Settled(f, s', k) { assert Settled(f, s, k); }
    var alice, choice := s.alice.value, GetBit(f.y, |s.mcs|);
    ReplyIs(f.setup, choice, alice.a, b);
    SharedPoint(f.setup, alice.a, b);
    if !s'.failed {
      assert Answered(f, s', s'.toAlice[0], |s.mcs|);
    }
  }

  lemma BobDecryptsKeeps(f: Config, s: State, s': State)
    requires ValidConfig(f) && Invariant(f, s) && BobDecrypts(s, s')
    ensures Invariant(f, s') && !s'.failed
  {
    var j := |s.mcs|;
    assert WillOpen(f, s, s.toBob[0], j);
    forall k | 0 <= k < |s'.mcs| ensures Settled(f, s', k) {
      if k < j { assert Settled(f, s, k); }
    }
  }

  lemma BobFinishesKeeps(f: Config, s: State, s': State)
    requires ValidConfig(f) && Invariant(f, s) && BobFinishes(f, s, s')
    ensures Invariant(f, s') && !s'.failed
  {
    forall k | 0 <= k < |s'.mcs| ensures Settled(f, s', k) { assert Settled(f, s, k); }
  }

  /** Every step keeps the invariant. */
  lemma NextKeeps(f: Config, s: State, s': State)
    requires ValidConfig(f) && Invariant(f, s) && Next(f, s, s')
    ensures Invariant(f, s')
  {
    if m0, a :| AliceOpens(f, s, m0, a, s') {
      AliceOpensKeeps(f, s, m0, a, s');
    } else if AliceAnswers(f, s, s') {
      AliceAnswersKeeps(f, s, s');
    } else if AliceFinishes(f, s, s') {
      AliceFinishesKeeps(f, s, s');
    } else if b :| BobAnswers(f, s, b, s') {
      BobAnswersKeeps(f, s, b, s');
    } else if BobDecrypts(s, s') {
      BobDecryptsKeeps(f, s, s');
    } else {
      BobFinishesKeeps(f, s, s');
    }
  }

  lemma RunPrefix(f: Config, run: seq<State>, n: nat)
    requires ValidConfig(f) && Run(f, run) && 0 < n == |run| - 1
    ensures Run(f, run[..n]) && Next(f, run[n - 1], run[n])
  {
    assert Next(f, run[n - 1], run[n - 1 + 1]);
    forall i | 0 <= i < n - 1 ensures Next(f, run[..n][i], run[..n][i + 1]) {
      assert Next(f, run[i], run[i + 1]);
    }
  }

  /** Every state of every run satisfies the invariant. */
  lemma {:induction false} RunKeeps(f: Config, run: seq<State>)
    requires ValidConfig(f) && Run(f, run)
    ensures Invariant(f, run[|run| - 1])
  {
    if |run| == 1 {
      StartInvariant(f);
    } else {
      var n := |run| - 1;
      RunPrefix(f, run, n);
      RunKeeps(f, run[..n]);
      NextKeeps(f, run[n - 1], run[n]);
    }
  }

  // ---- the shares add up -----------------------------------------------------------------

  /** Each value of ms is the one of us plus x where the bit is set. */
  ghost predicate Pointwise(us: seq<int>, ms: seq<int>, bits: seq<int>, x: int) {
    && |us| == |ms| == |bits|
    && forall k :: 0 <= k < |us| ==> Cong(ms[k], us[k] + bits[k] * x, ORDER)
  }

  lemma LastTerm(s: seq<int>)
    ensures s == [] ==> Num(s, 2) == 0
    ensures s != [] ==> Num(s, 2) == Num(s[..|s| - 1], 2) + s[|s| - 1] * Pow(2, |s| - 1)
  {}

  /** Weighted sums of correlated values differ by x times the weighted bits. */
  lemma {:induction false} WeightedCorrelated(us: seq<int>, ms: seq<int>, bits: seq<int>, x: int)
    requires Pointwise(us, ms, bits, x)
    ensures Cong(Num(ms, 2), Num(us, 2) + x * Num(bits, 2), ORDER)
  {
    hide Num, Pow, Cong;
    LastTerm(us);
    LastTerm(ms);
    LastTerm(bits);
    if |us| == 0 {
      CongIntro(0, 0, 0, ORDER);
    } else {
      var n := |us| - 1;
      WeightedCorrelated(us[..n], ms[..n], bits[..n], x);
      WeightedStepCong(Num(ms[..n], 2), Num(us[..n], 2), Num(bits[..n], 2), ms[n], us[n], bits[n], Pow(2, n), x);
    }
  }

  lemma WeightedStepCong(ms: int, us: int, bits: int, m: int, u: int, bit: int, w: int, x: int)
    requires Cong(ms, us + x * bits, ORDER) && Cong(m, u + bit * x, ORDER)
    ensures Cong(ms + m * w, (us + u * w) + x * (bits + bit * w), ORDER)
  {
    CongIntro(w, w, 0, ORDER);
    CongMul(m, u + bit * x, w, w, ORDER);
    CongAdd(ms, us + x * bits, m * w, (u + bit * x) * w, ORDER);
    Distribute(u, bit * x, w);
    DistributeLeft(x, bits, bit * w);
    assert (bit * x) * w == x * (bit * w);
  }

  lemma CorrelatedValue(x: Scalar, m0: Scalar, choice: int)
    requires choice == 0 || choice == 1
    ensures Cong(IntOf(Correlated(x, m0, choice)), IntOf(m0) + choice * IntOf(x), ORDER)
  {
    if choice == 0 {
      CongIntro(IntOf(m0), IntOf(m0), 0, ORDER);
    } else {
      var v := IntOf(m0) + IntOf(x);
      DivMod(v, ORDER);
      Pow256();
      IntOfBytesOf(v % ORDER, 32);
      CongMod(v, ORDER);
    }
  }

  /** The shares computed from settled rounds add up to the product of the secrets. */
  lemma SharesAddUp(x: Scalar, y: Scalar, uis: seq<Scalar>, mcs: seq<Scalar>)
    requires |uis| == |mcs| <= 256 && IntOf(y) < Pow(2, |uis|)
    requires forall k :: 0 <= k < |uis| ==> mcs[k] == Correlated(x, uis[k], GetBit(y, k))
    ensures Cong(IntOf(AliceShare(uis)) + IntOf(BobShare(mcs)), IntOf(x) * IntOf(y), ORDER)
  {
    AllCorrelated(x, y, uis, mcs);
    AllBits(y, |uis|);
    SharesOfBits(uis, mcs, ChoiceBits(y, |uis|), IntOf(x), IntOf(y));
  }

  lemma SharesOfBits(uis: seq<Scalar>, mcs: seq<Scalar>, bits: seq<int>, x: int, y: int)
    requires Pointwise(Ints(uis), Ints(mcs), bits, x) && Num(bits, 2) == y
    ensures Cong(IntOf(AliceShare(uis)) + IntOf(BobShare(mcs)), x * y, ORDER)
  {
    ShareValues(uis);
    ShareValues(mcs);
    SumOfShares(Ints(uis), Ints(mcs), bits, x, y, IntOf(AliceShare(uis)), IntOf(BobShare(mcs)));
  }

  lemma SumOfShares(us: seq<int>, ms: seq<int>, bits: seq<int>, x: int, y: int, u: int, v: int)
    requires Pointwise(us, ms, bits, x) && Num(bits, 2) == y
    requires Cong(u, 0 - Num(us, 2), ORDER) && Cong(v, Num(ms, 2), ORDER)
    ensures Cong(u + v, x * y, ORDER)
  {
    hide Num;
    WeightedCorrelated(us, ms, bits, x);
    var s := Num(us, 2);
    CongAdd(u, 0 - s, v, s + x * y, ORDER);
  }

  lemma AllCorrelated(x: Scalar, y: Scalar, uis: seq<Scalar>, mcs: seq<Scalar>)
    requires |uis| == |mcs| <= 256
    requires forall k :: 0 <= k < |uis| ==> mcs[k] == Correlated(x, uis[k], GetBit(y, k))
    ensures Pointwise(Ints(uis), Ints(mcs), ChoiceBits(y, |uis|), IntOf(x))
  {
    var bits := ChoiceBits(y, |uis|);
    forall k | 0 <= k < |uis| ensures Cong(Ints(mcs)[k], Ints(uis)[k] + bits[k] * IntOf(x), ORDER) {
      CorrelatedValue(x, uis[k], GetBit(y, k));
    }
  }

  lemma AllBits(y: Scalar, n: nat)
    requires n <= 256 && IntOf(y) < Pow(2, n)
    ensures Num(ChoiceBits(y, n), 2) == IntOf(y)
  {
    BitsRebuild(y, n);
    ModOnce(IntOf(y), Pow(2, n));
  }

  lemma ShareValues(values: seq<Scalar>)
    ensures Cong(IntOf(AliceShare(values)), 0 - Num(Ints(values), 2), ORDER)
    ensures Cong(IntOf(BobShare(values)), Num(Ints(values), 2), ORDER)
    ensures IntOf(AliceShare(values)) < ORDER && IntOf(BobShare(values)) < ORDER
  {
    hide Num, BytesOf, Big, Cong;
    ReducedBytes(0 - Num(Ints(values), 2));
    ReducedBytes(Num(Ints(values), 2));
  }

  lemma ReducedBytes(w: int)
    ensures IntOf(BytesOf(w % ORDER, 32)) < ORDER && Cong(IntOf(BytesOf(w % ORDER, 32)), w, ORDER)
  {
    Pow256();
    DivMod(w, ORDER);
    IntOfBytesOf(w % ORDER, 32);
    CongMod(w, ORDER);
  }

  /** In every run that completes, U + V = x * y modulo the order, with both shares reduced. */
  lemma CompletedRunCorrect(f: Config, run: seq<State>)
    requires ValidConfig(f) && Run(f, run) && run[|run| - 1].u.Some?
    ensures var s := run[|run| - 1];
      && s.v.Some? && IntOf(s.u.value) < ORDER && IntOf(s.v.value) < ORDER
      && Cong(IntOf(s.u.value) + IntOf(s.v.value), IntOf(f.x) * IntOf(f.y), ORDER)
  {
    hide Cong, Big, Pow, GetBit;
    RunKeeps(f, run);
    var s := run[|run| - 1];
    forall k | 0 <= k < |s.uis| ensures s.mcs[k] == Correlated(f.x, s.uis[k], GetBit(f.y, k)) {
      assert Settled(f, s, k);
    }
    SharesAddUp(f.x, f.y, s.uis, s.mcs);
    ShareValues(s.uis);
    ShareValues(s.mcs);
  }

  // ---- no deadlock, no livelock ----------------------------------------------------------

  /** The number of steps a state has seen. */
  function Taken(s: State): nat {
    2 * |s.uis| + 2 * |s.mcs| + (if s.alice.Some? then 1 else 0) + (if s.bob.Some? then 1 else 0)
      + (if s.u.Some? then 1 else 0) + (if s.v.Some? then 1 else 0) + (if s.failed then 1 else 0)
  }

  lemma NextTaken(f: Config, s: State, s': State)
    requires ValidConfig(f) && Next(f, s, s')
    ensures Taken(s') == Taken(s) + 1
  {
    if m0, a :| AliceOpens(f, s, m0, a, s') {
      assert s'.alice.Some?;
    }
  }

  /** A run over n bits has at most 4n + 2 steps. */
  lemma {:induction false} RunLength(f: Config, run: seq<State>)
    requires ValidConfig(f) && Run(f, run)
    ensures |run| - 1 == Taken(run[|run| - 1])
  {
    if |run| > 1 {
      var n := |run| - 1;
      RunPrefix(f, run, n);
      RunLength(f, run[..n]);
      NextTaken(f, run[n - 1], run[n]);
    }
  }

  /** A state that is neither complete nor failed can step. */
  lemma CanStep(f: Config, s: State) returns (s': State)
    requires ValidConfig(f) && Invariant(f, s) && !s.failed && s.u.None?
    ensures Next(f, s, s')
  {
    var one := BytesOf(1, 32);
    Pow256();
    IntOfBytesOf(1, 32);
    match (s.alice, s.bob)
    case (None, None) =>
      if |s.uis| < f.rounds {
        var alice := NewAlice(f.setup, f.x, one, one);
        s' := s.(alice := Some(alice), toBob := s.toBob + [Init(alice.pointA, |s.uis|)]);
        assert AliceOpens(f, s, one, one, s');
      } else if s.v.None? {
        s' := s.(v := Some(BobShare(s.mcs)), toAlice := s.toAlice + [Share(BobShare(s.mcs))]);
        assert BobFinishes(f, s, s');
      } else {
        s' := s.(u := Some(AliceShare(s.uis)), toAlice := s.toAlice[1..]);
        assert AliceFinishes(f, s, s');
      }
    case (_, Some(bob)) =>
      if |s.toBob| > 0 {
        s' := s.(bob := None, mcs := s.mcs + [Decrypt(bob.choice, bob.key, s.toBob[0].e)], toBob := s.toBob[1..]);
        assert BobDecrypts(s, s');
      } else {
        s' := AliceCanAnswer(f, s);
      }
    case (Some(alice), None) =>
      s' := BobCanAnswer(f, s, one);
  }

  lemma AliceCanAnswer(f: Config, s: State) returns (s': State)
    requires ValidConfig(f) && Invariant(f, s) && !s.failed && s.alice.Some? && |s.toAlice| > 0
    ensures AliceAnswers(f, s, s')
  {
    var alice, bob := s.alice.value, s.bob.value;
    assert Answered(f, s, s.toAlice[0], |s.mcs|);
    TransferCorrect(f.setup, f.x, alice.m0, alice.a, bob.b, bob.choice);
    var e := ProcessResponse(f.setup, alice, s.toAlice[0].pointB);
    s' := if e.None? then s.(failed := true)
          else s.(alice := None, uis := s.uis + [alice.ui],
                  toBob := s.toBob + [Payload(e.value)], toAlice := s.toAlice[1..]);
  }

  lemma BobCanAnswer(f: Config, s: State, b: Scalar) returns (s': State)
    requires ValidConfig(f) && Invariant(f, s) && !s.failed && s.alice.Some? && s.bob.None? && ValidScalar(b)
    ensures BobAnswers(f, s, b, s')
  {
    var alice, choice := s.alice.value, GetBit(f.y, |s.mcs|);
    SharedPoint(f.setup, alice.a, b);
    var key, reply := BobKey(f.setup, b, alice.pointA), BobReply(f.setup, choice, b, alice.pointA);
    s' := if key.None? || reply.None? then s.(failed := true)
          else s.(bob := Some(BobOT(choice, b, key.value)),
                  toAlice := s.toAlice + [Response(reply.value)], toBob := s.toBob[1..]);
  }

  // ---- what ends a run --------------------------------------------------------------------

  /** One party reads a point under which the masked message or the reply cannot be computed. */
  ghost predicate CollisionStep(f: Config, s: State, s': State)
    requires ValidConfig(f)
  {
    && s.alice.Some?
    && (|| (AliceAnswers(f, s, s') && s.bob.Some? && s.bob.value.choice == 0
            && Collision(0, s.alice.value.a, s.bob.value.b))
        || (exists b :: BobAnswers(f, s, b, s') && GetBit(f.y, |s.mcs|) == 1 && Collision(1, s.alice.value.a, b)))
  }

  lemma StepFails(f: Config, s: State, s': State)
    requires ValidConfig(f) && Invariant(f, s) && Next(f, s, s')
    ensures s'.failed <==> CollisionStep(f, s, s')
  {
    hide Invariant, Collision;
    if AliceAnswers(f, s, s') {
      AliceAnswersKeeps(f, s, s');
    }
    forall b | BobAnswers(f, s, b, s')
      ensures s.alice.Some? && (s'.failed <==> GetBit(f.y, |s.mcs|) == 1 && Collision(1, s.alice.value.a, b))
    {
      BobAnswersKeeps(f, s, b, s');
    }
    if AliceFinishes(f, s, s') { AliceFinishesKeeps(f, s, s'); }
    if BobDecrypts(s, s') { BobDecryptsKeeps(f, s, s'); }
  }

  /** A run has failed exactly when its last step read a colliding point. */
  lemma FailedByCollision(f: Config, run: seq<State>)
    requires ValidConfig(f) && Run(f, run)
    ensures var n := |run| - 1; run[n].failed <==> n > 0 && CollisionStep(f, run[n - 1], run[n])
  {
    var n := |run| - 1;
    if n > 0 {
      RunPrefix(f, run, n);
      RunKeeps(f, run[..n]);
      StepFails(f, run[n - 1], run[n]);
    }
  }

  ghost predicate Stuck(f: Config, s: State)
    requires ValidConfig(f)
  {
    forall s' :: !Next(f, s, s')
  }

  /** A run that cannot be extended has either completed, after exactly 4n + 2 steps, or read a colliding point in
      its last step. */
  lemma MaximalRun(f: Config, run: seq<State>)
    requires ValidConfig(f) && Run(f, run) && Stuck(f, run[|run| - 1])
    ensures var n, s := |run| - 1, run[|run| - 1];
      if s.failed then n > 0 && CollisionStep(f, run[n - 1], s) else s.u.Some? && n == 4 * f.rounds + 2
  {
    RunKeeps(f, run);
    RunLength(f, run);
    FailedByCollision(f, run);
    var s := run[|run| - 1];
    if !s.failed && s.u.None? {
      var s' := CanStep(f, s);
      assert false;
    }
  }
}
