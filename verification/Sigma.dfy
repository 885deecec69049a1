/**
 The Schnorr proofs and the commitment re-randomization proof. All of them are one
 three-move protocol over a base point, so the algebra is done once for any base.
 */
module Sigma {
  import opened Bytes
  import opened PrimeField
  import opened Transcript
  import opened Suites

  /** The direct test `base*s == a + y*c` of the client programs and of the C server. */
  predicate Holds(S: Suite, base: Point, y: Point, a: Point, c: Scalar, s: Scalar)
    requires S.q > 0
  {
    S.Mul(base, s) == S.Add(a, S.Mul(y, c))
  }

  /** The Rust server's multiscalar test `base*s - y*c - a == identity`. */
  predicate VartimeSchnorrCheck(S: Suite, base: Point, y: Point, a: Point, c: Scalar, s: Scalar)
    requires S.q > 0
  {
    S.Add(S.Add(S.Mul(base, s), S.Mul(y, S.Neg(c))), S.Mul(a, S.Neg(1))) == IDENTITY
  }

  lemma HoldsCong(S: Suite, base: Point, y: Point, a: Point, c: Scalar, s: Scalar)
    requires S.q > 0
    ensures Holds(S, base, y, a, c, s) <==> Cong(S.q, base * s, a + y * c)
  {
    hide Mod;
    ReduceAdd(S.q, a, y * c);
  }

  /** Both tests accept the same proofs. */
  lemma VartimeCheckIsDirectCheck(S: Suite, base: Point, y: Point, a: Point, c: Scalar, s: Scalar)
    requires S.q > 0
    ensures VartimeSchnorrCheck(S, base, y, a, c, s) <==> Holds(S, base, y, a, c, s)
  {
    hide Mod;
    var q := S.q;
    var u, v := base * s, y * c;
    NegatedFactor(q, y, c);
    NegatedFactor(q, a, 1);
    ReduceSum3(q, u, -v, -a);
    assert u + -v + -a == u - (a + v);
    ZeroDifference(q, u, a + v);
    HoldsCong(S, base, y, a, c, s);
  }

  lemma NegatedFactor(q: int, y: int, c: int)
    requires q > 0
    ensures Cong(q, y * Mod(q, -c), -(y * c))
  {
    hide Mod;
    ReduceMul(q, y, -c);
    assert y * (-c) == -(y * c);
  }

  /** A simulated move: for any challenge and response exactly one commitment makes the test hold. */
  lemma SimulatedCommitment(S: Suite, base: Point, y: Point, a: Point, c: Scalar, s: Scalar)
    requires S.In(a)
    ensures Holds(S, base, y, a, c, s) <==> a == S.Sub(S.Mul(base, s), S.Mul(y, c))
  {
    hide Mod;
    var q := S.q;
    var u, v := base * s, y * c;
    HoldsCong(S, base, y, a, c, s);
    ReduceSub(q, Mod(q, u), v);
    ReduceSub(q, u, v);
    Canonical(q, a);
    ZeroDifference(q, u, a + v);
    ZeroDifference(q, u - v, a);
    assert u - (a + v) == u - v - a;
  }

  lemma KeyTimesChallenge(q: int, base: int, x: int, c: int)
    requires q > 0
    ensures Mod(q, Mod(q, base * x) * c) == Mod(q, base * (c * x))
  {
    hide Mod;
    ReduceMul(q, base * x, c);
    Associate(base, x, c);
    assert x * c == c * x;
  }

  lemma BaseTimesDifference(q: int, base: int, s: int, t: int)
    requires q > 0
    ensures Mod(q, base * Mod(q, s - Mod(q, t))) == Mod(q, base * s - base * t)
  {
    hide Mod;
    ReduceSub(q, s, t);
    ReduceMul(q, base, s - t);
    assert base * (s - t) == base * s - base * t;
  }

  /** A real move: with `y == base*x` the test holds exactly when the commitment opens to `s - c*x`. */
  lemma RealCommitment(S: Suite, base: Point, x: Scalar, a: Point, c: Scalar, s: Scalar)
    requires S.In(a)
    ensures Holds(S, base, S.Mul(base, x), a, c, s) <==> a == S.Mul(base, S.Sub(s, S.Mul(c, x)))
  {
    SimulatedCommitment(S, base, S.Mul(base, x), a, c, s);
    KeyTimesChallenge(S.q, base, x, c);
    BaseTimesDifference(S.q, base, s, c * x);
    ReduceSub(S.q, base * s, base * (c * x));
    ReduceSub(S.q, Mod(S.q, base * s), base * (c * x));
    hide Mod, Holds;
  }

  /** The response determines the commitment randomness and back. */
  lemma ResponseRoundTrip(S: Suite, r: Scalar, t: Scalar)
    requires S.In(r)
    ensures S.Sub(S.Add(r, t), t) == r
    ensures S.Add(S.Sub(r, t), t) == r
  {
    hide Mod;
    Canonical(S.q, r);
    ReduceSub(S.q, r + t, t);
    ReduceAdd(S.q, r - t, t);
  }

  /** Completeness of one honest move, in any base. */
  lemma HonestMove(S: Suite, base: Point, x: Scalar, r: Scalar, c: Scalar)
    requires S.In(r)
    ensures Holds(S, base, S.Mul(base, x), S.Mul(base, r), c, S.Add(r, S.Mul(c, x)))
  {
    hide Mod;
    ResponseRoundTrip(S, r, S.Mul(c, x));
    RealCommitment(S, base, x, S.Mul(base, r), c, S.Add(r, S.Mul(c, x)));
  }

  /** The witness behind two answers to different challenges on one commitment, computed from the scalars alone. */
  function ExtractWitness(S: Suite, c: Scalar, s: Scalar, c': Scalar, s': Scalar): (w: Scalar)
    requires Prime(S.q) && Mod(S.q, c - c') != 0
    ensures S.In(w)
  {
    S.Mul(s - s', Inverse(S.q, c - c'))
  }

  /** Subtracting the two equations cancels the commitment. */
  lemma AnswersSubtracted(S: Suite, base: Point, y: Point, a: Point, c: Scalar, s: Scalar, c': Scalar, s': Scalar)
    requires S.q > 0 && Holds(S, base, y, a, c, s) && Holds(S, base, y, a, c', s')
    ensures Cong(S.q, y * (c - c'), base * (s - s'))
  {
    hide Mod;
    HoldsCong(S, base, y, a, c, s);
    HoldsCong(S, base, y, a, c', s');
    CongSub(S.q, base * s, a + y * c, base * s', a + y * c');
    assert base * s - base * s' == base * (s - s');
    assert a + y * c - (a + y * c') == y * (c - c');
  }

  lemma ExtractionSound(S: Suite, base: Point, y: Point, a: Point, c: Scalar, s: Scalar, c': Scalar, s': Scalar)
    requires Prime(S.q) && S.In(y) && S.In(c) && S.In(c') && c != c'
    requires Holds(S, base, y, a, c, s) && Holds(S, base, y, a, c', s')
    ensures Mod(S.q, c - c') != 0
    ensures y == S.Mul(base, ExtractWitness(S, c, s, c', s'))
  {
    NonzeroDifference(S.q, c, c');
    AnswersSubtracted(S, base, y, a, c, s, c', s');
    hide Mod, Prime, Inverse, Holds;
    var q, d, t, i := S.q, c - c', s - s', Inverse(S.q, c - c');
    DivideCong(q, y, base * t, d);
    Associate(base, t, i);
    ReduceMul(q, base, t * i);
    Canonical(q, y);
  }

  // The six proofs of the protocol, with the field order of their transcripts.

  /** What both proofs of one enrollment are bound to. */
  datatype SetupSession = SetupSession(deviceId: Bytes32, devicePub: Point, serverPub: Point, clientNonce: Bytes32, serverNonce: Bytes32,
                                       challenge: Bytes16)

  function SetupFields(S: Suite, role: string, deviceId: Bytes32, devicePub: Point, serverPub: Point, a: Point,
                       clientNonce: Bytes32, serverNonce: Bytes32, setupChallenge: Bytes16): seq<Field> {
    [Field(Ascii("role"), Ascii(role)),
     Field(Ascii("device_id"), deviceId),
     Field(Ascii("device_pub"), S.compress(devicePub)),
     Field(Ascii("server_pub"), S.compress(serverPub)),
     Field(Ascii("a"), S.compress(a)),
     Field(Ascii("client_nonce"), clientNonce),
     Field(Ascii("server_nonce"), serverNonce),
     Field(Ascii("setup_challenge"), setupChallenge)]
  }

  function SetupChallenge(S: Suite, domain: seq<byte>, role: string, m: SetupSession, a: Point): (c: Scalar)
    requires S.q > 0
    ensures S.In(c)
  {
    S.Challenge(domain, SetupFields(S, role, m.deviceId, m.devicePub, m.serverPub, a, m.clientNonce, m.serverNonce, m.challenge))
  }

  /** The client's enrollment proof and the server's, which differ in the domain, the role name and the key. */
  function ProveSetup(S: Suite, domain: seq<byte>, role: string, x: Scalar, deviceId: Bytes32, devicePub: Point,
                      serverPub: Point, clientNonce: Bytes32, serverNonce: Bytes32, setupChallenge: Bytes16,
                      r: Scalar): (Point, Scalar)
    requires S.q > 0
  {
    var a := S.Mul(BASE, r);
    var c := SetupChallenge(S, domain, role, SetupSession(deviceId, devicePub, serverPub, clientNonce, serverNonce, setupChallenge), a);
    (a, S.Add(r, S.Mul(c, x)))
  }

  predicate VerifySetup(S: Suite, pubkey: Point, deviceId: Bytes32, serverPub: Point, clientNonce: Bytes32,
                        serverNonce: Bytes32, setupChallenge: Bytes16, a: Point, s: Scalar)
    requires S.q > 0
  {
    var c := SetupChallenge(S, T_SETUP, "client", SetupSession(deviceId, pubkey, serverPub, clientNonce, serverNonce, setupChallenge), a);
    VartimeSchnorrCheck(S, BASE, pubkey, a, c, s)
  }

  predicate VerifySetupServer(S: Suite, serverPub: Point, deviceId: Bytes32, devicePub: Point, clientNonce: Bytes32,
                              serverNonce: Bytes32, setupChallenge: Bytes16, a: Point, s: Scalar)
    requires S.q > 0
  {
    var c := SetupChallenge(S, T_SETUP_SERVER, "server", SetupSession(deviceId, devicePub, serverPub, clientNonce, serverNonce, setupChallenge), a);
    Holds(S, BASE, serverPub, a, c, s)
  }

  /** Both enrollment proofs verify on the other side. */
  lemma SetupProofsVerify(S: Suite, x: Scalar, sk: Scalar, deviceId: Bytes32, clientNonce: Bytes32, serverNonce: Bytes32,
                          setupChallenge: Bytes16, r: Scalar, r': Scalar)
    requires S.In(r) && S.In(r')
    ensures var X, P := S.Mul(BASE, x), S.Mul(BASE, sk);
            var (a, s) := ProveSetup(S, T_SETUP, "client", x, deviceId, X, P, clientNonce, serverNonce, setupChallenge, r);
            var (a', s') := ProveSetup(S, T_SETUP_SERVER, "server", sk, deviceId, X, P, clientNonce, serverNonce, setupChallenge, r');
            && VerifySetup(S, X, deviceId, P, clientNonce, serverNonce, setupChallenge, a, s)
            && VerifySetupServer(S, P, deviceId, X, clientNonce, serverNonce, setupChallenge, a', s')
  {
    hide Mod;
    var X, P := S.Mul(BASE, x), S.Mul(BASE, sk);
    var a, a' := S.Mul(BASE, r), S.Mul(BASE, r');
    var m := SetupSession(deviceId, X, P, clientNonce, serverNonce, setupChallenge);
    var c, c' := SetupChallenge(S, T_SETUP, "client", m, a), SetupChallenge(S, T_SETUP_SERVER, "server", m, a');
    HonestMove(S, BASE, x, r, c);
    HonestMove(S, BASE, sk, r', c');
    VartimeCheckIsDirectCheck(S, BASE, X, a, c, S.Add(r, S.Mul(c, x)));
  }

  function AuthFields(S: Suite, pid: Bytes32, pubkey: Point, a: Point, nonceC: Bytes32, ephC: Point): seq<Field> {
    [Field(Ascii("pid"), pid),
     Field(Ascii("pubkey"), S.compress(pubkey)),
     Field(Ascii("a"), S.compress(a)),
     Field(Ascii("nonce_c"), nonceC),
     Field(Ascii("eph_c"), S.compress(ephC))]
  }

  function AuthChallenge(S: Suite, pid: Bytes32, pubkey: Point, a: Point, nonceC: Bytes32, ephC: Point): (c: Scalar)
    requires S.q > 0
    ensures S.In(c)
  {
    S.Challenge(T_CLIENT_V2, AuthFields(S, pid, pubkey, a, nonceC, ephC))
  }

  function ProveAuth(S: Suite, x: Scalar, pid: Bytes32, nonceC: Bytes32, ephC: Point, r: Scalar): (Point, Scalar)
    requires S.q > 0
  {
    var a := S.Mul(BASE, r);
    var c := AuthChallenge(S, pid, S.Mul(BASE, x), a, nonceC, ephC);
    (a, S.Add(r, S.Mul(c, x)))
  }

  predicate VerifyAuth(S: Suite, pubkey: Point, pid: Bytes32, a: Point, s: Scalar, nonceC: Bytes32, ephC: Point)
    requires S.q > 0
  {
    VartimeSchnorrCheck(S, BASE, pubkey, a, AuthChallenge(S, pid, pubkey, a, nonceC, ephC), s)
  }

  function ServerFields(S: Suite, pubkey: Point, a: Point, nonceS: Bytes32, ephS: Point): seq<Field> {
    [Field(Ascii("pubkey"), S.compress(pubkey)),
     Field(Ascii("a"), S.compress(a)),
     Field(Ascii("nonce_s"), nonceS),
     Field(Ascii("eph_s"), S.compress(ephS))]
  }

  function ServerChallenge(S: Suite, pubkey: Point, a: Point, nonceS: Bytes32, ephS: Point): (c: Scalar)
    requires S.q > 0
    ensures S.In(c)
  {
    S.Challenge(T_SERVER, ServerFields(S, pubkey, a, nonceS, ephS))
  }

  function ProveServer(S: Suite, sk: Scalar, nonceS: Bytes32, ephS: Point, r: Scalar): (proof: (Point, Scalar))
    requires S.q > 0
    ensures S.In(proof.0) && S.In(proof.1)
  {
    var a := S.Mul(BASE, r);
    var c := ServerChallenge(S, S.Mul(BASE, sk), a, nonceS, ephS);
    (a, S.Add(r, S.Mul(c, sk)))
  }

  predicate VerifyServer(S: Suite, serverPub: Point, a: Point, s: Scalar, nonceS: Bytes32, ephS: Point)
    requires S.q > 0
  {
    Holds(S, BASE, serverPub, a, ServerChallenge(S, serverPub, a, nonceS, ephS), s)
  }

  /** Both online Schnorr proofs verify on the other side. */
  lemma OnlineProofsVerify(S: Suite, x: Scalar, pid: Bytes32, nonceC: Bytes32, ephC: Point, r: Scalar,
                           sk: Scalar, nonceS: Bytes32, ephS: Point, r': Scalar)
    requires S.In(r) && S.In(r')
    ensures var (a, s) := ProveAuth(S, x, pid, nonceC, ephC, r);
            VerifyAuth(S, S.Mul(BASE, x), pid, a, s, nonceC, ephC)
    ensures var (a', s') := ProveServer(S, sk, nonceS, ephS, r');
            VerifyServer(S, S.Mul(BASE, sk), a', s', nonceS, ephS)
  {
    hide Mod;
    var X, P := S.Mul(BASE, x), S.Mul(BASE, sk);
    var a, a' := S.Mul(BASE, r), S.Mul(BASE, r');
    var c := AuthChallenge(S, pid, X, a, nonceC, ephC);
    var c' := ServerChallenge(S, P, a', nonceS, ephS);
    HonestMove(S, BASE, x, r, c);
    HonestMove(S, BASE, sk, r', c');
    VartimeCheckIsDirectCheck(S, BASE, X, a, c, S.Add(r, S.Mul(c, x)));
  }

  // Role commitments and their re-randomization.

  /** What the online proofs of one session are bound to. */
  datatype Session = Session(pid: Bytes32, nonceC: Bytes32, ephC: Point)

  function MakeRoleCommitment(S: Suite, roleScalar: Scalar, blind: Scalar): Point
    requires S.q > 0
  {
    S.Add(S.Mul(BASE, roleScalar), S.Mul(S.h, blind))
  }

  function RerandomizedCommitment(S: Suite, commitment: Point, delta: Scalar): Point
    requires S.q > 0
  {
    S.Add(commitment, S.Mul(S.h, delta))
  }

  function RerandFields(S: Suite, n: Session, storedC: Point, cPrime: Point, a: Point): seq<Field> {
    [Field(Ascii("pid"), n.pid),
     Field(Ascii("nonce_c"), n.nonceC),
     Field(Ascii("eph_c"), S.compress(n.ephC)),
     Field(Ascii("stored_c"), S.compress(storedC)),
     Field(Ascii("c_prime"), S.compress(cPrime)),
     Field(Ascii("a"), S.compress(a))]
  }

  function RerandChallenge(S: Suite, n: Session, storedC: Point, cPrime: Point, a: Point): (c: Scalar)
    requires S.q > 0
    ensures S.In(c)
  {
    S.Challenge(T_ROLE_RERAND, RerandFields(S, n, storedC, cPrime, a))
  }

  function ProveRoleRerandomization(S: Suite, n: Session, storedC: Point, cPrime: Point, delta: Scalar, r: Scalar): (Point, Scalar)
    requires S.q > 0
  {
    var a := S.Mul(S.h, r);
    (a, S.Add(r, S.Mul(RerandChallenge(S, n, storedC, cPrime, a), delta)))
  }

  predicate VerifyRoleRerandomization(S: Suite, n: Session, storedC: Point, cPrime: Point, a: Point, s: Scalar)
    requires S.q > 0
  {
    VartimeSchnorrCheck(S, S.h, S.Sub(cPrime, storedC), a, RerandChallenge(S, n, storedC, cPrime, a), s)
  }

  /** The difference of the two commitments is the fresh blind, so the re-randomization proof verifies. */
  lemma RerandomizationProofVerifies(S: Suite, n: Session, storedC: Point, delta: Scalar, r: Scalar)
    requires S.In(r) && S.In(storedC)
    ensures var cPrime := RerandomizedCommitment(S, storedC, delta);
            var (a, s) := ProveRoleRerandomization(S, n, storedC, cPrime, delta, r);
            VerifyRoleRerandomization(S, n, storedC, cPrime, a, s)
  {
    hide Mod;
    var t := S.Mul(S.h, delta);
    var cPrime := S.Add(storedC, t);
    assert S.Sub(cPrime, storedC) == t by {
      ResponseRoundTrip(S, t, storedC);
      assert storedC + t == t + storedC;
    }
    var a := S.Mul(S.h, r);
    var c := RerandChallenge(S, n, storedC, cPrime, a);
    HonestMove(S, S.h, delta, r, c);
    VartimeCheckIsDirectCheck(S, S.h, t, a, c, S.Add(r, S.Mul(c, delta)));
  }

  /** Re-randomizing keeps the committed role and shifts the blind. */
  lemma RerandomizedOpening(S: Suite, roleScalar: Scalar, blind: Scalar, delta: Scalar)
    requires S.q > 0
    ensures RerandomizedCommitment(S, MakeRoleCommitment(S, roleScalar, blind), delta)
         == MakeRoleCommitment(S, roleScalar, S.Add(blind, delta))
  {
    hide Mod;
    var q := S.q;
    var g, u, v := BASE * roleScalar, S.h * blind, S.h * delta;
    ReduceSum3(q, g, u, v);
    ReduceMul(q, S.h, blind + delta);
    ReduceAdd(q, Mod(q, g), S.h * (blind + delta));
    ReduceAdd(q, g, S.h * (blind + delta));
    assert S.h * (blind + delta) == u + v;
  }
}
