/**
 What the proofs' challenges are bound to, and what the verifiers accept. Every value that goes
 into a transcript is determined by its bytes, a hash exists that answers any one input alone, and
 each verifier accepts exactly the proofs of its equation.
 */
module ProofBindings {
  import opened Bytes
  import opened PrimeField
  import opened Transcript
  import opened Suites
  import opened Sigma
  import opened RoleMembership

  // The transcripts determine their values.

  predicate Short(fields: seq<Field>) {
    forall f <- fields :: Sized(f)
  }

  /** Equal transcripts have equal messages, position by position. */
  lemma SameMessages(domain: seq<byte>, f: seq<Field>, g: seq<Field>)
    requires |domain| <= 255 && Short(f) && Short(g) && Encode(domain, f) == Encode(domain, g)
    ensures f == g
    ensures forall i :: 0 <= i < |f| ==> f[i].msg == g[i].msg
  {
    EncodeInjective(domain, f, domain, g);
  }

  /** The client's authentication proof covers the pseudonym, the key, the commitment, the nonce and the ephemeral. */
  lemma AuthTranscriptDetermines(S: Suite, pid: Bytes32, pubkey: Point, a: Point, nonceC: Bytes32, ephC: Point,
                                 pid': Bytes32, pubkey': Point, a': Point, nonceC': Bytes32, ephC': Point)
    requires S.Valid() && S.In(pubkey) && S.In(a) && S.In(ephC) && S.In(pubkey') && S.In(a') && S.In(ephC')
    requires Encode(T_CLIENT_V2, AuthFields(S, pid, pubkey, a, nonceC, ephC)) == Encode(T_CLIENT_V2, AuthFields(S, pid', pubkey', a', nonceC', ephC'))
    ensures pid == pid' && pubkey == pubkey' && a == a' && nonceC == nonceC' && ephC == ephC'
  {
    hide Encode, Prime;
    var f, g := AuthFields(S, pid, pubkey, a, nonceC, ephC), AuthFields(S, pid', pubkey', a', nonceC', ephC');
    SameMessages(T_CLIENT_V2, f, g);
    assert f[0].msg == g[0].msg && f[1].msg == g[1].msg && f[2].msg == g[2].msg && f[3].msg == g[3].msg && f[4].msg == g[4].msg;
    EncodingsInjective(S, pubkey, pubkey');
    EncodingsInjective(S, a, a');
    EncodingsInjective(S, ephC, ephC');
  }

  /** The server's proof covers its key, the commitment, its nonce and its ephemeral. */
  lemma ServerTranscriptDetermines(S: Suite, pubkey: Point, a: Point, nonceS: Bytes32, ephS: Point,
                                   pubkey': Point, a': Point, nonceS': Bytes32, ephS': Point)
    requires S.Valid() && S.In(pubkey) && S.In(a) && S.In(ephS) && S.In(pubkey') && S.In(a') && S.In(ephS')
    requires Encode(T_SERVER, ServerFields(S, pubkey, a, nonceS, ephS)) == Encode(T_SERVER, ServerFields(S, pubkey', a', nonceS', ephS'))
    ensures pubkey == pubkey' && a == a' && nonceS == nonceS' && ephS == ephS'
  {
    hide Encode, Prime;
    var f, g := ServerFields(S, pubkey, a, nonceS, ephS), ServerFields(S, pubkey', a', nonceS', ephS');
    SameMessages(T_SERVER, f, g);
    assert f[0].msg == g[0].msg && f[1].msg == g[1].msg && f[2].msg == g[2].msg && f[3].msg == g[3].msg;
    EncodingsInjective(S, pubkey, pubkey');
    EncodingsInjective(S, a, a');
    EncodingsInjective(S, ephS, ephS');
  }

  predicate SetupIn(S: Suite, m: SetupSession, a: Point) {
    S.In(m.devicePub) && S.In(m.serverPub) && S.In(a)
  }

  function SetupTranscript(S: Suite, domain: seq<byte>, role: string, m: SetupSession, a: Point): seq<byte> {
    Encode(domain, SetupFields(S, role, m.deviceId, m.devicePub, m.serverPub, a, m.clientNonce, m.serverNonce, m.challenge))
  }

  /** Both enrollment proofs cover the whole enrollment and the commitment. */
  lemma SetupTranscriptDetermines(S: Suite, domain: seq<byte>, role: string, m: SetupSession, a: Point, m': SetupSession, a': Point)
    requires S.Valid() && |domain| <= 255 && |role| <= 255 && SetupIn(S, m, a) && SetupIn(S, m', a')
    requires SetupTranscript(S, domain, role, m, a) == SetupTranscript(S, domain, role, m', a')
    ensures m == m' && a == a'
  {
    hide Encode, Prime;
    var f := SetupFields(S, role, m.deviceId, m.devicePub, m.serverPub, a, m.clientNonce, m.serverNonce, m.challenge);
    var g := SetupFields(S, role, m'.deviceId, m'.devicePub, m'.serverPub, a', m'.clientNonce, m'.serverNonce, m'.challenge);
    SameMessages(domain, f, g);
    assert f[1].msg == g[1].msg && f[2].msg == g[2].msg && f[3].msg == g[3].msg && f[4].msg == g[4].msg;
    assert f[5].msg == g[5].msg && f[6].msg == g[6].msg && f[7].msg == g[7].msg;
    EncodingsInjective(S, m.devicePub, m'.devicePub);
    EncodingsInjective(S, m.serverPub, m'.serverPub);
    EncodingsInjective(S, a, a');
  }

  /** The re-randomization proof covers the session, both commitments and its own commitment. */
  lemma RerandTranscriptDetermines(S: Suite, n: Session, storedC: Point, cPrime: Point, a: Point,
                                   n': Session, storedC': Point, cPrime': Point, a': Point)
    requires S.Valid() && S.In(n.ephC) && S.In(storedC) && S.In(cPrime) && S.In(a)
    requires S.In(n'.ephC) && S.In(storedC') && S.In(cPrime') && S.In(a')
    requires Encode(T_ROLE_RERAND, RerandFields(S, n, storedC, cPrime, a)) == Encode(T_ROLE_RERAND, RerandFields(S, n', storedC', cPrime', a'))
    ensures n == n' && storedC == storedC' && cPrime == cPrime' && a == a'
  {
    hide Encode, Prime;
    var f, g := RerandFields(S, n, storedC, cPrime, a), RerandFields(S, n', storedC', cPrime', a');
    SameMessages(T_ROLE_RERAND, f, g);
    assert f[0].msg == g[0].msg && f[1].msg == g[1].msg && f[2].msg == g[2].msg;
    assert f[3].msg == g[3].msg && f[4].msg == g[4].msg && f[5].msg == g[5].msg;
    EncodingsInjective(S, n.ephC, n'.ephC);
    EncodingsInjective(S, storedC, storedC');
    EncodingsInjective(S, cPrime, cPrime');
    EncodingsInjective(S, a, a');
  }

  // The membership transcript, whose shape grows with the roles.

  /** What one membership proof is bound to. */
  datatype Membership = Membership(n: Session, cPrime: Point, roles: seq<u64>, points: seq<Point>)

  predicate MembershipIn(S: Suite, m: Membership) {
    && S.In(m.n.ephC) && S.In(m.cPrime) && (forall p <- m.points :: S.In(p))
    && |m.roles| < 0x1_0000_0000_0000_0000 && |m.points| < 0x1_0000_0000_0000_0000
  }

  function MembershipFields(S: Suite, m: Membership): (f: seq<Field>)
    ensures |f| == 4 + |m.roles| + |m.points|
  {
    RoleSetFields(S, m.n, m.cPrime, m.roles, m.points)
  }

  /** Where the roles and the commitments stand among the fields. */
  lemma FieldAt(S: Suite, m: Membership, i: nat)
    requires MembershipIn(S, m) && i < |MembershipFields(S, m)|
    ensures var f := MembershipFields(S, m)[i];
            && Sized(f)
            && (4 <= i < 4 + |m.roles| ==> f.msg == LeBytes(m.roles[i - 4], 8))
            && (4 + |m.roles| <= i ==> f.msg == S.compress(m.points[i - 4 - |m.roles|]))
  {
    var s, r, c := SessionFields(S, m.n, m.cPrime), RoleFields(m.roles), CommitFields(S, m.points);
    if i < 4 {
      assert MembershipFields(S, m)[i] == s[i];
    } else if i < 4 + |m.roles| {
      LabelLength("r_", i - 4);
      assert MembershipFields(S, m)[i] == r[i - 4] == RoleField(m.roles, i - 4);
    } else {
      LabelLength("A_", i - 4 - |m.roles|);
      assert MembershipFields(S, m)[i] == c[i - 4 - |m.roles|] == CommitField(S, m.points, i - 4 - |m.roles|);
    }
  }

  /** Roles take eight bytes and commitments thirty-two, so the fields show how many of each there are. */
  lemma SameShape(S: Suite, m: Membership, m': Membership)
    requires MembershipIn(S, m) && MembershipIn(S, m') && MembershipFields(S, m) == MembershipFields(S, m')
    ensures |m.roles| <= |m'.roles|
  {
    hide MembershipFields, LeBytes, MembershipIn;
    if |m.roles| > |m'.roles| {
      FieldAt(S, m, 4 + |m'.roles|);
      FieldAt(S, m', 4 + |m'.roles|);
      assert false;
    }
  }

  lemma MembershipSession(S: Suite, m: Membership)
    ensures var f := MembershipFields(S, m);
            |f| >= 4 && f[0].msg == m.n.pid && f[1].msg == m.n.nonceC && f[2].msg == S.compress(m.n.ephC) && f[3].msg == S.compress(m.cPrime)
  {
    var s := SessionFields(S, m.n, m.cPrime);
    assert MembershipFields(S, m)[0] == s[0] && MembershipFields(S, m)[1] == s[1];
    assert MembershipFields(S, m)[2] == s[2] && MembershipFields(S, m)[3] == s[3];
  }

  lemma RolesEqual(S: Suite, m: Membership, m': Membership, i: nat)
    requires MembershipIn(S, m) && MembershipIn(S, m') && MembershipFields(S, m) == MembershipFields(S, m')
    requires |m.roles| == |m'.roles| && i < |m.roles|
    ensures m.roles[i] == m'.roles[i]
  {
    hide MembershipFields, LeBytes, LeValue, MembershipIn;
    FieldAt(S, m, 4 + i);
    FieldAt(S, m', 4 + i);
    Pow256Small();
    LeRoundTrip(m.roles[i], 8);
    LeRoundTrip(m'.roles[i], 8);
  }

  lemma PointsEqual(S: Suite, m: Membership, m': Membership, i: nat)
    requires S.Valid() && MembershipIn(S, m) && MembershipIn(S, m') && MembershipFields(S, m) == MembershipFields(S, m')
    requires |m.roles| == |m'.roles| && i < |m.points|
    ensures i < |m'.points| && m.points[i] == m'.points[i]
  {
    hide MembershipFields, LeBytes, Prime;
    FieldAt(S, m, 4 + |m.roles| + i);
    FieldAt(S, m', 4 + |m.roles| + i);
    assert m.points[i] in m.points && m'.points[i] in m'.points;
    EncodingsInjective(S, m.points[i], m'.points[i]);
  }

  /** The membership proof covers the session, the commitment, every role and every branch commitment, and how many there are. */
  lemma MembershipTranscriptDetermines(S: Suite, m: Membership, m': Membership)
    requires S.Valid() && MembershipIn(S, m) && MembershipIn(S, m')
    requires Encode(T_ROLE_SET, MembershipFields(S, m)) == Encode(T_ROLE_SET, MembershipFields(S, m'))
    ensures m == m'
  {
    hide Encode, MembershipFields, LeBytes, Prime;
    var f, g := MembershipFields(S, m), MembershipFields(S, m');
    forall x | x in f ensures Sized(x) {
      var i :| 0 <= i < |f| && f[i] == x;
      FieldAt(S, m, i);
    }
    forall x | x in g ensures Sized(x) {
      var i :| 0 <= i < |g| && g[i] == x;
      FieldAt(S, m', i);
    }
    SameMessages(T_ROLE_SET, f, g);
    SameShape(S, m, m');
    SameShape(S, m', m);
    MembershipSession(S, m);
    MembershipSession(S, m');
    EncodingsInjective(S, m.n.ephC, m'.n.ephC);
    EncodingsInjective(S, m.cPrime, m'.cPrime);
    forall i | 0 <= i < |m.roles| ensures m.roles[i] == m'.roles[i] {
      RolesEqual(S, m, m', i);
    }
    forall i | 0 <= i < |m.points| ensures i < |m'.points| && m.points[i] == m'.points[i] {
      PointsEqual(S, m, m', i);
    }
    assert m.roles == m'.roles && m.points == m'.points;
  }

  // The challenges depend on everything in their transcripts: different inputs get different
  // challenges from some hash.

  /** The same suite with a hash that answers one input with 1 and every other with 0. */
  function Answering(S: Suite, t: seq<byte>): Suite {
    S.(sha512 := b => if b == t then 1 else 0)
  }

  lemma Separated(S: Suite, t: seq<byte>, domain: seq<byte>, f: seq<Field>, g: seq<Field>)
    requires S.q >= 2 && t == Encode(domain, f) && Encode(domain, g) != t
    ensures Answering(S, t).Challenge(domain, f) == 1 && Answering(S, t).Challenge(domain, g) == 0
  {
    hide Encode;
  }

  lemma AuthChallengesSeparate(S: Suite, pid: Bytes32, pubkey: Point, a: Point, nonceC: Bytes32, ephC: Point,
                               pid': Bytes32, pubkey': Point, a': Point, nonceC': Bytes32, ephC': Point) returns (S': Suite)
    requires S.Valid() && S.In(pubkey) && S.In(a) && S.In(ephC) && S.In(pubkey') && S.In(a') && S.In(ephC')
    requires pid != pid' || pubkey != pubkey' || a != a' || nonceC != nonceC' || ephC != ephC'
    ensures S' == S.(sha512 := S'.sha512)
    ensures AuthChallenge(S', pid, pubkey, a, nonceC, ephC) != AuthChallenge(S', pid', pubkey', a', nonceC', ephC')
  {
    hide Encode;
    var f, g := AuthFields(S, pid, pubkey, a, nonceC, ephC), AuthFields(S, pid', pubkey', a', nonceC', ephC');
    if Encode(T_CLIENT_V2, g) == Encode(T_CLIENT_V2, f) {
      AuthTranscriptDetermines(S, pid, pubkey, a, nonceC, ephC, pid', pubkey', a', nonceC', ephC');
    }
    S' := Answering(S, Encode(T_CLIENT_V2, f));
    Separated(S, Encode(T_CLIENT_V2, f), T_CLIENT_V2, f, g);
  }

  lemma ServerChallengesSeparate(S: Suite, pubkey: Point, a: Point, nonceS: Bytes32, ephS: Point,
                                 pubkey': Point, a': Point, nonceS': Bytes32, ephS': Point) returns (S': Suite)
    requires S.Valid() && S.In(pubkey) && S.In(a) && S.In(ephS) && S.In(pubkey') && S.In(a') && S.In(ephS')
    requires pubkey != pubkey' || a != a' || nonceS != nonceS' || ephS != ephS'
    ensures S' == S.(sha512 := S'.sha512)
    ensures ServerChallenge(S', pubkey, a, nonceS, ephS) != ServerChallenge(S', pubkey', a', nonceS', ephS')
  {
    hide Encode;
    var f, g := ServerFields(S, pubkey, a, nonceS, ephS), ServerFields(S, pubkey', a', nonceS', ephS');
    if Encode(T_SERVER, g) == Encode(T_SERVER, f) {
      ServerTranscriptDetermines(S, pubkey, a, nonceS, ephS, pubkey', a', nonceS', ephS');
    }
    S' := Answering(S, Encode(T_SERVER, f));
    Separated(S, Encode(T_SERVER, f), T_SERVER, f, g);
  }

  lemma SetupChallengesSeparate(S: Suite, domain: seq<byte>, role: string, m: SetupSession, a: Point, m': SetupSession, a': Point) returns (S': Suite)
    requires S.Valid() && |domain| <= 255 && |role| <= 255 && SetupIn(S, m, a) && SetupIn(S, m', a')
    requires m != m' || a != a'
    ensures S' == S.(sha512 := S'.sha512)
    ensures SetupChallenge(S', domain, role, m, a) != SetupChallenge(S', domain, role, m', a')
  {
    hide Encode;
    var f := SetupFields(S, role, m.deviceId, m.devicePub, m.serverPub, a, m.clientNonce, m.serverNonce, m.challenge);
    var g := SetupFields(S, role, m'.deviceId, m'.devicePub, m'.serverPub, a', m'.clientNonce, m'.serverNonce, m'.challenge);
    if Encode(domain, g) == Encode(domain, f) {
      SetupTranscriptDetermines(S, domain, role, m, a, m', a');
    }
    S' := Answering(S, Encode(domain, f));
    Separated(S, Encode(domain, f), domain, f, g);
  }

  lemma RerandChallengesSeparate(S: Suite, n: Session, storedC: Point, cPrime: Point, a: Point,
                                 n': Session, storedC': Point, cPrime': Point, a': Point) returns (S': Suite)
    requires S.Valid() && S.In(n.ephC) && S.In(storedC) && S.In(cPrime) && S.In(a)
    requires S.In(n'.ephC) && S.In(storedC') && S.In(cPrime') && S.In(a')
    requires n != n' || storedC != storedC' || cPrime != cPrime' || a != a'
    ensures S' == S.(sha512 := S'.sha512)
    ensures RerandChallenge(S', n, storedC, cPrime, a) != RerandChallenge(S', n', storedC', cPrime', a')
  {
    hide Encode;
    var f, g := RerandFields(S, n, storedC, cPrime, a), RerandFields(S, n', storedC', cPrime', a');
    if Encode(T_ROLE_RERAND, g) == Encode(T_ROLE_RERAND, f) {
      RerandTranscriptDetermines(S, n, storedC, cPrime, a, n', storedC', cPrime', a');
    }
    S' := Answering(S, Encode(T_ROLE_RERAND, f));
    Separated(S, Encode(T_ROLE_RERAND, f), T_ROLE_RERAND, f, g);
  }

  /** In particular no branch commitment can be chosen after the master challenge is known. */
  lemma MasterChallengesSeparate(S: Suite, m: Membership, m': Membership) returns (S': Suite)
    requires S.Valid() && MembershipIn(S, m) && MembershipIn(S, m') && m != m'
    ensures S' == S.(sha512 := S'.sha512)
    ensures MasterChallenge(S', m.n, m.cPrime, m.roles, m.points) != MasterChallenge(S', m'.n, m'.cPrime, m'.roles, m'.points)
  {
    hide Encode;
    var f, g := MembershipFields(S, m), MembershipFields(S, m');
    if Encode(T_ROLE_SET, g) == Encode(T_ROLE_SET, f) {
      MembershipTranscriptDetermines(S, m, m');
    }
    S' := Answering(S, Encode(T_ROLE_SET, f));
    Separated(S, Encode(T_ROLE_SET, f), T_ROLE_SET, f, g);
    HashIsNotInFields(S, S', m);
    HashIsNotInFields(S, S', m');
  }

  lemma HashIsNotInFields(S: Suite, S': Suite, m: Membership)
    requires S' == S.(sha512 := S'.sha512)
    ensures RoleSetFields(S', m.n, m.cPrime, m.roles, m.points) == MembershipFields(S, m)
  {
    assert CommitFields(S', m.points) == CommitFields(S, m.points);
    assert SessionFields(S', m.n, m.cPrime) == SessionFields(S, m.n, m.cPrime);
  }

  // What the verifiers accept: for each challenge and response one commitment, and two answers to
  // different challenges on it give the secret.

  /** Every Schnorr verifier of the protocol accepts exactly one commitment per challenge and response. */
  lemma SchnorrVerifiersAccept(S: Suite, pid: Bytes32, nonceC: Bytes32, ephC: Point, m: SetupSession, key: Point, a: Point, s: Scalar)
    requires S.In(a)
    ensures VerifyAuth(S, key, pid, a, s, nonceC, ephC)
            <==> a == S.Sub(S.Mul(BASE, s), S.Mul(key, AuthChallenge(S, pid, key, a, nonceC, ephC)))
    ensures VerifyServer(S, key, a, s, nonceC, ephC)
            <==> a == S.Sub(S.Mul(BASE, s), S.Mul(key, ServerChallenge(S, key, a, nonceC, ephC)))
    ensures VerifySetup(S, m.devicePub, m.deviceId, m.serverPub, m.clientNonce, m.serverNonce, m.challenge, a, s)
            <==> a == S.Sub(S.Mul(BASE, s), S.Mul(m.devicePub, SetupChallenge(S, T_SETUP, "client", m, a)))
    ensures VerifySetupServer(S, m.serverPub, m.deviceId, m.devicePub, m.clientNonce, m.serverNonce, m.challenge, a, s)
            <==> a == S.Sub(S.Mul(BASE, s), S.Mul(m.serverPub, SetupChallenge(S, T_SETUP_SERVER, "server", m, a)))
  {
    hide Mod, AuthChallenge, ServerChallenge, SetupChallenge, Holds, VartimeSchnorrCheck;
    var c, c' := AuthChallenge(S, pid, key, a, nonceC, ephC), ServerChallenge(S, key, a, nonceC, ephC);
    var d, d' := SetupChallenge(S, T_SETUP, "client", m, a), SetupChallenge(S, T_SETUP_SERVER, "server", m, a);
    SimulatedCommitment(S, BASE, key, a, c, s);
    VartimeCheckIsDirectCheck(S, BASE, key, a, c, s);
    SimulatedCommitment(S, BASE, key, a, c', s);
    SimulatedCommitment(S, BASE, m.devicePub, a, d, s);
    VartimeCheckIsDirectCheck(S, BASE, m.devicePub, a, d, s);
    SimulatedCommitment(S, BASE, m.serverPub, a, d', s);
  }

  /** Two accepted client proofs on one commitment whose challenges differ give the client's secret. */
  lemma AuthExtraction(S: Suite, S': Suite, key: Point, pid: Bytes32, a: Point, s: Scalar, s': Scalar, nonceC: Bytes32, ephC: Point)
    requires Prime(S.q) && S' == S.(sha512 := S'.sha512) && S.In(key)
    requires VerifyAuth(S, key, pid, a, s, nonceC, ephC) && VerifyAuth(S', key, pid, a, s', nonceC, ephC)
    requires AuthChallenge(S, pid, key, a, nonceC, ephC) != AuthChallenge(S', pid, key, a, nonceC, ephC)
    ensures var c, c' := AuthChallenge(S, pid, key, a, nonceC, ephC), AuthChallenge(S', pid, key, a, nonceC, ephC);
            Mod(S.q, c - c') != 0 && key == S.Mul(BASE, ExtractWitness(S, c, s, c', s'))
  {
    hide Mod, Prime, AuthChallenge, VartimeSchnorrCheck;
    var c, c' := AuthChallenge(S, pid, key, a, nonceC, ephC), AuthChallenge(S', pid, key, a, nonceC, ephC);
    VartimeCheckIsDirectCheck(S, BASE, key, a, c, s);
    VartimeCheckIsDirectCheck(S', BASE, key, a, c', s');
    ExtractionSound(S, BASE, key, a, c, s, c', s');
  }

  /** The same for the server's proof. */
  lemma ServerExtraction(S: Suite, S': Suite, key: Point, a: Point, s: Scalar, s': Scalar, nonceS: Bytes32, ephS: Point)
    requires Prime(S.q) && S' == S.(sha512 := S'.sha512) && S.In(key)
    requires VerifyServer(S, key, a, s, nonceS, ephS) && VerifyServer(S', key, a, s', nonceS, ephS)
    requires ServerChallenge(S, key, a, nonceS, ephS) != ServerChallenge(S', key, a, nonceS, ephS)
    ensures var c, c' := ServerChallenge(S, key, a, nonceS, ephS), ServerChallenge(S', key, a, nonceS, ephS);
            Mod(S.q, c - c') != 0 && key == S.Mul(BASE, ExtractWitness(S, c, s, c', s'))
  {
    hide Mod, Prime, ServerChallenge;
    var c, c' := ServerChallenge(S, key, a, nonceS, ephS), ServerChallenge(S', key, a, nonceS, ephS);
    ExtractionSound(S, BASE, key, a, c, s, c', s');
  }

  /** And for enrollment. */
  lemma SetupExtraction(S: Suite, S': Suite, m: SetupSession, a: Point, s: Scalar, s': Scalar)
    requires Prime(S.q) && S' == S.(sha512 := S'.sha512) && S.In(m.devicePub)
    requires VerifySetup(S, m.devicePub, m.deviceId, m.serverPub, m.clientNonce, m.serverNonce, m.challenge, a, s)
    requires VerifySetup(S', m.devicePub, m.deviceId, m.serverPub, m.clientNonce, m.serverNonce, m.challenge, a, s')
    requires SetupChallenge(S, T_SETUP, "client", m, a) != SetupChallenge(S', T_SETUP, "client", m, a)
    ensures var c, c' := SetupChallenge(S, T_SETUP, "client", m, a), SetupChallenge(S', T_SETUP, "client", m, a);
            Mod(S.q, c - c') != 0 && m.devicePub == S.Mul(BASE, ExtractWitness(S, c, s, c', s'))
  {
    hide Mod, Prime, SetupChallenge, VartimeSchnorrCheck;
    var c, c' := SetupChallenge(S, T_SETUP, "client", m, a), SetupChallenge(S', T_SETUP, "client", m, a);
    VartimeCheckIsDirectCheck(S, BASE, m.devicePub, a, c, s);
    VartimeCheckIsDirectCheck(S', BASE, m.devicePub, a, c', s');
    ExtractionSound(S, BASE, m.devicePub, a, c, s, c', s');
  }

  /** The Rust membership verifier accepts exactly what an honest prover can send, without identity commitments. */
  lemma MembershipVerifierAccepts(S: Suite, n: Session, cPrime: Point, roles: seq<u64>, k: nat, proof: seq<Branch>)
    requires S.Valid() && k < |roles| && WellFormed(S, proof)
    ensures RustAccepts(S, n, cPrime, roles, proof) <==>
            Sendable(S, n, cPrime, roles, k, OpeningFor(S, cPrime, roles[k]), proof) && forall b <- proof :: b.a != IDENTITY
  {
    hide Mod, Prime, OrEquations, Sendable, OpeningFor;
    OpeningForOpens(S, cPrime, roles, k);
    SendableIsAccepted(S, n, cPrime, roles, k, OpeningFor(S, cPrime, roles[k]), proof);
  }

  /** The scalar that re-randomizes one commitment to another. */
  function DeltaTo(S: Suite, commitment: Point, target: Point): (delta: Scalar)
    requires Prime(S.q) && 0 < S.h < S.q
    ensures S.In(delta)
  {
    Canonical(S.q, S.h);
    S.Mul(S.Sub(target, commitment), Inverse(S.q, S.h))
  }

  /** Any commitment of the group is reached from any other by exactly one re-randomization, so C' alone says nothing. */
  lemma RerandomizationHides(S: Suite, commitment: Point, target: Point, delta: Scalar)
    requires S.Valid() && S.In(commitment) && S.In(target) && S.In(delta)
    ensures RerandomizedCommitment(S, commitment, delta) == target
            <==> delta == DeltaTo(S, commitment, target)
  {
    hide Mod, Prime, Inverse;
    var q, d := S.q, S.Sub(target, commitment);
    Canonical(q, S.h);
    Canonical(q, delta);
    Canonical(q, d);
    if RerandomizedCommitment(S, commitment, delta) == target {
      ResponseRoundTrip(S, S.Mul(S.h, delta), commitment);
      assert S.Mul(S.h, delta) + commitment == commitment + S.Mul(S.h, delta);
      assert S.h * delta == delta * S.h;
      Reduce(q, delta * S.h);
      DivideCong(q, delta, d, S.h);
    }
    if delta == DeltaTo(S, commitment, target) {
      Undivide(q, S.h, d);
      ResponseRoundTrip(S, target, commitment);
      assert S.Mul(S.h, delta) + commitment == commitment + S.Mul(S.h, delta);
    }
  }

  lemma Undivide(q: int, h: int, d: int)
    requires Prime(q) && Mod(q, h) != 0 && 0 <= d < q
    ensures Mod(q, h * Mod(q, d * Inverse(q, h))) == d
  {
    hide Mod, Prime, Inverse;
    var i := Inverse(q, h);
    ReduceMul(q, h, d * i);
    Associate(d, h, i);
    assert h * (d * i) == d * (h * i) by {
      Associate(h, d, i);
      assert h * d == d * h;
    }
    ReduceMul(q, d, h * i);
    assert d * 1 == d;
    Canonical(q, d);
  }
}
