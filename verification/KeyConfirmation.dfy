/**
 What the finished tags guarantee. A tag check that passes means both sides agree on the whole
 session, or two named inputs have been exhibited on which SHA-256 or HMAC collides. No property
 of the hash functions is presumed: the collisions are computed from the two sessions.
 */
module KeyConfirmation {
  import opened Bytes
  import opened Transcript
  import opened Suites
  import opened Sigma
  import opened Handshake
  import Hkdf

  // Collisions.

  datatype MacInput = MacInput(key: seq<byte>, msg: seq<byte>)

  predicate MacCollision(S: Suite, a: MacInput, b: MacInput) {
    a != b && S.hmac(a.key, a.msg) == S.hmac(b.key, b.msg)
  }

  /** One side's view when it computes a tag: the confirmed state and the session key. */
  datatype Side = Side(k: KcState, sessionKey: Bytes32)

  predicate SideIn(S: Suite, x: Side) {
    && S.In(x.k.sC) && S.In(x.k.sS)
    && S.In(x.k.aC) && S.In(x.k.n.ephC) && S.In(x.k.serverPub) && S.In(x.k.aS) && S.In(x.k.ephS)
  }

  function KcTranscript(S: Suite, x: Side): seq<byte>
    requires SideIn(S, x)
  {
    Encode(T_KC_V2, KcFields(S, x.k))
  }

  // The HMAC inputs along the key schedule of one direction, outermost first.

  function TagInput(S: Suite, x: Side, direction: seq<byte>, finished: seq<byte>): MacInput
    requires SideIn(S, x)
  {
    var th := KcTranscriptHash(S, x.k);
    MacInput(KcKey(S, x.sessionKey, th, direction), finished + th)
  }

  function ExpandInput(S: Suite, x: Side, direction: seq<byte>): MacInput
    requires SideIn(S, x)
  {
    MacInput(Hkdf.Extract(S.hmac, KcTranscriptHash(S, x.k), x.sessionKey), direction + [1])
  }

  function ExtractInput(S: Suite, x: Side): MacInput
    requires SideIn(S, x)
  {
    MacInput(KcTranscriptHash(S, x.k), x.sessionKey)
  }

  /** The two sides' computations exhibit a collision. */
  predicate Broken(S: Suite, x: Side, y: Side, direction: seq<byte>, finished: seq<byte>)
    requires SideIn(S, x) && SideIn(S, y)
  {
    || MacCollision(S, TagInput(S, x, direction, finished), TagInput(S, y, direction, finished))
    || MacCollision(S, ExpandInput(S, x, direction), ExpandInput(S, y, direction))
    || MacCollision(S, ExtractInput(S, x), ExtractInput(S, y))
    || HashCollision(S, KcTranscript(S, x), KcTranscript(S, y))
  }

  /** The transcript determines every value in it. */
  lemma TranscriptDetermines(S: Suite, x: Side, y: Side)
    requires S.Valid() && SideIn(S, x) && SideIn(S, y)
    ensures KcTranscript(S, x) == KcTranscript(S, y) ==> x.k == y.k
  {
    if KcTranscript(S, x) == KcTranscript(S, y) {
      var f, g := KcFields(S, x.k), KcFields(S, y.k);
      SameFields(f, g);
      assert forall i :: 0 <= i < |f| ==> f[i].msg == g[i].msg;
      SameMessages(S, x.k, y.k);
    }
  }

  lemma SameFields(f: seq<Field>, g: seq<Field>)
    requires forall x <- f :: Sized(x)
    requires forall x <- g :: Sized(x)
    ensures Encode(T_KC_V2, f) == Encode(T_KC_V2, g) ==> f == g
  {
    if Encode(T_KC_V2, f) == Encode(T_KC_V2, g) {
      EncodeInjective(T_KC_V2, f, T_KC_V2, g);
    }
  }

  lemma SameMessages(S: Suite, k: KcState, k': KcState)
    requires S.Valid() && SideIn(S, Side(k, k.nonceS)) && SideIn(S, Side(k', k.nonceS))
    requires KcFields(S, k) == KcFields(S, k')
    ensures k == k'
  {
    hide LeBytes;
    var f, g := KcFields(S, k), KcFields(S, k');
    assert f[0].msg == g[0].msg && f[3].msg == g[3].msg && f[8].msg == g[8].msg;
    assert f[1].msg == g[1].msg && f[2].msg == g[2].msg && f[4].msg == g[4].msg;
    assert f[5].msg == g[5].msg && f[6].msg == g[6].msg && f[7].msg == g[7].msg && f[9].msg == g[9].msg;
    EncodingsInjective(S, k.aC, k'.aC);
    EncodingsInjective(S, k.sC, k'.sC);
    EncodingsInjective(S, k.n.ephC, k'.n.ephC);
    EncodingsInjective(S, k.serverPub, k'.serverPub);
    EncodingsInjective(S, k.aS, k'.aS);
    EncodingsInjective(S, k.sS, k'.sS);
    EncodingsInjective(S, k.ephS, k'.ephS);
  }

  /** Equal tags of one direction: the same state and the same session key, or a collision. */
  lemma EqualTagsAgree(S: Suite, x: Side, y: Side, direction: seq<byte>, finished: seq<byte>)
    requires S.Valid() && SideIn(S, x) && SideIn(S, y)
    requires FinishedTag(S, x.sessionKey, KcTranscriptHash(S, x.k), direction, finished)
          == FinishedTag(S, y.sessionKey, KcTranscriptHash(S, y.k), direction, finished)
    ensures x == y || Broken(S, x, y, direction, finished)
  {
    hide KcFields, Encode;
    if !Broken(S, x, y, direction, finished) {
      var th, th' := KcTranscriptHash(S, x.k), KcTranscriptHash(S, y.k);
      assert TagInput(S, x, direction, finished) == TagInput(S, y, direction, finished);
      assert (finished + th)[|finished|..] == th && (finished + th')[|finished|..] == th';
      assert ExpandInput(S, x, direction) == ExpandInput(S, y, direction);
      assert ExtractInput(S, x) == ExtractInput(S, y);
      assert KcTranscript(S, x) == KcTranscript(S, y);
      TranscriptDetermines(S, x, y);
    }
  }

  /** The client's half: when it accepts an answer carrying the server's tag, both hold the same session. */
  lemma ClientAgreesWithServer(S: Suite, pinned: Point, ephSecret: Scalar, r: Request, pt2: seq<byte>, server: Side)
    requires S.Valid() && S.In(r.sC) && S.In(r.aC) && S.In(r.n.ephC) && |pt2| == 192 && SideIn(S, server)
    requires ClientFinish(S, pinned, ephSecret, r, pt2).Ok?
    requires pt2[160..192] == TagS(S, server.sessionKey, server.k)
    ensures var c := ClientFinish(S, pinned, ephSecret, r, pt2).value;
            && SideIn(S, Side(c.k, c.sessionKey))
            && (|| (c.k == server.k && c.sessionKey == server.sessionKey)
                || Broken(S, Side(c.k, c.sessionKey), server, S2C, SERVER_FINISHED))
  {
    hide KcFields, Encode, Broken, KcKey, VerifyServer, SessionKey, LeBytes, LeValue;
    var c := ClientFinish(S, pinned, ephSecret, r, pt2).value;
    EqualTagsAgree(S, Side(c.k, c.sessionKey), server, S2C, SERVER_FINISHED);
  }

  /** The server's half: when the tag it receives is the one a client computed and it matches, both hold the same session. */
  lemma ServerAgreesWithClient(S: Suite, server: Side, client: Side, tagC: Bytes32)
    requires S.Valid() && SideIn(S, server) && SideIn(S, client)
    requires tagC == TagC(S, client.sessionKey, client.k)
    requires tagC == TagC(S, server.sessionKey, server.k)
    ensures client == server || Broken(S, client, server, C2S, CLIENT_FINISHED)
  {
    hide KcFields, Encode, Broken, KcKey;
    EqualTagsAgree(S, client, server, C2S, CLIENT_FINISHED);
  }

  /** A tag sent back in the other direction is refused, unless HMAC collides on the two tags' inputs, which always differ. */
  lemma TagsDoNotReflect(S: Suite, x: Side, y: Side)
    requires SideIn(S, x) && SideIn(S, y)
    ensures TagInput(S, x, S2C, SERVER_FINISHED) != TagInput(S, y, C2S, CLIENT_FINISHED)
    ensures TagS(S, x.sessionKey, x.k) == TagC(S, y.sessionKey, y.k) ==>
            MacCollision(S, TagInput(S, x, S2C, SERVER_FINISHED), TagInput(S, y, C2S, CLIENT_FINISHED))
  {
    hide KcFields, Encode, KcKey;
    var a, b := TagInput(S, x, S2C, SERVER_FINISHED), TagInput(S, y, C2S, CLIENT_FINISHED);
    assert a.msg[0] == SERVER_FINISHED[0] && b.msg[0] == CLIENT_FINISHED[0];
  }

  /** The two directions have different keys, unless HMAC collides on the two expansions, whose inputs always differ. */
  lemma DirectionKeysSeparate(S: Suite, x: Side)
    requires SideIn(S, x)
    ensures ExpandInput(S, x, S2C) != ExpandInput(S, x, C2S)
    ensures var th := KcTranscriptHash(S, x.k);
            KcKey(S, x.sessionKey, th, S2C) == KcKey(S, x.sessionKey, th, C2S) ==>
              MacCollision(S, ExpandInput(S, x, S2C), ExpandInput(S, x, C2S))
  {
    hide KcTranscriptHash;
    assert (S2C + [1])[3] == S2C[3] && (C2S + [1])[3] == C2S[3];
  }

  // From the session key down to the Diffie-Hellman point.

  function SessionExtractInput(S: Suite, n: Session, nonceS: Bytes32, shared: Point): MacInput {
    MacInput(n.nonceC + nonceS, S.compress(shared))
  }

  function SessionExpandInput(S: Suite, n: Session, nonceS: Bytes32, ephS: Point, shared: Point): MacInput {
    MacInput(Hkdf.Extract(S.hmac, n.nonceC + nonceS, S.compress(shared)),
             Ascii("session key v2") + n.pid + S.compress(n.ephC) + S.compress(ephS) + [1])
  }

  /** Equal session keys come from the same session, the same server nonce and ephemeral, and the same shared point, or HMAC collides. */
  lemma EqualSessionKeysAgree(S: Suite, shared: Point, n: Session, nonceS: Bytes32, ephS: Point,
                              shared': Point, n': Session, nonceS': Bytes32, ephS': Point)
    requires S.Valid()
    requires S.In(shared) && S.In(n.ephC) && S.In(ephS) && S.In(shared') && S.In(n'.ephC) && S.In(ephS')
    requires SessionKey(S, shared, n, nonceS, ephS) == SessionKey(S, shared', n', nonceS', ephS')
    ensures || (shared == shared' && n == n' && nonceS == nonceS' && ephS == ephS')
            || MacCollision(S, SessionExpandInput(S, n, nonceS, ephS, shared), SessionExpandInput(S, n', nonceS', ephS', shared'))
            || MacCollision(S, SessionExtractInput(S, n, nonceS, shared), SessionExtractInput(S, n', nonceS', shared'))
  {
    var outer, outer' := SessionExpandInput(S, n, nonceS, ephS, shared), SessionExpandInput(S, n', nonceS', ephS', shared');
    var inner, inner' := SessionExtractInput(S, n, nonceS, shared), SessionExtractInput(S, n', nonceS', shared');
    if outer == outer' && inner == inner' {
      SplitInfo(Ascii("session key v2"), n.pid, S.compress(n.ephC), S.compress(ephS));
      SplitInfo(Ascii("session key v2"), n'.pid, S.compress(n'.ephC), S.compress(ephS'));
      assert inner.key[..32] == n.nonceC && inner'.key[..32] == n'.nonceC;
      assert inner.key[32..] == nonceS && inner'.key[32..] == nonceS';
      EncodingsInjective(S, shared, shared');
      EncodingsInjective(S, n.ephC, n'.ephC);
      EncodingsInjective(S, ephS, ephS');
    }
  }

  lemma SplitInfo(prefix: seq<byte>, pid: Bytes32, ephC: Bytes32, ephS: Bytes32)
    ensures var info, l := prefix + pid + ephC + ephS + [1], |prefix|;
            info[l..l + 32] == pid && info[l + 32..l + 64] == ephC && info[l + 64..l + 96] == ephS
  {
  }
}
