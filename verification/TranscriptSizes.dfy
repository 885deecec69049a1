/** How large the transcripts of the protocol get, measured against the C programs' fixed buffer. */
module TranscriptSizes {
  import opened Bytes
  import opened Transcript
  import opened Suites
  import opened Sigma
  import opened RoleMembership
  import Handshake

  function FieldSizes(fields: seq<Field>): nat {
    if fields == [] then 0
    else
      var last := fields[|fields| - 1];
      FieldSizes(fields[..|fields| - 1]) + 5 + |last.name| + |last.msg|
  }

  lemma {:induction false} EncodedSize(domain: seq<byte>, fields: seq<Field>)
    ensures |Encode(domain, fields)| == 1 + |domain| + FieldSizes(fields)
  {
    if fields != [] {
      var m := |fields| - 1;
      EncodedSize(domain, fields[..m]);
      EncodeAppend(domain, fields[..m], fields[m]);
      assert fields[..m] + [fields[m]] == fields;
    }
  }

  lemma {:induction false} SizesAdd(f: seq<Field>, g: seq<Field>)
    ensures FieldSizes(f + g) == FieldSizes(f) + FieldSizes(g)
  {
    if g == [] {
      assert f + g == f;
    } else {
      var m := |g| - 1;
      SizesAdd(f, g[..m]);
      assert (f + g)[..|f + g| - 1] == f + g[..m];
    }
  }

  /** The digits in the indices below `n`. */
  function IndexDigits(n: nat): nat {
    if n == 0 then 0 else IndexDigits(n - 1) + |Decimal(n - 1)|
  }

  lemma {:induction false} IndexDigitsAre(n: nat)
    ensures n <= 10 ==> IndexDigits(n) == n
    ensures 10 <= n <= 100 ==> IndexDigits(n) == 2 * n - 10
    ensures 10 <= n ==> IndexDigits(n) >= 2 * n - 10
  {
    if n > 0 {
      IndexDigitsAre(n - 1);
      assert n > 10 ==> |Decimal((n - 1) / 10)| >= 1;
    }
  }

  lemma {:induction false} RoleFieldSizes(roles: seq<u64>)
    ensures FieldSizes(RoleFields(roles)) == 15 * |roles| + IndexDigits(|roles|)
  {
    if roles != [] {
      var m := |roles| - 1;
      RoleFieldSizes(roles[..m]);
      assert RoleFields(roles)[..m] == RoleFields(roles[..m]);
      assert |Ascii("r_")| == 2;
    }
  }

  lemma {:induction false} CommitFieldSizes(S: Suite, points: seq<Point>)
    ensures FieldSizes(CommitFields(S, points)) == 39 * |points| + IndexDigits(|points|)
  {
    if points != [] {
      var m := |points| - 1;
      CommitFieldSizes(S, points[..m]);
      assert CommitFields(S, points)[..m] == CommitFields(S, points[..m]);
      assert |Ascii("A_")| == 2;
    }
  }

  /** The membership transcript grows with the roles; it fits the C buffer for up to 67 of them and for no more. */
  lemma RoleSetFitsIff(S: Suite, n: Session, cPrime: Point, roles: seq<u64>, points: seq<Point>)
    requires |points| == |roles|
    ensures |Encode(T_ROLE_SET, RoleSetFields(S, n, cPrime, roles, points))| == 189 + 54 * |roles| + 2 * IndexDigits(|roles|)
    ensures |Encode(T_ROLE_SET, RoleSetFields(S, n, cPrime, roles, points))| <= C_BUFFER <==> |roles| <= 67
  {
    EncodedSize(T_ROLE_SET, RoleSetFields(S, n, cPrime, roles, points));
    var s, r, c := SessionFields(S, n, cPrime), RoleFields(roles), CommitFields(S, points);
    SizesAdd(s + r, c);
    SizesAdd(s, r);
    RoleFieldSizes(roles);
    CommitFieldSizes(S, points);
    FourFields(s);
    assert FieldSizes(s) == 20 + |Ascii("pid")| + |Ascii("nonce_c")| + |Ascii("eph_c")| + |Ascii("c_prime")| + 128;
    IndexDigitsAre(|roles|);
  }

  lemma FourFields(f: seq<Field>)
    requires |f| == 4
    ensures FieldSizes(f) == 20 + |f[0].name| + |f[1].name| + |f[2].name| + |f[3].name| + |f[0].msg| + |f[1].msg| + |f[2].msg| + |f[3].msg|
  {
    assert f[..3][..2] == f[..2] && f[..2][..1] == f[..1] && f[..1][..0] == [];
    assert FieldSizes(f[..1]) == 5 + |f[0].name| + |f[0].msg|;
    assert FieldSizes(f[..2]) == FieldSizes(f[..1]) + 5 + |f[1].name| + |f[1].msg|;
    assert FieldSizes(f[..3]) == FieldSizes(f[..2]) + 5 + |f[2].name| + |f[2].msg|;
  }

  /** Short labels and short messages take a short transcript. */
  lemma {:induction false} ShortFields(fields: seq<Field>)
    requires forall f <- fields :: |f.name| <= 20 && |f.msg| <= 32
    ensures FieldSizes(fields) <= 57 * |fields|
  {
    if fields != [] {
      ShortFields(fields[..|fields| - 1]);
    }
  }

  lemma ShortTranscriptFits(domain: seq<byte>, fields: seq<Field>)
    requires |domain| <= 32 && |fields| <= 10
    requires forall f <- fields :: |f.name| <= 20 && |f.msg| <= 32
    ensures |Encode(domain, fields)| <= C_BUFFER
  {
    EncodedSize(domain, fields);
    ShortFields(fields);
  }

  lemma SetupTranscriptFits(S: Suite, role: string, deviceId: Bytes32, p1: Point, p2: Point, p3: Point, b1: Bytes32, b2: Bytes32, challenge: Bytes16)
    requires |role| <= 32
    ensures |Encode(T_SETUP, SetupFields(S, role, deviceId, p1, p2, p3, b1, b2, challenge))| <= C_BUFFER
    ensures |Encode(T_SETUP_SERVER, SetupFields(S, role, deviceId, p1, p2, p3, b1, b2, challenge))| <= C_BUFFER
  {
    hide Encode;
    ShortTranscriptFits(T_SETUP, SetupFields(S, role, deviceId, p1, p2, p3, b1, b2, challenge));
    ShortTranscriptFits(T_SETUP_SERVER, SetupFields(S, role, deviceId, p1, p2, p3, b1, b2, challenge));
  }

  lemma OnlineTranscriptsFit(S: Suite, n: Session, b1: Bytes32, b2: Bytes32, p1: Point, p2: Point, p3: Point)
    ensures |Encode(T_CLIENT_V2, AuthFields(S, b1, p1, p2, b2, p3))| <= C_BUFFER
    ensures |Encode(T_SERVER, ServerFields(S, p1, p2, b1, p3))| <= C_BUFFER
    ensures |Encode(T_ROLE_RERAND, RerandFields(S, n, p1, p2, p3))| <= C_BUFFER
  {
    hide Encode;
    ShortTranscriptFits(T_CLIENT_V2, AuthFields(S, b1, p1, p2, b2, p3));
    ShortTranscriptFits(T_SERVER, ServerFields(S, p1, p2, b1, p3));
    ShortTranscriptFits(T_ROLE_RERAND, RerandFields(S, n, p1, p2, p3));
  }

  lemma ConfirmationTranscriptFits(S: Suite, k: Handshake.KcState)
    requires Handshake.ScalarsIn(S, k)
    ensures |Encode(T_KC_V2, Handshake.KcFields(S, k))| <= C_BUFFER
  {
    hide Encode, LeBytes;
    ShortTranscriptFits(T_KC_V2, Handshake.KcFields(S, k));
  }
}
