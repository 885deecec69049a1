/**
 The OR-proof that a commitment hides one of the allowed roles: the provers and verifiers
 of both languages as the loops they are, and what the proofs show and hide.
 */
module RoleMembership {
  import opened Bytes
  import opened PrimeField
  import opened Transcript
  import opened Suites
  import opened Sigma

  type u64 = r: int | 0 <= r < 0x1_0000_0000_0000_0000

  datatype Branch = Branch(a: Point, c: Scalar, s: Scalar)

  /** One prover run's random scalars; the entries of `cs` and `ss` at the true index are unused. */
  datatype OrRandomness = OrRandomness(w: Scalar, cs: seq<Scalar>, ss: seq<Scalar>)

  function Decimal(i: nat): seq<byte> {
    if i < 10 then [48 + i] else Decimal(i / 10) + [48 + i % 10]
  }

  function Pow10(k: nat): nat {
    if k == 0 then 1 else 10 * Pow10(k - 1)
  }

  lemma {:induction false} DecimalLength(i: nat, k: nat)
    requires 1 <= k && i < Pow10(k)
    ensures |Decimal(i)| <= k
  {
    if i >= 10 {
      DecimalLength(i / 10, k - 1);
    }
  }

  /** Indices are machine words, so a label stays far below 255 bytes. */
  lemma LabelLength(prefix: string, i: nat)
    requires |prefix| == 2 && i < 0x1_0000_0000_0000_0000
    ensures |Ascii(prefix) + Decimal(i)| <= 22
  {
    assert Pow10(20) > 0x1_0000_0000_0000_0000 by {
      assert Pow10(4) == 10_000;
      assert Pow10(8) == 10_000 * Pow10(4);
      assert Pow10(12) == 10_000 * Pow10(8);
      assert Pow10(16) == 10_000 * Pow10(12);
      assert Pow10(20) == 10_000 * Pow10(16);
    }
    DecimalLength(i, 20);
  }

  function RoleField(roles: seq<u64>, i: nat): Field
    requires i < |roles|
  {
    Field(Ascii("r_") + Decimal(i), LeBytes(roles[i], 8))
  }

  function CommitField(S: Suite, points: seq<Point>, i: nat): Field
    requires i < |points|
  {
    Field(Ascii("A_") + Decimal(i), S.compress(points[i]))
  }

  function SessionFields(S: Suite, n: Session, cPrime: Point): seq<Field> {
    [Field(Ascii("pid"), n.pid),
     Field(Ascii("nonce_c"), n.nonceC),
     Field(Ascii("eph_c"), S.compress(n.ephC)),
     Field(Ascii("c_prime"), S.compress(cPrime))]
  }

  function RoleFields(roles: seq<u64>): seq<Field> {
    seq(|roles|, i requires 0 <= i < |roles| => RoleField(roles, i))
  }

  function CommitFields(S: Suite, points: seq<Point>): seq<Field> {
    seq(|points|, i requires 0 <= i < |points| => CommitField(S, points, i))
  }

  function RoleSetFields(S: Suite, n: Session, cPrime: Point, roles: seq<u64>, points: seq<Point>): seq<Field> {
    SessionFields(S, n, cPrime) + RoleFields(roles) + CommitFields(S, points)
  }

  function MasterChallenge(S: Suite, n: Session, cPrime: Point, roles: seq<u64>, points: seq<Point>): (c: Scalar)
    requires S.q > 0
    ensures S.In(c)
  {
    S.Challenge(T_ROLE_SET, RoleSetFields(S, n, cPrime, roles, points))
  }

  /** Both languages' loops over the transcript. */
  method RoleSetTranscript(S: Suite, n: Session, cPrime: Point, roles: seq<u64>, points: seq<Point>) returns (t: CompatTranscript)
    requires |roles| < 0x1_0000_0000_0000_0000 && |points| < 0x1_0000_0000_0000_0000
    ensures fresh(t) && t.buf == Encode(T_ROLE_SET, RoleSetFields(S, n, cPrime, roles, points))
  {
    t := BuildTranscript(T_ROLE_SET, SessionFields(S, n, cPrime));
    ghost var fs := SessionFields(S, n, cPrime);
    for i := 0 to |roles|
      invariant fresh(t) && t.buf == Encode(T_ROLE_SET, fs)
      invariant fs == SessionFields(S, n, cPrime) + RoleFields(roles)[..i]
    {
      LabelLength("r_", i);
      EncodeAppend(T_ROLE_SET, fs, RoleField(roles, i));
      t.AppendMessage(Ascii("r_") + Decimal(i), LeBytes(roles[i], 8));
      fs := fs + [RoleField(roles, i)];
    }
    for i := 0 to |points|
      invariant fresh(t) && t.buf == Encode(T_ROLE_SET, fs)
      invariant fs == SessionFields(S, n, cPrime) + RoleFields(roles) + CommitFields(S, points)[..i]
    {
      LabelLength("A_", i);
      EncodeAppend(T_ROLE_SET, fs, CommitField(S, points, i));
      t.AppendMessage(Ascii("A_") + Decimal(i), S.compress(points[i]));
      fs := fs + [CommitField(S, points, i)];
    }
    assert CommitFields(S, points)[..|points|] == CommitFields(S, points);
  }

  function Sum(cs: seq<int>): int {
    if cs == [] then 0 else Sum(cs[..|cs| - 1]) + cs[|cs| - 1]
  }

  lemma {:induction false} SumUpdate(cs: seq<int>, k: nat, v: int)
    requires k < |cs|
    ensures Sum(cs[k := v]) == Sum(cs) - cs[k] + v
  {
    var m := |cs| - 1;
    var front := cs[..m];
    if k < m {
      SumUpdate(front, k, v);
      assert cs[k := v][..m] == front[k := v];
    } else {
      assert cs[k := v][..m] == front;
    }
  }

  function Points(proof: seq<Branch>): (r: seq<Point>)
    ensures |r| == |proof|
  {
    seq(|proof|, i requires 0 <= i < |proof| => proof[i].a)
  }

  function Challenges(proof: seq<Branch>): (r: seq<Scalar>)
    ensures |r| == |proof|
  {
    seq(|proof|, i requires 0 <= i < |proof| => proof[i].c)
  }

  /** `Y_i = C' - g*r_i`, which is `h` times the blind exactly when the commitment holds role `r_i`. */
  function Target(S: Suite, cPrime: Point, role: u64): (y: Point)
    requires S.q > 0
    ensures S.In(y)
  {
    S.Sub(cPrime, S.Mul(BASE, role))
  }

  predicate BranchHolds(S: Suite, cPrime: Point, role: u64, b: Branch)
    requires S.q > 0
  {
    Holds(S, S.h, Target(S, cPrime, role), b.a, b.c, b.s)
  }

  predicate WellFormed(S: Suite, proof: seq<Branch>) {
    forall b <- proof :: S.In(b.a) && S.In(b.c) && S.In(b.s)
  }

  /** The challenges add up to the master challenge and every branch equation holds. */
  predicate OrEquations(S: Suite, n: Session, cPrime: Point, roles: seq<u64>, proof: seq<Branch>)
    requires S.q > 0
  {
    && |proof| == |roles|
    && Mod(S.q, Sum(Challenges(proof))) == MasterChallenge(S, n, cPrime, roles, Points(proof))
    && forall i :: 0 <= i < |roles| ==> BranchHolds(S, cPrime, roles[i], proof[i])
  }

  predicate NoIdentityCommitment(proof: seq<Branch>) {
    forall b <- proof :: b.a != IDENTITY
  }

  /** The C library's point multiplication reports failure when the product is the identity. */
  predicate NoIdentityProduct(S: Suite, cPrime: Point, roles: seq<u64>, proof: seq<Branch>)
    requires S.q > 0 && |proof| == |roles|
  {
    forall i :: 0 <= i < |roles| ==>
      S.Mul(S.h, proof[i].s) != IDENTITY && S.Mul(Target(S, cPrime, roles[i]), proof[i].c) != IDENTITY
  }

  predicate RustAccepts(S: Suite, n: Session, cPrime: Point, roles: seq<u64>, proof: seq<Branch>)
    requires S.q > 0
  {
    OrEquations(S, n, cPrime, roles, proof) && NoIdentityCommitment(proof)
  }

  predicate CAccepts(S: Suite, n: Session, cPrime: Point, roles: seq<u64>, proof: seq<Branch>)
    requires S.q > 0
  {
    OrEquations(S, n, cPrime, roles, proof) && NoIdentityProduct(S, cPrime, roles, proof)
  }

  method VerifyRoleSetMembership(S: Suite, n: Session, cPrime: Point, roles: seq<u64>, proof: seq<Branch>) returns (ok: bool)
    requires S.q > 0 && |roles| < 0x1_0000_0000_0000_0000
    ensures ok <==> RustAccepts(S, n, cPrime, roles, proof)
  {
    if |proof| != |roles| {
      return false;
    }
    for i := 0 to |proof|
      invariant forall j :: 0 <= j < i ==> proof[j].a != IDENTITY
    {
      if proof[i].a == IDENTITY {
        assert proof[i] in proof;
        return false;
      }
    }
    var t := RoleSetTranscript(S, n, cPrime, roles, Points(proof));
    var masterC := Mod(S.q, S.sha512(t.buf));
    var sum := ChallengeSum(S, Challenges(proof));
    if sum != masterC {
      return false;
    }
    for i := 0 to |proof|
      invariant forall j :: 0 <= j < i ==> BranchHolds(S, cPrime, roles[j], proof[j])
    {
      var y := S.Sub(cPrime, S.Mul(BASE, roles[i]));
      VartimeCheckIsDirectCheck(S, S.h, y, proof[i].a, proof[i].c, proof[i].s);
      if !VartimeSchnorrCheck(S, S.h, y, proof[i].a, proof[i].c, proof[i].s) {
        return false;
      }
    }
    return true;
  }

  method ChallengeSum(S: Suite, cs: seq<Scalar>) returns (sum: Scalar)
    requires S.q > 0
    ensures sum == Mod(S.q, Sum(cs))
  {
    sum := 0;
    Canonical(S.q, 0);
    for i := 0 to |cs|
      invariant sum == Mod(S.q, Sum(cs[..i]))
    {
      assert cs[..i + 1][..i] == cs[..i];
      ReduceAdd(S.q, Sum(cs[..i]), cs[i]);
      sum := S.Add(sum, cs[i]);
    }
    assert cs[..|cs|] == cs;
  }

  // The C verifier works on the 96 bytes of each branch as they were received.

  /** How the C library reads 32 bytes as a scalar where it multiplies a point and where it adds scalars. */
  datatype Sodium = Sodium(factor: Bytes32 -> Scalar, term: Bytes32 -> Scalar)

  /** Both readings of a reduced scalar are its value; nothing is presumed of other bytes. */
  ghost predicate ReadsScalars(S: Suite, lib: Sodium) {
    forall s | S.In(s) :: lib.factor(S.ScalarBytes(s)) == s && lib.term(S.ScalarBytes(s)) == s
  }

  datatype RawBranch = RawBranch(a: Bytes32, c: Bytes32, s: Bytes32)

  predicate ValidPoints(S: Suite, raw: seq<RawBranch>) {
    forall i :: 0 <= i < |raw| ==> S.decompress(raw[i].a).Some?
  }

  function RawPoints(S: Suite, raw: seq<RawBranch>): (points: seq<Point>)
    requires ValidPoints(S, raw)
    ensures |points| == |raw|
  {
    seq(|raw|, i requires 0 <= i < |raw| => S.decompress(raw[i].a).value)
  }

  function RawTerms(lib: Sodium, raw: seq<RawBranch>): (cs: seq<Scalar>)
    ensures |cs| == |raw|
  {
    seq(|raw|, i requires 0 <= i < |raw| => lib.term(raw[i].c))
  }

  /** The C branch test, which also fails when either product is the identity. */
  predicate RawBranchHolds(S: Suite, lib: Sodium, cPrime: Point, role: u64, a: Point, b: RawBranch)
    requires S.q > 0
  {
    && S.Mul(S.h, lib.factor(b.s)) != IDENTITY && S.Mul(Target(S, cPrime, role), lib.factor(b.c)) != IDENTITY
    && Holds(S, S.h, Target(S, cPrime, role), a, lib.factor(b.c), lib.factor(b.s))
  }

  predicate CAcceptsRaw(S: Suite, lib: Sodium, n: Session, cPrime: Point, roles: seq<u64>, raw: seq<RawBranch>)
    requires S.q > 0
  {
    && |raw| == |roles| && ValidPoints(S, raw)
    && Mod(S.q, Sum(RawTerms(lib, raw))) == MasterChallenge(S, n, cPrime, roles, RawPoints(S, raw))
    && forall i :: 0 <= i < |roles| ==> RawBranchHolds(S, lib, cPrime, roles[i], RawPoints(S, raw)[i], raw[i])
  }

  method VerifyRoleSetMembershipC(S: Suite, lib: Sodium, n: Session, cPrime: Point, roles: seq<u64>, raw: seq<RawBranch>) returns (rc: int)
    requires S.q > 0 && |roles| < 0x1_0000_0000_0000_0000
    requires |raw| == |roles|
    ensures rc == 0 || rc == -1
    ensures rc == 0 <==> CAcceptsRaw(S, lib, n, cPrime, roles, raw)
  {
    hide Sum, RoleSetFields, Encode, LeBytes;
    for i := 0 to |roles|
      invariant forall j :: 0 <= j < i ==> S.decompress(raw[j].a).Some?
    {
      if S.decompress(raw[i].a).None? {
        return -1;
      }
    }
    var points := RawPoints(S, raw);
    var t := RoleSetTranscript(S, n, cPrime, roles, points);
    var masterC := Mod(S.q, S.sha512(t.buf));
    var sum := ChallengeSum(S, RawTerms(lib, raw));
    if sum != masterC {
      return -1;
    }
    for i := 0 to |roles|
      invariant forall j :: 0 <= j < i ==> RawBranchHolds(S, lib, cPrime, roles[j], points[j], raw[j])
    {
      var y := S.Sub(cPrime, S.Mul(BASE, roles[i]));
      var left := S.Mul(S.h, lib.factor(raw[i].s));
      if left == IDENTITY {
        return -1;
      }
      var yc := S.Mul(y, lib.factor(raw[i].c));
      if yc == IDENTITY {
        return -1;
      }
      if left != S.Add(points[i], yc) {
        return -1;
      }
    }
    return 0;
  }

  /** A decoded proof as the bytes it is sent as. */
  function RawProof(S: Suite, proof: seq<Branch>): (raw: seq<RawBranch>)
    requires WellFormed(S, proof)
    ensures |raw| == |proof|
  {
    seq(|proof|, i requires 0 <= i < |proof| =>
      assert proof[i] in proof;
      RawBranch(S.compress(proof[i].a), S.ScalarBytes(proof[i].c), S.ScalarBytes(proof[i].s)))
  }

  lemma RawProofReads(S: Suite, lib: Sodium, proof: seq<Branch>)
    requires S.Valid() && ReadsScalars(S, lib) && WellFormed(S, proof)
    ensures var raw := RawProof(S, proof);
            && ValidPoints(S, raw) && RawPoints(S, raw) == Points(proof) && RawTerms(lib, raw) == Challenges(proof)
            && forall i :: 0 <= i < |proof| ==> lib.factor(raw[i].c) == proof[i].c && lib.factor(raw[i].s) == proof[i].s
  {
    hide LeBytes;
    var raw := RawProof(S, proof);
    forall i | 0 <= i < |proof|
      ensures S.decompress(raw[i].a) == Some(proof[i].a) && lib.term(raw[i].c) == proof[i].c
      ensures lib.factor(raw[i].c) == proof[i].c && lib.factor(raw[i].s) == proof[i].s
    {
      assert proof[i] in proof;
    }
  }

  /** On the bytes of a reduced proof the C verifier checks the same equations, and that no product is the identity. */
  lemma RawAcceptsIff(S: Suite, lib: Sodium, n: Session, cPrime: Point, roles: seq<u64>, proof: seq<Branch>)
    requires S.Valid() && ReadsScalars(S, lib) && WellFormed(S, proof)
    ensures CAcceptsRaw(S, lib, n, cPrime, roles, RawProof(S, proof)) <==> CAccepts(S, n, cPrime, roles, proof)
  {
    RawProofReads(S, lib, proof);
    hide Mod, LeBytes, MasterChallenge, Sum, Target, RawProof, RawPoints, RawTerms, Points, Challenges, Holds;
    var raw := RawProof(S, proof);
    if |proof| == |roles| {
      forall i | 0 <= i < |roles|
        ensures RawBranchHolds(S, lib, cPrime, roles[i], RawPoints(S, raw)[i], raw[i]) <==>
                && BranchHolds(S, cPrime, roles[i], proof[i])
                && S.Mul(S.h, proof[i].s) != IDENTITY && S.Mul(Target(S, cPrime, roles[i]), proof[i].c) != IDENTITY
      {
        PointAt(proof, i);
      }
    }
  }

  lemma PointAt(proof: seq<Branch>, i: nat)
    requires i < |proof|
    ensures Points(proof)[i] == proof[i].a
  {
  }

  lemma NonzeroProduct(q: int, a: int, b: int)
    requires Prime(q) && 0 <= a < q && 0 <= b < q
    ensures Mod(q, a * b) != 0 <==> a != 0 && b != 0
  {
    Canonical(q, 0);
    Canonical(q, a);
    if a != 0 && b != 0 {
      Canonical(q, b);
      ZeroProduct(q, a, b);
    }
  }

  lemma ZeroProduct(q: int, a: int, b: int)
    requires Prime(q) && Mod(q, a) != 0 && Mod(q, b) != 0
    ensures Mod(q, a * b) != 0
  {
    hide Mod, Inverse, Prime;
    Canonical(q, 0);
    if Mod(q, a * b) == 0 {
      DivideCong(q, a, 0, b);
    }
  }

  /**
   The two verifiers agree on the equations and differ on degenerate values: a proof the Rust
   server accepts is accepted by the C server exactly when no scalar in it is zero and the
   commitment is not a bare `g*r_i`.
   */
  lemma VerifiersDifferOnlyOnZeros(S: Suite, n: Session, cPrime: Point, roles: seq<u64>, proof: seq<Branch>)
    requires S.Valid() && WellFormed(S, proof) && RustAccepts(S, n, cPrime, roles, proof)
    ensures CAccepts(S, n, cPrime, roles, proof) <==>
            forall i :: 0 <= i < |roles| ==>
              proof[i].s != 0 && proof[i].c != 0 && Target(S, cPrime, roles[i]) != IDENTITY
  {
    forall i | 0 <= i < |roles|
      ensures S.Mul(S.h, proof[i].s) != IDENTITY <==> proof[i].s != 0
      ensures S.Mul(Target(S, cPrime, roles[i]), proof[i].c) != IDENTITY <==>
              Target(S, cPrime, roles[i]) != IDENTITY && proof[i].c != 0
    {
      assert proof[i] in proof;
      NonzeroProduct(S.q, S.h, proof[i].s);
      NonzeroProduct(S.q, Target(S, cPrime, roles[i]), proof[i].c);
    }
  }

  // The prover.

  /** What one run may draw: reduced scalars, nothing at the true index. */
  predicate GoodRandomness(S: Suite, count: nat, k: nat, rnd: OrRandomness)
    requires k < count
  {
    && S.In(rnd.w) && |rnd.cs| == |rnd.ss| == count
    && rnd.cs[k] == 0 && rnd.ss[k] == 0
    && forall i :: 0 <= i < count ==> S.In(rnd.cs[i]) && S.In(rnd.ss[i])
  }

  function ProofCommitment(S: Suite, cPrime: Point, roles: seq<u64>, k: nat, rnd: OrRandomness, i: nat): (a: Point)
    requires S.q > 0 && |rnd.cs| == |rnd.ss| == |roles| && i < |roles|
    ensures S.In(a)
  {
    if i == k then S.Mul(S.h, rnd.w)
    else S.Sub(S.Mul(S.h, rnd.ss[i]), S.Mul(Target(S, cPrime, roles[i]), rnd.cs[i]))
  }

  function ProofCommitments(S: Suite, cPrime: Point, roles: seq<u64>, k: nat, rnd: OrRandomness): (r: seq<Point>)
    requires S.q > 0 && |rnd.cs| == |rnd.ss| == |roles|
    ensures |r| == |roles|
  {
    seq(|roles|, i requires 0 <= i < |roles| => ProofCommitment(S, cPrime, roles, k, rnd, i))
  }

  /** The proof a run with true index `k` and opening `blind` sends. */
  function OrProof(S: Suite, n: Session, cPrime: Point, roles: seq<u64>, k: nat, blind: Scalar, rnd: OrRandomness): (p: seq<Branch>)
    requires S.q > 0 && k < |roles| && GoodRandomness(S, |roles|, k, rnd)
    ensures |p| == |roles|
  {
    var points := ProofCommitments(S, cPrime, roles, k, rnd);
    var cTrue := S.Sub(MasterChallenge(S, n, cPrime, roles, points), Mod(S.q, Sum(rnd.cs)));
    var sTrue := S.Add(rnd.w, S.Mul(cTrue, blind));
    seq(|roles|, i requires 0 <= i < |roles| =>
      if i == k then Branch(points[i], cTrue, sTrue) else Branch(points[i], rnd.cs[i], rnd.ss[i]))
  }

  function Position(roles: seq<u64>, code: u64): (k: nat)
    requires code in roles
    ensures k < |roles| && roles[k] == code && forall j :: 0 <= j < k ==> roles[j] != code
  {
    if roles[0] == code then 0 else 1 + Position(roles[1..], code)
  }

  /** The Rust prover; a role outside the list panics. */
  method ProveRoleSetMembership(S: Suite, n: Session, cPrime: Point, roles: seq<u64>, roleCode: u64, blindPrime: Scalar,
                                rnd: OrRandomness) returns (proof: seq<Branch>)
    requires S.q > 0 && |roles| < 0x1_0000_0000_0000_0000 && roleCode in roles
    requires GoodRandomness(S, |roles|, Position(roles, roleCode), rnd)
    ensures proof == OrProof(S, n, cPrime, roles, Position(roles, roleCode), blindPrime, rnd)
  {
    proof := FinishProof(S, n, cPrime, roles, Position(roles, roleCode), blindPrime, rnd);
  }

  /** The part both provers share once the true index is known. */
  method FinishProof(S: Suite, n: Session, cPrime: Point, roles: seq<u64>, trueIndex: nat, blindPrime: Scalar,
                     rnd: OrRandomness) returns (proof: seq<Branch>)
    requires S.q > 0 && |roles| < 0x1_0000_0000_0000_0000 && trueIndex < |roles|
    requires GoodRandomness(S, |roles|, trueIndex, rnd)
    ensures proof == OrProof(S, n, cPrime, roles, trueIndex, blindPrime, rnd)
  {
    var aPoints, cVals, sVals, wTrue := CommitPhase(S, cPrime, roles, trueIndex, rnd);
    var t := RoleSetTranscript(S, n, cPrime, roles, aPoints[..]);
    var masterC := Mod(S.q, S.sha512(t.buf));
    var sumSim := SumExcept(S, cVals[..], trueIndex);
    var cTrue := S.Sub(masterC, sumSim);
    var sTrue := S.Add(wTrue, S.Mul(cTrue, blindPrime));
    cVals[trueIndex] := cTrue;
    sVals[trueIndex] := sTrue;
    var points, cs, ss := aPoints[..], cVals[..], sVals[..];
    proof := seq(|roles|, i requires 0 <= i < |roles| => Branch(points[i], cs[i], ss[i]));
  }

  /** The prover's first loops: placeholders, then one real commitment among the simulated branches. */
  method CommitPhase(S: Suite, cPrime: Point, roles: seq<u64>, trueIndex: nat, rnd: OrRandomness)
      returns (aPoints: array<Point>, cVals: array<Scalar>, sVals: array<Scalar>, wTrue: Scalar)
    requires S.q > 0 && trueIndex < |roles| && GoodRandomness(S, |roles|, trueIndex, rnd)
    ensures fresh(aPoints) && fresh(cVals) && fresh(sVals) && cVals != sVals && aPoints != cVals && aPoints != sVals
    ensures aPoints[..] == ProofCommitments(S, cPrime, roles, trueIndex, rnd)
    ensures cVals[..] == rnd.cs && sVals[..] == rnd.ss && wTrue == rnd.w
  {
    hide Mod;
    var count := |roles|;
    var yPoints := seq(count, i requires 0 <= i < count => S.Sub(cPrime, S.Mul(BASE, roles[i])));
    aPoints := new Point[count](_ => IDENTITY);
    cVals := new Scalar[count](_ => 0);
    sVals := new Scalar[count](_ => 0);
    wTrue := 0;
    for i := 0 to count
      invariant forall j :: 0 <= j < i ==> aPoints[j] == ProofCommitment(S, cPrime, roles, trueIndex, rnd, j)
      invariant forall j :: 0 <= j < i ==> cVals[j] == rnd.cs[j] && sVals[j] == rnd.ss[j]
      invariant forall j :: i <= j < count ==> cVals[j] == 0 && sVals[j] == 0
      invariant trueIndex < i ==> wTrue == rnd.w
    {
      if i == trueIndex {
        wTrue := rnd.w;
        aPoints[i] := S.Mul(S.h, wTrue);
      } else {
        aPoints[i] := S.Sub(S.Mul(S.h, rnd.ss[i]), S.Mul(yPoints[i], rnd.cs[i]));
        cVals[i] := rnd.cs[i];
        sVals[i] := rnd.ss[i];
      }
    }
  }

  function LastPosition(roles: seq<u64>, code: u64): (k: nat)
    requires code in roles
    ensures k < |roles| && roles[k] == code && forall j :: k < j < |roles| ==> roles[j] != code
  {
    if roles[|roles| - 1] == code then |roles| - 1 else LastPosition(roles[..|roles| - 1], code)
  }

  /** Some point product of the run is the identity, which the C library reports as failure. */
  predicate DegenerateBranch(S: Suite, cPrime: Point, roles: seq<u64>, k: nat, rnd: OrRandomness, i: nat)
    requires S.q > 0 && |rnd.cs| == |rnd.ss| == |roles| && i < |roles|
  {
    if i == k then S.Mul(S.h, rnd.w) == IDENTITY
    else S.Mul(S.h, rnd.ss[i]) == IDENTITY || S.Mul(Target(S, cPrime, roles[i]), rnd.cs[i]) == IDENTITY
  }

  /** The C prover: the last matching index instead of the first, and an error code instead of a panic. */
  method ProveRoleSetMembershipC(S: Suite, n: Session, cPrime: Point, roles: seq<u64>, roleCode: u64, blindPrime: Scalar,
                                 rnd: OrRandomness) returns (rc: int, proof: seq<Branch>)
    requires S.q > 0 && |roles| < 0x1_0000_0000_0000_0000
    requires roleCode in roles ==> GoodRandomness(S, |roles|, LastPosition(roles, roleCode), rnd)
    ensures rc == 0 || rc == -1
    ensures rc == 0 <==> (&& roleCode in roles
                          && forall i :: 0 <= i < |roles| ==> !DegenerateBranch(S, cPrime, roles, LastPosition(roles, roleCode), rnd, i))
    ensures rc == 0 ==> proof == OrProof(S, n, cPrime, roles, LastPosition(roles, roleCode), blindPrime, rnd)
  {
    proof := [];
    var found, trueIndex := false, 0;
    for i := 0 to |roles|
      invariant found ==> trueIndex < i && roles[trueIndex] == roleCode && forall j :: trueIndex < j < i ==> roles[j] != roleCode
      invariant !found ==> forall j :: 0 <= j < i ==> roles[j] != roleCode
    {
      if roles[i] == roleCode {
        found, trueIndex := true, i;
      }
    }
    if !found {
      return -1, proof;
    }
    assert trueIndex == LastPosition(roles, roleCode);
    for i := 0 to |roles|
      invariant forall j :: 0 <= j < i ==> !DegenerateBranch(S, cPrime, roles, trueIndex, rnd, j)
    {
      var y := S.Sub(cPrime, S.Mul(BASE, roles[i]));
      if i == trueIndex {
        if S.Mul(S.h, rnd.w) == IDENTITY {
          assert DegenerateBranch(S, cPrime, roles, trueIndex, rnd, i);
          return -1, proof;
        }
      } else if S.Mul(S.h, rnd.ss[i]) == IDENTITY || S.Mul(y, rnd.cs[i]) == IDENTITY {
        assert DegenerateBranch(S, cPrime, roles, trueIndex, rnd, i);
        return -1, proof;
      }
    }
    proof := FinishProof(S, n, cPrime, roles, trueIndex, blindPrime, rnd);
    rc := 0;
  }

  /** The C prover fails on a listed role exactly when a draw it uses is zero or the commitment is a bare other role. */
  lemma DegenerateIffZero(S: Suite, cPrime: Point, roles: seq<u64>, k: nat, rnd: OrRandomness, i: nat)
    requires S.Valid() && S.In(cPrime) && k < |roles| && i < |roles| && GoodRandomness(S, |roles|, k, rnd)
    ensures DegenerateBranch(S, cPrime, roles, k, rnd, i) <==>
            if i == k then rnd.w == 0 else rnd.ss[i] == 0 || rnd.cs[i] == 0 || cPrime == S.Mul(BASE, roles[i])
  {
    hide Mod, Prime;
    var g := S.Mul(BASE, roles[i]);
    NonzeroProduct(S.q, S.h, rnd.w);
    NonzeroProduct(S.q, S.h, rnd.ss[i]);
    NonzeroProduct(S.q, Target(S, cPrime, roles[i]), rnd.cs[i]);
    ZeroDifference(S.q, cPrime, g);
    Canonical(S.q, cPrime);
    Canonical(S.q, g);
  }

  /** The prover's sum over the simulated branches; the true branch still holds its zero placeholder. */
  method SumExcept(S: Suite, cs: seq<Scalar>, k: nat) returns (sum: Scalar)
    requires S.q > 0 && k < |cs| && cs[k] == 0
    ensures sum == Mod(S.q, Sum(cs))
  {
    sum := 0;
    Canonical(S.q, 0);
    for i := 0 to |cs|
      invariant sum == Mod(S.q, Sum(cs[..i]))
    {
      assert cs[..i + 1][..i] == cs[..i];
      if i != k {
        ReduceAdd(S.q, Sum(cs[..i]), cs[i]);
        sum := S.Add(sum, cs[i]);
      }
    }
    assert cs[..|cs|] == cs;
  }

  /** The commitment opens to role `roles[k]` with this blind. */
  predicate OpensAt(S: Suite, cPrime: Point, roles: seq<u64>, k: nat, blind: Scalar)
    requires S.q > 0 && k < |roles|
  {
    Target(S, cPrime, roles[k]) == S.Mul(S.h, blind)
  }

  lemma CommitmentOpens(S: Suite, cPrime: Point, roles: seq<u64>, k: nat, blind: Scalar)
    requires S.In(cPrime) && k < |roles|
    ensures OpensAt(S, cPrime, roles, k, blind) <==> cPrime == MakeRoleCommitment(S, roles[k], blind)
  {
    hide Mod;
    var g, t := S.Mul(BASE, roles[k]), S.Mul(S.h, blind);
    ResponseRoundTrip(S, t, g);
    ResponseRoundTrip(S, cPrime, g);
    assert t + g == g + t;
  }

  lemma SumOfTwo(q: int, m: int, t: int)
    requires 0 <= m < q
    ensures Mod(q, t + Mod(q, m - Mod(q, t))) == m
  {
    hide Mod;
    ReduceAdd(q, t, m - Mod(q, t));
    ReduceSub(q, t + m, t);
    Canonical(q, m);
    assert t + (m - Mod(q, t)) == t + m - Mod(q, t);
  }

  /** The real branch and the simulated ones all hold. */
  lemma BranchesHold(S: Suite, n: Session, cPrime: Point, roles: seq<u64>, k: nat, blind: Scalar, rnd: OrRandomness, i: nat)
    requires S.q > 0 && k < |roles| && GoodRandomness(S, |roles|, k, rnd) && i < |roles|
    requires OpensAt(S, cPrime, roles, k, blind)
    ensures BranchHolds(S, cPrime, roles[i], OrProof(S, n, cPrime, roles, k, blind, rnd)[i])
  {
    hide Mod, MasterChallenge;
    var b := OrProof(S, n, cPrime, roles, k, blind, rnd)[i];
    if i == k {
      ResponseRoundTrip(S, rnd.w, S.Mul(b.c, blind));
      RealCommitment(S, S.h, blind, b.a, b.c, b.s);
    } else {
      SimulatedCommitment(S, S.h, Target(S, cPrime, roles[i]), b.a, b.c, b.s);
    }
  }

  lemma ChallengesAddUp(S: Suite, n: Session, cPrime: Point, roles: seq<u64>, k: nat, blind: Scalar, rnd: OrRandomness)
    requires S.q > 0 && k < |roles| && GoodRandomness(S, |roles|, k, rnd)
    ensures var p := OrProof(S, n, cPrime, roles, k, blind, rnd);
            Mod(S.q, Sum(Challenges(p))) == MasterChallenge(S, n, cPrime, roles, Points(p))
  {
    hide Mod, Sum;
    var p := OrProof(S, n, cPrime, roles, k, blind, rnd);
    var points := ProofCommitments(S, cPrime, roles, k, rnd);
    assert Points(p) == points;
    assert Challenges(p) == rnd.cs[k := p[k].c];
    SumUpdate(rnd.cs, k, p[k].c);
    SumOfTwo(S.q, MasterChallenge(S, n, cPrime, roles, points), Sum(rnd.cs));
  }

  /** Completeness: with a true opening every run's proof satisfies the verifier's equations, for any list of roles. */
  lemma OrProofComplete(S: Suite, n: Session, cPrime: Point, roles: seq<u64>, k: nat, blind: Scalar, rnd: OrRandomness)
    requires S.q > 0 && k < |roles| && GoodRandomness(S, |roles|, k, rnd)
    requires OpensAt(S, cPrime, roles, k, blind)
    ensures OrEquations(S, n, cPrime, roles, OrProof(S, n, cPrime, roles, k, blind, rnd))
    ensures WellFormed(S, OrProof(S, n, cPrime, roles, k, blind, rnd))
  {
    ChallengesAddUp(S, n, cPrime, roles, k, blind, rnd);
    forall i | 0 <= i < |roles|
      ensures BranchHolds(S, cPrime, roles[i], OrProof(S, n, cPrime, roles, k, blind, rnd)[i])
    {
      BranchesHold(S, n, cPrime, roles, k, blind, rnd, i);
    }
    hide Mod, Sum, MasterChallenge, BranchHolds, Points, Challenges, OpensAt;
  }

  /** An honest run that happens to simulate a branch with challenge zero: Rust accepts its proof and C refuses it. */
  lemma ZeroChallengeDivides(S: Suite, n: Session, cPrime: Point, roles: seq<u64>, k: nat, blind: Scalar, rnd: OrRandomness, j: nat)
    requires S.Valid() && k < |roles| && GoodRandomness(S, |roles|, k, rnd) && OpensAt(S, cPrime, roles, k, blind)
    requires j < |roles| && j != k && rnd.cs[j] == 0
    requires NoIdentityCommitment(OrProof(S, n, cPrime, roles, k, blind, rnd))
    ensures var proof := OrProof(S, n, cPrime, roles, k, blind, rnd);
            RustAccepts(S, n, cPrime, roles, proof) && !CAccepts(S, n, cPrime, roles, proof)
  {
    hide Mod, OrEquations, CAccepts, MasterChallenge, Target, WellFormed, ProofCommitments, Sum, OpensAt;
    var proof := OrProof(S, n, cPrime, roles, k, blind, rnd);
    SimulatedChallenge(S, n, cPrime, roles, k, blind, rnd, j);
    hide OrProof, GoodRandomness;
    OrProofComplete(S, n, cPrime, roles, k, blind, rnd);
    VerifiersDifferOnlyOnZeros(S, n, cPrime, roles, proof);
  }

  lemma SimulatedChallenge(S: Suite, n: Session, cPrime: Point, roles: seq<u64>, k: nat, blind: Scalar, rnd: OrRandomness, j: nat)
    requires S.q > 0 && k < |roles| && GoodRandomness(S, |roles|, k, rnd) && j < |roles| && j != k
    ensures OrProof(S, n, cPrime, roles, k, blind, rnd)[j].c == rnd.cs[j]
  {
    hide Mod, MasterChallenge, ProofCommitments, Sum;
  }

  /** The randomness behind a proof, read off with the opening at `k`. */
  function RecoverRandomness(S: Suite, k: nat, blind: Scalar, proof: seq<Branch>): OrRandomness
    requires S.q > 0 && k < |proof|
  {
    OrRandomness(
      S.Sub(proof[k].s, S.Mul(proof[k].c, blind)),
      seq(|proof|, i requires 0 <= i < |proof| => if i == k then 0 else proof[i].c),
      seq(|proof|, i requires 0 <= i < |proof| => if i == k then 0 else proof[i].s))
  }

  /** Distinct runs give distinct proofs: the randomness can be read back. */
  lemma RecoverInvertsProve(S: Suite, n: Session, cPrime: Point, roles: seq<u64>, k: nat, blind: Scalar, rnd: OrRandomness)
    requires S.q > 0 && k < |roles| && GoodRandomness(S, |roles|, k, rnd)
    ensures RecoverRandomness(S, k, blind, OrProof(S, n, cPrime, roles, k, blind, rnd)) == rnd
  {
    hide Mod;
    var p := OrProof(S, n, cPrime, roles, k, blind, rnd);
    var back := RecoverRandomness(S, k, blind, p);
    ResponseRoundTrip(S, rnd.w, S.Mul(p[k].c, blind));
    assert back.cs == rnd.cs && back.ss == rnd.ss;
  }

  lemma RecoveredCommitments(S: Suite, n: Session, cPrime: Point, roles: seq<u64>, k: nat, blind: Scalar, proof: seq<Branch>)
    requires S.q > 0 && k < |roles| && OpensAt(S, cPrime, roles, k, blind)
    requires WellFormed(S, proof) && OrEquations(S, n, cPrime, roles, proof)
    ensures ProofCommitments(S, cPrime, roles, k, RecoverRandomness(S, k, blind, proof)) == Points(proof)
  {
    hide Mod, MasterChallenge;
    var rnd := RecoverRandomness(S, k, blind, proof);
    forall i | 0 <= i < |roles|
      ensures ProofCommitment(S, cPrime, roles, k, rnd, i) == proof[i].a
    {
      var b := proof[i];
      assert b in proof;
      assert BranchHolds(S, cPrime, roles[i], b);
      if i == k {
        RealCommitment(S, S.h, blind, b.a, b.c, b.s);
      } else {
        SimulatedCommitment(S, S.h, Target(S, cPrime, roles[i]), b.a, b.c, b.s);
      }
    }
  }

  lemma RecoveredChallenge(S: Suite, k: nat, blind: Scalar, proof: seq<Branch>, m: Scalar)
    requires S.q > 0 && k < |proof| && WellFormed(S, proof)
    requires m == Mod(S.q, Sum(Challenges(proof)))
    ensures S.Sub(m, Mod(S.q, Sum(RecoverRandomness(S, k, blind, proof).cs))) == proof[k].c
  {
    hide Mod;
    var rest, cs, c := RecoverRandomness(S, k, blind, proof).cs, Challenges(proof), proof[k].c;
    assert proof[k] in proof;
    assert rest == cs[k := 0];
    SumUpdate(cs, k, 0);
    ReduceSub(S.q, m, Sum(rest));
    ReduceSub(S.q, Sum(cs), Sum(rest));
    Canonical(S.q, c);
  }

  /** Every proof satisfying the equations is the proof of exactly the recovered run. */
  lemma ProveInvertsRecover(S: Suite, n: Session, cPrime: Point, roles: seq<u64>, k: nat, blind: Scalar, proof: seq<Branch>)
    requires S.q > 0 && k < |roles| && OpensAt(S, cPrime, roles, k, blind)
    requires WellFormed(S, proof) && OrEquations(S, n, cPrime, roles, proof)
    ensures GoodRandomness(S, |roles|, k, RecoverRandomness(S, k, blind, proof))
    ensures OrProof(S, n, cPrime, roles, k, blind, RecoverRandomness(S, k, blind, proof)) == proof
  {
    hide Mod, MasterChallenge, Sum, BranchHolds, OpensAt;
    var rnd := RecoverRandomness(S, k, blind, proof);
    assert forall i :: 0 <= i < |roles| ==> proof[i] in proof;
    RecoveredCommitments(S, n, cPrime, roles, k, blind, proof);
    RecoveredChallenge(S, k, blind, proof, MasterChallenge(S, n, cPrime, roles, Points(proof)));
    ResponseRoundTrip(S, proof[k].s, S.Mul(proof[k].c, blind));
    assert Points(proof)[k] == proof[k].a;
    assert forall i :: 0 <= i < |roles| ==> OrProof(S, n, cPrime, roles, k, blind, rnd)[i] == proof[i];
  }

  /** The proofs an honest prover with true index `k` can send. */
  ghost predicate Sendable(S: Suite, n: Session, cPrime: Point, roles: seq<u64>, k: nat, blind: Scalar, proof: seq<Branch>)
    requires S.q > 0 && k < |roles|
  {
    exists rnd :: GoodRandomness(S, |roles|, k, rnd) && OrProof(S, n, cPrime, roles, k, blind, rnd) == proof
  }

  lemma SendableIsAccepted(S: Suite, n: Session, cPrime: Point, roles: seq<u64>, k: nat, blind: Scalar, proof: seq<Branch>)
    requires S.q > 0 && k < |roles| && OpensAt(S, cPrime, roles, k, blind)
    ensures Sendable(S, n, cPrime, roles, k, blind, proof) <==>
            WellFormed(S, proof) && OrEquations(S, n, cPrime, roles, proof)
  {
    if Sendable(S, n, cPrime, roles, k, blind, proof) {
      var rnd :| GoodRandomness(S, |roles|, k, rnd) && OrProof(S, n, cPrime, roles, k, blind, rnd) == proof;
      OrProofComplete(S, n, cPrime, roles, k, blind, rnd);
    }
    if WellFormed(S, proof) && OrEquations(S, n, cPrime, roles, proof) {
      ProveInvertsRecover(S, n, cPrime, roles, k, blind, proof);
    }
  }

  /** The blind with which a commitment opens to a given role; in a prime-order group there always is one. */
  function OpeningFor(S: Suite, cPrime: Point, role: u64): Scalar
    requires Prime(S.q) && 0 < S.h < S.q
  {
    Canonical(S.q, S.h);
    S.Mul(Target(S, cPrime, role), Inverse(S.q, S.h))
  }

  lemma OpeningForOpens(S: Suite, cPrime: Point, roles: seq<u64>, k: nat)
    requires Prime(S.q) && 0 < S.h < S.q && k < |roles|
    ensures OpensAt(S, cPrime, roles, k, OpeningFor(S, cPrime, roles[k]))
  {
    Canonical(S.q, S.h);
    hide Mod, Inverse, Prime;
    var y, i := Target(S, cPrime, roles[k]), Inverse(S.q, S.h);
    Associate(y, i, S.h);
    ReduceMul(S.q, S.h, y * i);
    Canonical(S.q, 1);
    CongMul(S.q, y, y, S.h * i, 1);
    Canonical(S.q, y);
    assert S.h * (y * i) == y * (S.h * i);
    assert y * 1 == y;
  }

  /**
   Perfect role hiding: whichever two allowed roles the prover might hold, the runs are in
   one-to-one correspondence, matching runs send the same proof, and the proofs that can be
   sent are the same. The correspondence is `RecoverRandomness` at the other index.
   */
  lemma RolePerfectlyHidden(S: Suite, n: Session, cPrime: Point, roles: seq<u64>, j: nat, k: nat, rnd: OrRandomness)
    requires S.Valid() && j < |roles| && k < |roles| && GoodRandomness(S, |roles|, j, rnd)
    ensures var bj, bk := OpeningFor(S, cPrime, roles[j]), OpeningFor(S, cPrime, roles[k]);
            var proof := OrProof(S, n, cPrime, roles, j, bj, rnd);
            var twin := RecoverRandomness(S, k, bk, proof);
            && GoodRandomness(S, |roles|, k, twin)
            && OrProof(S, n, cPrime, roles, k, bk, twin) == proof
            && RecoverRandomness(S, j, bj, OrProof(S, n, cPrime, roles, k, bk, twin)) == rnd
    ensures forall p :: Sendable(S, n, cPrime, roles, j, OpeningFor(S, cPrime, roles[j]), p) <==>
                        Sendable(S, n, cPrime, roles, k, OpeningFor(S, cPrime, roles[k]), p)
  {
    var bj, bk := OpeningFor(S, cPrime, roles[j]), OpeningFor(S, cPrime, roles[k]);
    OpeningForOpens(S, cPrime, roles, j);
    OpeningForOpens(S, cPrime, roles, k);
    OrProofComplete(S, n, cPrime, roles, j, bj, rnd);
    var proof := OrProof(S, n, cPrime, roles, j, bj, rnd);
    ProveInvertsRecover(S, n, cPrime, roles, k, bk, proof);
    RecoverInvertsProve(S, n, cPrime, roles, j, bj, rnd);
    forall p
      ensures Sendable(S, n, cPrime, roles, j, bj, p) <==> Sendable(S, n, cPrime, roles, k, bk, p)
    {
      SendableIsAccepted(S, n, cPrime, roles, j, bj, p);
      SendableIsAccepted(S, n, cPrime, roles, k, bk, p);
    }
  }

  // Extraction.

  function FirstDifference(cs: seq<int>, cs': seq<int>): (i: nat)
    requires |cs| == |cs'| && cs != cs'
    ensures i < |cs| && cs[i] != cs'[i]
  {
    if cs[0] != cs'[0] then 0
    else
      assert cs == [cs[0]] + cs[1..] && cs' == [cs'[0]] + cs'[1..];
      1 + FirstDifference(cs[1..], cs'[1..])
  }

  datatype Extracted = Extracted(index: nat, blind: Scalar, delta: Scalar)

  /** What the extractor sees of one accepting run: scalars only. */
  datatype RunScalars = RunScalars(cs: seq<Scalar>, ss: seq<Scalar>, rerandC: Scalar, rerandS: Scalar)

  predicate Extractable(S: Suite, r: RunScalars, r': RunScalars) {
    && Prime(S.q) && |r.cs| == |r.ss| == |r'.cs| == |r'.ss| && r.cs != r'.cs
    && (forall i :: 0 <= i < |r.cs| ==> S.In(r.cs[i]) && S.In(r'.cs[i]))
    && S.In(r.rerandC) && S.In(r'.rerandC) && r.rerandC != r'.rerandC
  }

  function JointExtract(S: Suite, r: RunScalars, r': RunScalars): Extracted
    requires Extractable(S, r, r')
  {
    var i := FirstDifference(r.cs, r'.cs);
    NonzeroDifference(S.q, r.cs[i], r'.cs[i]);
    NonzeroDifference(S.q, r.rerandC, r'.rerandC);
    Extracted(i,
      ExtractWitness(S, r.cs[i], r.ss[i], r'.cs[i], r'.ss[i]),
      ExtractWitness(S, r.rerandC, r.rerandS, r'.rerandC, r'.rerandS))
  }

  function ScalarsOf(S: Suite, n: Session, storedC: Point, cPrime: Point, proof: seq<Branch>, ra: Point, rs: Scalar): RunScalars
    requires S.q > 0
  {
    RunScalars(Challenges(proof), seq(|proof|, i requires 0 <= i < |proof| => proof[i].s),
               RerandChallenge(S, n, storedC, cPrime, ra), rs)
  }

  lemma BranchExtraction(S: Suite, cPrime: Point, role: u64, b: Branch, b': Branch)
    requires S.Valid() && S.In(cPrime) && S.In(b.c) && S.In(b'.c) && b.c != b'.c && b.a == b'.a
    requires BranchHolds(S, cPrime, role, b) && BranchHolds(S, cPrime, role, b')
    ensures Mod(S.q, b.c - b'.c) != 0
    ensures cPrime == MakeRoleCommitment(S, role, ExtractWitness(S, b.c, b.s, b'.c, b'.s))
  {
    hide Mod, Inverse, Prime, Holds;
    ExtractionSound(S, S.h, Target(S, cPrime, role), b.a, b.c, b.s, b'.c, b'.s);
    CommitmentOpens(S, cPrime, [role], 0, ExtractWitness(S, b.c, b.s, b'.c, b'.s));
  }

  lemma RerandExtraction(S: Suite, S': Suite, n: Session, storedC: Point, cPrime: Point, ra: Point, rs: Scalar, rs': Scalar)
    requires S.Valid() && S' == S.(sha512 := S'.sha512)
    requires VerifyRoleRerandomization(S, n, storedC, cPrime, ra, rs)
    requires VerifyRoleRerandomization(S', n, storedC, cPrime, ra, rs')
    requires RerandChallenge(S, n, storedC, cPrime, ra) != RerandChallenge(S', n, storedC, cPrime, ra)
    ensures var c, c' := RerandChallenge(S, n, storedC, cPrime, ra), RerandChallenge(S', n, storedC, cPrime, ra);
            && Mod(S.q, c - c') != 0
            && S.Sub(cPrime, storedC) == S.Mul(S.h, ExtractWitness(S, c, rs, c', rs'))
  {
    hide Mod, Inverse, Prime;
    var c, c' := RerandChallenge(S, n, storedC, cPrime, ra), RerandChallenge(S', n, storedC, cPrime, ra);
    var diff := S.Sub(cPrime, storedC);
    VartimeCheckIsDirectCheck(S, S.h, diff, ra, c, rs);
    VartimeCheckIsDirectCheck(S', S.h, diff, ra, c', rs');
    ExtractionSound(S, S.h, diff, ra, c, rs, c', rs');
  }

  /** Two accepted runs on the same first messages with different challenges. */
  ghost predicate ForkedRuns(S: Suite, S': Suite, n: Session, storedC: Point, cPrime: Point, roles: seq<u64>,
                             proof: seq<Branch>, proof': seq<Branch>, ra: Point, rs: Scalar, rs': Scalar)
  {
    && S.Valid() && S' == S.(sha512 := S'.sha512)
    && S.In(cPrime) && S.In(storedC)
    && WellFormed(S, proof) && WellFormed(S, proof') && Points(proof) == Points(proof')
    && OrEquations(S, n, cPrime, roles, proof) && OrEquations(S', n, cPrime, roles, proof')
    && VerifyRoleRerandomization(S, n, storedC, cPrime, ra, rs)
    && VerifyRoleRerandomization(S', n, storedC, cPrime, ra, rs')
    && MasterChallenge(S, n, cPrime, roles, Points(proof)) != MasterChallenge(S', n, cPrime, roles, Points(proof))
    && RerandChallenge(S, n, storedC, cPrime, ra) != RerandChallenge(S', n, storedC, cPrime, ra)
  }

  lemma ForkedRunsDiffer(S: Suite, S': Suite, n: Session, storedC: Point, cPrime: Point, roles: seq<u64>,
                         proof: seq<Branch>, proof': seq<Branch>, ra: Point, rs: Scalar, rs': Scalar)
    requires ForkedRuns(S, S', n, storedC, cPrime, roles, proof, proof', ra, rs, rs')
    ensures Extractable(S, ScalarsOf(S, n, storedC, cPrime, proof, ra, rs), ScalarsOf(S', n, storedC, cPrime, proof', ra, rs'))
  {
    hide Mod, Prime, MasterChallenge, RerandChallenge, Sum, VerifyRoleRerandomization, BranchHolds;
    assert Challenges(proof) != Challenges(proof');
    hide OrEquations;
    forall i | 0 <= i < |proof|
      ensures S.In(Challenges(proof)[i]) && S.In(Challenges(proof')[i])
    {
      ExtractedIndex(S, proof, proof', i);
    }
  }

  /**
   Joint extraction. Two accepted runs on the same first messages, whose challenges came out
   different because the hash answered differently, yield an index and two scalars that open
   both the session's commitment and the enrolled one to the same allowed role.
   */
  lemma JointExtraction(S: Suite, S': Suite, n: Session, storedC: Point, cPrime: Point, roles: seq<u64>,
                        proof: seq<Branch>, proof': seq<Branch>, ra: Point, rs: Scalar, rs': Scalar)
    requires ForkedRuns(S, S', n, storedC, cPrime, roles, proof, proof', ra, rs, rs')
    ensures var r, r' := ScalarsOf(S, n, storedC, cPrime, proof, ra, rs), ScalarsOf(S', n, storedC, cPrime, proof', ra, rs');
            && Extractable(S, r, r')
            && var x := JointExtract(S, r, r');
               && x.index < |roles|
               && cPrime == MakeRoleCommitment(S, roles[x.index], x.blind)
               && storedC == MakeRoleCommitment(S, roles[x.index], S.Sub(x.blind, x.delta))
  {
    ForkedRunsDiffer(S, S', n, storedC, cPrime, roles, proof, proof', ra, rs, rs');
    hide Mod, Inverse, Prime, MasterChallenge, RerandChallenge, Sum, VerifyRoleRerandomization, MakeRoleCommitment, BranchHolds;
    hide ExtractWitness, Extractable, WellFormed;
    var r, r' := ScalarsOf(S, n, storedC, cPrime, proof, ra, rs), ScalarsOf(S', n, storedC, cPrime, proof', ra, rs');
    var i := FirstDifference(r.cs, r'.cs);
    ExtractedIndex(S, proof, proof', i);
    SameBranch(S, S', cPrime, roles[i], proof'[i]);
    BranchExtraction(S, cPrime, roles[i], proof[i], proof'[i]);
    RerandExtraction(S, S', n, storedC, cPrime, ra, rs, rs');
    var x := JointExtract(S, r, r');
    ShiftedOpening(S, storedC, cPrime, roles[i], x.blind, x.delta);
  }

  lemma ExtractedIndex(S: Suite, proof: seq<Branch>, proof': seq<Branch>, i: nat)
    requires |proof| == |proof'| && i < |proof| && Points(proof) == Points(proof')
    requires WellFormed(S, proof) && WellFormed(S, proof')
    ensures S.In(proof[i].c) && S.In(proof'[i].c) && proof[i].a == proof'[i].a
  {
    assert proof[i] in proof && proof'[i] in proof';
    assert Points(proof)[i] == Points(proof')[i];
  }

  /** The branch equation does not involve the hash. */
  lemma SameBranch(S: Suite, S': Suite, cPrime: Point, role: u64, b: Branch)
    requires S.q > 0 && S' == S.(sha512 := S'.sha512)
    ensures BranchHolds(S', cPrime, role, b) <==> BranchHolds(S, cPrime, role, b)
  {
    hide Mod;
  }

  /** Taking the re-randomization off again keeps the role. */
  lemma ShiftedOpening(S: Suite, storedC: Point, cPrime: Point, role: u64, blind: Scalar, delta: Scalar)
    requires S.In(storedC) && S.In(blind)
    requires cPrime == MakeRoleCommitment(S, role, blind)
    requires S.Sub(cPrime, storedC) == S.Mul(S.h, delta)
    ensures storedC == MakeRoleCommitment(S, role, S.Sub(blind, delta))
  {
    hide Mod;
    var inner := MakeRoleCommitment(S, role, S.Sub(blind, delta));
    var t := S.Mul(S.h, delta);
    RerandomizedOpening(S, role, S.Sub(blind, delta), delta);
    ResponseRoundTrip(S, blind, delta);
    assert S.Add(inner, t) == cPrime;
    ResponseRoundTrip(S, inner, t);
    assert S.Sub(cPrime, t) == storedC by {
      ReduceSub(S.q, cPrime, cPrime - storedC);
      Canonical(S.q, storedC);
      assert cPrime - (cPrime - storedC) == storedC;
    }
  }

  /** Opening one commitment to two roles gives away the discrete logarithm of `h`, as a function of the two openings. */
  function DiscreteLog(S: Suite, role: int, blind: Scalar, role': int, blind': Scalar): Scalar
    requires Prime(S.q) && Mod(S.q, blind' - blind) != 0
  {
    S.Mul(role - role', Inverse(S.q, blind' - blind))
  }

  lemma TwoOpeningsGiveLog(S: Suite, role: int, blind: Scalar, role': int, blind': Scalar)
    requires S.Valid() && Mod(S.q, role) != Mod(S.q, role')
    requires MakeRoleCommitment(S, role, blind) == MakeRoleCommitment(S, role', blind')
    ensures Mod(S.q, blind' - blind) != 0
    ensures S.h == DiscreteLog(S, role, blind, role', blind')
  {
    hide Mod, Inverse, Prime;
    var q, u, u' := S.q, S.h * blind, S.h * blind';
    CommitmentSum(S, role, blind);
    CommitmentSum(S, role', blind');
    CongSub(q, role + u, role' + u', role' + u, role' + u);
    var d := blind' - blind;
    assert S.h * d == u' - u;
    assert Cong(q, role - role', S.h * d);
    if Mod(q, d) == 0 {
      Canonical(q, 0);
      CongMul(q, S.h, S.h, d, 0);
      assert S.h * 0 == 0;
      ZeroDifference(q, role, role');
      assert false;
    }
    DivideCong(q, S.h, role - role', d);
    Canonical(q, S.h);
  }

  lemma CommitmentSum(S: Suite, role: int, blind: Scalar)
    requires S.q > 0
    ensures MakeRoleCommitment(S, role, blind) == Mod(S.q, role + S.h * blind)
  {
    hide Mod;
    ReduceAdd(S.q, S.Mul(BASE, role), S.h * blind);
    ReduceAdd(S.q, role, S.h * blind);
    assert BASE * role == role;
  }

  /** The two roles are the same scalar, or the two openings give the discrete logarithm of `h`. */
  ghost predicate SameRoleOrLog(S: Suite, role: u64, blind: Scalar, role': u64, blind': Scalar)
    requires Prime(S.q)
  {
    || Mod(S.q, role) == Mod(S.q, role')
    || (Mod(S.q, blind' - blind) != 0 && S.h == DiscreteLog(S, role, blind, role', blind'))
  }

  lemma OpeningsCompared(S: Suite, role: u64, blind: Scalar, role': u64, blind': Scalar)
    requires S.Valid()
    requires MakeRoleCommitment(S, role, blind) == MakeRoleCommitment(S, role', blind')
    ensures SameRoleOrLog(S, role, blind, role', blind')
  {
    hide Mod;
    if Mod(S.q, role) != Mod(S.q, role') {
      TwoOpeningsGiveLog(S, role, blind, role', blind');
    }
  }

  /**
   Role soundness against the enrollment: two forked accepting runs on the commitment that was
   enrolled with role `r` and blind `b` show that `r` is the allowed role extracted from them, or
   compute the discrete logarithm of `h`.
   */
  lemma EnrolledRoleIsAllowed(S: Suite, S': Suite, n: Session, storedC: Point, cPrime: Point, roles: seq<u64>,
                              proof: seq<Branch>, proof': seq<Branch>, ra: Point, rs: Scalar, rs': Scalar,
                              role: u64, blind: Scalar)
    requires ForkedRuns(S, S', n, storedC, cPrime, roles, proof, proof', ra, rs, rs')
    requires storedC == MakeRoleCommitment(S, role, blind)
    ensures var r, r' := ScalarsOf(S, n, storedC, cPrime, proof, ra, rs), ScalarsOf(S', n, storedC, cPrime, proof', ra, rs');
            && Extractable(S, r, r')
            && var x := JointExtract(S, r, r');
               x.index < |roles| && SameRoleOrLog(S, role, blind, roles[x.index], S.Sub(x.blind, x.delta))
  {
    JointExtraction(S, S', n, storedC, cPrime, roles, proof, proof', ra, rs, rs');
    var r, r' := ScalarsOf(S, n, storedC, cPrime, proof, ra, rs), ScalarsOf(S', n, storedC, cPrime, proof', ra, rs');
    var x := JointExtract(S, r, r');
    OpeningsCompared(S, role, blind, roles[x.index], S.Sub(x.blind, x.delta));
    hide Mod, JointExtract, ScalarsOf, Extractable, SameRoleOrLog, OrEquations, MasterChallenge, RerandChallenge, VerifyRoleRerandomization, MakeRoleCommitment;
  }
}
