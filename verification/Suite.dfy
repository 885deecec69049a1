/**
 The primitives both programs call into libraries for. The prime-order group is written
 additively through discrete logarithms: a point is the exponent of the base point, so
 adding points adds exponents. The hashes, HMAC and the point encoding are parameters.
 */
module Suites {
  import opened Bytes
  import opened PrimeField
  import opened Transcript

  type Scalar = int
  type Point = int

  const BASE: Point := 1
  const IDENTITY: Point := 0

  datatype Suite = Suite(
    q: int,                                   // order of the group
    h: Point,                                 // second generator, attr_h
    compress: Point -> Bytes32,
    decompress: Bytes32 -> Option<Point>,
    sha512: seq<byte> -> nat,                 // the digest read as a wide integer
    sha256: seq<byte> -> Bytes32,
    hmac: (seq<byte>, seq<byte>) -> Bytes32)
  {
    predicate In(x: int) {
      0 <= x < q
    }

    /** A prime-order group with a canonical 32-byte encoding (section 4 of RFC 9496). */
    ghost predicate Valid() {
      && Prime(q) && q <= TWO_TO_256
      && 0 < h < q
      && (forall p | In(p) :: decompress(compress(p)) == Some(p))
      && (forall b :: decompress(b).Some? ==> In(decompress(b).value) && compress(decompress(b).value) == b)
    }

    function Add(x: int, y: int): (r: int)
      requires q > 0
      ensures In(r)
    {
      Mod(q, x + y)
    }

    function Sub(x: int, y: int): (r: int)
      requires q > 0
      ensures In(r)
    {
      Mod(q, x - y)
    }

    function Neg(x: int): (r: int)
      requires q > 0
      ensures In(r)
    {
      Mod(q, -x)
    }

    /** Scalar product, and a point multiplied by a scalar. */
    function Mul(x: int, y: int): (r: int)
      requires q > 0
      ensures In(r)
    {
      Mod(q, x * y)
    }

    function ScalarBytes(s: Scalar): Bytes32
      requires In(s)
    {
      LeBytes(s, 32)
    }

    function ScalarFromCanonical(b: Bytes32): Option<Scalar> {
      if LeValue(b) < q then Some(LeValue(b)) else None
    }

    /** The challenge: the transcript's SHA-512 digest reduced modulo the group order. */
    function Challenge(domain: seq<byte>, fields: seq<Field>): (c: Scalar)
      requires q > 0
      ensures In(c)
    {
      Mod(q, sha512(Encode(domain, fields)))
    }
  }

  function OneByte(p: Point): Bytes32 {
    [p % 256] + seq(31, _ => 0)
  }

  function FromOneByte(b: Bytes32): Option<Point> {
    if b[0] < 3 && b[1..] == seq(31, _ => 0) then Some(b[0]) else None
  }

  function Zeros(): Bytes32 {
    seq(32, _ => 0)
  }

  /** A group of three elements, encoded in the first byte, with constant hashes. */
  function TinySuite(): Suite {
    Suite(3, 2, OneByte, FromOneByte, _ => 0, _ => Zeros(), (key, msg) => Zeros())
  }

  /** What is required of a suite can be met. */
  lemma TinySuiteIsValid()
    ensures TinySuite().Valid()
  {
    var S := TinySuite();
    forall p | S.In(p) ensures S.decompress(S.compress(p)) == Some(p) {
      assert OneByte(p)[1..] == seq(31, _ => 0);
    }
    forall b | S.decompress(b).Some? ensures S.In(S.decompress(b).value) && S.compress(S.decompress(b).value) == b {
      assert b == [b[0]] + b[1..];
    }
  }

  lemma ScalarRoundTrip(S: Suite, s: Scalar)
    requires S.In(s) && S.q <= TWO_TO_256
    ensures S.ScalarFromCanonical(S.ScalarBytes(s)) == Some(s)
  {
    Pow256Of32();
    LeRoundTrip(s, 32);
  }

  /** Canonical encodings are unique: equal bytes decode from equal points and scalars. */
  lemma EncodingsInjective(S: Suite, x: int, y: int)
    requires S.Valid() && S.In(x) && S.In(y)
    ensures S.compress(x) == S.compress(y) ==> x == y
    ensures S.ScalarBytes(x) == S.ScalarBytes(y) ==> x == y
  {
    ScalarRoundTrip(S, x);
    ScalarRoundTrip(S, y);
    assert S.decompress(S.compress(x)) == Some(x);
    assert S.decompress(S.compress(y)) == Some(y);
  }

  // Domain separators of the transcripts.

  const T_SETUP := Ascii("setup_client_schnorr_v1")
  const T_SETUP_SERVER := Ascii("setup_server_schnorr_v1")
  const T_SERVER := Ascii("server_schnorr_v1")
  const T_PID := Ascii("iot-auth/pid/v1")
  const T_CLIENT_V2 := Ascii("client_schnorr_v2")
  const T_KC_V2 := Ascii("kc_v2")
  const T_ROLE_SET := Ascii("client_role_set_v1")
  const T_ROLE_RERAND := Ascii("client_role_rerand_v1")

  function Domains(): seq<seq<byte>> {
    [T_SETUP, T_SETUP_SERVER, T_SERVER, T_CLIENT_V2, T_KC_V2, T_ROLE_SET, T_ROLE_RERAND]
  }

  lemma DomainsDistinct(i: nat, j: nat)
    requires i < j < |Domains()|
    ensures Domains()[i] != Domains()[j]
  {
    assert T_SETUP[6] == 'c' as int && T_SETUP_SERVER[6] == 's' as int;
    assert T_SERVER[0] == 's' as int && T_CLIENT_V2[0] == 'c' as int;
  }

  /** No transcript built for one purpose has the bytes of a transcript built for another. */
  lemma DomainSeparation(i: nat, j: nat, fs: seq<Field>, gs: seq<Field>)
    requires i < |Domains()| && j < |Domains()| && i != j
    requires forall f <- fs + gs :: Sized(f)
    ensures Encode(Domains()[i], fs) != Encode(Domains()[j], gs)
  {
    DomainsDistinct(if i < j then i else j, if i < j then j else i);
    assert forall f <- fs :: f in fs + gs;
    assert forall f <- gs :: f in fs + gs;
    if Encode(Domains()[i], fs) == Encode(Domains()[j], gs) {
      EncodeInjective(Domains()[i], fs, Domains()[j], gs);
    }
  }

  /** The per-session pseudonym, computed from the encoded device key. */
  function PidFromBytes(S: Suite, devicePub: Bytes32, nonceC: Bytes32, ephC: Point, serverPub: Point): Bytes32 {
    S.sha256(LeBytes(|T_PID|, 4) + T_PID + devicePub + nonceC + S.compress(ephC) + S.compress(serverPub))
  }

  function ComputePid(S: Suite, devicePub: Point, nonceC: Bytes32, ephC: Point, serverPub: Point): Bytes32 {
    PidFromBytes(S, S.compress(devicePub), nonceC, ephC, serverPub)
  }

  function HandleFromBytes(S: Suite, devicePub: Bytes32): Bytes16 {
    S.sha256(Ascii("zkarche/device-handle/v1") + devicePub)[..16]
  }

  function DeviceHandle(S: Suite, devicePub: Point): Bytes16 {
    HandleFromBytes(S, S.compress(devicePub))
  }

  // What pseudonyms and handles depend on.

  predicate HashCollision(S: Suite, a: seq<byte>, b: seq<byte>) {
    a != b && S.sha256(a) == S.sha256(b)
  }

  function PidInput(S: Suite, devicePub: Bytes32, nonceC: Bytes32, ephC: Point, serverPub: Point): seq<byte> {
    [15, 0, 0, 0] + Ascii("iot-auth/pid/v1") + devicePub + nonceC + S.compress(ephC) + S.compress(serverPub)
  }

  lemma PidInputDetermines(S: Suite, devicePub: Bytes32, nonceC: Bytes32, ephC: Point, serverPub: Point)
    ensures var u := PidInput(S, devicePub, nonceC, ephC, serverPub);
            && S.sha256(u) == PidFromBytes(S, devicePub, nonceC, ephC, serverPub)
            && |u| == 147 && u[19..51] == devicePub && u[51..83] == nonceC
            && u[83..115] == S.compress(ephC) && u[115..147] == S.compress(serverPub)
  {
    assert LeBytes(15, 4) == [15, 0, 0, 0];
    assert |T_PID| == 15;
  }

  /**
   Equal pseudonyms come from the same stored key, nonce, ephemeral and server, or SHA-256 collides
   on the two inputs: a device has a new pseudonym in every session.
   */
  lemma PseudonymDetermines(S: Suite, devicePub: Bytes32, nonceC: Bytes32, ephC: Point, serverPub: Point,
                            devicePub': Bytes32, nonceC': Bytes32, ephC': Point, serverPub': Point)
    requires S.Valid() && S.In(ephC) && S.In(serverPub) && S.In(ephC') && S.In(serverPub')
    requires PidFromBytes(S, devicePub, nonceC, ephC, serverPub) == PidFromBytes(S, devicePub', nonceC', ephC', serverPub')
    ensures || (devicePub == devicePub' && nonceC == nonceC' && ephC == ephC' && serverPub == serverPub')
            || HashCollision(S, PidInput(S, devicePub, nonceC, ephC, serverPub), PidInput(S, devicePub', nonceC', ephC', serverPub'))
  {
    PidInputDetermines(S, devicePub, nonceC, ephC, serverPub);
    PidInputDetermines(S, devicePub', nonceC', ephC', serverPub');
    EncodingsInjective(S, ephC, ephC');
    EncodingsInjective(S, serverPub, serverPub');
    hide PidInput, PidFromBytes;
  }

  function HandleInput(devicePub: Bytes32): seq<byte> {
    Ascii("zkarche/device-handle/v1") + devicePub
  }

  /** Equal handles come from the same stored key, or the first sixteen bytes of two different inputs' digests coincide. */
  lemma HandleDetermines(S: Suite, devicePub: Bytes32, devicePub': Bytes32)
    requires HandleFromBytes(S, devicePub) == HandleFromBytes(S, devicePub')
    ensures || devicePub == devicePub'
            || (&& HandleInput(devicePub) != HandleInput(devicePub')
                && S.sha256(HandleInput(devicePub))[..16] == S.sha256(HandleInput(devicePub'))[..16])
  {
    var n := |Ascii("zkarche/device-handle/v1")|;
    assert HandleInput(devicePub)[n..] == devicePub && HandleInput(devicePub')[n..] == devicePub';
  }

  /** The same for devices: equal pseudonyms are one device's in one session, unless SHA-256 collides. */
  lemma DevicePseudonymDetermines(S: Suite, devicePub: Point, nonceC: Bytes32, ephC: Point, serverPub: Point,
                                  devicePub': Point, nonceC': Bytes32, ephC': Point, serverPub': Point)
    requires S.Valid() && S.In(devicePub) && S.In(ephC) && S.In(serverPub) && S.In(devicePub') && S.In(ephC') && S.In(serverPub')
    requires ComputePid(S, devicePub, nonceC, ephC, serverPub) == ComputePid(S, devicePub', nonceC', ephC', serverPub')
    ensures || (devicePub == devicePub' && nonceC == nonceC' && ephC == ephC' && serverPub == serverPub')
            || HashCollision(S, PidInput(S, S.compress(devicePub), nonceC, ephC, serverPub),
                             PidInput(S, S.compress(devicePub'), nonceC', ephC', serverPub'))
  {
    hide PidInput, PidFromBytes;
    PseudonymDetermines(S, S.compress(devicePub), nonceC, ephC, serverPub, S.compress(devicePub'), nonceC', ephC', serverPub');
    EncodingsInjective(S, devicePub, devicePub');
  }
}
