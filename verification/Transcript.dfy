/**
 The length-prefixed transcript that every challenge and the key-confirmation hash are
 computed over: the byte format, its decoder, the growable buffer of the Rust programs
 and the fixed 4096-byte buffer of the C programs.
 */
module Transcript {
  import opened Bytes

  datatype Field = Field(name: seq<byte>, msg: seq<byte>)

  /** The bytes of an ASCII literal. */
  function Ascii(s: string): (b: seq<byte>)
    ensures |b| == |s|
  {
    seq(|s|, i requires 0 <= i < |s| => s[i] as int % 256)
  }

  // The one-byte and four-byte length prefixes are narrowing casts in both languages.

  function EncodeDomain(domain: seq<byte>): seq<byte> {
    [|domain| % 256] + domain
  }

  function EncodeField(f: Field): seq<byte> {
    [|f.name| % 256] + f.name + LeBytes(|f.msg|, 4) + f.msg
  }

  function EncodeFields(fields: seq<Field>): seq<byte> {
    if fields == [] then [] else EncodeField(fields[0]) + EncodeFields(fields[1..])
  }

  function Encode(domain: seq<byte>, fields: seq<Field>): seq<byte> {
    EncodeDomain(domain) + EncodeFields(fields)
  }

  /** The sizes for which no prefix is cut off. */
  predicate Sized(f: Field) {
    |f.name| <= 255 && |f.msg| < 0x1_0000_0000
  }

  predicate AllSized(domain: seq<byte>, fields: seq<Field>) {
    |domain| <= 255 && forall f <- fields :: Sized(f)
  }

  function DecodeField(s: seq<byte>): (r: Option<(Field, seq<byte>)>)
    ensures r.Some? ==> |r.value.1| < |s|
  {
    if s == [] then None
    else
      var l: nat := s[0];
      if |s| < 5 + l then None
      else
        var m := LeValue(s[1 + l..5 + l]);
        if |s| < 5 + l + m then None
        else Some((Field(s[1..1 + l], s[5 + l..5 + l + m]), s[5 + l + m..]))
  }

  function DecodeFields(s: seq<byte>): Option<seq<Field>>
    decreases |s|
  {
    if s == [] then Some([])
    else
      match DecodeField(s)
      case None => None
      case Some((f, rest)) =>
        match DecodeFields(rest)
        case None => None
        case Some(fields) => Some([f] + fields)
  }

  function Decode(s: seq<byte>): Option<(seq<byte>, seq<Field>)> {
    if s == [] || |s| <= s[0] then None
    else
      var d: nat := s[0];
      match DecodeFields(s[1 + d..])
      case None => None
      case Some(fields) => Some((s[1..1 + d], fields))
  }

  lemma DecodeFieldInverts(f: Field, rest: seq<byte>)
    requires Sized(f)
    ensures DecodeField(EncodeField(f) + rest) == Some((f, rest))
  {
    var l, m := |f.name|, |f.msg|;
    var s := [l] + f.name + LeBytes(m, 4) + f.msg + rest;
    assert s == EncodeField(f) + rest;
    Pow256Small();
    LeRoundTrip(m, 4);
    assert s[1..1 + l] == f.name;
    assert s[1 + l..5 + l] == LeBytes(m, 4);
    assert s[5 + l..5 + l + m] == f.msg;
    assert s[5 + l + m..] == rest;
  }

  lemma {:induction false} DecodeFieldsInverts(fields: seq<Field>)
    requires forall f <- fields :: Sized(f)
    ensures DecodeFields(EncodeFields(fields)) == Some(fields)
  {
    if fields != [] {
      var f := fields[0];
      assert f in fields;
      DecodeFieldInverts(f, EncodeFields(fields[1..]));
      DecodeFieldsInverts(fields[1..]);
      assert EncodeField(f) != [];
      hide EncodeField, DecodeField;
      assert fields == [f] + fields[1..];
    }
  }

  /** The decoder inverts the encoder. */
  lemma DecodeInvertsEncode(domain: seq<byte>, fields: seq<Field>)
    requires AllSized(domain, fields)
    ensures Decode(Encode(domain, fields)) == Some((domain, fields))
  {
    var s := Encode(domain, fields);
    assert s[0] == |domain| && s[1..1 + |domain|] == domain;
    assert s[1 + |domain|..] == EncodeFields(fields);
    DecodeFieldsInverts(fields);
  }

  /** One step of the decoder: what it cut off the front re-encodes to the same bytes. */
  lemma EncodeFieldInverts(s: seq<byte>)
    requires DecodeField(s).Some?
    ensures var (f, rest) := DecodeField(s).value;
            Sized(f) && EncodeField(f) + rest == s
  {
    var l: nat := s[0];
    var prefix := s[1 + l..5 + l];
    LeCanonical(prefix);
    Pow256Small();
    Pieces(s, l, LeValue(prefix));
    hide LeBytes, LeValue;
  }

  lemma Pieces(s: seq<byte>, l: nat, m: nat)
    requires 5 + l + m <= |s|
    ensures [s[0]] + s[1..1 + l] + s[1 + l..5 + l] + s[5 + l..5 + l + m] + s[5 + l + m..] == s
  {
    assert [s[0]] + s[1..1 + l] == s[..1 + l];
    assert s[..1 + l] + s[1 + l..5 + l] == s[..5 + l];
    assert s[..5 + l] + s[5 + l..5 + l + m] == s[..5 + l + m];
  }

  lemma {:induction false} EncodeFieldsInverts(s: seq<byte>)
    requires DecodeFields(s).Some?
    ensures EncodeFields(DecodeFields(s).value) == s
    ensures forall f <- DecodeFields(s).value :: Sized(f)
    decreases |s|
  {
    hide DecodeField, EncodeField;
    if s != [] {
      var (f, rest) := DecodeField(s).value;
      var fields := DecodeFields(rest).value;
      assert DecodeFields(s) == Some([f] + fields);
      hide *;
      EncodeFieldsInverts(rest);
      EncodeFieldInverts(s);
      EncodeCons(f, fields);
    }
  }

  lemma EncodeCons(f: Field, fields: seq<Field>)
    ensures EncodeFields([f] + fields) == EncodeField(f) + EncodeFields(fields)
  {
    hide EncodeField;
    assert ([f] + fields)[1..] == fields;
  }

  /** Every buffer the decoder accepts is the encoding of what it returns. */
  lemma EncodeInvertsDecode(s: seq<byte>)
    requires Decode(s).Some?
    ensures Encode(Decode(s).value.0, Decode(s).value.1) == s
    ensures AllSized(Decode(s).value.0, Decode(s).value.1)
  {
    var d: nat := s[0];
    var fields := DecodeFields(s[1 + d..]).value;
    assert Decode(s) == Some((s[1..1 + d], fields));
    hide *;
    EncodeFieldsInverts(s[1 + d..]);
    DomainRebuilds(s, d, fields);
  }

  lemma DomainRebuilds(s: seq<byte>, d: nat, fields: seq<Field>)
    requires d < |s| && s[0] == d
    requires EncodeFields(fields) == s[1 + d..] && forall f <- fields :: Sized(f)
    ensures Encode(s[1..1 + d], fields) == s
    ensures AllSized(s[1..1 + d], fields)
  {
    hide EncodeFields, Sized;
    assert EncodeDomain(s[1..1 + d]) == s[..1 + d];
    assert s[..1 + d] + s[1 + d..] == s;
  }

  /** Distinct domains or field lists never share a buffer. */
  lemma EncodeInjective(d: seq<byte>, fs: seq<Field>, d': seq<byte>, fs': seq<Field>)
    requires AllSized(d, fs) && AllSized(d', fs')
    requires Encode(d, fs) == Encode(d', fs')
    ensures d == d' && fs == fs'
  {
    DecodeInvertsEncode(d, fs);
    DecodeInvertsEncode(d', fs');
  }

  lemma {:induction false} EncodeFieldsConcat(fs: seq<Field>, gs: seq<Field>)
    ensures EncodeFields(fs + gs) == EncodeFields(fs) + EncodeFields(gs)
  {
    hide EncodeField;
    if fs == [] {
      assert fs + gs == gs;
    } else {
      EncodeFieldsConcat(fs[1..], gs);
      assert (fs + gs)[1..] == fs[1..] + gs;
      Assoc(EncodeField(fs[0]), EncodeFields(fs[1..]), EncodeFields(gs));
    }
  }

  lemma EncodeAppend(domain: seq<byte>, fs: seq<Field>, f: Field)
    ensures Encode(domain, fs + [f]) == Encode(domain, fs) + EncodeField(f)
  {
    EncodeFieldsConcat(fs, [f]);
    assert EncodeFields([f]) == EncodeField(f) + EncodeFields([]);
  }

  /** The growable buffer of the Rust client and server; over-long names panic there. */
  class CompatTranscript {
    var buf: seq<byte>

    constructor (domain: seq<byte>)
      requires |domain| <= 255
      ensures buf == Encode(domain, [])
    {
      buf := [|domain|] + domain;
    }

    method AppendMessage(name: seq<byte>, msg: seq<byte>)
      requires |name| <= 255
      modifies this
      ensures buf == old(buf) + EncodeField(Field(name, msg))
    {
      buf := buf + [|name|];
      buf := buf + name;
      buf := buf + LeBytes(|msg|, 4);
      buf := buf + msg;
    }
  }

  method BuildTranscript(domain: seq<byte>, fields: seq<Field>) returns (t: CompatTranscript)
    requires |domain| <= 255 && forall f <- fields :: |f.name| <= 255
    ensures fresh(t) && t.buf == Encode(domain, fields)
  {
    t := new CompatTranscript(domain);
    for i := 0 to |fields|
      invariant fresh(t) && t.buf == Encode(domain, fields[..i])
    {
      EncodeAppend(domain, fields[..i], fields[i]);
      assert fields[..i] + [fields[i]] == fields[..i + 1];
      t.AppendMessage(fields[i].name, fields[i].msg);
    }
    assert fields[..|fields|] == fields;
  }

  const C_BUFFER: nat := 4096

  method MemCpy(dst: array<byte>, off: nat, src: seq<byte>)
    requires off + |src| <= dst.Length
    modifies dst
    ensures dst[..] == old(dst[..off]) + src + old(dst[off + |src|..])
  {
    for i := 0 to |src|
      invariant dst[..] == old(dst[..off]) + src[..i] + old(dst[off + i..])
    {
      dst[off + i] := src[i];
    }
  }

  /** The fixed buffer of the C client and server. The writes carry no bounds test, so room is asked of the caller. */
  class CTranscript {
    const buf: array<byte>
    var len: nat

    ghost predicate Valid()
      reads this
    {
      buf.Length == C_BUFFER && len <= C_BUFFER
    }

    ghost function Contents(): seq<byte>
      reads this, buf
      requires Valid()
    {
      buf[..len]
    }

    constructor ()
      ensures Valid() && fresh(buf)
    {
      buf := new byte[C_BUFFER];
      len := 0;
    }

    method Put(b: byte)
      requires Valid() && len < C_BUFFER
      modifies this, buf
      ensures Valid() && Contents() == old(Contents()) + [b]
    {
      buf[len] := b;
      len := len + 1;
    }

    method Copy(src: seq<byte>)
      requires Valid() && len + |src| <= C_BUFFER
      modifies this, buf
      ensures Valid() && Contents() == old(Contents()) + src
    {
      MemCpy(buf, len, src);
      len := len + |src|;
    }

    method Init(domain: seq<byte>)
      requires Valid() && |EncodeDomain(domain)| <= C_BUFFER
      modifies this, buf
      ensures Valid() && Contents() == Encode(domain, [])
    {
      len := 0;
      PutName(domain);
    }

    method Append(name: seq<byte>, val: seq<byte>)
      requires Valid() && |val| < 0x1_0000_0000
      requires |Contents()| + |EncodeField(Field(name, val))| <= C_BUFFER
      modifies this, buf
      ensures Valid() && Contents() == old(Contents()) + EncodeField(Field(name, val))
    {
      PutName(name);
      PutLe32(|val|);
      Copy(val);
    }

    method PutName(name: seq<byte>)
      requires Valid() && len + 1 + |name| <= C_BUFFER
      modifies this, buf
      ensures Valid() && Contents() == old(Contents()) + EncodeDomain(name)
    {
      Put(|name| % 256);
      Copy(name);
    }

    method PutLe32(v: nat)
      requires Valid() && len + 4 <= C_BUFFER
      modifies this, buf
      ensures Valid() && Contents() == old(Contents()) + LeBytes(v, 4)
    {
      ShiftedBytes(v);
      Put(v % 256);
      Put((v / 0x100) % 256);
      Put((v / 0x1_0000) % 256);
      Put((v / 0x100_0000) % 256);
    }
  }

  lemma ShiftedBytes(v: nat)
    ensures LeBytes(v, 4) == [v % 256, (v / 0x100) % 256, (v / 0x1_0000) % 256, (v / 0x100_0000) % 256]
  {
    assert LeBytes(v, 4) == [v % 256] + LeBytes(v / 0x100, 3);
    assert LeBytes(v / 0x100, 3) == [(v / 0x100) % 256] + LeBytes(v / 0x1_0000, 2);
    assert LeBytes(v / 0x1_0000, 2) == [(v / 0x1_0000) % 256] + LeBytes(v / 0x100_0000, 1);
    assert LeBytes(v / 0x100_0000, 1) == [(v / 0x100_0000) % 256] + LeBytes(v / 0x1_0000_0000, 0);
  }

  /** The C calls in sequence: whenever the whole transcript fits, the C buffer holds exactly the Rust bytes. */
  method BuildCTranscript(domain: seq<byte>, fields: seq<Field>) returns (t: CTranscript)
    requires |Encode(domain, fields)| <= C_BUFFER
    ensures fresh(t) && fresh(t.buf) && t.Valid()
    ensures t.Contents() == Encode(domain, fields)
  {
    t := new CTranscript();
    PrefixFits(domain, fields, 0);
    t.Init(domain);
    for i := 0 to |fields|
      invariant fresh(t) && fresh(t.buf) && t.Valid()
      invariant t.Contents() == Encode(domain, fields[..i])
    {
      PrefixFits(domain, fields, i + 1);
      EncodeAppend(domain, fields[..i], fields[i]);
      assert fields[..i] + [fields[i]] == fields[..i + 1];
      t.Append(fields[i].name, fields[i].msg);
    }
    assert fields[..|fields|] == fields;
  }

  lemma PrefixFits(domain: seq<byte>, fields: seq<Field>, i: nat)
    requires i <= |fields|
    ensures |Encode(domain, fields[..i])| <= |Encode(domain, fields)|
  {
    EncodeFieldsConcat(fields[..i], fields[i..]);
    assert fields[..i] + fields[i..] == fields;
  }
}
