/** The shape both application requests share: version, id, timestamp, nonce and a counted payload. */
module AppLayouts {
  import opened Bytes

  type u64 = n: int | 0 <= n < 0x1_0000_0000_0000_0000

  function Layout(version: byte, id: seq<byte>, timestamp: seq<byte>, nonce: Bytes32, len: seq<byte>, payload: seq<byte>): seq<byte>
    requires |id| <= 255
  {
    [version, |id|] + id + timestamp + nonce + len + payload
  }

  /** Where each part of a request is. */
  lemma LayoutSlices(version: byte, id: seq<byte>, timestamp: seq<byte>, nonce: Bytes32, len: seq<byte>, payload: seq<byte>)
    requires |id| <= 255 && |timestamp| == 8 && |len| == 2
    ensures var s, l := Layout(version, id, timestamp, nonce, len, payload), |id|;
            && |s| == 44 + l + |payload| && s[0] == version && s[1] == l && s[2..2 + l] == id
            && s[2 + l..10 + l] == timestamp && s[10 + l..42 + l] == nonce && s[42 + l..44 + l] == len && s[44 + l..] == payload
  {
    var head := [version, |id|];
    var s1 := head + id;
    var s2 := s1 + timestamp;
    var s3 := s2 + nonce;
    var s4 := s3 + len;
    var s := s4 + payload;
    assert s == Layout(version, id, timestamp, nonce, len, payload);
    assert s[..|s4|] == s4 && s4[..|s3|] == s3 && s3[..|s2|] == s2 && s2[..|s1|] == s1;
    assert s4[|s3|..] == len && s3[|s2|..] == nonce && s2[|s1|..] == timestamp && s1[2..] == id;
  }

  /** A buffer whose second byte is `l` is the request made of its own slices. */
  lemma SlicesLayout(s: seq<byte>, l: nat)
    requires 44 + l <= |s| && s[1] == l
    ensures s == Layout(s[0], s[2..2 + l], s[2 + l..10 + l], s[10 + l..42 + l], s[42 + l..44 + l], s[44 + l..])
  {
    assert s == s[..2] + s[2..2 + l] + s[2 + l..10 + l] + s[10 + l..42 + l] + s[42 + l..44 + l] + s[44 + l..];
    assert s[..2] == [s[0], s[1]];
  }
}
