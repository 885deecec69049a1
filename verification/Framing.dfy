/** Length-prefixed frames over a byte stream. */
module Framing {
  import opened Bytes

  datatype FrameError = Eof | FrameTooLarge

  /** The length is cut to 32 bits, as the cast in the source does. */
  function Frame(payload: seq<byte>): (s: seq<byte>)
    ensures |s| == 4 + |payload|
  {
    BeBytes(|payload| % 0x1_0000_0000, 4) + payload
  }

  function Stream(frames: seq<seq<byte>>): seq<byte>
    decreases |frames|
  {
    if frames == [] then [] else Frame(frames[0]) + Stream(frames[1..])
  }

  /** The next payload and what is left of the stream behind it. */
  function Receive(s: seq<byte>, maxLen: nat): (r: Result<(seq<byte>, seq<byte>), FrameError>)
    ensures r.Ok? ==> |s| == 4 + |r.value.0| + |r.value.1|
  {
    if |s| < 4 then Err(Eof)
    else
      var len := BeValue(s[..4]);
      if len > maxLen then Err(FrameTooLarge)
      else if |s| < 4 + len then Err(Eof)
      else Ok((s[4..4 + len], s[4 + len..]))
  }

  function ReceiveAll(s: seq<byte>, maxLen: nat): Result<seq<seq<byte>>, FrameError>
    decreases |s|
  {
    if s == [] then Ok([])
    else
      var (payload, rest) :- Receive(s, maxLen);
      var more :- ReceiveAll(rest, maxLen);
      Ok([payload] + more)
  }

  /** The length comes first, its most significant byte in front. */
  lemma FrameLayout(payload: seq<byte>)
    requires |payload| < 0x1_0000_0000
    ensures var b := Frame(payload);
            && b[0] == (|payload| / 0x100_0000) % 256 && b[1] == (|payload| / 0x1_0000) % 256
            && b[2] == (|payload| / 0x100) % 256 && b[3] == |payload| % 256
            && b[4..] == payload
  {
    hide BeBytes, LeBytes, Pow256;
    Pow256Small();
    forall i | 0 <= i < 4 ensures BeBytes(|payload|, 4)[i] == (|payload| / Pow256(3 - i)) % 256 {
      BeByteAt(|payload|, 4, i);
      LeByteAt(|payload|, 4, 3 - i);
    }
    assert Frame(payload)[4..] == payload;
  }

  lemma FrameReceived(payload: seq<byte>, rest: seq<byte>, maxLen: nat)
    requires |payload| < 0x1_0000_0000
    ensures Receive(Frame(payload) + rest, maxLen) == if |payload| <= maxLen then Ok((payload, rest)) else Err(FrameTooLarge)
  {
    hide BeBytes, BeValue;
    var head := BeBytes(|payload|, 4);
    var s := Frame(payload) + rest;
    BeRoundTrip(|payload|, 4);
    Pow256Small();
    assert s[..4] == head;
    assert s[4..4 + |payload|] == payload;
    assert s[4 + |payload|..] == rest;
  }

  /** Concatenated frames come apart into the payloads they were made of. */
  lemma {:induction false} StreamDecodes(frames: seq<seq<byte>>, maxLen: nat)
    requires maxLen < 0x1_0000_0000 && forall f <- frames :: |f| <= maxLen
    ensures ReceiveAll(Stream(frames), maxLen) == Ok(frames)
    decreases |frames|
  {
    if frames != [] {
      hide Frame, Receive;
      var payload, rest := frames[0], Stream(frames[1..]);
      assert payload in frames;
      FrameReceived(payload, rest, maxLen);
      assert forall f <- frames[1..] :: f in frames;
      StreamDecodes(frames[1..], maxLen);
      assert [payload] + frames[1..] == frames;
      assert Stream(frames) == Frame(payload) + rest;
      assert |Frame(payload) + rest| > 0;
    }
  }

  lemma ReceivedFrame(s: seq<byte>, maxLen: nat)
    requires maxLen < 0x1_0000_0000 && Receive(s, maxLen).Ok?
    ensures var (payload, rest) := Receive(s, maxLen).value;
            |payload| <= maxLen && s == Frame(payload) + rest
  {
    hide BeBytes, BeValue;
    var len := BeValue(s[..4]);
    BeCanonical(s[..4]);
    assert s == s[..4] + s[4..4 + len] + s[4 + len..];
  }

  /** A stream that comes apart completely is the concatenation of its frames. */
  lemma {:induction false} DecodedStream(s: seq<byte>, maxLen: nat)
    requires maxLen < 0x1_0000_0000 && ReceiveAll(s, maxLen).Ok?
    ensures var frames := ReceiveAll(s, maxLen).value;
            (forall f <- frames :: |f| <= maxLen) && s == Stream(frames)
    decreases |s|
  {
    if s != [] {
      hide Frame, Receive;
      ReceivedFrame(s, maxLen);
      var (payload, rest) := Receive(s, maxLen).value;
      DecodedStream(rest, maxLen);
      var more := ReceiveAll(rest, maxLen).value;
      assert ([payload] + more)[1..] == more;
    }
  }

  /** One direction of a connection with its byte counters. */
  class Channel {
    var inTransit: seq<byte>
    var sent: nat
    var received: nat

    constructor ()
      ensures inTransit == [] && sent == 0 && received == 0
    {
      inTransit, sent, received := [], 0, 0;
    }

    method SendFrame(payload: seq<byte>)
      modifies this
      ensures inTransit == old(inTransit) + Frame(payload)
      ensures sent == old(sent) + 4 + |payload| && received == old(received)
    {
      var len := |payload| % 0x1_0000_0000;
      var before := inTransit;
      inTransit := inTransit + BeBytes(len, 4);
      inTransit := inTransit + payload;
      Assoc(before, BeBytes(len, 4), payload);
      sent := sent + 4 + |payload|;
    }

    /** A frame that is too large or incomplete costs the stream its header but not the counter. */
    method RecvFrame(maxLen: nat) returns (r: Result<seq<byte>, FrameError>)
      modifies this
      ensures sent == old(sent)
      ensures match Receive(old(inTransit), maxLen)
              case Ok((payload, rest)) => r == Ok(payload) && inTransit == rest && received == old(received) + 4 + |payload|
              case Err(e) => r == Err(e) && received == old(received) && (e.FrameTooLarge? ==> inTransit == old(inTransit)[4..])
    {
      var s := inTransit;
      if |s| < 4 {
        return Err(Eof);
      }
      var len := BeValue(s[..4]);
      inTransit := s[4..];
      if len > maxLen {
        return Err(FrameTooLarge);
      }
      if |inTransit| < len {
        return Err(Eof);
      }
      var buf := inTransit[..len];
      inTransit := inTransit[len..];
      assert buf == s[4..4 + len] && inTransit == s[4 + len..];
      received := received + 4 + len;
      return Ok(buf);
    }
  }

  method SendAll(ch: Channel, frames: seq<seq<byte>>)
    requires ch.inTransit == []
    modifies ch
    ensures ch.inTransit == Stream(frames)
    ensures ch.sent == old(ch.sent) + |Stream(frames)| && ch.received == old(ch.received)
  {
    hide Frame;
    for i := 0 to |frames|
      invariant ch.inTransit == Stream(frames[..i])
      invariant ch.sent == old(ch.sent) + |ch.inTransit| && ch.received == old(ch.received)
    {
      ch.SendFrame(frames[i]);
      StreamGrows(frames[..i], frames[i]);
      assert frames[..i] + [frames[i]] == frames[..i + 1];
    }
    assert frames[..|frames|] == frames;
  }

  /** Everything sent arrives, in order, and the two counters agree at the end. */
  method SendAndReceive(frames: seq<seq<byte>>, maxLen: nat) returns (got: seq<seq<byte>>, balanced: bool)
    requires maxLen < 0x1_0000_0000 && forall f <- frames :: |f| <= maxLen
    ensures got == frames && balanced
  {
    hide Frame, Receive, BeBytes;
    var ch := new Channel();
    SendAll(ch, frames);
    assert frames[0..] == frames;
    got := [];
    for i := 0 to |frames|
      invariant ch.inTransit == Stream(frames[i..]) && got == frames[..i]
      invariant ch.received + |ch.inTransit| == ch.sent
    {
      assert frames[i] in frames;
      var rest := frames[i + 1..];
      assert frames[i..] == [frames[i]] + rest;
      FrameReceived(frames[i], Stream(rest), maxLen);
      var r := ch.RecvFrame(maxLen);
      got := got + [r.value];
    }
    balanced := ch.sent == ch.received;
  }

  lemma {:induction false} StreamGrows(frames: seq<seq<byte>>, f: seq<byte>)
    ensures Stream(frames + [f]) == Stream(frames) + Frame(f)
    decreases |frames|
  {
    hide Frame;
    if frames == [] {
      assert ([f])[1..] == [];
      assert Stream([]) == [];
    } else {
      StreamGrows(frames[1..], f);
      assert (frames + [f])[1..] == frames[1..] + [f];
      Assoc(Frame(frames[0]), Stream(frames[1..]), Frame(f));
    }
  }
}
