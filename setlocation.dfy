/**
 * `set_location`: simulate the device's location through the
 * `com.apple.dt.simulatelocation` service. After the lockdown handshake,
 * the service start and the service client, two messages are sent: the
 * mode word, then the latitude and longitude text, each preceded by its
 * length as a 32-bit big-endian word.
 */
module SetLocation {
  import opened Wrappers
  import opened Bytes

  const SetLocationMode: uint32 := 0
  const ResetLocationMode: uint32 := 1

  /** `htobe32` stored to memory: the four bytes of `n`, most significant first. */
  function BE32(n: uint32): (r: seq<byte>)
    ensures |r| == 4
  {
    [(n as int / 0x100_0000) as byte, (n as int / 0x1_0000 % 256) as byte,
     (n as int / 0x100 % 256) as byte, (n as int % 256) as byte]
  }

  /** The big-endian word at the front of four bytes. */
  function ReadBE32(b: seq<byte>): (n: int)
    requires |b| >= 4
    ensures 0 <= n < 0x1_0000_0000
  {
    b[0] as int * 0x100_0000 + b[1] as int * 0x1_0000 + b[2] as int * 0x100 + b[3] as int
  }

  /** Reading the word back gives the number written. */
  lemma ReadWritten(n: uint32)
    ensures ReadBE32(BE32(n)) == n as int
  {
    var x := n as int;
    var b := BE32(n);
    assert x == (x / 0x100) * 0x100 + x % 0x100;
    assert x / 0x100 == (x / 0x1_0000) * 0x100 + x / 0x100 % 0x100;
    assert x / 0x1_0000 == (x / 0x100_0000) * 0x100 + x / 0x1_0000 % 0x100;
    assert x / 0x1_0000 == x / 0x100 / 0x100;
    assert x / 0x100_0000 == x / 0x1_0000 / 0x100;
  }

  /** Writing the word read from four bytes gives the same four bytes. */
  lemma WrittenRead(b: seq<byte>)
    requires |b| == 4
    ensures BE32(ReadBE32(b) as uint32) == b
  {
    var x := ReadBE32(b);
    assert x / 0x100_0000 == b[0] as int;
    assert x / 0x1_0000 == b[0] as int * 0x100 + b[1] as int;
    assert x / 0x100 == b[0] as int * 0x1_0000 + b[1] as int * 0x100 + b[2] as int;
  }

  /** The text fits the 32-bit length words and the `int` the total is computed in. */
  predicate Fits(lat: seq<byte>, lon: seq<byte>) {
    8 + |lat| + |lon| < 0x8000_0000
  }

  /** The second message: each coordinate preceded by its length. */
  function Payload(lat: seq<byte>, lon: seq<byte>): (r: seq<byte>)
    requires Fits(lat, lon)
    ensures |r| == 4 + |lat| + 4 + |lon|
  {
    BE32(|lat| as uint32) + lat + BE32(|lon| as uint32) + lon
  }

  /** Reading the two length-prefixed fields of a message, which must use it up exactly. */
  function DecodePayload(b: seq<byte>): (r: Option<(seq<byte>, seq<byte>)>) {
    if |b| < 4 then None
    else
      var latLen := ReadBE32(b);
      if |b| < 8 + latLen then None
      else
        var lat := b[4..4 + latLen];
        var lonLen := ReadBE32(b[4 + latLen..]);
        if |b| != 8 + latLen + lonLen then None
        else Some((lat, b[8 + latLen..]))
  }

  /** The fields sit at offsets 0, 4, 4 + |lat| and 8 + |lat|. */
  lemma PayloadLayout(lat: seq<byte>, lon: seq<byte>)
    requires Fits(lat, lon)
    ensures Payload(lat, lon)[..4] == BE32(|lat| as uint32)
    ensures Payload(lat, lon)[4..4 + |lat|] == lat
    ensures Payload(lat, lon)[4 + |lat|..8 + |lat|] == BE32(|lon| as uint32)
    ensures Payload(lat, lon)[8 + |lat|..] == lon
  {
  }

  /** The receiver recovers latitude and longitude exactly. */
  lemma PayloadRoundTrip(lat: seq<byte>, lon: seq<byte>)
    requires Fits(lat, lon)
    ensures DecodePayload(Payload(lat, lon)) == Some((lat, lon))
  {
    var p := Payload(lat, lon);
    PayloadLayout(lat, lon);
    ReadWritten(|lat| as uint32);
    ReadWritten(|lon| as uint32);
    assert p[..4] == BE32(|lat| as uint32);
    assert ReadBE32(p) == ReadBE32(p[..4]);
    var rest := p[4 + |lat|..];
    assert rest[..4] == BE32(|lon| as uint32);
    assert ReadBE32(rest) == ReadBE32(rest[..4]);
  }

  /** The decoder accepts nothing but such messages. */
  lemma DecodedIsPayload(b: seq<byte>, lat: seq<byte>, lon: seq<byte>)
    requires DecodePayload(b) == Some((lat, lon))
    ensures Fits(lat, lon) ==> b == Payload(lat, lon)
  {
    var latLen := ReadBE32(b);
    assert |lat| == latLen;
    var rest := b[4 + latLen..];
    assert |lon| == ReadBE32(rest);
    if Fits(lat, lon) {
      WrittenRead(b[..4]);
      WrittenRead(rest[..4]);
      assert ReadBE32(b[..4]) == latLen;
      assert ReadBE32(rest[..4]) == |lon|;
      assert b == b[..4] + lat + rest[..4] + lon;
    }
  }

  /** `memcpy(buf + offset, src, |src|)`. */
  method CopyInto(buf: array<byte>, offset: nat, src: seq<byte>)
    requires offset + |src| <= buf.Length
    modifies buf
    ensures buf[..offset] == old(buf[..offset])
    ensures buf[offset..offset + |src|] == src
    ensures buf[offset + |src|..] == old(buf[offset + |src|..])
  {
    var i := 0;
    while i < |src|
      invariant 0 <= i <= |src|
      invariant buf[..offset] == old(buf[..offset])
      invariant buf[offset..offset + i] == src[..i]
      invariant buf[offset + i..] == old(buf[offset + i..])
    {
      buf[offset + i] := src[i];
      i := i + 1;
    }
  }

  /** The `malloc`'d buffer of the second message, filled piece by piece. */
  method BuildPayload(lat: seq<byte>, lon: seq<byte>) returns (buf: array<byte>)
    requires Fits(lat, lon)
    ensures fresh(buf)
    ensures buf[..] == Payload(lat, lon)
  {
    var len := 4 + |lat| + 4 + |lon|;
    buf := new byte[len];
    var latLen := |lat| as uint32;
    CopyInto(buf, 0, BE32(latLen));
    CopyInto(buf, 4, lat);
    ghost var front := buf[..4 + |lat|];
    assert front == BE32(latLen) + lat by {
      assert buf[..4] == BE32(latLen);
      assert buf[4..4 + |lat|] == lat;
      assert front == buf[..4] + buf[4..4 + |lat|];
    }
    var lonLen := |lon| as uint32;
    CopyInto(buf, 4 + |lat|, BE32(lonLen));
    CopyInto(buf, 8 + |lat|, lon);
    assert buf[..] == buf[..4 + |lat|] + buf[4 + |lat|..8 + |lat|] + buf[8 + |lat|..];
  }

  /** What happened to the request: the messages sent, in order. */
  datatype Outcome = Outcome(ok: bool, sent: seq<seq<byte>>)

  /**
   * `set_location`: a failed handshake, service start or client creation
   * returns false having sent nothing; otherwise the mode word and the
   * coordinates are sent and true is returned, whatever the sends report.
   */
  method SetLocation(handshakeOk: bool, serviceOk: bool, clientOk: bool, lat: seq<byte>, lon: seq<byte>)
    returns (r: Outcome)
    requires Fits(lat, lon)
    ensures r.ok == (handshakeOk && serviceOk && clientOk)
    ensures !r.ok ==> r.sent == []
    ensures r.ok ==> r.sent == [BE32(SetLocationMode), Payload(lat, lon)] && r.sent[0] == [0, 0, 0, 0]
  {
    if !handshakeOk {
      return Outcome(false, []);
    }
    if !serviceOk {
      return Outcome(false, []);
    }
    if !clientOk {
      return Outcome(false, []);
    }
    var mode := SetLocationMode;
    var sent := [BE32(mode)];
    if mode == SetLocationMode {
      var buf := BuildPayload(lat, lon);
      sent := sent + [buf[..]];
    }
    return Outcome(true, sent);
  }
}
