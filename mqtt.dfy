/** The byte helpers of mqtt.go and the handler that captures the schedule response. */
module Mqtt {
  import opened Common

  const MqttBufSize: nat := 512

  /** The topic the schedule server answers on. */
  function TopicResponse(): (r: seq<Byte>)
    ensures |r| == 19
  {
    Ascii("bindicator/response")
  }

  /** `bytesEqual`: an allocation-free slice comparison. */
  method BytesEqual(a: seq<Byte>, b: seq<Byte>) returns (eq: bool)
    ensures eq <==> a == b
  {
    if |a| != |b| {
      return false;
    }
    for i := 0 to |a|
      invariant a[..i] == b[..i]
    {
      if a[i] != b[i] {
        return false;
      }
      assert a[..i + 1] == a[..i] + [a[i]];
      assert b[..i + 1] == b[..i] + [b[i]];
    }
    assert a == a[..|a|] && b == b[..|b|];
    return true;
  }

  /** `appendHex`: the four lowercase hex digits of a uint16, most significant first,
      appended to b. */
  function AppendHex(b: seq<Byte>, v: int): (r: seq<Byte>)
    requires 0 <= v < 0x1_0000
    ensures |r| == |b| + 4 && r[..|b|] == b
    ensures r[|b|..] == HexFixed(v, 4)
  {
    var digits := [HexDigit(v / 4096 % 16), HexDigit(v / 256 % 16), HexDigit(v / 16 % 16), HexDigit(v % 16)];
    assert digits == HexFixed(v, 4) by {
      assert v / 16 / 16 == v / 256 && v / 256 / 16 == v / 4096;
    }
    b + digits
  }

  /** The appended digits are lowercase hex and read back as v. */
  lemma AppendHexRoundTrip(b: seq<Byte>, v: int)
    requires 0 <= v < 0x1_0000
    ensures forall i :: |b| <= i < |b| + 4 ==> IsLowerHex(AppendHex(b, v)[i])
    ensures HexStringValue(AppendHex(b, v)[|b|..]) == v
  {
    var r := AppendHex(b, v);
    var h := HexFixed(v, 4);
    assert r[|b|..] == h;
    FourHexDigits(v);
    assert forall i :: |b| <= i < |b| + 4 ==> r[i] == h[i - |b|];
  }

  lemma FourHexDigits(v: int)
    requires 0 <= v < 0x1_0000
    ensures forall i :: 0 <= i < 4 ==> IsLowerHex(HexFixed(v, 4)[i])
    ensures HexStringValue(HexFixed(v, 4)) == v
  {
    HexFixedRoundTrip(v, 4);
    assert Pow16(4) == 0x1_0000;
  }

  /** What one `r.Read(responseBuf[:])` call delivers: the bytes read (at most the buffer's
      size, as io.Reader promises) and the error it reports. */
  datatype ReadErr = NoErr | Eof | Failed
  datatype ReadResult = ReadResult(data: seq<Byte>, err: ReadErr)

  /** The response capture state: `responseBuf`, `responseLen` and `gotResponse`. */
  class ResponseSink {
    var responseBuf: array<Byte>
    var responseLen: int
    var gotResponse: bool

    ghost predicate Valid()
      reads this`responseBuf
    {
      responseBuf.Length == MqttBufSize
    }

    constructor()
      ensures Valid() && responseLen == 0 && !gotResponse
      ensures fresh(responseBuf)
    {
      responseBuf := new Byte[MqttBufSize](_ => 0);
      responseLen := 0;
      gotResponse := false;
    }

    /** `onMQTTMessage`: a message on any other topic is ignored; on the response topic the
        payload lands in responseBuf, and unless the read failed with an error other than EOF
        its length is recorded and gotResponse is set. The result is the error passed back. */
    method OnMQTTMessage(topic: seq<Byte>, read: ReadResult) returns (err: ReadErr)
      requires Valid() && |read.data| <= MqttBufSize
      modifies responseBuf, this`responseLen, this`gotResponse
      ensures Valid()
      ensures topic != TopicResponse() ==>
        err == NoErr && responseBuf[..] == old(responseBuf[..])
        && responseLen == old(responseLen) && gotResponse == old(gotResponse)
      ensures topic == TopicResponse() ==>
        forall i :: 0 <= i < |read.data| ==> responseBuf[i] == read.data[i]
      ensures topic == TopicResponse() ==>
        forall i :: |read.data| <= i < MqttBufSize ==> responseBuf[i] == old(responseBuf[i])
      ensures topic == TopicResponse() && read.err == Failed ==>
        err == Failed && responseLen == old(responseLen) && gotResponse == old(gotResponse)
      ensures topic == TopicResponse() && read.err != Failed ==>
        err == NoErr && responseLen == |read.data| && gotResponse
    {
      var isResponse := BytesEqual(topic, TopicResponse());
      if !isResponse {
        return NoErr;
      }
      var n := |read.data|;
      forall i | 0 <= i < n {
        responseBuf[i] := read.data[i];
      }
      if read.err == Failed {
        return Failed;
      }
      responseLen := n;
      gotResponse := true;
      return NoErr;
    }
  }
}
