/**
 The two stream sniffers: the HTTP/2 preface detector of monolake-services/src/common/detect.rs
 and the PROXY header reader of monolake-services/src/proxy_protocol/mod.rs.  Both read a stream
 that arrives in arbitrary chunks and hand it on together with the bytes they have buffered.
 */
module ByteStreams {
  import opened Wrappers

  newtype Byte = x: int | 0 <= x < 256

  datatype IoError = IoError

  /** The bytes of a text of ASCII characters. */
  function Ascii(text: string): seq<Byte>
    requires forall k :: 0 <= k < |text| ==> text[k] as int < 128
  {
    seq(|text|, k requires 0 <= k < |text| => text[k] as Byte)
  }

  function Min(a: nat, b: nat): nat {
    if a < b then a else b
  }

  /** A byte stream; how much a read delivers is up to the peer. */
  class ByteSource {
    var rest: seq<Byte>
    var failed: bool

    constructor (bytes: seq<Byte>)
      ensures rest == bytes && !failed
    {
      rest, failed := bytes, false;
    }

    /** A read into a window delivers at least one byte unless the window is empty or the stream has ended. */
    method Read(window: nat) returns (r: Result<seq<Byte>, IoError>)
      modifies this
      ensures failed == (old(failed) || r.Err?)
      ensures r.Err? ==> rest == old(rest)
      ensures r.Ok? ==> |r.value| <= window && r.value + rest == old(rest)
      ensures r.Ok? ==> (r.value == [] <==> window == 0 || old(rest) == [])
    {
      if * {
        failed := true;
        return Err(IoError);
      }
      var n: nat := 0;
      if window > 0 && rest != [] {
        assert 1 <= Min(window, |rest|);
        n :| 1 <= n <= window && n <= |rest|;
      }
      r := Ok(rest[..n]);
      rest := rest[n..];
    }
  }
}

module PrefixDetection {
  import opened Wrappers
  import opened ByteStreams

  /** The connection preface of section 3.4 of RFC 9113: "PRI * HTTP/2.0", two line ends, "SM", two line ends. */
  const PREFACE: seq<Byte> := [
    0x50, 0x52, 0x49, 0x20, 0x2A, 0x20, 0x48, 0x54, 0x54, 0x50, 0x2F, 0x32, 0x2E, 0x30,
    0x0D, 0x0A, 0x0D, 0x0A, 0x53, 0x4D, 0x0D, 0x0A, 0x0D, 0x0A
  ]

  /** Comparing the new bytes decides: equal ones extend the match, others rule the prefix out. */
  lemma PrefixGrows(prefix: seq<Byte>, buf: seq<Byte>, curr: nat, rest: seq<Byte>)
    requires curr <= |buf| <= |prefix| && buf[..curr] == prefix[..curr]
    ensures prefix[curr..|buf|] == buf[curr..] ==> buf == prefix[..|buf|]
    ensures prefix[curr..|buf|] != buf[curr..] ==> !(prefix <= buf + rest)
  {
  }

  /**
   Whatever the chunks, the answer says whether the stream begins with the whole prefix, and the
   bytes handed on in front of the rest of the stream are exactly those taken from it.
   */
  method Detect(prefix: seq<Byte>, io: ByteSource) returns (r: Result<(bool, seq<Byte>), IoError>, ghost turns: nat)
    requires !io.failed
    modifies io
    ensures r.Ok? <==> !io.failed
    ensures r.Ok? ==> r.value.0 == (prefix <= old(io.rest))
    ensures r.Ok? ==> r.value.1 + io.rest == old(io.rest)
    ensures r.Ok? ==> |r.value.1| <= |prefix|
    ensures turns <= |prefix| + 1
  {
    var l := |prefix|;
    var written := 0;
    var buf: seq<Byte> := [];
    var eq := true;
    turns := 0;
    while true
      invariant !io.failed && turns <= written == |buf| <= l
      invariant eq && buf == prefix[..written]
      invariant buf + io.rest == old(io.rest)
      decreases l - written
    {
      var chunk := io.Read(l - written);
      turns := turns + 1;
      if chunk.Err? {
        return Err(chunk.error), turns;
      }
      buf := buf + chunk.value;
      var n := |chunk.value|;
      if n == 0 {
        break;
      }
      var curr := written;
      written := written + n;
      PrefixGrows(prefix, buf, curr, io.rest);
      if prefix[curr..written] != buf[curr..written] {
        eq := false;
        break;
      }
    }
    assert buf <= old(io.rest);
    r := Ok((eq && written == l, buf));
  }

  /** `H2Detect`. */
  method DetectHttp2(io: ByteSource) returns (r: Result<(bool, seq<Byte>), IoError>)
    requires !io.failed
    modifies io
    ensures PREFACE == Ascii("PRI * HTTP/2.0\r\n\r\nSM\r\n\r\n") && (r.Ok? <==> !io.failed)
    ensures r.Ok? ==> r.value.0 == (PREFACE <= old(io.rest)) && r.value.1 + io.rest == old(io.rest)
  {
    var answer, _ := Detect(PREFACE, io);
    r := answer;
  }
}
