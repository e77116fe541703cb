/**
 The PROXY header reader of monolake-services/src/proxy_protocol/mod.rs.

 `ProxySpec` replays a connection from the positions at which its reads ended, and compares that
 with a verdict that looks at the stream alone.  `ProxyReader` is the code.
 */
module ProxySpec {
  import opened Wrappers
  import opened ByteStreams

  const V1HEADER: seq<Byte> := [0x50, 0x52, 0x4F, 0x58, 0x59, 0x20]
  const V2HEADER: seq<Byte> := [0x0D, 0x0A, 0x0D, 0x0A, 0x00, 0x0D, 0x0A, 0x51, 0x55, 0x49, 0x54, 0x0A]
  const MAX_HEADER_SIZE: nat := 230

  datatype Address = Address(text: string)

  /** What the header parser makes of a buffer; `NeedMore` stands for the three errors that lead to another read. */
  datatype Parsed = Done(source: Option<Address>, length: nat) | NeedMore | Malformed

  type Parser = seq<Byte> -> Parsed

  /** The parser only accepts buffers that carry a header, and more bytes never change its mind. */
  ghost predicate Sound(parse: Parser) {
    && (forall b :: parse(b).Done? ==> parse(b).length <= |b| && (V1HEADER <= b || V2HEADER <= b))
    && (forall b, c {:trigger parse(b + c)} :: !parse(b).NeedMore? ==> parse(b + c) == parse(b))
  }

  /**
   `Forward` passes the connection on, `length` bytes into the stream.  `Rejected` is the error at
   the size cap, `Panicked` the index into an empty buffer, and `Stalled` the loop that reads an
   ended stream for ever.
   */
  datatype Verdict =
    | Forward(source: Option<Address>, length: nat)
    | Rejected
    | Panicked
    | Stalled

  /** The magic that the first byte selects, or none. */
  function Target(first: Byte): seq<Byte> {
    if first == V1HEADER[0] then V1HEADER else if first == V2HEADER[0] then V2HEADER else []
  }

  /** As far as it goes, the buffer agrees with the magic selected by its first byte. */
  predicate Agrees(b: seq<Byte>) {
    b != [] && Target(b[0]) != [] && forall k :: 0 <= k < |b| && k < |Target(b[0])| ==> b[k] == Target(b[0])[k]
  }

  /** The two signatures of the published protocol. */
  lemma Signatures()
    ensures V1HEADER == Ascii("PROXY ") && V2HEADER == Ascii("\r\n\r\n\0\r\nQUIT\n")
    ensures UNKNOWN == Ascii("PROXY UNKNOWN\r\n")
  {
  }

  /** To agree is to be on the way to a signature, or past it. */
  lemma AgreesMeans(b: seq<Byte>)
    ensures Agrees(b) <==> b != [] && (b <= V1HEADER || V1HEADER <= b || b <= V2HEADER || V2HEADER <= b)
  {
    if b != [] && Agrees(b) {
      var t := Target(b[0]);
      if |b| <= |t| {
        assert b == t[..|b|];
      } else {
        assert b[..|t|] == t;
      }
    }
  }

  /** The verdict of a reader that sees as much of the stream as it could ever buffer. */
  function Ideal(parse: Parser, s: seq<Byte>): Verdict {
    var b := s[..Min(|s|, MAX_HEADER_SIZE)];
    if s == [] then Panicked
    else if !Agrees(b) then Forward(None, 0)
    else match parse(b)
      case Done(source, length) => Forward(source, length)
      case Malformed => Forward(None, 0)
      case NeedMore => if |s| < MAX_HEADER_SIZE then Stalled else Rejected
  }

  /** Where the reads of a connection ended: growing positions in the stream, within the cap. */
  predicate Cuts(s: seq<Byte>, cuts: seq<nat>) {
    && (forall j :: 0 <= j < |cuts| ==> 0 < cuts[j] <= |s| && cuts[j] <= MAX_HEADER_SIZE)
    && (forall i, j :: 0 <= i < j < |cuts| ==> cuts[i] < cuts[j])
  }

  /** The loop with cuts[j] bytes buffered; `None` when it is waiting for a read beyond the given cuts. */
  function Loop(parse: Parser, s: seq<Byte>, cuts: seq<nat>, j: nat): Option<Verdict>
    requires Cuts(s, cuts) && j < |cuts|
    decreases |cuts| - j
  {
    match parse(s[..cuts[j]])
    case Done(source, length) => Some(Forward(source, length))
    case Malformed => Some(Forward(None, 0))
    case NeedMore =>
      if cuts[j] == MAX_HEADER_SIZE then Some(Rejected)
      else if j + 1 == |cuts| then (if cuts[j] == |s| then Some(Stalled) else None)
      else if !Agrees(s[..cuts[j + 1]]) then Some(Forward(None, 0))
      else if cuts[j + 1] == MAX_HEADER_SIZE then Some(Rejected)
      else Loop(parse, s, cuts, j + 1)
  }

  /** What becomes of a connection whose reads end at the given cuts. */
  function Sniff(parse: Parser, s: seq<Byte>, cuts: seq<nat>): Option<Verdict>
    requires Cuts(s, cuts)
  {
    if s == [] then Some(Panicked)
    else if cuts == [] then None
    else if !Agrees(s[..cuts[0]]) then Some(Forward(None, 0))
    else Loop(parse, s, cuts, 0)
  }

  // ----- the verdict does not depend on the chunks, but for the cap -----

  lemma Stable(parse: Parser, s: seq<Byte>, p: nat, q: nat)
    requires Sound(parse) && p <= q <= |s|
    ensures !parse(s[..p]).NeedMore? ==> parse(s[..q]) == parse(s[..p])
    ensures parse(s[..p]).Done? ==> Agrees(s[..p])
  {
    assert s[..q] == s[..p] + s[p..q];
    if parse(s[..p]).Done? {
      assert V1HEADER <= s[..p] || V2HEADER <= s[..p];
      assert V1HEADER <= s[..p] ==> s[..p][0] == V1HEADER[0];
      assert V2HEADER <= s[..p] ==> s[..p][0] == V2HEADER[0];
    }
  }

  lemma AgreesShorter(s: seq<Byte>, p: nat, q: nat)
    requires 0 < p <= q <= |s| && Agrees(s[..q])
    ensures Agrees(s[..p])
  {
  }

  lemma {:induction false} LoopVerdict(parse: Parser, s: seq<Byte>, cuts: seq<nat>, j: nat)
    requires Sound(parse) && Cuts(s, cuts) && j < |cuts|
    requires Agrees(s[..cuts[j]]) && Loop(parse, s, cuts, j).Some?
    ensures Loop(parse, s, cuts, j).value == Ideal(parse, s)
            || (Loop(parse, s, cuts, j).value == Rejected && |s| >= MAX_HEADER_SIZE && Agrees(s[..MAX_HEADER_SIZE])
                && parse(s[..cuts[j]]).NeedMore?)
    decreases |cuts| - j
  {
    var m := Min(|s|, MAX_HEADER_SIZE);
    Stable(parse, s, cuts[j], m);
    if Agrees(s[..m]) {
      if j + 1 < |cuts| {
        AgreesShorter(s, cuts[j + 1], m);
      }
    }
    if parse(s[..cuts[j]]).NeedMore? && j + 1 < |cuts| && Agrees(s[..cuts[j + 1]]) && cuts[j + 1] != MAX_HEADER_SIZE {
      LoopVerdict(parse, s, cuts, j + 1);
    }
  }

  /** Complete cuts decide a connection. */
  ghost predicate Decides(parse: Parser, s: seq<Byte>, cuts: seq<nat>, v: Verdict) {
    Cuts(s, cuts) && Sniff(parse, s, cuts) == Some(v)
  }

  /**
   Main result: whatever the chunks, the reader reaches the verdict that the stream alone deserves,
   except that a stream of at least 230 bytes may be rejected at the cap although it carries a
   header.
   */
  lemma VerdictOfStream(parse: Parser, s: seq<Byte>, cuts: seq<nat>, v: Verdict)
    requires Sound(parse) && Decides(parse, s, cuts, v)
    ensures v == Ideal(parse, s) || v == Rejected
    ensures v == Rejected ==> |s| >= MAX_HEADER_SIZE && Agrees(s[..MAX_HEADER_SIZE]) && parse(s[..1]).NeedMore?
  {
    if s != [] {
      var m := Min(|s|, MAX_HEADER_SIZE);
      if Agrees(s[..cuts[0]]) {
        LoopVerdict(parse, s, cuts, 0);
        Stable(parse, s, 1, cuts[0]);
        Stable(parse, s, 1, m);
      } else if Agrees(s[..m]) {
        AgreesShorter(s, cuts[0], m);
      }
    }
  }

  /**
   What happens to each kind of stream: one with a header hands on its source and its length, one
   that departs from both signatures, or carries a malformed header, is handed on unchanged.
   */
  lemma EveryStream(parse: Parser, s: seq<Byte>, cuts: seq<nat>, v: Verdict)
    requires Sound(parse) && Decides(parse, s, cuts, v) && v != Rejected
    ensures var b := s[..Min(|s|, 230)];
            && (parse(b).Done? ==> v == Forward(parse(b).source, parse(b).length))
            && (parse(b).Malformed? ==> s == [] || v == Forward(None, 0))
            && (s != [] && !(b <= V1HEADER || V1HEADER <= b || b <= V2HEADER || V2HEADER <= b) ==> v == Forward(None, 0))
  {
    var b := s[..Min(|s|, 230)];
    VerdictOfStream(parse, s, cuts, v);
    AgreesMeans(b);
  }

  /** Two ways of cutting the same stream into reads lead to different verdicts. */
  ghost predicate ChunksMatter(parse: Parser, s: seq<Byte>) {
    exists a, v, b, w :: Decides(parse, s, a, v) && Decides(parse, s, b, w) && v != w
  }

  /**
   Exactly when that happens: the stream reaches the cap, agrees with a magic, cannot be decided
   from its first byte, and can be decided from its first 230 bytes.
   */
  lemma ChunksMatterExactly(parse: Parser, s: seq<Byte>)
    requires Sound(parse)
    ensures ChunksMatter(parse, s) <==>
              |s| >= MAX_HEADER_SIZE && Agrees(s[..MAX_HEADER_SIZE])
              && parse(s[..1]).NeedMore? && !parse(s[..MAX_HEADER_SIZE]).NeedMore?
  {
    if ChunksMatter(parse, s) {
      var a, v, b, w :| Decides(parse, s, a, v) && Decides(parse, s, b, w) && v != w;
      VerdictOfStream(parse, s, a, v);
      VerdictOfStream(parse, s, b, w);
    }
    if |s| >= MAX_HEADER_SIZE && Agrees(s[..MAX_HEADER_SIZE])
       && parse(s[..1]).NeedMore? && !parse(s[..MAX_HEADER_SIZE]).NeedMore?
    {
      CutTwoWays(parse, s);
    }
  }

  lemma CutTwoWays(parse: Parser, s: seq<Byte>)
    requires |s| >= MAX_HEADER_SIZE && Agrees(s[..MAX_HEADER_SIZE])
    requires parse(s[..1]).NeedMore?
    ensures Decides(parse, s, [1, MAX_HEADER_SIZE], Rejected)
    ensures Decides(parse, s, [MAX_HEADER_SIZE], Ideal(parse, s))
  {
    AgreesShorter(s, 1, MAX_HEADER_SIZE);
  }

  /** The version 1 header for a client whose address the proxy does not tell: "PROXY UNKNOWN", CR, LF. */
  const UNKNOWN: seq<Byte> := [0x50, 0x52, 0x4F, 0x58, 0x59, 0x20, 0x55, 0x4E, 0x4B, 0x4E, 0x4F, 0x57, 0x4E, 0x0D, 0x0A]

  /** A parser that knows this one header. */
  const UnknownParser: Parser := b => if UNKNOWN <= b then Done(None, 15) else NeedMore

  lemma UnknownParserIsSound()
    ensures Sound(UnknownParser)
  {
    assert V1HEADER == UNKNOWN[..6];
    forall b, c | !UnknownParser(b).NeedMore? ensures UnknownParser(b + c) == UnknownParser(b) {
      assert UNKNOWN <= b <= b + c;
    }
  }

  /** A header that is accepted when it arrives in one chunk and rejected when it arrives in two. */
  lemma CapExample()
    ensures Sound(UnknownParser)
    ensures Decides(UnknownParser, UNKNOWN + seq(215, _ => 0), [230], Forward(None, 15))
    ensures Decides(UnknownParser, UNKNOWN + seq(215, _ => 0), [1, 230], Rejected)
  {
    UnknownParserIsSound();
    var s: seq<Byte> := UNKNOWN + seq(215, _ => 0);
    assert s[..15] == UNKNOWN && s[..MAX_HEADER_SIZE] == s;
    CutTwoWays(UnknownParser, s);
  }

  /** The last read reaches the cap with a buffer that agrees, and the parser had not decided before it. */
  ghost predicate HitsCap(parse: Parser, s: seq<Byte>, cuts: seq<nat>)
    requires Cuts(s, cuts)
  {
    && cuts != [] && cuts[|cuts| - 1] == MAX_HEADER_SIZE
    && Agrees(s[..MAX_HEADER_SIZE])
    && parse(s[..cuts[if |cuts| == 1 then 0 else |cuts| - 2]]).NeedMore?
  }

  /**
   Exactly which cuts are rejected: the cap is reached with everything up to it agreeing with the
   magic, by the first read and still undecided, or by a later read when the one before was undecided.
   */
  lemma RejectedExactly(parse: Parser, s: seq<Byte>, cuts: seq<nat>)
    requires Sound(parse) && Cuts(s, cuts)
    ensures Decides(parse, s, cuts, Rejected) <==> HitsCap(parse, s, cuts)
  {
    if s != [] && cuts != [] {
      if Agrees(s[..cuts[0]]) {
        LoopRejects(parse, s, cuts, 0);
      } else if cuts[|cuts| - 1] == MAX_HEADER_SIZE && Agrees(s[..MAX_HEADER_SIZE]) {
        AgreesShorter(s, cuts[0], MAX_HEADER_SIZE);
      }
    }
  }

  lemma {:induction false} LoopRejects(parse: Parser, s: seq<Byte>, cuts: seq<nat>, j: nat)
    requires Sound(parse) && Cuts(s, cuts) && j < |cuts|
    requires Agrees(s[..cuts[j]])
    requires j > 0 ==> cuts[j] != MAX_HEADER_SIZE
    ensures Loop(parse, s, cuts, j) == Some(Rejected) <==> HitsCap(parse, s, cuts)
    decreases |cuts| - j
  {
    hide Sound;
    var last := |cuts| - 1;
    if j < last {
      assert cuts[j] < cuts[last];
      if !parse(s[..cuts[j]]).NeedMore? {
        Stable(parse, s, cuts[j], cuts[last - 1]);
      } else if !Agrees(s[..cuts[j + 1]]) {
        if HitsCap(parse, s, cuts) {
          AgreesShorter(s, cuts[j + 1], MAX_HEADER_SIZE);
        }
      } else if cuts[j + 1] == MAX_HEADER_SIZE {
        assert j + 1 == last;
      } else {
        LoopRejects(parse, s, cuts, j + 1);
      }
    }
  }

  /** Comparing only the new bytes with the magic decides whether the whole buffer still agrees. */
  lemma MagicAgrees(b: seq<Byte>, c: seq<Byte>)
    requires b != [] && b <= c
    requires |b| == 1 || Agrees(b)
    ensures var t := Target(c[0]);
            Agrees(c) <==> t != [] && (|b| < |t| ==> c[|b|..Min(|c|, |t|)] == t[|b|..Min(|c|, |t|)])
  {
    var t := Target(c[0]);
    assert b[0] == c[0];
    assert forall k :: 0 <= k < |b| ==> b[k] == c[k];
    if |b| < |t| {
      var end := Min(|c|, |t|);
      assert forall k :: |b| <= k < end ==> c[|b|..end][k - |b|] == c[k] && t[|b|..end][k - |b|] == t[k];
    }
  }

  // ----- the loop that never ends -----

  /**
   Exactly which streams keep the reader in its loop for ever: those that end below the cap, agree
   with a magic as far as they go, and do not parse yet.  The chunks do not matter.
   */
  lemma StallsExactly(parse: Parser, s: seq<Byte>, cuts: seq<nat>, v: Verdict)
    requires Sound(parse) && Decides(parse, s, cuts, v)
    ensures v == Stalled <==> 0 < |s| < MAX_HEADER_SIZE && Agrees(s) && parse(s).NeedMore?
  {
    VerdictOfStream(parse, s, cuts, v);
    assert |s| < MAX_HEADER_SIZE ==> s[..Min(|s|, MAX_HEADER_SIZE)] == s;
  }

  /** The only stream that makes the reader index an empty buffer is the empty one. */
  lemma PanicsExactly(parse: Parser, s: seq<Byte>, cuts: seq<nat>, v: Verdict)
    requires Sound(parse) && Decides(parse, s, cuts, v)
    ensures v == Panicked <==> s == []
  {
    VerdictOfStream(parse, s, cuts, v);
  }

  /** A peer that closes after nine bytes of a header: however they arrive, the reader stalls. */
  lemma StallExample(cuts: seq<nat>, v: Verdict)
    requires Decides(UnknownParser, UNKNOWN[..9], cuts, v)
    ensures v == Stalled
    ensures Decides(UnknownParser, UNKNOWN[..9], [9], Stalled)
  {
    UnknownParserIsSound();
    assert Agrees(UNKNOWN[..9]);
    StallsExactly(UnknownParser, UNKNOWN[..9], cuts, v);
    assert UNKNOWN[..9][..9] == UNKNOWN[..9];
  }

  /** Where one turn of the loop leads: out of it, or to the next turn with this buffer and position. */
  datatype Turn = Over(verdict: Verdict) | Again(buffer: seq<Byte>, pos: nat)

  /** One turn, in the order of the code: parse, read a chunk, compare it with the magic, check the cap. */
  function TurnOf(parse: Parser, target: seq<Byte>, buffer: seq<Byte>, pos: nat, chunk: seq<Byte>): Turn
    requires pos == |buffer|
  {
    match parse(buffer)
    case Done(source, length) => Over(Forward(source, length))
    case Malformed => Over(Forward(None, 0))
    case NeedMore =>
      var next, end := buffer + chunk, Min(|target|, pos + |chunk|);
      if pos < |target| && next[pos..end] != target[pos..end] then Over(Forward(None, 0))
      else if pos + |chunk| == MAX_HEADER_SIZE then Over(Rejected)
      else Again(next, pos + |chunk|)
  }

  /** Turn after turn, as long as the loop goes on. */
  function Turns(parse: Parser, target: seq<Byte>, buffer: seq<Byte>, pos: nat, chunks: seq<seq<Byte>>): Turn
    requires pos == |buffer|
    decreases |chunks|
  {
    if chunks == [] then Again(buffer, pos)
    else match TurnOf(parse, target, buffer, pos, chunks[0])
      case Over(v) => Over(v)
      case Again(b, p) => Turns(parse, target, b, p, chunks[1..])
  }

  /**
   The loop recurs: below the cap, with an undecided buffer, any number of empty reads leads back
   to the same buffer and position.
   */
  lemma {:induction false} EmptyReadsRecur(parse: Parser, target: seq<Byte>, buffer: seq<Byte>, n: nat)
    requires parse(buffer).NeedMore? && |buffer| < MAX_HEADER_SIZE
    ensures Turns(parse, target, buffer, |buffer|, seq(n, _ => [])) == Again(buffer, |buffer|)
  {
    var chunks: seq<seq<Byte>> := seq(n, _ => []);
    if n > 0 {
      assert buffer + chunks[0] == buffer;
      assert chunks[1..] == seq(n - 1, _ => []);
      EmptyReadsRecur(parse, target, buffer, n - 1);
    }
  }

  /** The replay of a connection takes exactly these turns. */
  lemma LoopTakesTurns(parse: Parser, s: seq<Byte>, cuts: seq<nat>, j: nat)
    requires Cuts(s, cuts) && j + 1 < |cuts| && Agrees(s[..cuts[j]])
    requires cuts[j] != MAX_HEADER_SIZE
    ensures match TurnOf(parse, Target(s[0]), s[..cuts[j]], cuts[j], s[cuts[j]..cuts[j + 1]])
            case Over(v) => Loop(parse, s, cuts, j) == Some(v)
            case Again(b, p) =>
              p == cuts[j + 1] && b == s[..p] && Agrees(b) && Loop(parse, s, cuts, j) == Loop(parse, s, cuts, j + 1)
  {
    var p, q := cuts[j], cuts[j + 1];
    assert s[..p] + s[p..q] == s[..q];
    MagicAgrees(s[..p], s[..q]);
  }
}

module ProxyReader {
  import opened Wrappers
  import opened ByteStreams
  import opened ProxySpec

  /** What the service hands to the inner service, or how it ends without doing so. */
  datatype Served =
    | Inner(remote: Option<Address>, prefix: seq<Byte>)
    | Ended(verdict: Verdict)
    | Broken(error: IoError)

  /** Compares the bytes from `pos` on with the magic, as far as both go; earlier bytes were compared before. */
  method CompareMagic(buffer: seq<Byte>, pos: nat, target: seq<Byte>) returns (agrees: bool)
    requires 0 < pos <= |buffer| && target == Target(buffer[0])
    requires pos == 1 || Agrees(buffer[..pos])
    ensures agrees == Agrees(buffer)
  {
    MagicAgrees(buffer[..pos], buffer);
    if target == [] {
      return false;
    }
    agrees := true;
    if pos < |target| {
      var end := Min(|target|, |buffer|);
      agrees := buffer[pos..end] == target[pos..end];
    }
  }

  /**
   `call` up to the inner service.  `cuts` are the positions at which its reads ended.  The
   inner service sees the stream from the header on, or from its beginning.

   Once the stream has ended the loop of the source may go on for ever, so it is watched for
   `patience` turns that read nothing: `Stalled` means that after all of them, however many the
   caller asks for, the loop stands where it stood.
   */
  method Call(parse: Parser, stream: ByteSource, patience: nat)
    returns (r: Served, ghost cuts: seq<nat>, idle: nat)
    requires Sound(parse) && !stream.failed
    modifies stream
    ensures r.Broken? <==> stream.failed
    ensures ReadsOn(parse, old(stream.rest), cuts)
    ensures stream.rest == old(stream.rest)[if cuts == [] then 0 else cuts[|cuts| - 1]..]
    ensures r.Inner? ==> Passes(parse, old(stream.rest), cuts, r.remote, r.prefix + stream.rest)
    ensures r.Inner? ==>
              var s, handed := old(stream.rest), r.prefix + stream.rest;
              || (r.remote == None && handed == s)
              || (var parsed := parse(s[..|s| - |stream.rest|]);
                  parsed.Done? && parsed.source == r.remote && parsed.length <= |s| && handed == s[parsed.length..])
    ensures match r
            case Ended(Panicked) => old(stream.rest) == []
            case Ended(Rejected) => |old(stream.rest)| - |stream.rest| == 230
            case Ended(Stalled) => 0 < |old(stream.rest)| < 230 && parse(old(stream.rest)).NeedMore?
            case _ => true
    ensures r.Ended? ==> Sniff(parse, old(stream.rest), cuts) == Some(r.verdict) && !r.verdict.Forward?
    ensures idle <= patience && (r == Ended(Stalled) ==> idle == patience)
  {
    hide Loop, Sniff, Agrees, Target, Cuts, Open, Sound, Passes, ReadsOn;
    ghost var s := stream.rest;
    NoCuts(parse, s);
    cuts, idle := [], 0;
    var first := stream.Read(MAX_HEADER_SIZE);
    if first.Err? {
      return Broken(first.error), cuts, idle;
    }
    var buffer := first.value;
    if buffer == [] {
      return Ended(Panicked), cuts, idle;
    }
    assert buffer == s[..|buffer|];
    FirstCut(parse, s, |buffer|);
    cuts := [|buffer|];
    var pos := |buffer|;
    var target := Target(buffer[0]);
    var agrees := CompareMagic(buffer, 1, target);
    if !agrees {
      Consumed(parse, s, cuts, None, 0, buffer, stream.rest);
      return Inner(None, buffer), cuts, idle;
    }
    while true
      invariant 0 < pos == |buffer| <= MAX_HEADER_SIZE && pos <= |s|
      invariant buffer == s[..pos] && stream.rest == s[pos..]
      invariant target == Target(buffer[0]) && !stream.failed
      invariant cuts != [] && cuts[|cuts| - 1] == pos && Open(parse, s, cuts)
      invariant idle <= patience && (idle > 0 ==> stream.rest == [])
      decreases MAX_HEADER_SIZE - pos, patience - idle
    {
      OpenDecides(parse, s, cuts);
      match parse(buffer) {
        case Done(source, length) =>
          Consumed(parse, s, cuts, source, length, buffer, stream.rest);
          return Inner(source, buffer[length..]), cuts, idle;
        case Malformed =>
          Consumed(parse, s, cuts, None, 0, buffer, stream.rest);
          return Inner(None, buffer), cuts, idle;
        case NeedMore =>
      }
      var chunk := stream.Read(MAX_HEADER_SIZE - pos);
      if chunk.Err? {
        return Broken(chunk.error), cuts, idle;
      }
      var read := |chunk.value|;
      buffer := buffer + chunk.value;
      Delivered(s, pos, chunk.value, stream.rest);
      if read > 0 {
        OpenExtends(parse, s, cuts, pos + read);
        cuts := cuts + [pos + read];
      }
      agrees := CompareMagic(buffer, pos, target);
      if !agrees {
        Consumed(parse, s, cuts, None, 0, buffer, stream.rest);
        return Inner(None, buffer), cuts, idle;
      }
      pos := pos + read;
      if pos == MAX_HEADER_SIZE {
        return Ended(Rejected), cuts, idle;
      }
      if read == 0 {
        if idle == patience {
          return Ended(Stalled), cuts, idle;
        }
        idle := idle + 1;
      }
    }
  }

  /**
   At most 230 reads deliver anything, and the reader only reads on while what it has agrees
   with the magic and does not parse yet.
   */
  ghost predicate ReadsOn(parse: Parser, s: seq<Byte>, cuts: seq<nat>)
    ensures ReadsOn(parse, s, cuts) ==> Cuts(s, cuts)
  {
    && Cuts(s, cuts) && |cuts| <= MAX_HEADER_SIZE
    && forall j :: 0 <= j < |cuts| - 1 ==> Agrees(s[..cuts[j]]) && parse(s[..cuts[j]]).NeedMore?
  }

  /** The inner service gets what the replay says, and every byte of the stream after the header. */
  ghost predicate Passes(parse: Parser, s: seq<Byte>, cuts: seq<nat>, remote: Option<Address>, bytes: seq<Byte>) {
    && Cuts(s, cuts)
    && match Sniff(parse, s, cuts)
       case Some(Forward(source, length)) => source == remote && length <= |s| && bytes == s[length..]
       case _ => false
  }

  lemma Consumed(parse: Parser, s: seq<Byte>, cuts: seq<nat>, source: Option<Address>, n: nat,
      buffer: seq<Byte>, rest: seq<Byte>)
    requires Cuts(s, cuts) && Sniff(parse, s, cuts) == Some(Forward(source, n))
    requires n <= |buffer| && buffer + rest == s
    ensures Passes(parse, s, cuts, source, buffer[n..] + rest)
    ensures n == 0 ==> buffer[n..] == buffer
  {
  }

  lemma Delivered(s: seq<Byte>, pos: nat, chunk: seq<Byte>, rest: seq<Byte>)
    requires pos <= |s| && chunk + rest == s[pos..]
    ensures pos + |chunk| <= |s| && s[..pos] + chunk == s[..pos + |chunk|] && rest == s[pos + |chunk|..]
    ensures s[..pos + |chunk|] + rest == s
  {
  }

  lemma NoCuts(parse: Parser, s: seq<Byte>)
    ensures ReadsOn(parse, s, []) && (s == [] ==> Sniff(parse, s, []) == Some(Panicked))
  {
  }

  lemma FirstCut(parse: Parser, s: seq<Byte>, p: nat)
    requires 0 < p <= Min(|s|, MAX_HEADER_SIZE)
    ensures ReadsOn(parse, s, [p])
    ensures if Agrees(s[..p]) then Open(parse, s, [p]) else Sniff(parse, s, [p]) == Some(Forward(None, 0))
    ensures Target(s[..p][0]) == [] || |Target(s[..p][0])| >= 6
  {
  }

  lemma OpenDecides(parse: Parser, s: seq<Byte>, cuts: seq<nat>)
    requires Sound(parse) && Open(parse, s, cuts)
    ensures ReadsOn(parse, s, cuts) && cuts != []
    ensures var p := cuts[|cuts| - 1];
            && p <= Min(|s|, MAX_HEADER_SIZE)
            && Agrees(s[..p])
            && match parse(s[..p])
               case Done(source, n) => n <= p && Sniff(parse, s, cuts) == Some(Forward(source, n))
               case Malformed => Sniff(parse, s, cuts) == Some(Forward(None, 0))
               case NeedMore =>
                 && (p == MAX_HEADER_SIZE ==> Sniff(parse, s, cuts) == Some(Rejected))
                 && (p == |s| && p != MAX_HEADER_SIZE ==> Sniff(parse, s, cuts) == Some(Stalled))
  {
    LoopReaches(parse, s, cuts, |cuts| - 1);
    CutsGrow(s, cuts, |cuts| - 1);
  }

  /** The cuts of a connection that is still in the loop, about to parse. */
  ghost predicate Open(parse: Parser, s: seq<Byte>, cuts: seq<nat>) {
    && Cuts(s, cuts) && cuts != []
    && (forall j :: 0 <= j < |cuts| ==> Agrees(s[..cuts[j]]) && (j > 0 ==> cuts[j] != MAX_HEADER_SIZE))
    && (forall j :: 0 <= j < |cuts| - 1 ==> parse(s[..cuts[j]]).NeedMore?)
  }

  lemma {:induction false} LoopReaches(parse: Parser, s: seq<Byte>, cuts: seq<nat>, j: nat)
    requires Cuts(s, cuts) && j < |cuts|
    requires forall i :: 0 <= i < j ==> parse(s[..cuts[i]]).NeedMore?
    requires forall i :: 0 <= i <= j ==> Agrees(s[..cuts[i]]) && (i > 0 ==> cuts[i] != MAX_HEADER_SIZE)
    ensures Loop(parse, s, cuts, 0) == Loop(parse, s, cuts, j)
  {
    if j > 0 {
      LoopReaches(parse, s, cuts, j - 1);
    }
  }

  lemma {:induction false} CutsGrow(s: seq<Byte>, cuts: seq<nat>, j: nat)
    requires Cuts(s, cuts) && j < |cuts|
    ensures j < cuts[j]
  {
    if j > 0 {
      CutsGrow(s, cuts, j - 1);
    }
  }

  lemma OpenExtends(parse: Parser, s: seq<Byte>, cuts: seq<nat>, q: nat)
    requires Open(parse, s, cuts) && parse(s[..cuts[|cuts| - 1]]).NeedMore?
    requires cuts[|cuts| - 1] < q <= Min(|s|, MAX_HEADER_SIZE)
    ensures var c := cuts + [q];
            && ReadsOn(parse, s, c)
            && (!Agrees(s[..q]) ==> Sniff(parse, s, c) == Some(Forward(None, 0)))
            && (Agrees(s[..q]) && q == MAX_HEADER_SIZE ==> Sniff(parse, s, c) == Some(Rejected))
            && (Agrees(s[..q]) && q != MAX_HEADER_SIZE ==> Open(parse, s, c))
  {
    var c := cuts + [q];
    assert forall j :: 0 <= j < |cuts| ==> c[j] == cuts[j];
    LoopReaches(parse, s, c, |cuts| - 1);
    CutsGrow(s, c, |cuts|);
  }
}
