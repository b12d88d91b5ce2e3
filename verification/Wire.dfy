/**
 The v1 wire format: a 24-byte header, which names the network, the command, the length of the
 payload and its checksum, and then the payload. What a stream holds is read off it in one go here.
 Checksums and the decoding of whole messages are functions of the bytes.
 */
module Wire {
  import opened Basics
  import opened ByteOrder
  import opened Framing

  const HEADER := 24

  type Magic = s: Bytes | |s| == 4 witness [0, 0, 0, 0]

  /** `checksum` gives the four bytes that open a payload's hash, `decode` the message a whole frame
      stands for, and `isCommand` whether bytes are a command string. */
  datatype Codec = Codec(
    magic: Magic,
    maxPayload: nat,
    checksum: Bytes -> Bytes,
    decode: Bytes -> Option<nat>,
    isCommand: Bytes -> bool)

  datatype Fault = PeerClosed | Truncated | Decode | Oversized | WrongMagic

  datatype Received =
    | Message(id: nat)
    | Unknown(command: Bytes, payload: Bytes)
    | Failed(fault: Fault)

  /** The payload length a header declares. */
  function Declared(s: Bytes): nat
    requires |s| >= HEADER
  {
    Le(s[16..20])
  }

  /** The command up to its first zero byte. */
  function Name(command: Bytes): Bytes {
    if command == [] || command[0] == 0 then [] else [command[0]] + Name(command[1..])
  }

  /** What to hand up for a payload that will not decode: the bytes under their command, if it is one. */
  function Undecodable(c: Codec, command: Bytes, payload: Bytes): Received {
    if c.isCommand(Name(command)) then Unknown(Name(command), payload) else Failed(Decode)
  }

  /** A whole frame. A wrong checksum leaves it where it is; anything else uses it up. */
  function Open(c: Codec, frame: Bytes): (Received, nat)
    requires |frame| >= HEADER
  {
    if c.checksum(frame[HEADER..]) != frame[20..24] then (Failed(Decode), 0)
    else if c.decode(frame).Some? then (Message(c.decode(frame).value), |frame|)
    else (Undecodable(c, frame[4..16], frame[HEADER..]), |frame|)
  }

  predicate Headed(c: Codec, s: Bytes) {
    |s| >= HEADER && s[..4] == c.magic && Declared(s) <= c.maxPayload
  }

  /** Reads once from a stream that ends where `s` does: the result, and how many bytes it used up. */
  function ReadOne(c: Codec, s: Bytes): (Received, nat) {
    if |s| < HEADER then (Failed(if s == [] then PeerClosed else Truncated), 0)
    else if s[..4] != c.magic then (Failed(WrongMagic), 0)
    else if Declared(s) > c.maxPayload then (Failed(Oversized), 0)
    else if |s| < HEADER + Declared(s) then (Failed(Truncated), 0)
    else Open(c, s[..HEADER + Declared(s)])
  }

  lemma UsesUp(c: Codec, s: Bytes)
    ensures ReadOne(c, s).1 <= |s|
    ensures !ReadOne(c, s).0.Failed? ==> ReadOne(c, s).1 >= HEADER
    ensures ReadOne(c, s).1 == 0 || ReadOne(c, s).1 >= HEADER
  {}

  function Rest(c: Codec, s: Bytes): Bytes {
    UsesUp(c, s);
    s[ReadOne(c, s).1..]
  }

  /** Reading once, as a step. */
  function Reads(c: Codec): Step<Received> {
    s => (ReadOne(c, s).0, Rest(c, s))
  }

  /** A fault that used nothing up comes back for ever; and it can only be one of these. */
  lemma {:induction false} StuckForEver(c: Codec, s: Bytes, n: nat)
    requires ReadOne(c, s).1 == 0
    ensures |Results(Reads(c), s, n)| == n && forall r | r in Results(Reads(c), s, n) :: r == ReadOne(c, s).0
    ensures Remaining(Reads(c), s, n) == s
  {
    if n > 0 {
      assert Rest(c, s) == s;
      StuckForEver(c, s, n - 1);
    }
  }

  /** Only a frame that is whole, and whose payload is what was sent, is ever got past. */
  lemma StuckOn(c: Codec, s: Bytes)
    ensures ReadOne(c, s).1 == 0 <==>
            !Headed(c, s) || |s| < HEADER + Declared(s)
            || c.checksum(s[HEADER..HEADER + Declared(s)]) != s[20..24]
  {
    if Headed(c, s) && |s| >= HEADER + Declared(s) {
      var frame := s[..HEADER + Declared(s)];
      assert frame[HEADER..] == s[HEADER..HEADER + Declared(s)];
      assert frame[20..24] == s[20..24];
    }
  }

  /** Messages are no more than a 24th of the bytes. */
  lemma {:induction false} MessagesAreBounded(c: Codec, s: Bytes, n: nat)
    ensures HEADER * |Messages(Results(Reads(c), s, n))| + |Remaining(Reads(c), s, n)| <= |s|
  {
    if n > 0 {
      UsesUp(c, s);
      MessagesAreBounded(c, Rest(c, s), n - 1);
      var first, more := [ReadOne(c, s).0], Results(Reads(c), Rest(c, s), n - 1);
      assert (first + more)[1..] == more;
    }
  }

  /** The results that are messages. */
  function Messages(rs: seq<Received>): seq<Received> {
    if rs == [] then []
    else if rs[0].Failed? then Messages(rs[1..]) else [rs[0]] + Messages(rs[1..])
  }

  // ---- Frames as a peer writes them ----------------------------------------------------------

  datatype Frame = Frame(command: Bytes, payload: Bytes)

  predicate Fits(c: Codec, f: Frame) {
    |f.command| == 12 && |f.payload| <= c.maxPayload && |f.payload| <= U32_MAX && |c.checksum(f.payload)| == 4
  }

  function Encode(c: Codec, f: Frame): Bytes {
    c.magic + f.command + ToLe(|f.payload|, 4) + c.checksum(f.payload) + f.payload
  }

  /** What a frame reads back as. */
  function Meaning(c: Codec, f: Frame): Received {
    var bytes := Encode(c, f);
    if c.decode(bytes).Some? then Message(c.decode(bytes).value) else Undecodable(c, f.command, f.payload)
  }

  lemma EncodeParts(c: Codec, f: Frame, b: Bytes)
    requires Fits(c, f) && b == Encode(c, f)
    ensures |b| >= HEADER && b[..4] == c.magic && b[4..16] == f.command && b[16..20] == ToLe(|f.payload|, 4)
    ensures b[20..24] == c.checksum(f.payload) && b[HEADER..] == f.payload
    ensures Le(b[16..20]) == |f.payload| && |b| == HEADER + |f.payload|
  {
    Powers();
    LeOfToLe(|f.payload|, 4);
  }

  lemma HeaderOf(c: Codec, b: Bytes, tail: Bytes, s: Bytes, cut: nat)
    requires |b| >= HEADER && s == b + tail && HEADER <= cut <= |s|
    ensures s[..cut][..4] == b[..4] && s[..cut][16..20] == b[16..20] && s[..|b|] == b
  {}

  /** A frame reads back, whatever follows it. */
  lemma FrameReads(c: Codec, f: Frame, tail: Bytes)
    requires Fits(c, f)
    ensures ReadOne(c, Encode(c, f) + tail) == (Meaning(c, f), |Encode(c, f)|)
    ensures Rest(c, Encode(c, f) + tail) == tail
  {
    var b := Encode(c, f);
    EncodeParts(c, f, b);
    HeaderOf(c, b, tail, b + tail, |b + tail|);
    assert (b + tail)[..|b + tail|] == b + tail;
  }

  /** Part of a frame does not. */
  lemma PartReads(c: Codec, f: Frame, cut: nat)
    requires Fits(c, f) && cut < |Encode(c, f)|
    ensures ReadOne(c, Encode(c, f)[..cut]) == (Failed(if cut == 0 then PeerClosed else Truncated), 0)
  {
    var b := Encode(c, f);
    EncodeParts(c, f, b);
    assert b + [] == b;
    if cut >= HEADER { HeaderOf(c, b, [], b, cut); }
  }

  /** The frames a codec writes, and how a stream of them ends. */
  function Frames(c: Codec): Format<Frame, Received> {
    Format(f => Encode(c, f), f => Meaning(c, f), Failed(PeerClosed), Failed(Truncated))
  }

  lemma FramesAreHonest(c: Codec, f: Frame)
    requires Fits(c, f)
    ensures Honest(Reads(c), Frames(c), f)
  {
    EncodeParts(c, f, Encode(c, f));
    forall tail ensures Reads(c)(Encode(c, f) + tail) == (Meaning(c, f), tail) { FrameReads(c, f, tail); }
    forall cut | 0 <= cut < |Encode(c, f)| ensures Reads(c)(Encode(c, f)[..cut]).0 == Frames(c).AtEnd(cut == 0) {
      PartReads(c, f, cut);
    }
  }

  /** A stream of frames cut anywhere reads as its whole frames, and then as closed if the cut is between
      frames and as truncated if it is inside one. */
  lemma CutStreamOfFrames(c: Codec, fs: seq<Frame>, cut: nat)
    requires (forall f | f in fs :: Fits(c, f)) && cut <= |Stream(Frames(c).write, fs)|
    ensures var write := Frames(c).write;
            ReadsAs(Reads(c), Stream(write, fs)[..cut], Meanings(Frames(c).meaning, fs[..Whole(write, fs, cut)]),
                    Failed(if OnBoundary(write, fs, cut) then PeerClosed else Truncated))
  {
    forall f | f in fs ensures Honest(Reads(c), Frames(c), f) { FramesAreHonest(c, f); }
    CutStreamReads(Reads(c), Frames(c), fs, cut);
  }

  // ---- Frames that do not decode -----------------------------------------------------------------

  lemma {:induction false} NameEndsAtZero(name: Bytes, rest: Bytes)
    requires 0 !in name && (rest == [] || rest[0] == 0)
    ensures Name(name + rest) == name
  {
    if name == [] {
      assert name + rest == rest;
    } else {
      assert (name + rest)[1..] == name[1..] + rest && name[0] in name;
      NameEndsAtZero(name[1..], rest);
    }
  }

  /** A whole frame, as it should be but for a payload that does not decode, is handed up with its bytes if its
      command, up to the first zero or all twelve bytes of it, is a command string; if not it is a decode
      fault. Either way it is used up. */
  lemma UndecodableReads(c: Codec, f: Frame, name: Bytes, rest: Bytes, tail: Bytes)
    requires Fits(c, f) && f.command == name + rest && 0 !in name && (rest == [] || rest[0] == 0)
    requires c.decode(Encode(c, f)).None?
    ensures ReadOne(c, Encode(c, f) + tail)
            == (if c.isCommand(name) then Unknown(name, f.payload) else Failed(Decode), 24 + |f.payload|)
  {
    FrameReads(c, f, tail);
    EncodeParts(c, f, Encode(c, f));
    NameEndsAtZero(name, rest);
  }

  /** And one that decodes is the message it stands for, whatever its command. */
  lemma DecodableReads(c: Codec, f: Frame, tail: Bytes, id: nat)
    requires Fits(c, f) && c.decode(Encode(c, f)) == Some(id)
    ensures ReadOne(c, Encode(c, f) + tail) == (Message(id), 24 + |f.payload|)
  {
    FrameReads(c, f, tail);
    EncodeParts(c, f, Encode(c, f));
  }

  /** A frame on the wire: the magic, twelve bytes of command, the length of the payload with its lowest byte
      first, four bytes of checksum, and the payload. */
  lemma FrameLooksLike(c: Codec, f: Frame)
    requires Fits(c, f)
    ensures var b, n := Encode(c, f), |f.payload|;
            && |b| == 24 + n && b[..4] == c.magic && b[4..16] == f.command
            && b[16] == n % 256 && b[17] == n / 256 % 256 && b[18] == n / 65536 % 256 && b[19] == n / 16777216
            && b[20..24] == c.checksum(f.payload) && b[24..] == f.payload
  {
    var b := Encode(c, f);
    EncodeParts(c, f, b);
    FourBytes(|f.payload|);
    assert b[16..20][0] == b[16] && b[16..20][1] == b[17] && b[16..20][2] == b[18] && b[16..20][3] == b[19];
  }

  lemma LengthIs(s: Bytes)
    requires |s| >= HEADER
    ensures Declared(s) == s[16] as int + 256 * s[17] as int + 65536 * s[18] as int + 16777216 * s[19] as int
  {
    var b := s[16..20];
    assert b[0] == s[16] && b[1] == s[17] && b[2] == s[18] && b[3] == s[19];
    FourBytesMean(b);
  }

  /** The fault of what is not a frame, the first that applies: nothing at all, or part of a header; another
      network's magic; a payload longer than is taken; part of a payload; another checksum than the header's. None
      of it is used up. */
  lemma FaultOf(c: Codec, s: Bytes, n: nat)
    requires |s| >= 24 ==> n == s[16] as int + 256 * s[17] as int + 65536 * s[18] as int + 16777216 * s[19] as int
    ensures s == [] ==> ReadOne(c, s) == (Failed(PeerClosed), 0)
    ensures 0 < |s| < 24 ==> ReadOne(c, s) == (Failed(Truncated), 0)
    ensures |s| >= 24 && s[..4] != c.magic ==> ReadOne(c, s) == (Failed(WrongMagic), 0)
    ensures |s| >= 24 && s[..4] == c.magic && n > c.maxPayload ==> ReadOne(c, s) == (Failed(Oversized), 0)
    ensures |s| >= 24 && s[..4] == c.magic && n <= c.maxPayload && |s| < 24 + n ==>
              ReadOne(c, s) == (Failed(Truncated), 0)
    ensures |s| >= 24 + n && s[..4] == c.magic && n <= c.maxPayload && c.checksum(s[24..24 + n]) != s[20..24] ==>
              ReadOne(c, s) == (Failed(Decode), 0)
  {
    if |s| >= 24 { LengthIs(s); }
    if |s| >= 24 + n {
      var frame := s[..24 + n];
      assert frame[24..] == s[24..24 + n] && frame[20..24] == s[20..24];
    }
  }
}
