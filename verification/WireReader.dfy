/**
 The v1 reader. It reads what a connection has ready, in pieces of any size, and may be dropped at any
 wait and called again; what it has read so far stays in its buffer. Whatever the pieces and the
 interruptions, what it returns is what the stream read in one go holds.
 */
module WireReaders {
  import opened Basics
  import opened ByteOrder
  import opened Framing
  import opened Wire

  /** What a read brings: bytes, none of them at the end of the stream, or an interruption. */
  datatype ReadResult = Interruption | Read(bytes: Bytes)

  /** A connection: its stream, how far it has been read, and how often a wait on it was cut short. */
  class Connection {
    const stream: Bytes
    var at: nat
    ghost var cuts: nat

    constructor (stream: Bytes)
      ensures this.stream == stream && at == 0 && cuts == 0
    {
      this.stream := stream;
      at, cuts := 0, 0;
    }

    ghost function Unread(): Bytes
      reads this
    {
      if at <= |stream| then stream[at..] else []
    }

    /** Waits for up to `want` bytes. How many come, and whether the wait is cut short, is anyone's guess. */
    method ReadSome(want: nat) returns (r: ReadResult)
      requires want > 0 && at <= |stream|
      modifies this`at, this`cuts
      ensures at <= |stream| && cuts == old(cuts) + if r.Interruption? then 1 else 0
      ensures r.Interruption? ==> at == old(at)
      ensures r.Read? ==> |r.bytes| <= want && old(Unread()) == r.bytes + Unread()
      ensures r.Read? && r.bytes == [] ==> Unread() == []
    {
      var interrupted: bool := *;
      if interrupted {
        cuts := cuts + 1;
        return Interruption;
      }
      if at == |stream| {
        return Read([]);
      }
      var n: nat :| 0 < n <= want && at + n <= |stream|;
      r := Read(stream[at..at + n]);
      at := at + n;
    }
  }

  /** How filling the buffer went. */
  datatype Filled = Full | More | Ended | Interrupted

  datatype Outcome = NoneYet | Result(received: Received)

  class Reader {
    const c: Codec
    const from: Connection
    var inPayload: bool
    var buf: array<Byte>
    var pos: nat
    var undecodable: nat

    ghost predicate Valid()
      reads this, buf, from
    {
      && pos <= buf.Length && buf.Length >= HEADER && from.at <= |from.stream|
      && (if inPayload then pos >= HEADER && Headed(c, buf[..HEADER]) && buf.Length == HEADER + Declared(buf[..HEADER])
          else buf.Length == HEADER)
    }

    /** What is still to be handed up: the part in the buffer and the part on the wire. */
    ghost function Pending(): Bytes
      reads this, buf, from
      requires pos <= buf.Length
    {
      buf[..pos] + from.Unread()
    }

    constructor (c: Codec, from: Connection)
      requires from.at <= |from.stream|
      ensures Valid() && fresh(buf) && this.c == c && this.from == from && undecodable == 0
      ensures Pending() == from.Unread()
    {
      this.c, this.from := c, from;
      inPayload, pos, undecodable := false, 0, 0;
      buf := new Byte[HEADER](_ => 0);
    }

    /** Reads until the buffer is full, the stream ends or the wait is cut short. Nothing is lost. */
    method Fill() returns (f: Filled)
      requires pos <= buf.Length && from.at <= |from.stream|
      modifies this`pos, buf, from`at, from`cuts
      ensures old(pos) <= pos <= buf.Length && from.at <= |from.stream|
      ensures Pending() == old(Pending()) && buf[..old(pos)] == old(buf[..pos])
      ensures f.Full? <==> pos == buf.Length
      ensures f.Ended? ==> from.Unread() == []
      ensures !f.More? && from.cuts == old(from.cuts) + if f.Interrupted? then 1 else 0
    {
      f := if pos == buf.Length then Full else More;
      while f.More?
        invariant old(pos) <= pos <= buf.Length && from.at <= |from.stream|
        invariant Pending() == old(Pending()) && buf[..old(pos)] == old(buf[..pos])
        invariant f.Full? <==> pos == buf.Length
        invariant f.Ended? ==> from.Unread() == []
        invariant from.cuts == old(from.cuts) + if f.Interrupted? then 1 else 0
        decreases f.More?, buf.Length - pos
      {
        f := FillSome();
      }
    }

    /** One read into the free part of the buffer. */
    method FillSome() returns (f: Filled)
      requires pos < buf.Length && from.at <= |from.stream|
      modifies this`pos, buf, from`at, from`cuts
      ensures old(pos) <= pos <= buf.Length && from.at <= |from.stream|
      ensures Pending() == old(Pending()) && buf[..old(pos)] == old(buf[..pos])
      ensures f.Full? <==> pos == buf.Length
      ensures f.Ended? ==> from.Unread() == []
      ensures f.More? ==> pos > old(pos)
      ensures from.cuts == old(from.cuts) + if f.Interrupted? then 1 else 0
    {
      var r := from.ReadSome(buf.Length - pos);
      match r {
        case Interruption =>
          f := Interrupted;
        case Read(bytes) =>
          Store(bytes);
          assert Pending() == old(buf[..pos]) + (bytes + from.Unread());
          f := if bytes == [] then Ended else if pos == buf.Length then Full else More;
      }
    }

    /** Puts bytes in the free part of the buffer. */
    method Store(bytes: Bytes)
      requires pos + |bytes| <= buf.Length
      modifies this`pos, buf
      ensures pos == old(pos) + |bytes| && buf[..pos] == old(buf[..pos]) + bytes
      ensures buf[..old(pos)] == old(buf[..pos])
    {
      forall i | 0 <= i < |bytes| { buf[pos + i] := bytes[i]; }
      pos := pos + |bytes|;
    }

    /** What a call returned and left behind, for what was pending before it. */
    ghost predicate Reads(was: Bytes, o: Outcome)
      reads this, buf, from
      requires pos <= buf.Length
    {
      match o
      case NoneYet => Pending() == was
      case Result(r) => r == ReadOne(c, was).0 && Pending() == Rest(c, was)
    }

    /** The header, from where it was left. `go` says it is in and the payload comes next. */
    method ReadHeader() returns (go: bool, o: Outcome)
      requires Valid() && !inPayload
      modifies this`inPayload, this`buf, this`pos, buf, from`at, from`cuts
      ensures Valid() && (buf == old(buf) || fresh(buf)) && go == inPayload
      ensures if go then Pending() == old(Pending()) else Reads(old(Pending()), o)
      ensures from.cuts == old(from.cuts) + if !go && o.NoneYet? then 1 else 0
      ensures !(o.Result? && o.received.Unknown?)
    {
      go, o := false, NoneYet;
      var f := Fill();
      if f.Full? {
        o := CheckHeader();
        go := inPayload;
      } else if f.Ended? {
        EndsEarly(c, Pending());
        o := Result(Failed(if pos == 0 then PeerClosed else Truncated));
      }
    }

    /** A whole header: refused, and then left where it is, or followed by room for its payload. */
    method CheckHeader() returns (o: Outcome)
      requires Valid() && !inPayload && pos == HEADER
      modifies this`inPayload, this`buf, this`pos
      ensures Valid() && (buf == old(buf) || fresh(buf))
      ensures if inPayload then Pending() == old(Pending()) else o.Result? && Reads(old(Pending()), o)
      ensures !(o.Result? && o.received.Unknown?)
    {
      o := NoneYet;
      var header := buf[..];
      assert buf[..HEADER] == header && header == Pending()[..HEADER];
      HeaderDecides(c, header, Pending());
      if header[..4] != c.magic {
        o := Result(Failed(WrongMagic));
      } else if Declared(header) > c.maxPayload {
        o := Result(Failed(Oversized));
      } else {
        MakeRoom(header);
      }
    }

    method MakeRoom(header: Bytes)
      requires |header| == HEADER && pos == HEADER && buf.Length == HEADER && buf[..] == header && Headed(c, header)
      requires from.at <= |from.stream|
      modifies this`inPayload, this`buf, this`pos
      ensures Valid() && inPayload && fresh(buf) && Pending() == old(Pending())
    {
      var room := new Byte[HEADER + Declared(header)](i => if 0 <= i < |header| then header[i] else 0);
      assert room[..HEADER] == header;
      buf, pos, inPayload := room, HEADER, true;
    }

    /** The payload, from where it was left. */
    method ReadPayload() returns (o: Outcome)
      requires Valid() && inPayload
      modifies this, buf, from`at, from`cuts
      ensures Valid() && (buf == old(buf) || fresh(buf)) && Reads(old(Pending()), o)
      ensures undecodable == Counted(old(undecodable), o)
      ensures from.cuts == old(from.cuts) + if o.NoneYet? then 1 else 0
    {
      o := NoneYet;
      ghost var header := buf[..HEADER];
      var f := Fill();
      assert buf[..HEADER] == header && header == Pending()[..HEADER];
      HeaderDecides(c, header, Pending());
      if f.Ended? {
        o := Result(Failed(Truncated));
      } else if f.Full? {
        o := OpenFrame();
      }
    }

    /** A whole frame. */
    method OpenFrame() returns (o: Outcome)
      requires Valid() && inPayload && pos == buf.Length
      modifies this
      ensures Valid() && (buf == old(buf) || fresh(buf)) && o.Result? && Reads(old(Pending()), o)
      ensures undecodable == Counted(old(undecodable), o)
    {
      var frame := buf[..];
      FrameDecides(c, frame, from.Unread(), Pending());
      if c.checksum(frame[HEADER..]) != frame[20..24] {
        return Result(Failed(Decode));
      }
      var decoded := c.decode(frame);
      Reset();
      if decoded.Some? {
        o := Result(Message(decoded.value));
      } else {
        o := Result(Undecodable(c, frame[4..16], frame[HEADER..]));
        if o.received.Unknown? && undecodable < U32_MAX {
          undecodable := undecodable + 1;
        }
      }
    }

    method Reset()
      requires from.at <= |from.stream|
      modifies this`inPayload, this`buf, this`pos
      ensures Valid() && fresh(buf) && Pending() == from.Unread()
    {
      buf := new Byte[HEADER](_ => 0);
      inPayload, pos := false, 0;
    }

    /** One call: it says what the pending stream says, unless the wait was cut short, and then nothing yet. */
    method Recv() returns (o: Outcome)
      requires Valid()
      modifies this, buf, from`at, from`cuts
      ensures Valid() && (buf == old(buf) || fresh(buf)) && Reads(old(Pending()), o)
      ensures undecodable == Counted(old(undecodable), o)
      ensures from.cuts == old(from.cuts) + if o.NoneYet? then 1 else 0
    {
      if !inPayload {
        var go;
        go, o := ReadHeader();
        if !go {
          return;
        }
      }
      o := ReadPayload();
    }

    /** `out` is what the stream `was` read in one go gives first, and the rest of it is still to come. */
    ghost predicate HasRead(was: Bytes, out: seq<Received>)
      reads this, buf, from
      requires pos <= buf.Length
    {
      out == Results(Wire.Reads(c), was, |out|) && Pending() == Remaining(Wire.Reads(c), was, |out|)
    }

    /** The payloads handed up undecoded are counted, as far as 32 bits go. */
    ghost predicate CountedAll(before: nat, out: seq<Received>)
      reads this
    {
      before <= 0xFFFF_FFFF ==> undecodable == Min(before + Unknowns(out), 0xFFFF_FFFF)
    }

    /** Any number of calls: together they return the first results of the stream read in one go, one for
        each call whose wait was not cut short. */
    method RecvMany(calls: nat) returns (out: seq<Received>)
      requires Valid()
      modifies this, buf, from`at, from`cuts
      ensures Valid() && (buf == old(buf) || fresh(buf)) && HasRead(old(Pending()), out)
      ensures |out| + (from.cuts - old(from.cuts)) == calls
      ensures CountedAll(old(undecodable), out)
    {
      out := [];
      for i := 0 to calls
        invariant Valid() && (buf == old(buf) || fresh(buf)) && HasRead(old(Pending()), out)
        invariant |out| + (from.cuts - old(from.cuts)) == i && CountedAll(old(undecodable), out)
      {
        out := RecvOnce(out, old(Pending()), old(undecodable));
      }
    }

    method RecvOnce(out: seq<Received>, ghost was: Bytes, ghost before: nat) returns (out': seq<Received>)
      requires Valid() && HasRead(was, out) && CountedAll(before, out)
      modifies this, buf, from`at, from`cuts
      ensures Valid() && (buf == old(buf) || fresh(buf)) && HasRead(was, out')
      ensures |out'| + from.cuts == |out| + old(from.cuts) + 1 && CountedAll(before, out')
    {
      var o := Recv();
      if o.Result? { UnknownsOneMore(out, o.received); }
      ResultsExtend(Wire.Reads(c), was, |out|);
      out' := if o.Result? then out + [o.received] else out;
    }
  }

  function Unknowns(rs: seq<Received>): nat {
    if rs == [] then 0 else Unknowns(rs[..|rs| - 1]) + if rs[|rs| - 1].Unknown? then 1 else 0
  }

  lemma UnknownsOneMore(rs: seq<Received>, r: Received)
    ensures Unknowns(rs + [r]) == Unknowns(rs) + if r.Unknown? then 1 else 0
  {
    assert (rs + [r])[..|rs|] == rs;
  }

  /** The count of payloads handed up undecoded, which saturates. */
  function Counted(before: nat, o: Outcome): nat {
    if o.Result? && o.received.Unknown? && before < U32_MAX then before + 1 else before
  }

  lemma EndsEarly(c: Codec, s: Bytes)
    requires |s| < HEADER
    ensures ReadOne(c, s) == (Failed(if |s| == 0 then PeerClosed else Truncated), 0) && Rest(c, s) == s
  {}

  /** What the header alone settles. */
  lemma HeaderDecides(c: Codec, header: Bytes, s: Bytes)
    requires |header| == HEADER && |s| >= HEADER && s[..HEADER] == header
    ensures header[..4] != c.magic ==> ReadOne(c, s) == (Failed(WrongMagic), 0) && Rest(c, s) == s
    ensures header[..4] == c.magic && Declared(header) > c.maxPayload ==>
              ReadOne(c, s) == (Failed(Oversized), 0) && Rest(c, s) == s
    ensures Headed(c, header) && |s| < HEADER + Declared(header) ==>
              ReadOne(c, s) == (Failed(Truncated), 0) && Rest(c, s) == s
  {
    assert header[..4] == s[..4] && header[16..20] == s[16..20];
  }

  lemma FrameDecides(c: Codec, frame: Bytes, more: Bytes, s: Bytes)
    requires |frame| >= HEADER && Headed(c, frame[..HEADER]) && |frame| == HEADER + Declared(frame[..HEADER])
    requires s == frame + more
    ensures ReadOne(c, s) == Open(c, frame)
    ensures Rest(c, s) == if ReadOne(c, s).1 == 0 then s else more
  {
    var header := frame[..HEADER];
    assert header[..4] == s[..4] && header[16..20] == s[16..20] && s[..|frame|] == frame;
  }
}
