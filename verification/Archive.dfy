/**
 Archive files: a header and then events, each after its length as a protobuf varint. Files are not
 compressed here, and the encoding of a record's body is a function of its bytes.
 */
module Archive {
  import opened Basics
  import opened ByteOrder
  import opened Framing

  const MAX_RECORD := 16 * 1024 * 1024

  // ---- Lengths -------------------------------------------------------------------------------------

  function WriteVarint(n: nat): (b: Bytes)
    ensures |b| > 0
  {
    if n < 128 then [n] else [128 + n % 128] + WriteVarint(n / 128)
  }

  datatype Length = CleanEnd | CutShort | Malformed(rest: Bytes) | Length(value: nat, rest: Bytes)

  /** A length read byte by byte, after `seen` bytes of it: at most ten, and within 64 bits. */
  function ReadVarint(s: Bytes, seen: nat): Length
    requires seen < 10
    decreases 10 - seen
  {
    if s == [] then if seen == 0 then CleanEnd else CutShort
    else if s[0] < 128 then if seen == 9 && s[0] >= 2 then Malformed(s[1..]) else Length(s[0], s[1..])
    else if seen == 9 then Malformed(s[1..])
    else
      match ReadVarint(s[1..], seen + 1)
      case Length(high, rest) => Length(s[0] as int - 128 + 128 * high, rest)
      case other => other
  }

  function Pow128(k: nat): (p: nat)
    ensures p >= 1
  {
    if k == 0 then 1 else 128 * Pow128(k - 1)
  }

  lemma {:induction false} VarintReads(n: nat, seen: nat, tail: Bytes)
    requires seen < 10 && n < Pow128(9 - seen)
    ensures ReadVarint(WriteVarint(n) + tail, seen) == Length(n, tail)
    decreases 10 - seen
  {
    if n >= 128 {
      assert (WriteVarint(n) + tail)[1..] == WriteVarint(n / 128) + tail;
      VarintReads(n / 128, seen + 1, tail);
    } else {
      assert seen == 9 ==> n < 1;
    }
  }

  lemma {:induction false} VarintCut(n: nat, seen: nat, cut: nat)
    requires seen < 10 && n < Pow128(9 - seen) && cut < |WriteVarint(n)|
    ensures ReadVarint(WriteVarint(n)[..cut], seen) == if seen + cut == 0 then CleanEnd else CutShort
    decreases 10 - seen
  {
    if n >= 128 && cut > 0 {
      assert WriteVarint(n)[..cut][1..] == WriteVarint(n / 128)[..cut - 1];
      VarintCut(n / 128, seen + 1, cut - 1);
    }
  }

  /** A length is written seven bits to a byte, the lowest first, with 128 added to all but the last, in as few
      bytes as it fits in. */
  lemma {:induction false} VarintByte(n: nat, i: nat)
    requires i < |WriteVarint(n)|
    ensures var len := |WriteVarint(n)|;
            && WriteVarint(n)[i] == n / Pow128(i) % 128 + (if i + 1 < len then 128 else 0)
            && n < Pow128(len) && (len > 1 ==> Pow128(len - 1) <= n)
  {
    if n >= 128 {
      if i > 0 {
        VarintByte(n / 128, i - 1);
        DivideTwice(n, i);
      } else {
        VarintByte(n / 128, 0);
      }
    }
  }

  lemma DivideTwice(n: nat, i: nat)
    requires i > 0
    ensures n / 128 / Pow128(i - 1) == n / Pow128(i)
  {
    var p, m := Pow128(i - 1), n / 128;
    assert m == p * (m / p) + m % p && n == 128 * m + n % 128;
    assert n == (128 * p) * (m / p) + (128 * (m % p) + n % 128);
    QuotientIs(n, 128 * p, m / p, 128 * (m % p) + n % 128);
  }

  lemma QuotientIs(n: nat, d: nat, q: nat, r: nat)
    requires n == d * q + r && r < d
    ensures n / d == q
  {
    var k := n / d - q;
    assert d * k == d * (n / d) - d * q;
    Multiple(d, k);
  }

  lemma Multiple(d: int, k: int)
    requires d >= 0
    ensures k == 0 || d * k >= d || d * k <= -d
  {
    if k >= 1 {
      assert d * k == d + d * (k - 1);
    } else if k <= -1 {
      assert d * k == -d + d * (k + 1);
    }
  }

  /** Bytes that each say another follows. */
  predicate GoOn(bytes: Bytes) { forall i | 0 <= i < |bytes| :: bytes[i] >= 128 }

  lemma GoOnAfter(s: Bytes)
    requires s != []
    ensures GoOn(s) <==> s[0] >= 128 && GoOn(s[1..])
  {
    assert GoOn(s[1..]) ==> forall i | 0 < i < |s| :: s[i] == s[1..][i - 1];
  }

  lemma GoOnFrom(s: Bytes, n: nat)
    requires s != [] && s[0] >= 128 && n > 0
    ensures GoOn(s) <==> GoOn(s[1..])
    ensures |s| > n ==> (GoOn(s[..n]) <==> GoOn(s[1..][..n - 1])) && s[n] == s[1..][n - 1]
  {
    GoOnAfter(s);
    if |s| > n {
      GoOnAfter(s[..n]);
      assert s[..n][1..] == s[1..][..n - 1];
    }
  }

  /** Read with `n` more bytes than one to go, `first` if none came before: malformed exactly if all of them say
      another follows and the one after does too or has more than one bit; cut exactly if there are no more than
      these and each says another follows; and otherwise a number of that many bytes of seven bits, and a bit. */
  ghost predicate ReadAs(s: Bytes, n: nat, first: bool, l: Length) {
    && (l.Malformed? <==> |s| > n && GoOn(s[..n]) && s[n] >= 2)
    && (l.CleanEnd? || l.CutShort? <==> |s| <= n && GoOn(s))
    && (l.CleanEnd? <==> s == [] && first)
    && (l.Length? ==> l.value < 2 * Pow128(n))
  }

  lemma ReadEnds(s: Bytes, seen: nat)
    requires seen < 10 && (s == [] || s[0] < 128 || seen == 9)
    ensures ReadAs(s, 9 - seen, seen == 0, ReadVarint(s, seen))
  {
    assert s != [] && seen < 9 ==> Pow128(9 - seen) == 128 * Pow128(8 - seen);
    assert s != [] && s[0] < 128 && seen < 9 && |s| > 9 - seen ==> s[..9 - seen][0] < 128;
  }

  lemma ReadsOn(s: Bytes, seen: nat)
    requires seen < 9 && s != [] && s[0] >= 128 && ReadAs(s[1..], 8 - seen, false, ReadVarint(s[1..], seen + 1))
    ensures ReadAs(s, 9 - seen, seen == 0, ReadVarint(s, seen))
  {
    GoOnFrom(s, 9 - seen);
  }

  /** So lengths are read: ten bytes at most, and 64 bits. */
  lemma {:induction false} LengthsRead(s: Bytes, seen: nat)
    requires seen < 10
    ensures ReadAs(s, 9 - seen, seen == 0, ReadVarint(s, seen))
    decreases 10 - seen
  {
    if s != [] && s[0] >= 128 && seen < 9 {
      LengthsRead(s[1..], seen + 1);
      ReadsOn(s, seen);
    } else {
      ReadEnds(s, seen);
    }
  }

  function FollowedBy(l: Length, more: Bytes): Length {
    match l
    case Length(n, _) => Length(n, more)
    case Malformed(_) => Malformed(more)
    case other => other
  }

  /** `whole`, which begins with a length or what is no length, reads as that, with something else after it. */
  ghost predicate Decides(bytes: Bytes, more: Bytes, whole: Bytes, seen: nat)
    requires seen < 10
  {
    && (ReadVarint(bytes, seen).Length? || ReadVarint(bytes, seen).Malformed?)
    && ReadVarint(whole, seen) == FollowedBy(ReadVarint(bytes, seen), more)
  }

  lemma LastDecides(bytes: Bytes, more: Bytes, whole: Bytes, seen: nat)
    requires |bytes| == 1 && seen < 10 && (bytes[0] < 128 || seen == 9)
    requires whole != [] && whole[0] == bytes[0] && whole[1..] == more
    ensures Decides(bytes, more, whole, seen)
  {}

  lemma OneMoreDecides(bytes: Bytes, more: Bytes, whole: Bytes, seen: nat)
    requires bytes != [] && bytes[0] >= 128 && seen < 9 && whole != [] && whole[0] == bytes[0]
    requires Decides(bytes[1..], more, whole[1..], seen + 1)
    ensures Decides(bytes, more, whole, seen)
  {}

  /** Once a length has ended, or is too long to be one, what follows it does not matter. */
  lemma {:induction false} PrefixDecides(bytes: Bytes, more: Bytes, seen: nat)
    requires bytes != [] && seen + |bytes| <= 10 && GoOn(bytes[..|bytes| - 1])
    requires bytes[|bytes| - 1] < 128 || seen + |bytes| == 10
    ensures Decides(bytes, more, bytes + more, seen)
    decreases |bytes|
  {
    assert (bytes + more)[1..] == bytes[1..] + more;
    if |bytes| > 1 {
      GoOnAfter(bytes[..|bytes| - 1]);
      assert bytes[..|bytes| - 1][1..] == bytes[1..][..|bytes| - 2];
      PrefixDecides(bytes[1..], more, seen + 1);
      OneMoreDecides(bytes, more, bytes + more, seen);
    } else {
      LastDecides(bytes, more, bytes + more, seen);
    }
  }

  lemma {:induction false} PrefixEnds(bytes: Bytes, seen: nat)
    requires seen + |bytes| < 10 && GoOn(bytes)
    ensures ReadVarint(bytes, seen) == if seen + |bytes| == 0 then CleanEnd else CutShort
    decreases |bytes|
  {
    if bytes != [] { PrefixEnds(bytes[1..], seen + 1); }
  }

  // ---- Records -------------------------------------------------------------------------------------

  type Decoder = Bytes -> Option<nat>

  datatype Error = UnexpectedEof | BadLength | TooLong | Undecodable
  datatype Outcome = End | Record(id: nat) | Failed(error: Error)

  function Decoded(d: Decoder, payload: Bytes): Outcome {
    if d(payload).Some? then Record(d(payload).value) else Failed(Undecodable)
  }

  /** Reads one record; a reader that ran out in the middle of one is at the end. */
  function ReadRecord(d: Decoder, s: Bytes): (Outcome, Bytes) {
    match ReadVarint(s, 0)
    case CleanEnd => (End, [])
    case CutShort => (Failed(UnexpectedEof), [])
    case Malformed(rest) => (Failed(BadLength), rest)
    case Length(n, rest) =>
      if n > MAX_RECORD then (Failed(TooLong), rest)
      else if |rest| < n then (Failed(UnexpectedEof), [])
      else (Decoded(d, rest[..n]), rest[n..])
  }

  function Reads(d: Decoder): Step<Outcome> { s => ReadRecord(d, s) }

  function Delimited(payload: Bytes): Bytes { WriteVarint(|payload|) + payload }

  function Records(d: Decoder): Format<Bytes, Outcome> {
    Format(Delimited, p => Decoded(d, p), End, Failed(UnexpectedEof))
  }

  lemma LengthsFit(n: nat)
    ensures n < 0x8000_0000_0000_0000 ==> n < Pow128(9)
  {
    assert Pow128(1) == 128 * Pow128(0);
    assert Pow128(2) == 128 * Pow128(1);
    assert Pow128(3) == 128 * Pow128(2);
    assert Pow128(4) == 128 * Pow128(3);
    assert Pow128(5) == 128 * Pow128(4);
    assert Pow128(6) == 128 * Pow128(5);
    assert Pow128(7) == 128 * Pow128(6);
    assert Pow128(8) == 128 * Pow128(7);
    assert Pow128(9) == 128 * Pow128(8);
  }

  /** A record reads back, whatever follows it, exactly if it is within the limit; one that is over it is
      written all the same. Lengths are those memory can hold. */
  lemma RecordReads(d: Decoder, payload: Bytes, tail: Bytes)
    requires |payload| < 0x8000_0000_0000_0000
    ensures ReadRecord(d, Delimited(payload) + tail) ==
            if |payload| <= MAX_RECORD then (Decoded(d, payload), tail) else (Failed(TooLong), payload + tail)
  {
    LengthsFit(|payload|);
    assert Delimited(payload) + tail == WriteVarint(|payload|) + (payload + tail);
    VarintReads(|payload|, 0, payload + tail);
    assert (payload + tail)[..|payload|] == payload && (payload + tail)[|payload|..] == tail;
  }

  lemma RecordCut(d: Decoder, payload: Bytes, cut: nat)
    requires |payload| <= MAX_RECORD && cut < |Delimited(payload)|
    ensures ReadRecord(d, Delimited(payload)[..cut]).0 == if cut == 0 then End else Failed(UnexpectedEof)
  {
    LengthsFit(|payload|);
    var prefix := WriteVarint(|payload|);
    if cut < |prefix| {
      assert Delimited(payload)[..cut] == prefix[..cut];
      VarintCut(|payload|, 0, cut);
    } else {
      assert Delimited(payload)[..cut] == prefix + payload[..cut - |prefix|];
      VarintReads(|payload|, 0, payload[..cut - |prefix|]);
    }
  }

  lemma RecordsAreHonest(d: Decoder, payload: Bytes)
    requires |payload| <= MAX_RECORD
    ensures Honest(Reads(d), Records(d), payload)
  {
    var r := Records(d);
    forall tail ensures Reads(d)(r.write(payload) + tail) == (r.meaning(payload), tail) {
      RecordReads(d, payload, tail);
    }
    forall cut | 0 <= cut < |r.write(payload)| ensures Reads(d)(r.write(payload)[..cut]).0 == r.AtEnd(cut == 0) {
      RecordCut(d, payload, cut);
    }
  }

  /** Any prefix of an archive that has its header in it reads as a prefix of its records, and then ends,
      cleanly if and only if the cut is on a record boundary. */
  lemma CutArchiveReads(header: Decoder, d: Decoder, h: Bytes, rs: seq<Bytes>, cut: nat)
    requires |h| <= MAX_RECORD && (forall r | r in rs :: |r| <= MAX_RECORD) && cut <= |Stream(Delimited, rs)|
    ensures var file := Delimited(h) + Stream(Delimited, rs)[..cut];
            && ReadRecord(header, file) == (Decoded(header, h), Stream(Delimited, rs)[..cut])
            && ReadsAs(Reads(d), ReadRecord(header, file).1,
                       Meanings(Records(d).meaning, rs[..Whole(Delimited, rs, cut)]),
                       if OnBoundary(Delimited, rs, cut) then End else Failed(UnexpectedEof))
  {
    RecordReads(header, h, Stream(Delimited, rs)[..cut]);
    forall r | r in rs ensures Honest(Reads(d), Records(d), r) { RecordsAreHonest(d, r); }
    CutStreamReads(Reads(d), Records(d), rs, cut);
  }

  /** Without a whole header there is no archive. */
  lemma CutHeader(header: Decoder, h: Bytes, cut: nat)
    requires |h| <= MAX_RECORD && cut < |Delimited(h)|
    ensures !ReadRecord(header, Delimited(h)[..cut]).0.Record?
  {
    RecordCut(header, h, cut);
  }

  /** A whole archive reads as its records, all of them, in order, and then ends cleanly. */
  lemma ArchiveReads(header: Decoder, d: Decoder, h: Bytes, rs: seq<Bytes>)
    requires |h| <= MAX_RECORD && forall r | r in rs :: |r| <= MAX_RECORD
    ensures var file := Delimited(h) + Stream(Delimited, rs);
            ReadsAs(Reads(d), ReadRecord(header, file).1, Meanings(Records(d).meaning, rs), End)
  {
    var s := Stream(Delimited, rs);
    WholeStream(Delimited, rs);
    CutArchiveReads(header, d, h, rs, |s|);
    assert s[..|s|] == s && rs[..|rs|] == rs;
  }

  // ---- Writing -------------------------------------------------------------------------------------

  lemma {:induction false} StreamAppend(rs: seq<Bytes>, r: Bytes)
    ensures Stream(Delimited, rs + [r]) == Stream(Delimited, rs) + Delimited(r)
  {
    if rs == [] {
      assert Stream(Delimited, [r][1..]) == [];
      assert [r][0] == r;
    } else {
      assert (rs + [r])[1..] == rs[1..] + [r];
      StreamAppend(rs[1..], r);
    }
  }

  class ArchiveFile {
    ghost const header: Bytes
    ghost var records: seq<Bytes>
    var out: Bytes
    var bytesWritten: nat

    ghost predicate Valid()
      reads this
    {
      out == Delimited(header) + Stream(Delimited, records) && bytesWritten == |out|
    }

    constructor (header: Bytes)
      ensures Valid() && records == [] && this.header == header
    {
      this.header, records := header, [];
      out, bytesWritten := Delimited(header), |Delimited(header)|;
    }

    /** Appends a record as it came. */
    method WriteRecord(payload: Bytes)
      requires Valid()
      modifies this
      ensures Valid() && records == old(records) + [payload]
    {
      StreamAppend(records, payload);
      var prefix := WriteVarint(|payload|);
      out := out + prefix;
      out := out + payload;
      bytesWritten := bytesWritten + |prefix| + |payload|;
      records := records + [payload];
    }

    /** Whether the file is as long as it should get. */
    method NeedsRotation(maxFileSize: nat) returns (full: bool)
      requires Valid()
      ensures full <==> |out| >= maxFileSize
    {
      full := bytesWritten >= maxFileSize;
    }
  }

  // ---- Reading -------------------------------------------------------------------------------------

  class ArchiveReader {
    const d: Decoder
    var unread: Bytes
    var header: nat

    /** Takes the header off; the records follow it. */
    static method Open(headerDecoder: Decoder, d: Decoder, file: Bytes) returns (reader: ArchiveReader?)
      ensures reader != null <==> ReadRecord(headerDecoder, file).0.Record?
      ensures reader != null ==>
                && fresh(reader) && reader.d == d
                && (Record(reader.header), reader.unread) == ReadRecord(headerDecoder, file)
    {
      var r := new ArchiveReader(headerDecoder, file);
      var o := r.Next();
      if o.Record? {
        reader := new ArchiveReader(d, r.unread);
        reader.header := o.id;
      } else {
        reader := null;
      }
    }

    constructor (d: Decoder, unread: Bytes)
      ensures this.d == d && this.unread == unread
    {
      this.d, this.unread, header := d, unread, 0;
    }

    /** The length prefix, a byte at a time until one says it is the last. */
    method ReadLength() returns (l: Length)
      modifies this`unread
      ensures l == ReadVarint(old(unread), 0)
      ensures l.Length? || l.Malformed? ==> unread == l.rest
      ensures l.CleanEnd? || l.CutShort? ==> unread == []
    {
      var bytes: Bytes := [];
      while unread != [] && unread[0] >= 128 && |bytes| < 9
        invariant |bytes| < 10 && GoOn(bytes) && old(unread) == bytes + unread
        decreases 10 - |bytes|
      {
        bytes, unread := bytes + [unread[0]], unread[1..];
      }
      l := EndLength(bytes);
    }

    /** The last byte, if there is one. */
    method EndLength(bytes: Bytes) returns (l: Length)
      requires |bytes| < 10 && GoOn(bytes) && (unread != [] && unread[0] >= 128 ==> |bytes| == 9)
      modifies this`unread
      ensures l == ReadVarint(bytes + old(unread), 0)
      ensures l.Length? || l.Malformed? ==> unread == l.rest
      ensures l.CleanEnd? || l.CutShort? ==> unread == []
    {
      if unread == [] {
        PrefixEnds(bytes, 0);
        assert bytes + unread == bytes;
        return if bytes == [] then CleanEnd else CutShort;
      }
      var all := bytes + [unread[0]];
      assert all[..|all| - 1] == bytes && all + unread[1..] == bytes + unread;
      PrefixDecides(all, unread[1..], 0);
      unread := unread[1..];
      l := FollowedBy(ReadVarint(all, 0), unread);
    }

    method Next() returns (o: Outcome)
      modifies this`unread
      ensures (o, unread) == ReadRecord(d, old(unread))
    {
      var l := ReadLength();
      match l {
        case CleanEnd => o := End;
        case CutShort => o := Failed(UnexpectedEof);
        case Malformed(_) => o := Failed(BadLength);
        case Length(n, _) =>
          if n > MAX_RECORD {
            return Failed(TooLong);
          }
          if |unread| < n {
            unread := [];
            return Failed(UnexpectedEof);
          }
          o := Decoded(d, unread[..n]);
          unread := unread[n..];
      }
    }
  }
}
