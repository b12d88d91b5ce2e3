/**
 The addrv2 message of BIP155: a count, then that many entries, each with its own length. The lenient
 reader steps over entries whose address will not decode and stops where it can no longer follow the
 framing. `decode` is the decoder of one address.
 */
module Addrv2 {
  import opened Basics
  import opened ByteOrder
  import opened Framing

  // ---- Compact sizes ---------------------------------------------------------------------------

  function ReadLe(s: Bytes, k: nat): (r: Reading<nat>)
    ensures r.Got? ==> r.value < Pow256(k)
  {
    if |s| < k then Cannot else ToLeOfLe(s[..k]); Got(Le(s[..k]), s[k..])
  }

  /** A number of `k` bytes that would not have fitted in fewer. */
  function ReadWide(s: Bytes, k: nat, least: nat): (r: Reading<nat>)
    ensures r.Got? ==> least <= r.value < Pow256(k)
  {
    var r := ReadLe(s, k);
    if r.Got? && r.value >= least then r else Cannot
  }

  /** A compact size; one written longer than it need be is refused. */
  function ReadCompact(s: Bytes): (r: Reading<nat>)
    ensures r.Got? ==> r.value <= U64_MAX
  {
    Powers();
    if s == [] then Cannot
    else if s[0] == 0xFF then ReadWide(s[1..], 8, 0x1_0000_0000)
    else if s[0] == 0xFE then ReadWide(s[1..], 4, 0x1_0000)
    else if s[0] == 0xFD then ReadWide(s[1..], 2, 0xFD)
    else Got(s[0], s[1..])
  }

  function WriteCompact(n: nat): (b: Bytes)
    requires n <= U64_MAX
    ensures |b| >= 1
  {
    if n < 0xFD then [n]
    else if n < 0x1_0000 then [0xFD] + ToLe(n, 2)
    else if n <= U32_MAX then [0xFE] + ToLe(n, 4)
    else [0xFF] + ToLe(n, 8)
  }

  lemma LeReads(n: nat, k: nat, tail: Bytes)
    requires n < Pow256(k)
    ensures ReadLe(ToLe(n, k) + tail, k) == Got(n, tail)
  {
    LeOfToLe(n, k);
    assert (ToLe(n, k) + tail)[..k] == ToLe(n, k);
  }

  lemma LeWrites(s: Bytes, k: nat)
    requires ReadLe(s, k).Got?
    ensures ReadLe(s, k).value < Pow256(k) && s == ToLe(ReadLe(s, k).value, k) + ReadLe(s, k).rest
  {
    ToLeOfLe(s[..k]);
  }

  lemma WideReads(n: nat, k: nat, mark: Byte, tail: Bytes)
    requires n < Pow256(k)
    ensures ReadLe(([mark] + ToLe(n, k) + tail)[1..], k) == Got(n, tail)
  {
    assert ([mark] + ToLe(n, k) + tail)[1..] == ToLe(n, k) + tail;
    LeReads(n, k, tail);
  }

  lemma CompactReads(n: nat, tail: Bytes)
    requires n <= U64_MAX
    ensures ReadCompact(WriteCompact(n) + tail) == Got(n, tail)
  {
    Powers();
    if n < 0xFD {
    } else if n < 0x1_0000 {
      WideReads(n, 2, 0xFD, tail);
    } else if n <= U32_MAX {
      WideReads(n, 4, 0xFE, tail);
    } else {
      WideReads(n, 8, 0xFF, tail);
    }
  }

  /** Nothing else reads as that number. */
  lemma CompactWrites(s: Bytes)
    requires ReadCompact(s).Got?
    ensures s == WriteCompact(ReadCompact(s).value) + ReadCompact(s).rest
  {
    Powers();
    if s[0] == 0xFF {
      LeWrites(s[1..], 8);
    } else if s[0] == 0xFE {
      LeWrites(s[1..], 4);
    } else if s[0] == 0xFD {
      LeWrites(s[1..], 2);
    }
  }

  // ---- Entries -----------------------------------------------------------------------------------

  /** One entry as it is framed; the port is big-endian on the wire. */
  datatype Fields = Fields(time: nat, services: nat, network: Byte, addr: Bytes, portHigh: Byte, portLow: Byte)
  {
    predicate Fits() { time <= U32_MAX && services <= U64_MAX && |addr| <= U64_MAX }

    function Port(): nat { portHigh as int * 256 + portLow as int }
  }

  type Item = f: Fields | f.Fits() witness Fields(0, 0, 0, [], 0, 0)

  /** The end of an entry, from its length on, and `tail` after it. */
  function WriteAddress(addr: Bytes, portHigh: Byte, portLow: Byte, tail: Bytes): (b: Bytes)
    requires |addr| <= U64_MAX
    ensures |b| >= 3 + |tail|
  {
    WriteCompact(|addr|) + (addr + ([portHigh, portLow] + tail))
  }

  /** An entry, and `tail` after it. */
  function WriteItem(i: Item, tail: Bytes): (b: Bytes)
    ensures |b| >= 9 + |tail|
  {
    ToLe(i.time, 4) + (WriteCompact(i.services) + ([i.network] + WriteAddress(i.addr, i.portHigh, i.portLow, tail)))
  }

  /** From the length on. */
  function ReadAddress(time: nat, services: nat, network: Byte, s: Bytes): Reading<Item>
    requires time <= U32_MAX && services <= U64_MAX
  {
    var len := ReadCompact(s);
    if len.Cannot? || |len.rest| < len.value + 2 then Cannot
    else
      var addr, more := len.rest[..len.value], len.rest[len.value..];
      Got(Fields(time, services, network, addr, more[0], more[1]), more[2..])
  }

  function ReadItem(s: Bytes): Reading<Item> {
    Powers();
    var time := ReadLe(s, 4);
    if time.Cannot? then Cannot
    else
      var services := ReadCompact(time.rest);
      if services.Cannot? || services.rest == [] then Cannot
      else ReadAddress(time.value, services.value, services.rest[0], services.rest[1..])
  }

  lemma AddressReads(i: Item, tail: Bytes)
    ensures ReadAddress(i.time, i.services, i.network, WriteAddress(i.addr, i.portHigh, i.portLow, tail))
            == Got(i, tail)
  {
    var end := [i.portHigh, i.portLow] + tail;
    CompactReads(|i.addr|, i.addr + end);
    assert (i.addr + end)[..|i.addr|] == i.addr && (i.addr + end)[|i.addr|..] == end;
    assert end[2..] == tail;
  }

  lemma ItemReads(i: Item, tail: Bytes)
    ensures ReadItem(WriteItem(i, tail)) == Got(i, tail)
  {
    var s3 := WriteAddress(i.addr, i.portHigh, i.portLow, tail);
    var s2 := [i.network] + s3;
    var s1 := WriteCompact(i.services) + s2;
    Powers();
    LeReads(i.time, 4, s1);
    CompactReads(i.services, s2);
    assert s2[0] == i.network && s2[1..] == s3;
    AddressReads(i, tail);
  }

  lemma AddressWrites(time: nat, services: nat, network: Byte, s: Bytes, i: Item, tail: Bytes)
    requires time <= U32_MAX && services <= U64_MAX
    requires ReadAddress(time, services, network, s) == Got(i, tail)
    ensures i.time == time && i.services == services && i.network == network
    ensures s == WriteAddress(i.addr, i.portHigh, i.portLow, tail)
  {
    CompactWrites(s);
    var len := ReadCompact(s);
    var more := len.rest[len.value..];
    assert len.rest == i.addr + more;
    assert more == [i.portHigh, i.portLow] + tail;
  }

  lemma AfterTimeWrites(time: nat, s: Bytes, services: Reading<nat>, i: Item, tail: Bytes)
    requires time <= U32_MAX && services == ReadCompact(s) && services.Got? && services.rest != []
    requires ReadAddress(time, services.value, services.rest[0], services.rest[1..]) == Got(i, tail)
    ensures i.time == time
    ensures s == WriteCompact(i.services) + ([i.network] + WriteAddress(i.addr, i.portHigh, i.portLow, tail))
  {
    AddressWrites(time, services.value, services.rest[0], services.rest[1..], i, tail);
    assert services.rest == [services.rest[0]] + services.rest[1..];
    CompactWrites(s);
  }

  /** What reads as an entry is what that entry is written as. */
  lemma ItemWrites(s: Bytes, i: Item, tail: Bytes)
    requires ReadItem(s) == Got(i, tail)
    ensures s == WriteItem(i, tail)
  {
    var time := ReadLe(s, 4);
    Powers();
    LeWrites(s, 4);
    AfterTimeWrites(time.value, time.rest, ReadCompact(time.rest), i, tail);
  }

  // ---- Messages ----------------------------------------------------------------------------------

  type Decoder = Bytes -> Option<nat>

  /** An entry whose address decoded. */
  datatype Known = Known(time: nat, services: nat, address: nat, port: nat)

  /** What the address decoder is given for an entry: its network and its address with its length. */
  function Raw(i: Item): Bytes {
    [i.network] + WriteCompact(|i.addr|) + i.addr
  }

  function Kept(d: Decoder, i: Item): seq<Known> {
    if d(Raw(i)).Some? then [Known(i.time, i.services, d(Raw(i)).value, i.Port())] else []
  }

  /** The entries whose addresses decode, in order. */
  function KeptOf(d: Decoder, items: seq<Item>): seq<Known> {
    if items == [] then [] else Kept(d, items[0]) + KeptOf(d, items[1..])
  }

  lemma ItemsAreCanonical()
    ensures Canonical(ReadItem, WriteItem) && Faithful(ReadItem, WriteItem)
  {
    forall s | ReadItem(s).Got? ensures s == WriteItem(ReadItem(s).value, ReadItem(s).rest) {
      ItemWrites(s, ReadItem(s).value, ReadItem(s).rest);
    }
    forall i, tail ensures ReadItem(WriteItem(i, tail)) == Got(i, tail) { ItemReads(i, tail); }
  }

  /** A message: its count, then its entries. */
  function Message(items: seq<Item>, tail: Bytes): Bytes
    requires |items| <= U64_MAX
  {
    WriteCompact(|items|) + Written(WriteItem, items, tail)
  }

  /** The count a message declares, as far as its bytes could hold that many. */
  function Count(s: Bytes): nat {
    match ReadCompact(s)
    case Cannot => 0
    case Got(count, _) => if count < |s| / 9 then count else |s| / 9
  }

  /** The entries that the lenient reader goes through. */
  function Followed(s: Bytes): seq<Item> {
    match ReadCompact(s)
    case Cannot => []
    case Got(_, rest) => Framed(ReadItem, rest, Count(s)).0
  }

  /** The decoder that takes the message whole or not at all. */
  function Strict(d: Decoder, s: Bytes): Option<seq<Known>> {
    match ReadCompact(s)
    case Cannot => None
    case Got(count, rest) =>
      var (items, left) := Framed(ReadItem, rest, count);
      if |items| == count && left == [] && (forall i | i in items :: d(Raw(i)).Some?) then Some(KeptOf(d, items))
      else None
  }

  lemma {:induction false} KeptIsFewer(d: Decoder, items: seq<Item>)
    ensures |KeptOf(d, items)| <= |items|
    ensures (forall i | i in items :: d(Raw(i)).Some?) ==> |KeptOf(d, items)| == |items|
  {
    if items != [] {
      KeptIsFewer(d, items[1..]);
      assert forall i | i in items[1..] :: i in items;
      assert items[0] in items;
    }
  }

  lemma ItemsFit(items: seq<Item>, tail: Bytes)
    ensures |Written(WriteItem, items, tail)| >= 9 * |items| + |tail|
  {
    WrittenSize(WriteItem, 9, items, tail);
  }

  /** A well-framed message, whatever follows it, is gone through from end to end. */
  lemma WellFramed(items: seq<Item>, tail: Bytes)
    requires |items| <= U64_MAX
    ensures Count(Message(items, tail)) == |items| && Followed(Message(items, tail)) == items
  {
    var body := Written(WriteItem, items, tail);
    CompactReads(|items|, body);
    ItemsFit(items, tail);
    ItemsAreCanonical();
    WrittenIsFramed(ReadItem, WriteItem, items, tail);
  }

  /** And any bytes are one as far as they are gone through: up to the count, or to where the framing breaks. */
  lemma FollowedAsFar(s: Bytes) returns (tail: Bytes)
    requires ReadCompact(s).Got?
    ensures s == WriteCompact(ReadCompact(s).value) + Written(WriteItem, Followed(s), tail)
    ensures |Followed(s)| == Count(s) || (|Followed(s)| < Count(s) && ReadItem(tail).Cannot?)
  {
    CompactWrites(s);
    ItemsAreCanonical();
    var rest := ReadCompact(s).rest;
    FramedIsWritten(ReadItem, WriteItem, rest, Count(s));
    tail := Framed(ReadItem, rest, Count(s)).1;
  }

  lemma CountIsDeclared(s: Bytes, count: nat, rest: Bytes)
    requires ReadCompact(s) == Got(count, rest) && |Framed(ReadItem, rest, count).0| == count
    ensures Count(s) == count
  {
    CompactWrites(s);
    ItemsAreCanonical();
    FramedIsWritten(ReadItem, WriteItem, rest, count);
    var (items, left) := Framed(ReadItem, rest, count);
    ItemsFit(items, left);
  }

  /** Where the strict decoder succeeds, the lenient reader finds the same. */
  lemma LenientAgrees(d: Decoder, s: Bytes)
    requires Strict(d, s).Some?
    ensures Count(s) == |Strict(d, s).value| && KeptOf(d, Followed(s)) == Strict(d, s).value
  {
    var count, rest := ReadCompact(s).value, ReadCompact(s).rest;
    CountIsDeclared(s, count, rest);
    KeptIsFewer(d, Framed(ReadItem, rest, count).0);
  }

  // ---- On the wire ---------------------------------------------------------------------------------

  /** A compact size: one byte below 0xFD, else a mark and two, four or eight, the lowest first. */
  lemma CompactLooksLike(n: nat)
    requires n <= U64_MAX
    ensures n < 0xFD ==> WriteCompact(n) == [n]
    ensures 0xFD <= n < 0x1_0000 ==> WriteCompact(n) == [0xFD, n % 256, n / 256]
    ensures 0x1_0000 <= n < 0x1_0000_0000 ==>
              WriteCompact(n) == [0xFE, n % 256, n / 256 % 256, n / 65536 % 256, n / 16777216]
    ensures n >= 0x1_0000_0000 ==>
              var low, high := n % 0x1_0000_0000, n / 0x1_0000_0000;
              WriteCompact(n) == [0xFF, low % 256, low / 256 % 256, low / 65536 % 256, low / 16777216,
                                  high % 256, high / 256 % 256, high / 65536 % 256, high / 16777216]
  {
    if n >= 0x1_0000_0000 {
      EightBytes(n);
      FourBytes(n % 0x1_0000_0000);
      FourBytes(n / 0x1_0000_0000);
    } else if n >= 0x1_0000 {
      FourBytes(n);
    } else if n >= 0xFD {
      TwoBytes(n);
    }
  }

  /** An entry on the wire: the time with its lowest byte first, the services, the network, the address after its
      length, and the port with its highest byte first. */
  lemma EntryReads(i: Item, port: nat, tail: Bytes, time: Bytes, last: Bytes, end: Bytes, s: Bytes)
    requires port == 256 * i.portHigh + i.portLow
    requires time == [i.time % 256, i.time / 256 % 256, i.time / 65536 % 256, i.time / 16777216]
    requires last == [port / 256, port % 256] + tail && end == WriteCompact(|i.addr|) + (i.addr + last)
    requires s == time + (WriteCompact(i.services) + ([i.network] + end))
    ensures ReadItem(s) == Got(i, tail)
  {
    FourBytes(i.time);
    assert last == [i.portHigh, i.portLow] + tail;
    ItemReads(i, tail);
  }

  /** What the book is told of it: if its network and its own bytes, with their length, decode, that address at
      the port, with the time and the services. */
  lemma EntryIsKept(d: Decoder, i: Item, raw: Bytes, port: nat)
    requires port == 256 * i.portHigh + i.portLow && raw == [i.network] + WriteCompact(|i.addr|) + i.addr
    ensures Kept(d, i) == match d(raw) case None => [] case Some(a) => [Known(i.time, i.services, a, port)]
  {
    assert Raw(i) == raw;
  }

  /** A message's entries come out one by one, in their order. */
  lemma {:induction false} KeptInOrder(d: Decoder, items: seq<Item>, i: Item)
    ensures KeptOf(d, []) == [] && KeptOf(d, items + [i]) == KeptOf(d, items) + Kept(d, i)
  {
    if items == [] {
      assert items + [i] == [i] && [i][1..] == [];
    } else {
      KeptInOrder(d, items[1..], i);
      assert (items + [i])[1..] == items[1..] + [i];
    }
  }

  // ---- The reader ----------------------------------------------------------------------------------

  /** With `n` entries still to read from `s`, and `entries` so far, `all` is what there will be. */
  ghost predicate LeadsTo(read: Read<Item>, d: Decoder, s: Bytes, n: nat, entries: seq<Known>, all: seq<Known>) {
    all == entries + KeptFrom(read, d, s, n)
  }

  function KeptFrom(read: Read<Item>, d: Decoder, s: Bytes, n: nat): seq<Known> { KeptOf(d, Framed(read, s, n).0) }

  lemma LeadsHere(read: Read<Item>, d: Decoder, s: Bytes, entries: seq<Known>, all: seq<Known>)
    requires LeadsTo(read, d, s, 0, entries, all)
    ensures all == entries
  {}

  lemma LeadsFrom(read: Read<Item>, d: Decoder, s: Bytes, n: nat)
    ensures LeadsTo(read, d, s, n, [], KeptFrom(read, d, s, n))
  {}

  lemma LeadsOn(read: Read<Item>, d: Decoder, s: Bytes, n: nat, entries: seq<Known>, all: seq<Known>,
                item: Reading<Item>)
    requires LeadsTo(read, d, s, n, entries, all) && n > 0 && item == read(s)
    ensures item.Cannot? ==> all == entries
    ensures item.Got? ==> LeadsTo(read, d, item.rest, n - 1, entries + Kept(d, item.value), all)
  {
    if item.Got? {
      var more := Framed(read, item.rest, n - 1).0;
      assert ([item.value] + more)[1..] == more;
    }
  }

  /** One more entry. `more` says the framing could be followed. */
  method ReadEntry(read: Read<Item>, d: Decoder, r: Bytes, ghost n: nat, entries: seq<Known>, ghost all: seq<Known>)
    returns (more: bool, r': Bytes, entries': seq<Known>)
    requires n > 0 && LeadsTo(read, d, r, n, entries, all)
    ensures if more then LeadsTo(read, d, r', n - 1, entries', all) else entries' == all
  {
    var item := read(r);
    LeadsOn(read, d, r, n, entries, all, item);
    if item.Cannot? {
      return false, r, entries;
    }
    more, r', entries' := true, item.rest, entries + Kept(d, item.value);
  }

  method ReadEntries(read: Read<Item>, d: Decoder, rest: Bytes, count: nat) returns (entries: seq<Known>)
    ensures entries == KeptFrom(read, d, rest, count)
  {
    ghost var all := KeptFrom(read, d, rest, count);
    LeadsFrom(read, d, rest, count);
    entries := [];
    var r, left, more := rest, count, true;
    while left > 0 && more
      invariant if more then LeadsTo(read, d, r, left, entries, all) else entries == all
    {
      more, r, entries := ReadEntry(read, d, r, left, entries, all);
      left := left - 1;
    }
    if more { LeadsHere(read, d, r, entries, all); }
  }

  /** The lenient reader: never more entries than it reports, nor more than the bytes could hold. */
  method ParseLeniently(d: Decoder, payload: Bytes) returns (count: nat, entries: seq<Known>)
    ensures count == Count(payload) && entries == KeptOf(d, Followed(payload))
    ensures |entries| <= count <= |payload| / 9
  {
    var declared := ReadCompact(payload);
    if declared.Cannot? {
      return 0, [];
    }
    count := if declared.value < |payload| / 9 then declared.value else |payload| / 9;
    entries := ReadEntries(ReadItem, d, declared.rest, count);
    KeptIsFewer(d, Followed(payload));
  }
}
