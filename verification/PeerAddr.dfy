/**
 Peer addresses as text. The text of IP addresses, and the checksum of an onion address, come from
 libraries: functions here, the first with its own inverse.
 */
module PeerAddr {
  import opened Basics
  import opened ByteOrder
  import opened Base32

  type Port = p: int | 0 <= p < 65536
  type Ip4 = s: Bytes | |s| == 4 witness [0, 0, 0, 0]
  type Ip6 = s: Bytes | |s| == 16 witness [0, 0, 0, 0, 0, 0, 0, 0, 0, 0, 0, 0, 0, 0, 0, 0]
  type Key = s: Bytes | |s| == 32 witness ToLe(0, 32)

  datatype Addr =
    | Ipv4(ip4: Ip4, port: Port)
    | Ipv6(ip6: Ip6, port: Port)
    | TorV3(key: Key, port: Port)
    | I2p(key: Key, port: Port)
    | Cjdns(ip6: Ip6, port: Port)

  datatype Socket = V4(ip4: Ip4, port: Port) | V6(ip6: Ip6, port: Port)

  // ---- Text ----------------------------------------------------------------------------------------

  function LowerChar(c: char): char { if 'A' <= c <= 'Z' then c + 32 as char else c }

  function Lower(s: string): (t: string)
    ensures |t| == |s|
  {
    seq(|s|, i requires 0 <= i < |s| => LowerChar(s[i]))
  }

  predicate IsLower(s: string) { forall i | 0 <= i < |s| :: !('A' <= s[i] <= 'Z') }

  lemma LowerOfLower(s: string)
    requires IsLower(s)
    ensures Lower(s) == s
  {}

  predicate HasPrefix(s: string, p: string) { |p| <= |s| && s[..|p|] == p }
  predicate HasSuffix(s: string, p: string) { |p| <= |s| && s[|s| - |p|..] == p }

  function Stem(s: string, p: string): string
    requires HasSuffix(s, p)
  {
    s[..|s| - |p|]
  }

  datatype Split = Unsplit | Split(host: string, port: string)

  /** What is before the last colon, and what after. */
  function RSplit(s: string): Split {
    if s == "" then Unsplit
    else
      var init, last := s[..|s| - 1], s[|s| - 1];
      if last == ':' then Split(init, "")
      else match RSplit(init)
        case Unsplit => Unsplit
        case Split(host, port) => Split(host, port + [last])
  }

  lemma {:induction false} RSplitAt(host: string, port: string)
    requires ':' !in port
    ensures RSplit(host + ":" + port) == Split(host, port)
  {
    var s := host + ":" + port;
    if port == "" {
      assert s[..|s| - 1] == host;
    } else {
      var init, last := port[..|port| - 1], port[|port| - 1];
      RSplitAt(host, init);
      assert s[..|s| - 1] == host + ":" + init;
      assert last in port;
      assert init + [last] == port;
    }
  }

  // ---- Ports ---------------------------------------------------------------------------------------

  function ShowNat(n: nat): string {
    if n < 10 then ['0' + n as char] else ShowNat(n / 10) + ['0' + (n % 10) as char]
  }

  predicate IsNumeral(s: string) { forall i | 0 <= i < |s| :: '0' <= s[i] <= '9' }

  function ReadNat(s: string): nat
    requires IsNumeral(s)
  {
    if s == "" then 0 else 10 * ReadNat(s[..|s| - 1]) + (s[|s| - 1] - '0') as int
  }

  /** A port in decimal; a plus sign and leading zeros are let pass. */
  function ReadPort(s: string): Option<Port> {
    var digits := if |s| > 1 && s[0] == '+' then s[1..] else s;
    if digits != "" && IsNumeral(digits) && ReadNat(digits) < 65536 then Some(ReadNat(digits)) else None
  }

  lemma {:induction false} ReadShown(n: nat)
    ensures ShowNat(n) != "" && IsNumeral(ShowNat(n)) && ReadNat(ShowNat(n)) == n
  {
    if n >= 10 {
      ReadShown(n / 10);
      assert ShowNat(n)[..|ShowNat(n)| - 1] == ShowNat(n / 10);
    } else {
      assert ShowNat(n)[..0] == "";
    }
  }

  lemma PortReads(p: Port)
    ensures ReadPort(ShowNat(p)) == Some(p) && ':' !in ShowNat(p) && IsLower(ShowNat(p))
  {
    ReadShown(p);
    assert ShowNat(p)[0] != '+';
  }

  // ---- Libraries -----------------------------------------------------------------------------------

  datatype Library = Library(
    showV4: Ip4 -> string,
    showV6: Ip6 -> string,
    readSocket: string -> Option<Socket>,
    checksum: Key -> (Byte, Byte))

  function ShowSocket(l: Library, s: Socket): string {
    match s
    case V4(b, p) => l.showV4(b) + ":" + ShowNat(p)
    case V6(b, p) => "[" + l.showV6(b) + "]" + ":" + ShowNat(p)
  }

  /** IP addresses print as numerals, dots, colons and lowercase letters, and read back. */
  ghost predicate Sound(l: Library) {
    && (forall b: Ip4, i | 0 <= i < |l.showV4(b)| :: '0' <= l.showV4(b)[i] <= '9' || l.showV4(b)[i] == '.')
    && (forall b: Ip6 :: IsLower(l.showV6(b)))
    && forall s: Socket :: l.readSocket(ShowSocket(l, s)) == Some(s)
  }

  // ---- Onion addresses -----------------------------------------------------------------------------

  const ONION := ".onion"
  const I2P := ".b32.i2p"
  const CJDNS := "cjdns:"

  function OnionBytes(l: Library, key: Key): Bytes {
    key + [l.checksum(key).0, l.checksum(key).1, 3]
  }

  function OnionHost(l: Library, key: Key): string {
    EncodeText(OnionBytes(l, key)) + ONION
  }

  /** The key a hostname names: what it decodes to, if that is written the same. */
  function OnionKey(l: Library, host: string): Option<Key> {
    if !HasSuffix(host, ONION) then None
    else match DecodeText(Stem(host, ONION))
      case None => None
      case Some(raw) => if |raw| == 35 && OnionHost(l, raw[..32]) == host then Some(raw[..32]) else None
  }

  lemma StemOf(s: string, p: string)
    ensures HasSuffix(s + p, p) && Stem(s + p, p) == s
  {}

  /** A hostname is taken for a key exactly if it is the one the key is printed as. */
  lemma OnionKeyIff(l: Library, host: string, key: Key)
    ensures OnionKey(l, host) == Some(key) <==> host == OnionHost(l, key)
  {
    var raw := OnionBytes(l, key);
    StemOf(EncodeText(raw), ONION);
    TextRoundTrip(raw);
    assert raw[..32] == key;
  }

  // ---- Addresses -----------------------------------------------------------------------------------

  predicate Mapped(b: Ip6) {
    (forall i | 0 <= i < 10 :: b[i] == 0) && b[10] == 255 && b[11] == 255
  }

  /** An IPv4 address in IPv6 clothing is an IPv4 peer, and one in fc00::/8 a CJDNS peer. */
  function FromSocket(s: Socket): Addr {
    match s
    case V4(b, p) => Ipv4(b, p)
    case V6(b, p) => if Mapped(b) then Ipv4(b[12..], p) else if b[0] == 0xfc then Cjdns(b, p) else Ipv6(b, p)
  }

  predicate Normal(a: Addr) { a.Ipv6? ==> !Mapped(a.ip6) && a.ip6[0] != 0xfc }

  function Display(l: Library, a: Addr): string {
    match a
    case Ipv4(b, p) => ShowSocket(l, V4(b, p))
    case Ipv6(b, p) => ShowSocket(l, V6(b, p))
    case TorV3(key, p) => OnionHost(l, key) + ":" + ShowNat(p)
    case I2p(key, p) => EncodeText(key) + I2P + ":" + ShowNat(p)
    case Cjdns(b, p) => CJDNS + ShowSocket(l, V6(b, p))
  }

  function Plain(l: Library, lower: string): Option<Addr> {
    match l.readSocket(lower)
    case None => None
    case Some(s) => Some(FromSocket(s))
  }

  function ReadHost(l: Library, lower: string, host: string, port: Port): Option<Addr> {
    if HasSuffix(host, I2P) then
      match DecodeText(Stem(host, I2P))
      case None => None
      case Some(raw) => if |raw| == 32 then Some(I2p(raw, port)) else None
    else if HasSuffix(host, ONION) then
      match OnionKey(l, host)
      case None => None
      case Some(key) => Some(TorV3(key, port))
    else Plain(l, lower)
  }

  function ReadLower(l: Library, lower: string): Option<Addr> {
    if HasPrefix(lower, CJDNS) then
      match l.readSocket(lower[|CJDNS|..])
      case Some(V6(b, p)) => Some(Cjdns(b, p))
      case _ => None
    else ReadSplit(l, lower, RSplit(lower))
  }

  /** Text with a port after its last colon, if it has. */
  function ReadSplit(l: Library, lower: string, split: Split): Option<Addr> {
    match split
    case Unsplit => Plain(l, lower)
    case Split(host, port) =>
      if ReadPort(port).Some? then ReadHost(l, lower, host, ReadPort(port).value) else Plain(l, lower)
  }

  function Parse(l: Library, s: string): Option<Addr> { ReadLower(l, Lower(s)) }

  // ---- Parsing undoes printing ---------------------------------------------------------------------

  lemma HostReads(l: Library, host: string, port: Port, text: string)
    requires text == host + ":" + ShowNat(port) && !HasPrefix(text, CJDNS)
    ensures ReadLower(l, text) == ReadHost(l, text, host, port)
  {
    PortReads(port);
    RSplitAt(host, ShowNat(port));
  }

  lemma NotCjdns(b: string, more: string)
    requires Spelled(b) && |b| >= |CJDNS|
    ensures !HasPrefix(b + more, CJDNS)
  {
    assert CJDNS[5] == ':' && !InAlphabet(':');
    PrefixHas(b + more, CJDNS, 5);
  }

  lemma LowerText(a: string, b: string)
    requires IsLower(a) && IsLower(b)
    ensures IsLower(a + b)
  {}

  lemma SpelledIsLower(b: string)
    requires Spelled(b)
    ensures IsLower(b)
  {}

  lemma EncodingSize(s: Bytes)
    ensures |EncodeText(s)| == (8 * |s| + Pad(|s|)) / 5 && Spelled(EncodeText(s))
  {}

  lemma HostedIsLower(b: string, suffix: string, port: Port)
    requires Spelled(b) && IsLower(suffix)
    ensures IsLower(b + suffix + ":" + ShowNat(port))
  {
    SpelledIsLower(b);
    PortReads(port);
    LowerText(b, suffix);
    LowerText(b + suffix, ":");
    LowerText(b + suffix + ":", ShowNat(port));
  }

  lemma SuffixEnds(s: string, p: string)
    requires p != ""
    ensures HasSuffix(s, p) ==> s != "" && s[|s| - 1] == p[|p| - 1]
  {
    if HasSuffix(s, p) { assert s[|s| - 1] == s[|s| - |p|..][|p| - 1]; }
  }

  lemma PrefixHas(s: string, p: string, i: nat)
    requires i < |p|
    ensures HasPrefix(s, p) ==> i < |s| && s[i] == p[i]
  {
    if HasPrefix(s, p) { assert s[i] == s[..|p|][i]; }
  }

  lemma HostedReads(l: Library, b: string, suffix: string, port: Port, text: string)
    requires text == b + suffix + ":" + ShowNat(port) && Spelled(b) && |b| >= |CJDNS|
    ensures ReadLower(l, text) == ReadHost(l, text, b + suffix, port)
  {
    assert text == b + (suffix + ":" + ShowNat(port));
    NotCjdns(b, suffix + ":" + ShowNat(port));
    HostReads(l, b + suffix, port, text);
  }

  lemma I2pReads(l: Library, key: Key, port: Port)
    ensures Parse(l, Display(l, I2p(key, port))) == Some(I2p(key, port))
  {
    var text := Display(l, I2p(key, port));
    EncodingSize(key);
    HostedIsLower(EncodeText(key), I2P, port);
    LowerOfLower(text);
    HostedReads(l, EncodeText(key), I2P, port, text);
    StemOf(EncodeText(key), I2P);
    TextRoundTrip(key);
  }

  lemma OnionIsNotI2p(b: string)
    ensures !HasSuffix(b + ONION, I2P) && HasSuffix(b + ONION, ONION)
  {
    StemOf(b, ONION);
    SuffixEnds(b + ONION, I2P);
  }

  lemma OnionReads(l: Library, key: Key, port: Port)
    ensures Parse(l, Display(l, TorV3(key, port))) == Some(TorV3(key, port))
  {
    var text, b := Display(l, TorV3(key, port)), EncodeText(OnionBytes(l, key));
    EncodingSize(OnionBytes(l, key));
    HostedIsLower(b, ONION, port);
    LowerOfLower(text);
    HostedReads(l, b, ONION, port, text);
    OnionIsNotI2p(b);
    OnionKeyIff(l, b + ONION, key);
  }

  lemma CjdnsReads(l: Library, b: Ip6, port: Port)
    requires Sound(l)
    ensures Parse(l, Display(l, Cjdns(b, port))) == Some(Cjdns(b, port))
  {
    var socket, text := ShowSocket(l, V6(b, port)), Display(l, Cjdns(b, port));
    SocketIsLower(l, V6(b, port));
    LowerText(CJDNS, socket);
    LowerOfLower(text);
    assert text[..|CJDNS|] == CJDNS && text[|CJDNS|..] == socket;
  }

  lemma SocketIsLower(l: Library, s: Socket)
    requires Sound(l)
    ensures IsLower(ShowSocket(l, s))
  {
    PortReads(s.port);
    var host := if s.V4? then l.showV4(s.ip4) else "[" + l.showV6(s.ip6) + "]";
    LowerText(host, ":");
    LowerText(host + ":", ShowNat(s.port));
  }

  /** The part of a socket address before its port. */
  function SocketHost(l: Library, s: Socket): string {
    match s
    case V4(b, _) => l.showV4(b)
    case V6(b, _) => "[" + l.showV6(b) + "]"
  }

  lemma SocketHostIsPlain(l: Library, s: Socket)
    requires Sound(l)
    ensures !HasSuffix(SocketHost(l, s), I2P) && !HasSuffix(SocketHost(l, s), ONION)
  {
    var host := SocketHost(l, s);
    SuffixEnds(host, I2P);
    SuffixEnds(host, ONION);
  }

  lemma SocketIsNotCjdns(l: Library, s: Socket)
    requires Sound(l)
    ensures !HasPrefix(ShowSocket(l, s), CJDNS)
  {
    var text := ShowSocket(l, s);
    PrefixHas(text, CJDNS, 0);
  }

  lemma SocketReads(l: Library, s: Socket)
    requires Sound(l)
    ensures Parse(l, ShowSocket(l, s)) == Some(FromSocket(s))
  {
    var text := ShowSocket(l, s);
    SocketIsLower(l, s);
    LowerOfLower(text);
    SocketIsNotCjdns(l, s);
    HostReads(l, SocketHost(l, s), s.port, text);
    SocketHostIsPlain(l, s);
  }

  /** Whatever is printed reads back, exactly if it is in the form addresses are kept in. */
  lemma ParseUndoesDisplay(l: Library, a: Addr)
    requires Sound(l)
    ensures Parse(l, Display(l, a)) == Some(a) <==> Normal(a)
  {
    match a
    case Ipv4(b, p) => SocketReads(l, V4(b, p));
    case Ipv6(b, p) => SocketReads(l, V6(b, p));
    case TorV3(key, p) => OnionReads(l, key, p);
    case I2p(key, p) => I2pReads(l, key, p);
    case Cjdns(b, p) => CjdnsReads(l, b, p);
  }

  /** Every address read off a socket is in that form. */
  lemma FromSocketIsNormal(s: Socket)
    ensures Normal(FromSocket(s))
  {}

  lemma {:induction false} RSplitJoins(s: string)
    ensures RSplit(s).Split? ==> s == RSplit(s).host + ":" + RSplit(s).port
  {
    if s != "" { RSplitJoins(s[..|s| - 1]); }
  }

  lemma StemAnd(s: string, p: string)
    requires HasSuffix(s, p)
    ensures s == Stem(s, p) + p
  {}

  /** Text read as an address with a name has that name before its last colon. */
  lemma NamedHost(l: Library, text: string, split: Split, a: Addr)
    requires ReadSplit(l, text, split) == Some(a) && (a.I2p? || a.TorV3?)
    ensures split.Split? && ReadPort(split.port) == Some(a.port) && ReadHost(l, text, split.host, a.port) == Some(a)
  {}

  /** An I2P hash is read only off the one host it is printed as, in either case. */
  lemma OneI2pHost(l: Library, s: string, key: Key, port: Port) returns (portText: string)
    requires Parse(l, s) == Some(I2p(key, port))
    ensures Lower(s) == EncodeText(key) + I2P + ":" + portText && ReadPort(portText) == Some(port)
  {
    NamedHost(l, Lower(s), RSplit(Lower(s)), I2p(key, port));
    RSplitJoins(Lower(s));
    var host := RSplit(Lower(s)).host;
    portText := RSplit(Lower(s)).port;
    StemAnd(host, I2P);
    I2pSpelling(Stem(host, I2P), key);
  }

  /** And so is an onion key. */
  lemma OneOnionHost(l: Library, s: string, key: Key, port: Port) returns (portText: string)
    requires Parse(l, s) == Some(TorV3(key, port))
    ensures Lower(s) == OnionHost(l, key) + ":" + portText && ReadPort(portText) == Some(port)
  {
    NamedHost(l, Lower(s), RSplit(Lower(s)), TorV3(key, port));
    RSplitJoins(Lower(s));
    portText := RSplit(Lower(s)).port;
    OnionNamed(l, Lower(s), RSplit(Lower(s)).host, key, port);
  }

  lemma OnionNamed(l: Library, text: string, host: string, key: Key, port: Port)
    requires ReadHost(l, text, host, port) == Some(TorV3(key, port))
    ensures host == OnionHost(l, key)
  {
    OnionKeyIff(l, host, key);
  }

  lemma I2pSpelling(b: string, key: Key)
    requires DecodeText(b) == Some(key)
    ensures b == EncodeText(key)
  {
    SpellsBits(OfDigits(DigitsOf(b)), key);
    assert 5 * |b| == 256 + 5 * |b| % 8;
    TextOneSpelling(b, key);
  }

  // ---- The text, spelled out -----------------------------------------------------------------------

  /** How each kind of address is printed. An onion host is 56 characters and its suffix: the key, its checksum and
      a 3; an I2P one 52. */
  lemma PrintedAs(l: Library, key: Key, four: Ip4, six: Ip6, port: Port)
    ensures Display(l, Ipv4(four, port)) == l.showV4(four) + ":" + ShowNat(port)
    ensures Display(l, Ipv6(six, port)) == "[" + l.showV6(six) + "]" + ":" + ShowNat(port)
    ensures Display(l, Cjdns(six, port)) == "cjdns:" + ("[" + l.showV6(six) + "]" + ":" + ShowNat(port))
    ensures Display(l, TorV3(key, port))
            == EncodeText(key + [l.checksum(key).0, l.checksum(key).1, 3]) + ".onion" + ":" + ShowNat(port)
    ensures Display(l, I2p(key, port)) == EncodeText(key) + ".b32.i2p" + ":" + ShowNat(port)
    ensures |EncodeText(OnionBytes(l, key))| == 56 && |EncodeText(key)| == 52
  {
    EncodingSize(key);
    EncodingSize(OnionBytes(l, key));
  }

  lemma DigitShown(n: nat)
    requires n < 10
    ensures ShowNat(n) == ["0123456789"[n]]
  {}

  /** Numbers are printed in decimal, digit by digit. */
  lemma ShownAs(n: nat)
    ensures n < 10 ==> ShowNat(n) == ["0123456789"[n]]
    ensures n >= 10 ==> ShowNat(n) == ShowNat(n / 10) + ["0123456789"[n % 10]]
  {
    DigitShown(n % 10);
  }

  /** And a port reads back from that, with a plus before it too, if it fits sixteen bits. */
  lemma PortsRead(n: nat)
    ensures ReadPort(ShowNat(n)) == if n <= 65535 then Some(n) else None
    ensures ReadPort("+" + ShowNat(n)) == if n <= 65535 then Some(n) else None
  {
    ReadShown(n);
    assert ("+" + ShowNat(n))[1..] == ShowNat(n) && ShowNat(n)[0] != '+';
  }

  /** What an address off a socket is known as: one mapped into IPv6 as the IPv4 address it is, one in fc00::/8 as
      Cjdns, any other as it is. */
  lemma KnownAs(four: Ip4, six: Ip6, port: Port)
    ensures FromSocket(V4(four, port)) == Ipv4(four, port)
    ensures FromSocket(V6([0, 0, 0, 0, 0, 0, 0, 0, 0, 0, 255, 255] + four, port)) == Ipv4(four, port)
    ensures six[0] == 252 ==> FromSocket(V6(six, port)) == Cjdns(six, port)
    ensures six[0] != 252 && six[..12] != [0, 0, 0, 0, 0, 0, 0, 0, 0, 0, 255, 255] ==>
              FromSocket(V6(six, port)) == Ipv6(six, port)
  {
    var mapped: Ip6 := [0, 0, 0, 0, 0, 0, 0, 0, 0, 0, 255, 255] + four;
    assert mapped[12..] == four;
    assert Mapped(six) ==> six[..12] == [0, 0, 0, 0, 0, 0, 0, 0, 0, 0, 255, 255];
  }

  /** Text with its letters raised. */
  function Raised(s: string): string {
    seq(|s|, i requires 0 <= i < |s| => if 'a' <= s[i] <= 'z' then s[i] - 32 as char else s[i])
  }

  /** Case does not matter. */
  lemma CaseIsIgnored(l: Library, s: string)
    ensures Parse(l, Raised(s)) == Parse(l, s)
  {
    assert Lower(Raised(s)) == Lower(s);
  }
}
