/**
  The text forms of addresses and address blocks that Go's `net` package
  accepts: dotted IPv4, IPv6 as in sections 2.2 and 2.3 of RFC 4291 without
  zones, and address/prefix-length as in section 3.1 of RFC 4632.
*/
module NetAddr {
  import opened GoStrings
  import opened Wrappers

  datatype Addr = V4(octets: seq<nat>) | V6(groups: seq<nat>) {
    function BitLen(): nat {
      if V4? then 32 else 128
    }

    /** An IPv6 address that carries an IPv4 address: 80 zero bits, then 16 one bits. */
    predicate IsMapped() {
      V6? && |groups| == 8 && groups[..6] == [0, 0, 0, 0, 0, 0xffff]
    }

    /** Whether Go's To4 yields an address. */
    predicate HasTo4() {
      V4? || IsMapped()
    }
  }

  // ----- Numbers -----

  predicate IsDigit(c: char) {
    '0' <= c <= '9'
  }

  predicate AllDigits(s: string) {
    forall i :: 0 <= i < |s| ==> IsDigit(s[i])
  }

  function Decimal(s: string): nat
    requires AllDigits(s)
  {
    if s == "" then 0 else 10 * Decimal(s[..|s| - 1]) + (s[|s| - 1] as nat - '0' as nat)
  }

  predicate IsHexDigit(c: char) {
    IsDigit(c) || 'a' <= c <= 'f' || 'A' <= c <= 'F'
  }

  function HexValue(c: char): nat
    requires IsHexDigit(c)
  {
    if IsDigit(c) then c as nat - '0' as nat
    else if 'a' <= c <= 'f' then c as nat - 'a' as nat + 10
    else c as nat - 'A' as nat + 10
  }

  predicate AllHex(s: string) {
    forall i :: 0 <= i < |s| ==> IsHexDigit(s[i])
  }

  function Hex(s: string): nat
    requires AllHex(s)
  {
    if s == "" then 0 else 16 * Hex(s[..|s| - 1]) + HexValue(s[|s| - 1])
  }

  // ----- IPv4 -----

  /** A decimal number up to 255 without leading zeros. */
  predicate IsOctet(s: string) {
    s != "" && AllDigits(s) && (|s| > 1 ==> s[0] != '0') && Decimal(s) <= 255
  }

  predicate IsIPv4(s: string) {
    var fields := Split(s, '.');
    |fields| == 4 && forall i :: 0 <= i < 4 ==> IsOctet(fields[i])
  }

  function IPv4Octets(s: string): (octets: seq<nat>)
    requires IsIPv4(s)
    ensures |octets| == 4
  {
    var fields := Split(s, '.');
    [Decimal(fields[0]), Decimal(fields[1]), Decimal(fields[2]), Decimal(fields[3])]
  }

  // ----- IPv6 -----

  predicate IsGroup(s: string) {
    1 <= |s| <= 4 && AllHex(s)
  }

  function HexGroups(fields: seq<string>): Option<seq<nat>> {
    if fields == [] then Some([])
    else if !IsGroup(fields[0]) then None
    else match HexGroups(fields[1..])
         case None => None
         case Some(rest) => Some([Hex(fields[0])] + rest)
  }

  /** Groups of which the last may be written as an IPv4 address, standing for two. */
  function Groups(fields: seq<string>): Option<seq<nat>>
    requires fields != []
  {
    var n := |fields| - 1;
    if IsIPv4(fields[n]) then
      var octets := IPv4Octets(fields[n]);
      match HexGroups(fields[..n])
      case None => None
      case Some(groups) => Some(groups + [256 * octets[0] + octets[1], 256 * octets[2] + octets[3]])
    else HexGroups(fields)
  }

  /** The position of the first "::", or the length of the text. */
  function EllipsisAt(s: string): (k: nat)
    ensures k <= |s|
    ensures k < |s| ==> k + 2 <= |s| && s[k] == ':' && s[k + 1] == ':'
  {
    if s == "" then 0
    else if HasPrefix(s, "::") then
      assert s[0] == "::"[0] && s[1] == "::"[1];
      0
    else 1 + EllipsisAt(s[1..])
  }

  function Zeros(n: nat): seq<nat> {
    seq(n, _ => 0)
  }

  /** The groups before "::", which may be none. */
  function LeftGroups(s: string): Option<seq<nat>> {
    if s == "" then Some([]) else HexGroups(Split(s, ':'))
  }

  /** The groups after "::", which may be none. */
  function RightGroups(s: string): Option<seq<nat>> {
    if s == "" then Some([]) else Groups(Split(s, ':'))
  }

  /** Groups around "::", which stands for at least one group of zeros. */
  function Expanded(before: Option<seq<nat>>, after: Option<seq<nat>>): Option<seq<nat>> {
    match before
    case None => None
    case Some(left) =>
      match after
      case None => None
      case Some(right) =>
        if |left| + |right| <= 7 then Some(left + Zeros(8 - |left| - |right|) + right) else None
  }

  /** Eight groups without "::". */
  function FullGroups(s: string): Option<seq<nat>> {
    match Groups(Split(s, ':'))
    case None => None
    case Some(groups) => if |groups| == 8 then Some(groups) else None
  }

  function ShortGroups(left: string, right: string): Option<seq<nat>> {
    Expanded(LeftGroups(left), RightGroups(right))
  }

  function IPv6Groups(s: string): Option<seq<nat>> {
    var k := EllipsisAt(s);
    if k == |s| then FullGroups(s) else ShortGroups(s[..k], s[k + 2..])
  }

  // ----- Addresses and blocks -----

  function ParseIP(s: string): Option<Addr> {
    if IsIPv4(s) then Some(V4(IPv4Octets(s)))
    else match IPv6Groups(s)
         case None => None
         case Some(groups) => Some(V6(groups))
  }

  datatype Block = Block(addr: Addr, prefixLength: nat)

  function ParseCIDR(s: string): Option<Block> {
    var fields := Split(s, '/');
    if |fields| != 2 then None
    else match ParseIP(fields[0])
         case None => None
         case Some(addr) =>
           if fields[1] != "" && AllDigits(fields[1]) && Decimal(fields[1]) <= addr.BitLen()
           then Some(Block(addr, Decimal(fields[1])))
           else None
  }

  // ----- The characters of addresses -----

  predicate IsAddrChar(c: char) {
    IsHexDigit(c) || c == '.' || c == ':'
  }

  predicate AddrText(s: string) {
    forall i :: 0 <= i < |s| ==> IsAddrChar(s[i])
  }

  lemma {:induction false} JoinAddrText(fields: seq<string>, sep: char)
    requires IsAddrChar(sep) && forall i :: 0 <= i < |fields| ==> AddrText(fields[i])
    ensures AddrText(Join(fields, sep))
  {
    if |fields| <= 1 {
    } else {
      JoinAddrText(fields[1..], sep);
    }
  }

  lemma SplitAddrText(s: string, sep: char)
    requires IsAddrChar(sep) && forall i :: 0 <= i < |Split(s, sep)| ==> AddrText(Split(s, sep)[i])
    ensures AddrText(s)
  {
    JoinSplit(s, sep);
    JoinAddrText(Split(s, sep), sep);
  }

  lemma IPv4Text(s: string)
    requires IsIPv4(s)
    ensures AddrText(s) && s != ""
  {
    SplitAddrText(s, '.');
  }

  lemma {:induction false} HexGroupsText(fields: seq<string>)
    requires HexGroups(fields).Some?
    ensures forall i :: 0 <= i < |fields| ==> AddrText(fields[i])
    ensures |HexGroups(fields).value| == |fields|
  {
    if fields == [] {
    } else {
      HexGroupsText(fields[1..]);
      assert fields == [fields[0]] + fields[1..];
    }
  }

  lemma GroupsText(s: string)
    requires Groups(Split(s, ':')).Some?
    ensures AddrText(s)
  {
    var fields := Split(s, ':');
    var n := |fields| - 1;
    if IsIPv4(fields[n]) {
      IPv4Text(fields[n]);
      HexGroupsText(fields[..n]);
      forall i | 0 <= i < |fields| ensures AddrText(fields[i]) {
        assert i < n ==> fields[i] == fields[..n][i];
      }
    } else {
      HexGroupsText(fields);
    }
    SplitAddrText(s, ':');
  }

  lemma IPv6Text(s: string)
    requires IPv6Groups(s).Some?
    ensures AddrText(s) && s != ""
    ensures |IPv6Groups(s).value| == 8
  {
    var k := EllipsisAt(s);
    if k == |s| {
      GroupsText(s);
    } else {
      var left, right := s[..k], s[k + 2..];
      if left != "" {
        HexGroupsText(Split(left, ':'));
        SplitAddrText(left, ':');
      }
      if right != "" {
        GroupsText(right);
      }
      forall i | 0 <= i < |s| ensures IsAddrChar(s[i]) {
        if i < k {
          assert s[i] == left[i];
        } else if i >= k + 2 {
          assert s[i] == right[i - k - 2];
        }
      }
    }
  }

  /** Address text is non-empty and made of hexadecimal digits, dots and colons. */
  lemma AddressText(s: string)
    requires ParseIP(s).Some?
    ensures AddrText(s) && s != ""
  {
    if IsIPv4(s) {
      IPv4Text(s);
    } else {
      IPv6Text(s);
    }
  }

  lemma BlockText(s: string)
    requires ParseCIDR(s).Some?
    ensures s != "" && forall i :: 0 <= i < |s| ==> IsAddrChar(s[i]) || s[i] == '/'
  {
    var fields := Split(s, '/');
    AddressText(fields[0]);
    JoinSplit(s, '/');
    assert fields == [fields[0], fields[1]];
    assert fields[1..] == [fields[1]];
    assert s == fields[0] + "/" + fields[1];
  }

  /** An address followed by a slash and a length within its width is a block. */
  lemma AppendLength(s: string, digits: string)
    requires ParseIP(s).Some? && digits != "" && AllDigits(digits)
    ensures ParseCIDR(s + "/" + digits) ==
              if Decimal(digits) <= ParseIP(s).value.BitLen()
              then Some(Block(ParseIP(s).value, Decimal(digits))) else None
  {
    AddressText(s);
    SplitWithoutSeparator(s, '/');
    SplitAppend(s, digits, '/');
    assert Split(s + "/" + digits, '/') == [s, digits];
  }

  // ----- IPv4-mapped text -----

  lemma {:induction false} JoinAvoids(fields: seq<string>, sep: char, c: char)
    requires c != sep && forall i :: 0 <= i < |fields| ==> c !in fields[i]
    ensures c !in Join(fields, sep)
  {
    if |fields| <= 1 {
    } else {
      JoinAvoids(fields[1..], sep, c);
    }
  }

  lemma IPv4HasNoColon(s: string)
    requires IsIPv4(s)
    ensures ':' !in s
  {
    var fields := Split(s, '.');
    forall i | 0 <= i < |fields| ensures ':' !in fields[i] {
      assert IsOctet(fields[i]);
      assert !IsDigit(':');
    }
    JoinAvoids(fields, '.', ':');
    JoinSplit(s, '.');
  }

  lemma AllOnesGroup()
    ensures IsGroup("ffff") && HexGroups(["ffff"]) == Some([0xffff])
  {
    assert "ffff"[..3] == "fff" && "fff"[..2] == "ff" && "ff"[..1] == "f" && "f"[..0] == "";
    assert Hex("f") == 15;
    assert Hex("ff") == 255;
    assert Hex("fff") == 4095;
    assert Hex("ffff") == 0xffff;
    assert ["ffff"][1..] == [] && [0xffff] + [] == [0xffff];
  }

  lemma MappedTail(v4: string)
    requires IsIPv4(v4)
    ensures Groups(Split("ffff:" + v4, ':')).Some?
    ensures var groups := Groups(Split("ffff:" + v4, ':')).value; |groups| == 3 && groups[0] == 0xffff
  {
    IPv4HasNoColon(v4);
    SplitWithoutSeparator("ffff", ':');
    SplitAppend("ffff", v4, ':');
    assert "ffff" + ":" + v4 == "ffff:" + v4;
    var fields := ["ffff", v4];
    assert fields[..1] == ["ffff"];
    AllOnesGroup();
  }

  lemma LeadingColonNotIPv4(s: string)
    requires s != "" && s[0] == ':'
    ensures !IsIPv4(s)
  {
  }

  /** "::ffff:" before an IPv4 address spells the IPv6 address that carries it. */
  lemma MappedAddress(v4: string)
    requires IsIPv4(v4)
    ensures var ip := ParseIP("::ffff:" + v4); ip.Some? && ip.value.IsMapped()
  {
    var s := "::ffff:" + v4;
    LeadingColonNotIPv4(s);
    MappedTail(v4);
    assert s[..2] == "::" && s[2..] == "ffff:" + v4;
    var groups := Groups(Split(s[2..], ':')).value;
    assert IPv6Groups(s) == Some([] + Zeros(5) + groups);
    assert ([] + Zeros(5) + groups)[..6] == [0, 0, 0, 0, 0, 0xffff];
  }
}
