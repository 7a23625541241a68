/**
  Which texts are addresses and blocks, and which address each one spells: the
  parsers of NetAddr against numerals and joined fields.
*/
module AddressForms {
  import opened GoStrings
  import opened Wrappers
  import opened NetAddr

  function Repeat(c: char, n: nat): string {
    seq(n, _ => c)
  }

  // ----- Decimal numerals -----

  const DIGITS := "0123456789"

  /** The decimal numeral of n, without leading zeros. */
  function Numeral(n: nat): string {
    if n < 10 then [DIGITS[n]] else Numeral(n / 10) + [DIGITS[n % 10]]
  }

  lemma DigitNumeral(d: nat)
    requires d < 10
    ensures IsDigit(DIGITS[d]) && DIGITS[d] as nat - '0' as nat == d
  {
  }

  lemma {:induction false} NumeralValue(n: nat)
    ensures Numeral(n) != "" && AllDigits(Numeral(n)) && Decimal(Numeral(n)) == n
    ensures n > 0 ==> Numeral(n)[0] != '0'
    ensures n < 10 <==> |Numeral(n)| == 1
  {
    DigitNumeral(n % 10);
    if n < 10 {
      assert Numeral(n)[..0] == "";
    } else {
      NumeralValue(n / 10);
      var s := Numeral(n);
      assert s[..|s| - 1] == Numeral(n / 10);
    }
  }

  lemma DecimalStep(front: string, c: char)
    requires AllDigits(front) && IsDigit(c)
    ensures AllDigits(front + [c]) && Decimal(front + [c]) == 10 * Decimal(front) + (c as nat - '0' as nat)
    ensures [c] == Numeral(c as nat - '0' as nat)
  {
    assert (front + [c])[..|front|] == front;
    DigitNumeral(c as nat - '0' as nat);
  }

  lemma NumeralStep(n: nat, d: nat)
    requires n > 0 && d < 10
    ensures Numeral(10 * n + d) == Numeral(n) + Numeral(d)
  {
    assert (10 * n + d) / 10 == n && (10 * n + d) % 10 == d;
  }

  lemma ValueStep(front: string, c: char)
    requires AllDigits(front) && IsDigit(c) && Decimal(front) > 0 && front == Numeral(Decimal(front))
    ensures AllDigits(front + [c]) && front + [c] == Numeral(Decimal(front + [c]))
  {
    DecimalStep(front, c);
    NumeralStep(Decimal(front), c as nat - '0' as nat);
  }

  lemma {:induction false} PositiveValue(s: string)
    requires s != "" && AllDigits(s) && s[0] != '0'
    ensures Decimal(s) > 0
  {
    if |s| == 1 {
      assert s[..0] == "";
    } else {
      PositiveValue(s[..|s| - 1]);
    }
  }

  /** Digits without a leading zero are the numeral of their value. */
  lemma {:induction false} ValueNumeral(s: string)
    requires s != "" && AllDigits(s) && (|s| > 1 ==> s[0] != '0')
    ensures s == Numeral(Decimal(s))
  {
    var n := |s| - 1;
    assert s == s[..n] + [s[n]];
    if n == 0 {
      DecimalStep("", s[0]);
      assert "" + [s[0]] == s;
    } else {
      ValueNumeral(s[..n]);
      PositiveValue(s[..n]);
      ValueStep(s[..n], s[n]);
    }
  }

  /** An octet is the numeral of a number up to 255. */
  lemma OctetExactly(s: string)
    ensures IsOctet(s) <==> exists n: nat :: n <= 255 && s == Numeral(n)
    ensures forall n: nat :: s == Numeral(n) ==> AllDigits(s) && Decimal(s) == n
  {
    forall n: nat | s == Numeral(n) ensures AllDigits(s) && Decimal(s) == n && (n <= 255 ==> IsOctet(s)) {
      NumeralValue(n);
    }
    if IsOctet(s) {
      ValueNumeral(s);
    }
  }

  /** A run of digits is a numeral with zeros in front. */
  lemma {:induction false} DigitsExactly(s: string, n: nat)
    ensures s != "" && AllDigits(s) && Decimal(s) == n <==> exists z: nat :: s == Repeat('0', z) + Numeral(n)
  {
    if s != "" && AllDigits(s) && Decimal(s) == n {
      var z := LeadingZeros(s);
      assert s == Repeat('0', z) + Numeral(n);
    }
    forall z: nat | s == Repeat('0', z) + Numeral(n) ensures s != "" && AllDigits(s) && Decimal(s) == n {
      NumeralValue(n);
      PaddedDecimal(z, Numeral(n));
    }
  }

  lemma {:induction false} PaddedDecimal(z: nat, s: string)
    requires AllDigits(s)
    ensures AllDigits(Repeat('0', z) + s) && Decimal(Repeat('0', z) + s) == Decimal(s)
    decreases |s|
  {
    var padded := Repeat('0', z) + s;
    if s == "" {
      ZerosDecimal(z);
      assert padded == Repeat('0', z);
    } else {
      PaddedDecimal(z, s[..|s| - 1]);
      assert padded[..|padded| - 1] == Repeat('0', z) + s[..|s| - 1];
    }
  }

  lemma {:induction false} ZerosDecimal(z: nat)
    ensures AllDigits(Repeat('0', z)) && Decimal(Repeat('0', z)) == 0
  {
    if z == 0 {
    } else {
      ZerosDecimal(z - 1);
      assert Repeat('0', z)[..z - 1] == Repeat('0', z - 1);
    }
  }

  lemma {:induction false} LeadingZeros(s: string) returns (z: nat)
    requires s != "" && AllDigits(s)
    ensures s == Repeat('0', z) + Numeral(Decimal(s))
  {
    if |s| == 1 || s[0] != '0' {
      z := 0;
      ValueNumeral(s);
      assert Repeat('0', 0) + s == s;
    } else {
      z := LeadingZeros(s[1..]);
      assert s == Repeat('0', 1) + s[1..];
      PaddedDecimal(1, s[1..]);
      assert Repeat('0', 1) + Repeat('0', z) == Repeat('0', z + 1);
      z := z + 1;
    }
  }

  // ----- IPv4 -----

  ghost predicate AreOctets(a: nat, b: nat, c: nat, d: nat) {
    a <= 255 && b <= 255 && c <= 255 && d <= 255
  }

  function Dotted(a: nat, b: nat, c: nat, d: nat): string {
    Numeral(a) + "." + Numeral(b) + "." + Numeral(c) + "." + Numeral(d)
  }

  lemma NumeralPlain(n: nat, c: char)
    requires !IsDigit(c)
    ensures c !in Numeral(n)
  {
    NumeralValue(n);
  }

  lemma DottedFields(a: nat, b: nat, c: nat, d: nat)
    ensures Split(Dotted(a, b, c, d), '.') == [Numeral(a), Numeral(b), Numeral(c), Numeral(d)]
  {
    NumeralPlain(a, '.');
    NumeralPlain(b, '.');
    NumeralPlain(c, '.');
    NumeralPlain(d, '.');
    SplitWithoutSeparator(Numeral(a), '.');
    SplitAppend(Numeral(a), Numeral(b), '.');
    SplitAppend(Numeral(a) + "." + Numeral(b), Numeral(c), '.');
    SplitAppend(Numeral(a) + "." + Numeral(b) + "." + Numeral(c), Numeral(d), '.');
  }

  lemma DottedParsed(a: nat, b: nat, c: nat, d: nat)
    requires AreOctets(a, b, c, d)
    ensures IsIPv4(Dotted(a, b, c, d)) && IPv4Octets(Dotted(a, b, c, d)) == [a, b, c, d]
  {
    DottedFields(a, b, c, d);
    OctetExactly(Numeral(a));
    OctetExactly(Numeral(b));
    OctetExactly(Numeral(c));
    OctetExactly(Numeral(d));
  }

  lemma FourJoined(a: string, b: string, c: string, d: string)
    ensures Join([a, b, c, d], '.') == a + "." + b + "." + c + "." + d
  {
    JoinAppend([a], b, '.');
    JoinAppend([a, b], c, '.');
    JoinAppend([a, b, c], d, '.');
    assert [a] + [b] == [a, b] && [a, b] + [c] == [a, b, c] && [a, b, c] + [d] == [a, b, c, d];
  }

  lemma IPv4Dotted(s: string) returns (a: nat, b: nat, c: nat, d: nat)
    requires IsIPv4(s)
    ensures AreOctets(a, b, c, d) && s == Dotted(a, b, c, d)
  {
    var fields := Split(s, '.');
    OctetExactly(fields[0]);
    OctetExactly(fields[1]);
    OctetExactly(fields[2]);
    OctetExactly(fields[3]);
    a, b, c, d := Decimal(fields[0]), Decimal(fields[1]), Decimal(fields[2]), Decimal(fields[3]);
    JoinSplit(s, '.');
    FourJoined(fields[0], fields[1], fields[2], fields[3]);
    assert fields == [fields[0], fields[1], fields[2], fields[3]];
  }

  /** Four numerals up to 255 with dots between them. */
  ghost predicate SpellsIPv4(s: string, octets: seq<nat>) {
    |octets| == 4 && AreOctets(octets[0], octets[1], octets[2], octets[3])
    && s == Dotted(octets[0], octets[1], octets[2], octets[3])
  }

  /** A text is an IPv4 address if and only if it is spelled that way, by the octets it stands for. */
  lemma IPv4Exactly(s: string, octets: seq<nat>)
    ensures IsIPv4(s) && IPv4Octets(s) == octets <==> SpellsIPv4(s, octets)
    ensures ParseIP(s) == Some(V4(octets)) <==> SpellsIPv4(s, octets)
  {
    if IsIPv4(s) {
      var a, b, c, d := IPv4Dotted(s);
      DottedParsed(a, b, c, d);
    }
    if SpellsIPv4(s, octets) {
      DottedParsed(octets[0], octets[1], octets[2], octets[3]);
      assert octets == [octets[0], octets[1], octets[2], octets[3]];
    }
  }

  // ----- Hexadecimal groups -----

  const HEX_DIGITS := "0123456789abcdef"

  /** The hexadecimal numeral of n in lower case, without leading zeros. */
  function HexNumeral(n: nat): string {
    if n < 16 then [HEX_DIGITS[n]] else HexNumeral(n / 16) + [HEX_DIGITS[n % 16]]
  }

  function LowerChar(c: char): char {
    if 'A' <= c <= 'F' then (c as int - 'A' as int + 'a' as int) as char else c
  }

  function Lower(s: string): (lower: string)
    ensures |lower| == |s| && forall i :: 0 <= i < |s| ==> lower[i] == LowerChar(s[i])
  {
    seq(|s|, i requires 0 <= i < |s| => LowerChar(s[i]))
  }

  /** One to four hexadecimal digits, in either case: the numeral of n with zeros in front. */
  ghost predicate SpellsGroup(s: string, n: nat) {
    1 <= |s| <= 4 && exists z: nat :: Lower(s) == Repeat('0', z) + HexNumeral(n)
  }

  lemma HexDigitNumeral(d: nat)
    requires d < 16
    ensures IsHexDigit(HEX_DIGITS[d]) && HexValue(HEX_DIGITS[d]) == d && LowerChar(HEX_DIGITS[d]) == HEX_DIGITS[d]
  {
  }

  lemma LowerDigit(c: char)
    ensures IsHexDigit(LowerChar(c)) <==> IsHexDigit(c)
    ensures IsHexDigit(c) ==>
              HexValue(LowerChar(c)) == HexValue(c) < 16 && LowerChar(c) == HEX_DIGITS[HexValue(c)]
  {
  }

  lemma {:induction false} LowerHex(s: string)
    ensures AllHex(Lower(s)) <==> AllHex(s)
    ensures AllHex(s) ==> Hex(Lower(s)) == Hex(s)
  {
    if s == "" {
    } else {
      var n := |s| - 1;
      LowerHex(s[..n]);
      LowerDigit(s[n]);
      assert Lower(s)[..n] == Lower(s[..n]);
      assert s == s[..n] + [s[n]] && Lower(s) == Lower(s[..n]) + [LowerChar(s[n])];
    }
  }

  lemma {:induction false} HexNumeralValue(n: nat)
    ensures HexNumeral(n) != "" && AllHex(HexNumeral(n)) && Hex(HexNumeral(n)) == n
    ensures n > 0 ==> HexNumeral(n)[0] != '0'
  {
    HexDigitNumeral(n % 16);
    if n < 16 {
      assert HexNumeral(n)[..0] == "";
      HexDigitNumeral(0);
    } else {
      HexNumeralValue(n / 16);
      var s := HexNumeral(n);
      assert s[..|s| - 1] == HexNumeral(n / 16);
    }
  }

  lemma HexStep(front: string, c: char)
    requires AllHex(front) && IsHexDigit(c)
    ensures AllHex(front + [c]) && Hex(front + [c]) == 16 * Hex(front) + HexValue(c)
    ensures LowerChar(c) == c ==> HexValue(c) < 16 && [c] == HexNumeral(HexValue(c))
  {
    assert (front + [c])[..|front|] == front;
    LowerDigit(c);
  }

  lemma HexNumeralAppend(n: nat, c: char)
    requires n > 0 && IsHexDigit(c) && LowerChar(c) == c
    ensures HexNumeral(16 * n + HexValue(c)) == HexNumeral(n) + [c]
  {
    var d := HexValue(c);
    LowerDigit(c);
    assert (16 * n + d) / 16 == n && (16 * n + d) % 16 == d;
  }

  lemma HexValueStep(front: string, c: char)
    requires AllHex(front) && IsHexDigit(c) && LowerChar(c) == c
    requires Hex(front) > 0 && front == HexNumeral(Hex(front))
    ensures AllHex(front + [c]) && front + [c] == HexNumeral(Hex(front + [c]))
  {
    HexStep(front, c);
    HexNumeralAppend(Hex(front), c);
  }

  lemma {:induction false} PositiveHex(s: string)
    requires s != "" && AllHex(s) && s[0] != '0'
    ensures Hex(s) > 0
  {
    if |s| == 1 {
      assert s[..0] == "";
    } else {
      PositiveHex(s[..|s| - 1]);
    }
  }

  /** Lower-case text without leading zeros is the numeral of its value. */
  lemma {:induction false} HexValueNumeral(s: string)
    requires s != "" && AllHex(s) && Lower(s) == s && (|s| > 1 ==> s[0] != '0')
    ensures s == HexNumeral(Hex(s))
  {
    var n := |s| - 1;
    assert s == s[..n] + [s[n]];
    assert LowerChar(s[n]) == Lower(s)[n] == s[n];
    if n == 0 {
      HexStep("", s[0]);
      assert "" + [s[0]] == s;
    } else {
      LowerPart(s, 0, n);
      HexValueNumeral(s[..n]);
      PositiveHex(s[..n]);
      HexValueStep(s[..n], s[n]);
    }
  }

  lemma LowerPart(s: string, i: nat, j: nat)
    requires Lower(s) == s && i <= j <= |s|
    ensures Lower(s[i..j]) == s[i..j]
    ensures i == 0 ==> s[i..j] == s[..j]
    ensures j == |s| ==> s[i..j] == s[i..]
  {
    forall k | 0 <= k < j - i ensures Lower(s[i..j])[k] == s[i..j][k] {
      assert Lower(s)[i + k] == s[i + k];
    }
  }

  lemma {:induction false} PaddedHex(z: nat, s: string)
    requires AllHex(s)
    ensures AllHex(Repeat('0', z) + s) && Hex(Repeat('0', z) + s) == Hex(s)
    decreases z + |s|
  {
    var padded := Repeat('0', z) + s;
    if s != "" {
      PaddedHex(z, s[..|s| - 1]);
      assert padded[..|padded| - 1] == Repeat('0', z) + s[..|s| - 1];
    } else if z == 0 {
      assert padded == "";
    } else {
      PaddedHex(z - 1, "");
      assert padded[..z - 1] == Repeat('0', z - 1) + "";
    }
  }

  lemma {:induction false} HexLeadingZeros(s: string) returns (z: nat)
    requires s != "" && AllHex(s) && Lower(s) == s
    ensures s == Repeat('0', z) + HexNumeral(Hex(s))
  {
    if |s| == 1 || s[0] != '0' {
      z := 0;
      HexValueNumeral(s);
      assert Repeat('0', 0) + s == s;
    } else {
      LowerPart(s, 1, |s|);
      z := HexLeadingZeros(s[1..]);
      ZeroFront(s);
      ZerosJoin(z, HexNumeral(Hex(s[1..])));
      z := z + 1;
    }
  }

  lemma ZeroFront(s: string)
    requires s != "" && AllHex(s) && s[0] == '0'
    ensures s == Repeat('0', 1) + s[1..] && Hex(s) == Hex(s[1..])
  {
    assert s == Repeat('0', 1) + s[1..];
    PaddedHex(1, s[1..]);
  }

  lemma ZerosJoin(z: nat, s: string)
    ensures Repeat('0', 1) + (Repeat('0', z) + s) == Repeat('0', z + 1) + s
  {
  }

  lemma LowerTwice(s: string)
    ensures Lower(Lower(s)) == Lower(s)
  {
  }

  /** A group is a hexadecimal numeral of at most four digits, in either case, with zeros in front. */
  lemma GroupExactly(s: string, n: nat)
    ensures IsGroup(s) && Hex(s) == n <==> SpellsGroup(s, n)
  {
    LowerHex(s);
    LowerTwice(s);
    if IsGroup(s) && Hex(s) == n {
      var z := HexLeadingZeros(Lower(s));
      assert Lower(s) == Repeat('0', z) + HexNumeral(n);
    }
    if SpellsGroup(s, n) {
      var z: nat :| Lower(s) == Repeat('0', z) + HexNumeral(n);
      HexNumeralValue(n);
      PaddedHex(z, HexNumeral(n));
    }
  }

  // ----- IPv6 -----

  /** Fields that spell these groups, one each. */
  ghost predicate SpellsGroups(fields: seq<string>, groups: seq<nat>) {
    |fields| == |groups| && forall i :: 0 <= i < |fields| ==> SpellsGroup(fields[i], groups[i])
  }

  /** The two groups that four octets make. */
  function TwoGroups(octets: seq<nat>): seq<nat>
    requires |octets| == 4
  {
    [256 * octets[0] + octets[1], 256 * octets[2] + octets[3]]
  }

  /** Fields that spell these groups, of which the last field may be an IPv4 address and spell two. */
  ghost predicate SpellsTail(fields: seq<string>, groups: seq<nat>) {
    || SpellsGroups(fields, groups)
    || exists front, v4, before, octets ::
         && SpellsGroups(front, before) && SpellsIPv4(v4, octets)
         && fields == front + [v4] && groups == before + TwoGroups(octets)
  }

  /** Eight groups. */
  ghost predicate SpellsFull(s: string, groups: seq<nat>) {
    |groups| == 8 && exists fields :: SpellsTail(fields, groups) && s == Join(fields, ':')
  }

  /** At most seven groups around "::", which stands for the zeros that are missing to eight. */
  ghost predicate SpellsShort(s: string, groups: seq<nat>) {
    exists left, before, right, after :: AreShort(s, groups, left, before, right, after)
  }

  /** Such fields around "::" spell these groups. */
  ghost predicate AreShort(s: string, groups: seq<nat>,
                           left: seq<string>, before: seq<nat>, right: seq<string>, after: seq<nat>) {
    && SpellsGroups(left, before) && SpellsTail(right, after) && |before| + |after| <= 7
    && s == Join(left, ':') + "::" + Join(right, ':')
    && groups == before + Zeros(8 - |before| - |after|) + after
  }

  lemma {:induction false} HexGroupsExactly(fields: seq<string>, groups: seq<nat>)
    ensures HexGroups(fields) == Some(groups) <==> SpellsGroups(fields, groups)
  {
    if fields == [] {
    } else {
      if HexGroups(fields) == Some(groups) {
        HexGroupsExactly(fields[1..], groups[1..]);
        GroupExactly(fields[0], groups[0]);
      }
      if SpellsGroups(fields, groups) {
        HexGroupsExactly(fields[1..], groups[1..]);
        GroupExactly(fields[0], groups[0]);
        assert groups == [groups[0]] + groups[1..];
      }
    }
  }

  lemma HasDot(xs: seq<string>)
    requires |xs| > 1
    ensures '.' in Join(xs, '.')
  {
  }

  /** An IPv4 address has dots, so it is no group. */
  lemma IPv4NotGroup(s: string)
    requires IsIPv4(s)
    ensures !IsGroup(s)
  {
    JoinSplit(s, '.');
    HasDot(Split(s, '.'));
    assert !IsHexDigit('.');
  }

  lemma TailSpelled(front: seq<string>, v4: string, before: seq<nat>, octets: seq<nat>)
    requires SpellsGroups(front, before) && SpellsIPv4(v4, octets)
    ensures Groups(front + [v4]) == Some(before + TwoGroups(octets))
  {
    IPv4Exactly(v4, octets);
    HexGroupsExactly(front, before);
    LastField(front, v4);
  }

  lemma LastField(front: seq<string>, v4: string)
    requires IsIPv4(v4)
    ensures Groups(front + [v4]) ==
              match HexGroups(front)
              case None => None
              case Some(groups) => Some(groups + TwoGroups(IPv4Octets(v4)))
  {
    var fields := front + [v4];
    assert fields[..|fields| - 1] == front && fields[|fields| - 1] == v4;
  }

  /** A group has no dots, so it is no IPv4 address. */
  lemma LastGroup(fields: seq<string>, groups: seq<nat>)
    requires fields != [] && SpellsGroups(fields, groups)
    ensures !IsIPv4(fields[|fields| - 1])
  {
    var n := |fields| - 1;
    GroupExactly(fields[n], groups[n]);
    if IsIPv4(fields[n]) {
      IPv4NotGroup(fields[n]);
    }
  }

  lemma SpelledGroups(fields: seq<string>, groups: seq<nat>)
    requires fields != [] && SpellsTail(fields, groups)
    ensures Groups(fields) == Some(groups)
  {
    if SpellsGroups(fields, groups) {
      LastGroup(fields, groups);
      HexGroupsExactly(fields, groups);
    } else {
      var front, v4, before, octets :|
        && SpellsGroups(front, before) && SpellsIPv4(v4, octets)
        && fields == front + [v4] && groups == before + TwoGroups(octets);
      TailSpelled(front, v4, before, octets);
    }
  }

  lemma GroupsSpelled(fields: seq<string>, groups: seq<nat>)
    requires fields != [] && Groups(fields) == Some(groups)
    ensures SpellsTail(fields, groups)
  {
    var n := |fields| - 1;
    if IsIPv4(fields[n]) {
      assert fields == fields[..n] + [fields[n]];
      LastField(fields[..n], fields[n]);
      IPv4Exactly(fields[n], IPv4Octets(fields[n]));
      HexGroupsExactly(fields[..n], HexGroups(fields[..n]).value);
    } else {
      HexGroupsExactly(fields, groups);
    }
  }

  /** Fields are read as the groups that they spell, and as no others. */
  lemma GroupsExactly(fields: seq<string>, groups: seq<nat>)
    requires fields != []
    ensures Groups(fields) == Some(groups) <==> SpellsTail(fields, groups)
  {
    if Groups(fields) == Some(groups) {
      GroupsSpelled(fields, groups);
    }
    if SpellsTail(fields, groups) {
      SpelledGroups(fields, groups);
    }
  }

  // ----- Colons -----

  /** Non-empty, without a colon. */
  ghost predicate ColonFree(field: string) {
    field != "" && ':' !in field
  }

  lemma GroupColonFree(s: string, n: nat)
    requires SpellsGroup(s, n)
    ensures ColonFree(s)
  {
    GroupExactly(s, n);
    assert !IsHexDigit(':');
  }

  lemma TailColonFree(fields: seq<string>, groups: seq<nat>)
    requires SpellsTail(fields, groups)
    ensures forall i :: 0 <= i < |fields| ==> ColonFree(fields[i])
    ensures |fields| <= |groups| <= |fields| + 1
    ensures fields == [] ==> groups == []
  {
    if SpellsGroups(fields, groups) {
      forall i | 0 <= i < |fields| ensures ColonFree(fields[i]) {
        GroupColonFree(fields[i], groups[i]);
      }
    } else {
      var front, v4, before, octets :|
        && SpellsGroups(front, before) && SpellsIPv4(v4, octets)
        && fields == front + [v4] && groups == before + TwoGroups(octets);
      forall i | 0 <= i < |front| ensures ColonFree(front[i]) {
        GroupColonFree(front[i], before[i]);
      }
      IPv4Exactly(v4, octets);
      IPv4HasNoColon(v4);
      IPv4Text(v4);
    }
  }

  /** No two colons in a row, and none at either end. */
  ghost predicate SingleColons(s: string) {
    && (forall i :: 0 <= i < |s| - 1 ==> !(s[i] == ':' && s[i + 1] == ':'))
    && (s != "" ==> s[0] != ':' && s[|s| - 1] != ':')
  }

  lemma {:induction false} JoinedColons(fields: seq<string>)
    requires forall i :: 0 <= i < |fields| ==> ColonFree(fields[i])
    ensures SingleColons(Join(fields, ':'))
    ensures fields != [] ==> Join(fields, ':') != ""
    ensures |fields| > 1 ==> ':' in Join(fields, ':')
  {
    if |fields| == 0 {
    } else if |fields| == 1 {
      assert ColonFree(fields[0]);
    } else {
      JoinedColons(fields[1..]);
      assert ColonFree(fields[0]);
      ColonsMeet(fields[0], Join(fields[1..], ':'));
    }
  }

  lemma ColonsMeet(a: string, b: string)
    requires ColonFree(a) && SingleColons(b) && b != ""
    ensures SingleColons(a + [':'] + b) && ':' in a + [':'] + b
  {
    var s := a + [':'] + b;
    assert s[|a|] == ':';
    forall i | 0 <= i < |s| - 1 ensures !(s[i] == ':' && s[i + 1] == ':') {
      if i > |a| {
        assert s[i] == b[i - |a| - 1] && s[i + 1] == b[i - |a|];
      }
    }
  }

  lemma BeginsWithColons(s: string)
    ensures HasPrefix(s, "::") ==> |s| >= 2 && s[0] == ':' && s[1] == ':'
  {
    if HasPrefix(s, "::") {
      assert s[..2] == "::";
      assert s[0] == s[..2][0] && s[1] == s[..2][1];
    }
  }

  /** The first "::" is where two colons first stand in a row. */
  lemma {:induction false} NoEllipsis(s: string)
    requires forall i :: 0 <= i < |s| - 1 ==> !(s[i] == ':' && s[i + 1] == ':')
    ensures EllipsisAt(s) == |s|
  {
    if s == "" {
    } else {
      BeginsWithColons(s);
      forall i | 0 <= i < |s[1..]| - 1 ensures !(s[1..][i] == ':' && s[1..][i + 1] == ':') {
        assert s[1..][i] == s[i + 1] && s[1..][i + 1] == s[i + 2];
      }
      NoEllipsis(s[1..]);
    }
  }

  lemma {:induction false} FirstEllipsis(a: string, b: string)
    requires forall i :: 0 <= i < |a| - 1 ==> !(a[i] == ':' && a[i + 1] == ':')
    requires a != "" ==> a[|a| - 1] != ':'
    ensures EllipsisAt(a + "::" + b) == |a|
  {
    var s := a + "::" + b;
    if a == "" {
      assert s[..2] == "::";
    } else {
      BeginsWithColons(s);
      assert |a| > 1 ==> s[1] == a[1];
      forall i | 0 <= i < |a[1..]| - 1 ensures !(a[1..][i] == ':' && a[1..][i + 1] == ':') {
        assert a[1..][i] == a[i + 1] && a[1..][i + 1] == a[i + 2];
      }
      FirstEllipsis(a[1..], b);
      assert s[1..] == a[1..] + "::" + b;
    }
  }

  // ----- IPv6 texts -----

  lemma FieldsOf(fields: seq<string>, groups: seq<nat>)
    requires SpellsTail(fields, groups) && fields != []
    ensures Split(Join(fields, ':'), ':') == fields && Groups(fields) == Some(groups)
  {
    TailColonFree(fields, groups);
    forall i | 0 <= i < |fields| ensures ':' !in fields[i] {
      assert ColonFree(fields[i]);
    }
    SplitJoin(fields, ':');
    GroupsExactly(fields, groups);
  }

  lemma FullParsed(s: string, groups: seq<nat>)
    requires SpellsFull(s, groups)
    ensures IPv6Groups(s) == Some(groups) && ':' in s
  {
    var fields :| SpellsTail(fields, groups) && s == Join(fields, ':');
    TailColonFree(fields, groups);
    JoinedColons(fields);
    NoEllipsis(s);
    FieldsOf(fields, groups);
  }

  lemma FullSpelled(s: string, groups: seq<nat>)
    requires EllipsisAt(s) == |s| && IPv6Groups(s) == Some(groups)
    ensures SpellsFull(s, groups)
  {
    GroupsExactly(Split(s, ':'), groups);
    JoinSplit(s, ':');
  }

  lemma LeftParsed(left: seq<string>, before: seq<nat>)
    requires SpellsGroups(left, before)
    ensures SingleColons(Join(left, ':')) && LeftGroups(Join(left, ':')) == Some(before)
  {
    assert SpellsTail(left, before);
    TailColonFree(left, before);
    JoinedColons(left);
    if left != [] {
      FieldsOf(left, before);
      HexGroupsExactly(left, before);
    }
  }

  lemma RightParsed(right: seq<string>, after: seq<nat>)
    requires SpellsTail(right, after)
    ensures RightGroups(Join(right, ':')) == Some(after)
  {
    TailColonFree(right, after);
    JoinedColons(right);
    if right != [] {
      FieldsOf(right, after);
    }
  }

  lemma AroundEllipsis(s: string, before: seq<nat>, after: seq<nat>)
    requires EllipsisAt(s) < |s| && |before| + |after| <= 7
    requires LeftGroups(s[..EllipsisAt(s)]) == Some(before) && RightGroups(s[EllipsisAt(s) + 2..]) == Some(after)
    ensures IPv6Groups(s) == Some(before + Zeros(8 - |before| - |after|) + after)
  {
    WithEllipsis(s);
    ExpandedSome(before, after);
  }

  lemma ExpandedSome(before: seq<nat>, after: seq<nat>)
    requires |before| + |after| <= 7
    ensures Expanded(Some(before), Some(after)) == Some(before + Zeros(8 - |before| - |after|) + after)
  {
  }

  lemma WithEllipsis(s: string)
    requires EllipsisAt(s) < |s|
    ensures IPv6Groups(s) == ShortGroups(s[..EllipsisAt(s)], s[EllipsisAt(s) + 2..])
  {
  }

  lemma EllipsisParts(a: string, b: string)
    ensures (a + "::" + b)[..|a|] == a && (a + "::" + b)[|a| + 2..] == b
  {
  }

  lemma ShortParsed(s: string, groups: seq<nat>)
    requires SpellsShort(s, groups)
    ensures IPv6Groups(s) == Some(groups) && ':' in s
  {
    var left, before, right, after :| AreShort(s, groups, left, before, right, after);
    var a, b := Join(left, ':'), Join(right, ':');
    LeftParsed(left, before);
    RightParsed(right, after);
    FirstEllipsis(a, b);
    EllipsisParts(a, b);
    assert s[|a|] == ':';
    AroundEllipsis(s, before, after);
  }

  lemma LeftSpelled(s: string) returns (fields: seq<string>)
    requires LeftGroups(s).Some?
    ensures s == Join(fields, ':') && SpellsGroups(fields, LeftGroups(s).value)
  {
    if s == "" {
      fields := [];
    } else {
      fields := Split(s, ':');
      JoinSplit(s, ':');
      HexGroupsExactly(fields, HexGroups(fields).value);
    }
  }

  lemma RightSpelled(s: string) returns (fields: seq<string>)
    requires RightGroups(s).Some?
    ensures s == Join(fields, ':') && SpellsTail(fields, RightGroups(s).value)
  {
    if s == "" {
      fields := [];
      assert SpellsGroups([], []);
    } else {
      fields := Split(s, ':');
      JoinSplit(s, ':');
      GroupsExactly(fields, Groups(fields).value);
    }
  }

  lemma CutAt(s: string, k: nat)
    requires k + 2 <= |s| && s[k] == ':' && s[k + 1] == ':'
    ensures s == s[..k] + "::" + s[k + 2..]
  {
    assert s[k..k + 2] == "::";
    assert s == s[..k] + s[k..k + 2] + s[k + 2..];
  }

  lemma ShortParts(s: string, groups: seq<nat>) returns (before: seq<nat>, after: seq<nat>)
    requires EllipsisAt(s) < |s| && IPv6Groups(s) == Some(groups)
    ensures var k := EllipsisAt(s);
            && s == s[..k] + "::" + s[k + 2..]
            && LeftGroups(s[..k]) == Some(before) && RightGroups(s[k + 2..]) == Some(after)
            && |before| + |after| <= 7 && groups == before + Zeros(8 - |before| - |after|) + after
  {
    var k := EllipsisAt(s);
    WithEllipsis(s);
    CutAt(s, k);
    before, after := LeftGroups(s[..k]).value, RightGroups(s[k + 2..]).value;
  }

  lemma ShortSpelled(s: string, groups: seq<nat>)
    requires EllipsisAt(s) < |s| && IPv6Groups(s) == Some(groups)
    ensures SpellsShort(s, groups)
  {
    var k := EllipsisAt(s);
    var before, after := ShortParts(s, groups);
    var left := LeftSpelled(s[..k]);
    var right := RightSpelled(s[k + 2..]);
    assert AreShort(s, groups, left, before, right, after);
  }

  /**
    A text is an IPv6 address if and only if it spells eight groups with colons
    between them, the last two perhaps as an IPv4 address, or fewer around one
    "::"; and it is the address of the groups it spells.
  */
  lemma IPv6Exactly(s: string, groups: seq<nat>)
    ensures ParseIP(s) == Some(V6(groups)) <==> SpellsFull(s, groups) || SpellsShort(s, groups)
  {
    if ParseIP(s) == Some(V6(groups)) {
      if EllipsisAt(s) == |s| {
        FullSpelled(s, groups);
      } else {
        ShortSpelled(s, groups);
      }
    }
    if SpellsFull(s, groups) || SpellsShort(s, groups) {
      if SpellsFull(s, groups) {
        FullParsed(s, groups);
      } else {
        ShortParsed(s, groups);
      }
      if IsIPv4(s) {
        IPv4HasNoColon(s);
        assert false;
      }
    }
  }

  // ----- Blocks -----

  /** An address, a slash, and the numeral of a length within its width, perhaps with zeros in front. */
  ghost predicate SpellsBlock(s: string, block: Block) {
    && block.prefixLength <= block.addr.BitLen()
    && exists text, z: nat ::
         && ParseIP(text) == Some(block.addr)
         && s == text + "/" + (Repeat('0', z) + Numeral(block.prefixLength))
  }

  /** A text is a block if and only if it is spelled that way. */
  lemma BlockExactly(s: string, block: Block)
    ensures ParseCIDR(s) == Some(block) <==> SpellsBlock(s, block)
  {
    if ParseCIDR(s) == Some(block) {
      var fields := Split(s, '/');
      JoinSplit(s, '/');
      JoinAppend([fields[0]], fields[1], '/');
      assert fields == [fields[0]] + [fields[1]];
      DigitsExactly(fields[1], block.prefixLength);
      var z: nat :| fields[1] == Repeat('0', z) + Numeral(block.prefixLength);
      assert s == fields[0] + "/" + (Repeat('0', z) + Numeral(block.prefixLength));
    }
    if SpellsBlock(s, block) {
      var text, z: nat :| && ParseIP(text) == Some(block.addr)
                          && s == text + "/" + (Repeat('0', z) + Numeral(block.prefixLength));
      var digits := Repeat('0', z) + Numeral(block.prefixLength);
      DigitsExactly(digits, block.prefixLength);
      AppendLength(text, digits);
    }
  }

  /** Five zero groups and one of all ones, before the two that carry an IPv4 address. */
  ghost predicate CarriesIPv4(groups: seq<nat>) {
    |groups| == 8 && (forall i :: 0 <= i < 5 ==> groups[i] == 0) && groups[5] == 65535
  }

  lemma MappedExactly(groups: seq<nat>)
    ensures V6(groups).HasTo4() <==> CarriesIPv4(groups)
  {
    if |groups| == 8 {
      var front := groups[..6];
      assert forall i :: 0 <= i < 6 ==> front[i] == groups[i];
    }
  }

  /**
    Go's To4 yields an address, so that the text is completed with /32, if and
    only if the text spells an IPv4 address or an IPv6 address that carries one.
  */
  lemma To4Exactly(s: string)
    ensures ParseIP(s).Some? && ParseIP(s).value.HasTo4() <==>
              || (exists octets :: SpellsIPv4(s, octets))
              || (exists groups :: (SpellsFull(s, groups) || SpellsShort(s, groups)) && CarriesIPv4(groups))
  {
    match ParseIP(s) {
      case Some(V4(octets)) =>
        IPv4Exactly(s, octets);
      case Some(V6(groups)) =>
        IPv6Exactly(s, groups);
        MappedExactly(groups);
      case None =>
    }
    forall octets | SpellsIPv4(s, octets) ensures ParseIP(s) == Some(V4(octets)) {
      IPv4Exactly(s, octets);
    }
    forall groups | SpellsFull(s, groups) || SpellsShort(s, groups) ensures ParseIP(s) == Some(V6(groups)) {
      IPv6Exactly(s, groups);
    }
    forall groups | CarriesIPv4(groups) ensures V6(groups).HasTo4() {
      MappedExactly(groups);
    }
  }
}
