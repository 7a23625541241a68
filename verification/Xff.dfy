/** Parsing the list of trusted proxies. */
module Xff {
  import opened GoStrings
  import opened Wrappers
  import opened NetAddr

  const COMMA := ','

  // ----- Trimming -----

  /** Unicode white space, as Go's unicode.IsSpace. */
  predicate IsSpace(c: char) {
    || c in {'\t', '\n', '\U{0B}', '\U{0C}', '\r', ' ', '\U{85}', '\U{A0}'}
    || c in {'\U{1680}', '\U{2028}', '\U{2029}', '\U{202F}', '\U{205F}', '\U{3000}'}
    || '\U{2000}' <= c <= '\U{200A}'
  }

  function TrimLeft(s: string): string {
    if s != "" && IsSpace(s[0]) then TrimLeft(s[1..]) else s
  }

  function TrimRight(s: string): string {
    if s != "" && IsSpace(s[|s| - 1]) then TrimRight(s[..|s| - 1]) else s
  }

  function TrimSpace(s: string): string {
    TrimRight(TrimLeft(s))
  }

  predicate Trimmed(s: string) {
    s == "" || (!IsSpace(s[0]) && !IsSpace(s[|s| - 1]))
  }

  lemma TrimmedIsFixed(s: string)
    ensures Trimmed(s) ==> TrimSpace(s) == s
  {
  }

  /** White space by code point: the Latin-1 control and blank characters, and Unicode's separators. */
  predicate IsWhite(c: char) {
    var n := c as int;
    || 9 <= n <= 13 || n == 32 || n == 133 || n == 160 || n == 5760 || 8192 <= n <= 8202
    || n == 8232 || n == 8233 || n == 8239 || n == 8287 || n == 12288
  }

  ghost predicate AllWhite(s: string) {
    forall i :: 0 <= i < |s| ==> IsWhite(s[i])
  }

  /** Neither end is white. */
  ghost predicate BareEnds(s: string) {
    s == "" || (!IsWhite(s[0]) && !IsWhite(s[|s| - 1]))
  }

  lemma WhiteIsSpace(c: char)
    ensures IsSpace(c) <==> IsWhite(c)
  {
  }

  lemma {:induction false} TrimsLeft(l: string, s: string)
    requires AllWhite(l)
    ensures TrimLeft(l + s) == TrimLeft(s)
  {
    if l == "" {
      assert l + s == s;
    } else {
      WhiteIsSpace(l[0]);
      TrimsLeft(l[1..], s);
      assert (l + s)[1..] == l[1..] + s;
    }
  }

  lemma {:induction false} TrimsRight(s: string, r: string)
    requires AllWhite(r)
    ensures TrimRight(s + r) == TrimRight(s)
    decreases |r|
  {
    if r == "" {
      assert s + r == s;
    } else {
      var n := |r| - 1;
      WhiteIsSpace(r[n]);
      TrimsRight(s, r[..n]);
      assert (s + r)[..|s + r| - 1] == s + r[..n];
    }
  }

  /** Trimming removes exactly the white space at both ends. */
  lemma TrimsBoth(l: string, t: string, r: string)
    requires AllWhite(l) && AllWhite(r) && BareEnds(t)
    ensures TrimSpace(l + t + r) == t
  {
    assert l + t + r == l + (t + r);
    TrimsLeft(l, t + r);
    if t == "" {
      assert t + r == r && r + "" == r;
      TrimsLeft(r, "");
    } else {
      WhiteIsSpace(t[0]);
      WhiteIsSpace(t[|t| - 1]);
      TrimsRight(t, r);
    }
  }

  /** Every text is white space around a text with bare ends. */
  lemma {:induction false} Surroundings(s: string) returns (l: string, t: string, r: string)
    ensures s == l + t + r && AllWhite(l) && AllWhite(r) && BareEnds(t)
    decreases |s|
  {
    if BareEnds(s) {
      l, t, r := "", s, "";
    } else if IsWhite(s[0]) {
      l, t, r := Surroundings(s[1..]);
      l := [s[0]] + l;
    } else {
      l, t, r := Surroundings(s[..|s| - 1]);
      r := r + [s[|s| - 1]];
    }
  }

  // ----- Entries -----

  datatype Entry = Blank | Proxy(cidr: string) | Invalid(text: string)

  /** What one comma-separated entry contributes. */
  function Classify(entry: string): Entry {
    var cidr := TrimSpace(entry);
    if cidr == "" then Blank
    else if ParseCIDR(cidr).Some? then Proxy(cidr)
    else match ParseIP(cidr)
         case Some(ip) => Proxy(cidr + (if ip.HasTo4() then "/32" else "/128"))
         case None => Invalid(cidr)
  }

  function ErrorFor(text: string): string {
    "invalid cidr or ip: " + text
  }

  function ParseEntries(entries: seq<string>): Result<seq<string>, string> {
    if entries == [] then Ok([])
    else match Classify(entries[0])
         case Blank => ParseEntries(entries[1..])
         case Invalid(text) => Err(ErrorFor(text))
         case Proxy(cidr) => Then(Ok([cidr]), ParseEntries(entries[1..]))
  }

  function ParseSpec(trustedProxies: string): Result<seq<string>, string> {
    ParseEntries(Split(trustedProxies, COMMA))
  }

  /** The first error of two results, or their concatenation. */
  function Then(a: Result<seq<string>, string>, b: Result<seq<string>, string>): Result<seq<string>, string> {
    match a
    case Err(e) => Err(e)
    case Ok(xs) =>
      match b
      case Err(e) => Err(e)
      case Ok(ys) => Ok(xs + ys)
  }

  lemma ThenUnit(r: Result<seq<string>, string>)
    ensures Then(Ok([]), r) == r == Then(r, Ok([]))
  {
    if r.Ok? {
      assert [] + r.value == r.value == r.value + [];
    }
  }

  lemma {:induction false} ParseAppend(xs: seq<string>, ys: seq<string>)
    ensures ParseEntries(xs + ys) == Then(ParseEntries(xs), ParseEntries(ys))
  {
    if xs == [] {
      assert xs + ys == ys;
      ThenUnit(ParseEntries(ys));
    } else {
      assert (xs + ys)[1..] == xs[1..] + ys;
      ParseAppend(xs[1..], ys);
      ThenAssociative(xs[0], ParseEntries(xs[1..]), ParseEntries(ys));
    }
  }

  lemma ThenAssociative(entry: string, b: Result<seq<string>, string>, c: Result<seq<string>, string>)
    ensures Classify(entry).Proxy? ==>
              Then(Ok([Classify(entry).cidr]), Then(b, c)) == Then(Then(Ok([Classify(entry).cidr]), b), c)
  {
    if Classify(entry).Proxy? && b.Ok? && c.Ok? {
      var x := [Classify(entry).cidr];
      assert x + (b.value + c.value) == (x + b.value) + c.value;
    }
  }

  lemma ParseOne(entry: string)
    ensures ParseEntries([entry]) ==
              match Classify(entry)
              case Blank => Ok([])
              case Proxy(cidr) => Ok([cidr])
              case Invalid(text) => Err(ErrorFor(text))
  {
    assert [entry][1..] == [] && ParseEntries([]) == Ok([]);
    if Classify(entry).Proxy? {
      ThenUnit(Ok([Classify(entry).cidr]));
    }
  }

  lemma ParseNext(entries: seq<string>, n: nat)
    requires n < |entries|
    ensures ParseEntries(entries[..n + 1]) == Then(ParseEntries(entries[..n]), ParseEntries([entries[n]]))
  {
    assert entries[..n + 1] == entries[..n] + [entries[n]];
    ParseAppend(entries[..n], [entries[n]]);
  }

  method Parse(trustedProxies: string) returns (parsed: Result<seq<string>, string>)
    ensures parsed == ParseSpec(trustedProxies)
  {
    var entries := Split(trustedProxies, COMMA);
    var result: seq<string> := [];
    for n := 0 to |entries|
      invariant ParseEntries(entries[..n]) == Ok(result)
    {
      var cidr := TrimSpace(entries[n]);
      ParseNext(entries, n);
      ParseOne(entries[n]);
      ThenUnit(Ok(result));
      if cidr == "" {
        assert Classify(entries[n]) == Blank;
        continue;
      }
      if ParseCIDR(cidr).Some? {
        assert Classify(entries[n]) == Proxy(cidr);
        result := result + [cidr];
        continue;
      }
      var ip := ParseIP(cidr);
      if ip.Some? {
        if ip.value.HasTo4() {
          cidr := cidr + "/32";
        } else {
          cidr := cidr + "/128";
        }
        assert Classify(entries[n]) == Proxy(cidr);
        result := result + [cidr];
        continue;
      }
      assert Classify(entries[n]) == Invalid(cidr);
      assert entries == entries[..n + 1] + entries[n + 1..];
      ParseAppend(entries[..n + 1], entries[n + 1..]);
      return Err("invalid cidr or ip: " + cidr);
    }
    assert entries[..|entries|] == entries;
    parsed := Ok(result);
  }

  // ----- One entry -----

  /** What a text without white ends and without a comma stands for. */
  function Outcome(t: string): Result<seq<string>, string> {
    if t == "" then Ok([])
    else if ParseCIDR(t).Some? then Ok([t])
    else if ParseIP(t).Some? then Ok([t + (if ParseIP(t).value.HasTo4() then "/32" else "/128")])
    else Err("invalid cidr or ip: " + t)
  }

  lemma {:induction false} WhiteHasNoComma(s: string)
    requires AllWhite(s)
    ensures COMMA !in s
  {
    if s == "" {
    } else {
      WhiteHasNoComma(s[1..]);
      assert s == [s[0]] + s[1..];
    }
  }

  /** The entry is this text, which has no white ends, with white space around it. */
  ghost predicate Surrounds(entry: string, t: string) {
    BareEnds(t) && exists l, r :: AllWhite(l) && AllWhite(r) && entry == l + t + r
  }

  lemma SurroundedOutcome(entry: string, t: string)
    requires Surrounds(entry, t)
    ensures ParseEntries([entry]) == Outcome(t)
  {
    var l, r :| AllWhite(l) && AllWhite(r) && entry == l + t + r;
    TrimsBoth(l, t, r);
    ParseOne(entry);
  }

  /**
    Whatever white space surrounds it, an entry without a comma is ignored when
    nothing is left of it, kept when it is a block, completed when it is an
    address, and refused with its own text otherwise.
  */
  lemma EntryOutcome(l: string, t: string, r: string)
    requires AllWhite(l) && AllWhite(r) && BareEnds(t) && ',' !in t
    ensures ParseSpec(l + t + r) == Outcome(t)
  {
    WhiteHasNoComma(l);
    WhiteHasNoComma(r);
    SplitWithoutSeparator(l + t + r, COMMA);
    SurroundedOutcome(l + t + r, t);
  }

  /** The outcomes one after the other, up to the first error. */
  function Outcomes(bare: seq<string>): Result<seq<string>, string> {
    if bare == [] then Ok([]) else Then(Outcome(bare[0]), Outcomes(bare[1..]))
  }

  ghost predicate AllSurround(entries: seq<string>, bare: seq<string>) {
    |entries| == |bare| && forall i :: 0 <= i < |entries| ==> Surrounds(entries[i], bare[i])
  }

  lemma {:induction false} EntriesOutcome(entries: seq<string>, bare: seq<string>)
    requires AllSurround(entries, bare)
    ensures ParseEntries(entries) == Outcomes(bare)
  {
    if entries == [] {
    } else {
      SurroundedOutcome(entries[0], bare[0]);
      EntriesOutcome(entries[1..], bare[1..]);
      ParseAppend([entries[0]], entries[1..]);
      assert entries == [entries[0]] + entries[1..];
    }
  }

  lemma {:induction false} Bared(entries: seq<string>) returns (bare: seq<string>)
    ensures AllSurround(entries, bare)
  {
    if entries == [] {
      bare := [];
    } else {
      var l, t, r := Surroundings(entries[0]);
      var rest := Bared(entries[1..]);
      assert Surrounds(entries[0], t);
      bare := [t] + rest;
    }
  }

  /**
    What parsing means, for every text: each comma-separated entry is some text
    with white space around it, and the outcomes of these texts are put together.
  */
  lemma ParseMeaning(trustedProxies: string) returns (bare: seq<string>)
    ensures AllSurround(Split(trustedProxies, ','), bare)
    ensures ParseSpec(trustedProxies) == Outcomes(bare)
  {
    bare := Bared(Split(trustedProxies, COMMA));
    EntriesOutcome(Split(trustedProxies, COMMA), bare);
  }

  lemma TooLongText(text: string, digits: string)
    requires ParseIP(text).Some? && digits != "" && AllDigits(digits)
    ensures var entry := text + "/" + digits; BareEnds(entry) && COMMA !in entry && ParseIP(entry).None? && entry != ""
  {
    var entry := text + "/" + digits;
    AddressText(text);
    AddrCharsVisible(text[0]);
    DigitsVisible(digits);
    assert entry[|text|] == '/';
    if ParseIP(entry).Some? {
      AddressHasNoSlash(entry);
    }
    assert entry[0] == text[0] && entry[|entry| - 1] == digits[|digits| - 1];
    WhiteIsSpace(entry[0]);
    WhiteIsSpace(entry[|entry| - 1]);
  }

  /** A block whose length exceeds the width of its address is refused, and named. */
  lemma TooLongRefused(text: string, digits: string)
    requires ParseIP(text).Some? && digits != "" && AllDigits(digits) && Decimal(digits) > ParseIP(text).value.BitLen()
    ensures var entry := text + "/" + digits; ParseSpec(entry) == Err("invalid cidr or ip: " + entry)
  {
    var entry := text + "/" + digits;
    AppendLength(text, digits);
    TooLongText(text, digits);
    BareOutcome(entry);
  }

  lemma BareOutcome(entry: string)
    requires BareEnds(entry) && ',' !in entry
    ensures ParseSpec(entry) == Outcome(entry)
  {
    assert entry == "" + entry + "";
    EntryOutcome("", entry, "");
  }

  lemma AddressHasNoSlash(s: string)
    requires ParseIP(s).Some?
    ensures '/' !in s
  {
    AddressText(s);
  }

  lemma DigitsVisible(digits: string)
    requires AllDigits(digits)
    ensures COMMA !in digits
    ensures digits != "" ==> !IsSpace(digits[|digits| - 1])
  {
    if digits != "" {
      AddrCharsVisible(digits[|digits| - 1]);
    }
  }

  // ----- What parsing promises -----

  /**
    Parsing is a homomorphism from comma-joined text to concatenated lists: the
    leftmost failure wins, and otherwise the lists are appended.
  */
  lemma ParseHomomorphism(a: string, b: string)
    ensures ParseSpec(a + "," + b) == Then(ParseSpec(a), ParseSpec(b))
  {
    SplitConcat(a, b, COMMA);
    ParseAppend(Split(a, COMMA), Split(b, COMMA));
  }

  ghost predicate FirstInvalid(entries: seq<string>, i: int) {
    && 0 <= i < |entries| && Classify(entries[i]).Invalid?
    && forall j :: 0 <= j < i ==> !Classify(entries[j]).Invalid?
  }

  /** Parsing fails if and only if some entry is invalid, and then names the leftmost one. */
  lemma {:induction false} FailsAtLeftmost(entries: seq<string>)
    ensures ParseEntries(entries).Err? <==> exists i :: FirstInvalid(entries, i)
    ensures forall i :: FirstInvalid(entries, i) ==> ParseEntries(entries) == Err(ErrorFor(Classify(entries[i]).text))
  {
    if entries == [] {
    } else {
      var rest := entries[1..];
      FailsAtLeftmost(rest);
      if Classify(entries[0]).Invalid? {
        assert FirstInvalid(entries, 0);
      } else {
        forall i ensures FirstInvalid(entries, i) <==> FirstInvalid(rest, i - 1) {
          InvalidShift(entries, i);
        }
        if i :| FirstInvalid(rest, i) {
          assert FirstInvalid(entries, i + 1);
        }
      }
    }
  }

  lemma InvalidShift(entries: seq<string>, i: int)
    requires entries != [] && !Classify(entries[0]).Invalid?
    ensures FirstInvalid(entries, i) <==> FirstInvalid(entries[1..], i - 1)
  {
  }

  function NonBlank(entries: seq<string>): seq<string> {
    if entries == [] then []
    else (if TrimSpace(entries[0]) == "" then [] else [entries[0]]) + NonBlank(entries[1..])
  }

  /** Blank entries contribute nothing, wherever they stand. */
  lemma {:induction false} BlanksIgnored(entries: seq<string>)
    ensures ParseEntries(NonBlank(entries)) == ParseEntries(entries)
  {
    if entries == [] {
    } else {
      BlanksIgnored(entries[1..]);
      var kept := NonBlank(entries[1..]);
      assert [] + kept == kept;
      assert ([entries[0]] + kept)[1..] == kept;
    }
  }

  // ----- The output -----

  /** Block text holds no white space and no comma. */
  lemma BlockTrimmed(cidr: string)
    requires ParseCIDR(cidr).Some?
    ensures Trimmed(cidr) && cidr != "" && COMMA !in cidr
  {
    BlockText(cidr);
    assert !IsAddrChar(COMMA);
    AddrCharsVisible(cidr[0]);
    AddrCharsVisible(cidr[|cidr| - 1]);
  }

  lemma AddrCharsVisible(c: char)
    requires IsAddrChar(c) || c == '/'
    ensures !IsSpace(c)
  {
  }

  /** A listed proxy parses as a block, is trimmed and holds no comma. */
  lemma ProxyIsBlock(entry: string)
    requires Classify(entry).Proxy?
    ensures var cidr := Classify(entry).cidr;
            ParseCIDR(cidr).Some? && Trimmed(cidr) && cidr != "" && COMMA !in cidr
  {
    var text := TrimSpace(entry);
    if !ParseCIDR(text).Some? {
      ProxyOfAddress(text);
    }
    BlockTrimmed(Classify(entry).cidr);
  }

  lemma LengthDigits()
    ensures AllDigits("32") && Decimal("32") == 32
    ensures AllDigits("128") && Decimal("128") == 128
  {
    assert "32"[..1] == "3" && "12"[..1] == "1" && "128"[..2] == "12";
    assert Decimal("3") == 3 && Decimal("1") == 1 && Decimal("12") == 12;
  }

  lemma ProxyOfAddress(text: string)
    requires ParseIP(text).Some?
    ensures var ip := ParseIP(text).value;
            && ParseCIDR(text + "/32") == Some(Block(ip, 32))
            && (ip.V6? ==> ParseCIDR(text + "/128") == Some(Block(ip, 128)))
  {
    LengthDigits();
    AppendLength(text, "32");
    AppendLength(text, "128");
    assert text + "/" + "32" == text + "/32" && text + "/" + "128" == text + "/128";
  }

  lemma ProxyKept(cidr: string)
    requires ParseCIDR(cidr).Some? && Trimmed(cidr) && cidr != ""
    ensures Classify(cidr) == Proxy(cidr)
  {
    TrimmedIsFixed(cidr);
  }

  lemma {:induction false} OutputIsBlocks(entries: seq<string>)
    requires ParseEntries(entries).Ok?
    ensures forall i :: 0 <= i < |ParseEntries(entries).value| ==>
              var cidr := ParseEntries(entries).value[i];
              ParseCIDR(cidr).Some? && Trimmed(cidr) && cidr != "" && COMMA !in cidr
  {
    if entries == [] {
    } else {
      OutputIsBlocks(entries[1..]);
      if Classify(entries[0]).Proxy? {
        ProxyIsBlock(entries[0]);
      }
    }
  }

  lemma KeepOne(entries: seq<string>)
    requires entries != [] && Classify(entries[0]) == Proxy(entries[0])
    requires ParseEntries(entries[1..]) == Ok(entries[1..])
    ensures ParseEntries(entries) == Ok(entries)
  {
    assert entries == [entries[0]] + entries[1..];
  }

  lemma {:induction false} BlocksParseToThemselves(blocks: seq<string>)
    requires forall i :: 0 <= i < |blocks| ==> Classify(blocks[i]) == Proxy(blocks[i])
    ensures ParseEntries(blocks) == Ok(blocks)
  {
    if blocks == [] {
    } else {
      BlocksParseToThemselves(blocks[1..]);
      KeepOne(blocks);
    }
  }

  /** The output is a fixed point: joined by commas, it parses to itself. */
  lemma ParseFixedPoint(trustedProxies: string)
    requires ParseSpec(trustedProxies).Ok?
    ensures var out := ParseSpec(trustedProxies).value; ParseSpec(Join(out, COMMA)) == Ok(out)
  {
    var out := ParseSpec(trustedProxies).value;
    OutputIsBlocks(Split(trustedProxies, COMMA));
    if out == [] {
      assert Split("", COMMA) == [""];
      assert [""][1..] == [];
    } else {
      SplitJoin(out, COMMA);
      forall i | 0 <= i < |out| ensures Classify(out[i]) == Proxy(out[i]) {
        ProxyKept(out[i]);
      }
      BlocksParseToThemselves(out);
    }
  }

  /** The blocks of the entries that have one, in entry order. */
  function Proxies(entries: seq<string>): seq<string> {
    if entries == [] then []
    else (if Classify(entries[0]).Proxy? then [Classify(entries[0]).cidr] else []) + Proxies(entries[1..])
  }

  lemma {:induction false} EntriesCollect(entries: seq<string>)
    requires ParseEntries(entries).Ok?
    ensures ParseEntries(entries).value == Proxies(entries)
  {
    if entries == [] {
    } else {
      EntriesCollect(entries[1..]);
      assert Classify(entries[0]).Blank? ==> Proxies(entries) == [] + Proxies(entries[1..]) == Proxies(entries[1..]);
    }
  }

  ghost predicate NoneInvalid(entries: seq<string>) {
    forall i :: 0 <= i < |entries| ==> !Classify(entries[i]).Invalid?
  }

  lemma OkWhenNoneInvalid(entries: seq<string>)
    ensures ParseEntries(entries).Ok? <==> NoneInvalid(entries)
  {
    FailsAtLeftmost(entries);
    if !NoneInvalid(entries) {
      var i: nat :| i < |entries| && Classify(entries[i]).Invalid?;
      var k := FirstInvalidBelow(entries, i);
    }
  }

  /**
    Parsing succeeds if and only if no entry is invalid, and then returns one
    block for each entry that is not blank, in entry order.
  */
  lemma ParseCollectsProxies(trustedProxies: string)
    ensures ParseSpec(trustedProxies).Ok? <==> NoneInvalid(Split(trustedProxies, COMMA))
    ensures ParseSpec(trustedProxies).Ok? ==> ParseSpec(trustedProxies).value == Proxies(Split(trustedProxies, COMMA))
  {
    OkWhenNoneInvalid(Split(trustedProxies, COMMA));
    if ParseSpec(trustedProxies).Ok? {
      EntriesCollect(Split(trustedProxies, COMMA));
    }
  }

  lemma {:induction false} FirstInvalidBelow(entries: seq<string>, i: nat) returns (k: int)
    requires i < |entries| && Classify(entries[i]).Invalid?
    ensures FirstInvalid(entries, k)
  {
    if j: nat :| j < i && Classify(entries[j]).Invalid? {
      k := FirstInvalidBelow(entries, j);
    } else {
      k := i;
    }
  }

  // ----- Single addresses -----

  /**
    A single address becomes a block over that address. The block covers that
    one host if and only if the text is not an IPv6 spelling of an IPv4-mapped
    address: such text takes the /32 branch although its width is 128.
  */
  lemma SingleHost(entry: string)
    requires ParseIP(TrimSpace(entry)).Some?
    ensures Classify(entry).Proxy? && ParseCIDR(Classify(entry).cidr).Some?
    ensures var ip := ParseIP(TrimSpace(entry)).value;
            var block := ParseCIDR(Classify(entry).cidr).value;
            block.addr == ip && (block.prefixLength == ip.BitLen() <==> !ip.IsMapped())
  {
    var text := TrimSpace(entry);
    AddressText(text);
    SplitWithoutSeparator(text, '/');
    assert !ParseCIDR(text).Some?;
    ProxyOfAddress(text);
  }

  /** Every such text that spells the mapped part as dotted IPv4 becomes a block wider than its address. */
  lemma MappedText(v4: string)
    requires IsIPv4(v4)
    ensures var text := "::ffff:" + v4;
            && ParseSpec(text) == Ok([text + "/32"])
            && ParseIP(text).Some? && ParseIP(text).value.IsMapped() && ParseIP(text).value.BitLen() == 128
  {
    var text := "::ffff:" + v4;
    MappedAddress(v4);
    AddressText(text);
    SplitWithoutSeparator(text, '/');
    SplitWithoutSeparator(text, COMMA);
    TrimmedIsFixed(text);
    ParseOne(text);
  }
}
