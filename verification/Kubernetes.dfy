/** The Kubernetes backend: which hardware an address selects, and its conversion to an EC2 instance. */
module Kubernetes {
  import opened Wrappers
  import opened Errors
  import opened Ec2

  // ----- Hardware objects -----

  datatype IP = IP(address: string)

  datatype DHCP = DHCP(ip: Option<IP>)

  datatype Interface = Interface(dhcp: Option<DHCP>)

  datatype InstanceIP = InstanceIP(address: string, family: int, isPublic: bool)

  datatype HardwareOS = HardwareOS(slug: string, distro: string, version: string, imageTag: string)

  datatype HardwareInstance = HardwareInstance(
    id: string,
    hostname: string,
    tags: seq<string>,
    operatingSystem: Option<HardwareOS>,
    ips: seq<InstanceIP>)

  datatype HardwareFacility = HardwareFacility(planSlug: string, facilityCode: string)

  datatype HardwareMetadata = HardwareMetadata(
    inst: Option<HardwareInstance>,
    facility: Option<HardwareFacility>)

  datatype Hardware = Hardware(
    name: string,
    interfaces: seq<Interface>,
    metadata: Option<HardwareMetadata>,
    userData: Option<string>)

  datatype Object = HardwareObject(hw: Hardware) | OtherObject

  // ----- The address index -----

  /** The interface carries this address, and the address is not empty. */
  predicate HasAddress(iface: Interface, address: string) {
    address != "" && iface.dhcp.Some? && iface.dhcp.value.ip.Some? && iface.dhcp.value.ip.value.address == address
  }

  predicate AnyInterfaceHas(interfaces: seq<Interface>, address: string) {
    exists i :: 0 <= i < |interfaces| && HasAddress(interfaces[i], address)
  }

  /** Whether an object answers to an address. */
  predicate AnswersTo(obj: Object, address: string) {
    obj.HardwareObject? && AnyInterfaceHas(obj.hw.interfaces, address)
  }

  function AddressOf(iface: Interface): string {
    if iface.dhcp.Some? && iface.dhcp.value.ip.Some? then iface.dhcp.value.ip.value.address else ""
  }

  /** The non-empty addresses of the interfaces, in interface order. */
  function IndexKeys(interfaces: seq<Interface>): seq<string> {
    if interfaces == [] then []
    else
      var before := IndexKeys(interfaces[..|interfaces| - 1]);
      var address := AddressOf(interfaces[|interfaces| - 1]);
      if address == "" then before else before + [address]
  }

  method HardwareIPIndexFunc(obj: Object) returns (resp: seq<string>)
    ensures forall address :: address in resp <==> AnswersTo(obj, address)
    ensures resp == if obj.HardwareObject? then IndexKeys(obj.hw.interfaces) else []
  {
    if obj.OtherObject? {
      return [];
    }
    var interfaces := obj.hw.interfaces;
    resp := [];
    for n := 0 to |interfaces|
      invariant resp == IndexKeys(interfaces[..n])
      invariant forall address :: address in resp <==> AnyInterfaceHas(interfaces[..n], address)
    {
      var iface := interfaces[n];
      assert interfaces[..n + 1] == interfaces[..n] + [iface];
      AnyInterfaceAppend(interfaces[..n], iface);
      if iface.dhcp.Some? && iface.dhcp.value.ip.Some? && iface.dhcp.value.ip.value.address != "" {
        resp := resp + [iface.dhcp.value.ip.value.address];
      }
    }
    assert interfaces[..|interfaces|] == interfaces;
  }

  /** The keys of one interface. */
  function KeysOf(iface: Interface): seq<string> {
    if AddressOf(iface) == "" then [] else [AddressOf(iface)]
  }

  lemma IndexKeysAppend(xs: seq<Interface>, iface: Interface)
    ensures IndexKeys(xs + [iface]) == IndexKeys(xs) + KeysOf(iface)
  {
    var all := xs + [iface];
    assert all[..|all| - 1] == xs && all[|all| - 1] == iface;
  }

  /** Keys come in interface order: those of a longer list are those of its parts, one after the other. */
  lemma {:induction false} IndexKeysConcat(xs: seq<Interface>, ys: seq<Interface>)
    ensures IndexKeys(xs + ys) == IndexKeys(xs) + IndexKeys(ys)
    decreases |ys|
  {
    if ys == [] {
      assert xs + ys == xs;
    } else {
      var front, last := ys[..|ys| - 1], ys[|ys| - 1];
      assert ys == front + [last] && xs + ys == (xs + front) + [last];
      IndexKeysConcat(xs, front);
      IndexKeysAppend(front, last);
      IndexKeysAppend(xs + front, last);
    }
  }

  /** One interface has one key, its address, unless that is absent or empty. */
  lemma IndexKeysOne(iface: Interface, address: string)
    ensures IndexKeys([iface]) == [address] <==> HasAddress(iface, address)
    ensures IndexKeys([iface]) == [] <==> !HasAddress(iface, AddressOf(iface))
  {
    assert [iface][..0] == [] && IndexKeys([]) == [];
    assert IndexKeys([iface]) == if AddressOf(iface) == "" then [] else [AddressOf(iface)];
  }

  lemma AnyInterfaceAppend(interfaces: seq<Interface>, iface: Interface)
    ensures forall address ::
              AnyInterfaceHas(interfaces + [iface], address) <==>
                AnyInterfaceHas(interfaces, address) || HasAddress(iface, address)
  {
    forall address
      ensures AnyInterfaceHas(interfaces + [iface], address) <==>
                AnyInterfaceHas(interfaces, address) || HasAddress(iface, address)
    {
      var all := interfaces + [iface];
      if i :| 0 <= i < |interfaces| && HasAddress(interfaces[i], address) {
        assert HasAddress(all[i], address);
      }
      if HasAddress(iface, address) {
        assert HasAddress(all[|interfaces|], address);
      }
    }
  }

  // ----- Lookup -----

  /** Listing by index: the objects whose index keys contain the address, each once. */
  function List(objects: seq<Object>, ip: string): seq<Hardware> {
    if objects == [] then []
    else
      (if objects[0].HardwareObject? && ip in IndexKeys(objects[0].hw.interfaces) then [objects[0].hw] else [])
      + List(objects[1..], ip)
  }

  function RetrieveByIP(listed: Result<seq<Hardware>, Error>): Result<Hardware, Error> {
    match listed
    case Err(err) => Err(err)
    case Ok(items) =>
      if |items| == 0 then Err(NotFound)
      else if |items| > 1 then Err(MultipleHardware)
      else Ok(items[0])
  }

  function GetEC2Instance(listed: Result<seq<Hardware>, Error>): Result<Instance, Error> {
    match RetrieveByIP(listed)
    case Err(err) => if Is(err, NotFound) then Err(InstanceNotFound) else Err(err)
    case Ok(hw) => Ok(Convert(hw))
  }

  lemma {:induction false} IndexKeysMember(interfaces: seq<Interface>, address: string)
    ensures address in IndexKeys(interfaces) <==> AnyInterfaceHas(interfaces, address)
  {
    if interfaces == [] {
    } else {
      var n := |interfaces| - 1;
      IndexKeysMember(interfaces[..n], address);
      assert interfaces == interfaces[..n] + [interfaces[n]];
      AnyInterfaceAppend(interfaces[..n], interfaces[n]);
    }
  }

  ghost predicate NoneAnswers(objects: seq<Object>, ip: string) {
    forall i :: 0 <= i < |objects| ==> !AnswersTo(objects[i], ip)
  }

  ghost predicate OnlyOneAnswers(objects: seq<Object>, ip: string, i: int) {
    && 0 <= i < |objects| && AnswersTo(objects[i], ip)
    && forall j :: 0 <= j < |objects| && j != i ==> !AnswersTo(objects[j], ip)
  }

  ghost predicate BothAnswer(objects: seq<Object>, ip: string, i: int, j: int) {
    0 <= i < j < |objects| && AnswersTo(objects[i], ip) && AnswersTo(objects[j], ip)
  }

  /** An empty listing means that no object answers. */
  lemma {:induction false} ListEmpty(objects: seq<Object>, ip: string)
    ensures List(objects, ip) == [] <==> NoneAnswers(objects, ip)
  {
    if objects == [] {
    } else {
      var first, rest := objects[0], objects[1..];
      ListEmpty(rest, ip);
      ListHead(objects, ip);
      assert objects == [first] + rest;
      if NoneAnswers(rest, ip) && !AnswersTo(first, ip) {
        forall i | 0 <= i < |objects| ensures !AnswersTo(objects[i], ip) {
          assert i > 0 ==> objects[i] == rest[i - 1];
        }
      }
      if NoneAnswers(objects, ip) {
        forall i | 0 <= i < |rest| ensures !AnswersTo(rest[i], ip) {
          assert rest[i] == objects[i + 1];
        }
      }
    }
  }

  lemma ListHead(objects: seq<Object>, ip: string)
    requires objects != []
    ensures List(objects, ip) ==
              (if AnswersTo(objects[0], ip) then [objects[0].hw] else []) + List(objects[1..], ip)
  {
    if objects[0].HardwareObject? {
      IndexKeysMember(objects[0].hw.interfaces, ip);
    }
  }

  lemma {:induction false} ListAppend(xs: seq<Object>, ys: seq<Object>, ip: string)
    ensures List(xs + ys, ip) == List(xs, ip) + List(ys, ip)
  {
    if xs == [] {
      assert xs + ys == ys;
    } else {
      assert (xs + ys)[1..] == xs[1..] + ys;
      ListAppend(xs[1..], ys, ip);
    }
  }

  /** The listing around one answering object. */
  lemma ListAround(objects: seq<Object>, ip: string, i: nat)
    requires i < |objects| && AnswersTo(objects[i], ip)
    ensures List(objects, ip) == List(objects[..i], ip) + [objects[i].hw] + List(objects[i + 1..], ip)
  {
    assert objects == objects[..i] + objects[i..];
    ListAppend(objects[..i], objects[i..], ip);
    ListHead(objects[i..], ip);
    assert objects[i..][1..] == objects[i + 1..];
  }

  lemma OneAnswerListed(objects: seq<Object>, ip: string, i: int)
    requires OnlyOneAnswers(objects, ip, i)
    ensures List(objects, ip) == [objects[i].hw]
  {
    ListAround(objects, ip, i);
    ListEmpty(objects[..i], ip);
    ListEmpty(objects[i + 1..], ip);
  }

  lemma TwoAnswersListed(objects: seq<Object>, ip: string, i: int, j: int)
    requires BothAnswer(objects, ip, i, j)
    ensures |List(objects, ip)| > 1
  {
    ListAround(objects, ip, i);
    ListEmpty(objects[i + 1..], ip);
    assert objects[i + 1..][j - i - 1] == objects[j];
  }

  /** Listing yields none, one or several items exactly as none, one or several objects answer. */
  lemma ListCounts(objects: seq<Object>, ip: string)
    ensures |List(objects, ip)| == 0 <==> NoneAnswers(objects, ip)
    ensures |List(objects, ip)| == 1 <==> exists i :: OnlyOneAnswers(objects, ip, i)
    ensures |List(objects, ip)| > 1 <==> exists i, j :: BothAnswer(objects, ip, i, j)
    ensures forall i :: OnlyOneAnswers(objects, ip, i) ==> List(objects, ip) == [objects[i].hw]
  {
    ListEmpty(objects, ip);
    forall i | OnlyOneAnswers(objects, ip, i) ensures List(objects, ip) == [objects[i].hw] {
      OneAnswerListed(objects, ip, i);
    }
    forall i, j | BothAnswer(objects, ip, i, j) ensures |List(objects, ip)| > 1 {
      TwoAnswersListed(objects, ip, i, j);
    }
    if !NoneAnswers(objects, ip) {
      var i :| 0 <= i < |objects| && AnswersTo(objects[i], ip);
      if !OnlyOneAnswers(objects, ip, i) {
        var j :| 0 <= j < |objects| && j != i && AnswersTo(objects[j], ip);
        assert BothAnswer(objects, ip, if i < j then i else j, if i < j then j else i);
      }
    }
  }

  // ----- Conversion -----

  // the loop searches for PublicV4, LocalV4 and AnyV6; PublicV6 is what its IPv6 comment speaks of
  datatype Class = PublicV4 | LocalV4 | AnyV6 | PublicV6

  predicate InClass(ip: InstanceIP, class_: Class) {
    match class_
    case PublicV4 => ip.family == 4 && ip.isPublic
    case LocalV4 => ip.family == 4 && !ip.isPublic
    case AnyV6 => ip.family == 6
    case PublicV6 => ip.family == 6 && ip.isPublic
  }

  /** The address of the first entry of a class whose address is not empty, or "". */
  function FirstAddress(ips: seq<InstanceIP>, class_: Class): string {
    if ips == [] then ""
    else if InClass(ips[0], class_) && ips[0].address != "" then ips[0].address
    else FirstAddress(ips[1..], class_)
  }

  /** What FirstAddress finds, by position. */
  lemma {:induction false} FirstAddressIsFirst(ips: seq<InstanceIP>, class_: Class)
    ensures FirstAddress(ips, class_) == "" <==>
              forall k :: 0 <= k < |ips| && InClass(ips[k], class_) ==> ips[k].address == ""
    ensures FirstAddress(ips, class_) != "" <==>
              exists k :: IsFirst(ips, class_, k)
    ensures forall k :: IsFirst(ips, class_, k) ==> FirstAddress(ips, class_) == ips[k].address
  {
    if ips == [] {
    } else {
      var rest := ips[1..];
      FirstAddressIsFirst(rest, class_);
      if InClass(ips[0], class_) && ips[0].address != "" {
        assert IsFirst(ips, class_, 0);
      } else {
        forall k ensures IsFirst(ips, class_, k) <==> IsFirst(rest, class_, k - 1) {
          if IsFirst(rest, class_, k - 1) {
            forall j | 0 <= j < k ensures !(InClass(ips[j], class_) && ips[j].address != "") {
              assert j > 0 ==> ips[j] == rest[j - 1];
            }
          }
          if IsFirst(ips, class_, k) {
            forall j | 0 <= j < k - 1 ensures !(InClass(rest[j], class_) && rest[j].address != "") {
              assert rest[j] == ips[j + 1];
            }
          }
        }
        if k :| IsFirst(rest, class_, k) {
          assert IsFirst(ips, class_, k + 1);
        }
        forall k | 0 <= k < |rest| ensures rest[k] == ips[k + 1] {}
      }
    }
  }

  ghost predicate IsFirst(ips: seq<InstanceIP>, class_: Class, k: int) {
    && 0 <= k < |ips|
    && InClass(ips[k], class_) && ips[k].address != ""
    && forall j :: 0 <= j < k ==> !(InClass(ips[j], class_) && ips[j].address != "")
  }

  lemma {:induction false} FirstAddressAppend(xs: seq<InstanceIP>, ys: seq<InstanceIP>, class_: Class)
    ensures FirstAddress(xs + ys, class_) ==
              if FirstAddress(xs, class_) != "" then FirstAddress(xs, class_) else FirstAddress(ys, class_)
  {
    if xs == [] {
      assert xs + ys == ys;
    } else {
      assert (xs + ys)[1..] == xs[1..] + ys;
      FirstAddressAppend(xs[1..], ys, class_);
    }
  }

  function OfClass(ips: seq<InstanceIP>, class_: Class): seq<InstanceIP> {
    if ips == [] then []
    else (if InClass(ips[0], class_) then [ips[0]] else []) + OfClass(ips[1..], class_)
  }

  /** Entries of other classes, wherever they stand, never change a result. */
  lemma {:induction false} OtherClassesIrrelevant(ips: seq<InstanceIP>, class_: Class)
    ensures FirstAddress(OfClass(ips, class_), class_) == FirstAddress(ips, class_)
  {
    if ips == [] {
    } else {
      OtherClassesIrrelevant(ips[1..], class_);
      var kept := OfClass(ips[1..], class_);
      if InClass(ips[0], class_) {
        assert OfClass(ips, class_) == [ips[0]] + kept;
        assert ([ips[0]] + kept)[1..] == kept;
      } else {
        assert OfClass(ips, class_) == kept;
      }
    }
  }

  // ----- The public IPv6 field -----

  /** The first non-empty IPv6 entry, if any, is public. */
  ghost predicate LeadingV6Public(ips: seq<InstanceIP>) {
    forall k :: IsFirst(ips, AnyV6, k) ==> ips[k].isPublic
  }

  /** The first non-empty IPv6 entry repeats the address of the first public one. */
  ghost predicate LeadingV6Repeated(ips: seq<InstanceIP>) {
    exists k, j :: IsFirst(ips, AnyV6, k) && IsFirst(ips, PublicV6, j) && ips[k].address == ips[j].address
  }

  lemma FirstUnique(ips: seq<InstanceIP>, class_: Class, j: int, k: int)
    requires IsFirst(ips, class_, j) && IsFirst(ips, class_, k)
    ensures j == k
  {
  }

  /** A public entry that leads the IPv6 entries leads the public ones. */
  lemma LeadingPublicIsFirst(ips: seq<InstanceIP>, k: int)
    requires IsFirst(ips, AnyV6, k)
    ensures IsFirst(ips, PublicV6, k) <==> ips[k].isPublic
  {
  }

  /** Whatever public entry there is, some IPv6 entry leads. */
  lemma {:induction false} SomeLeads(ips: seq<InstanceIP>, class_: Class, j: nat) returns (k: int)
    requires j < |ips| && InClass(ips[j], class_) && ips[j].address != ""
    ensures k <= j && IsFirst(ips, class_, k)
  {
    if i: nat :| i < j && InClass(ips[i], class_) && ips[i].address != "" {
      k := SomeLeads(ips, class_, i);
    } else {
      k := j;
    }
  }

  /**
    The search the code makes and a search for public entries select the same
    entry if and only if the first non-empty IPv6 entry, if any, is public.
  */
  lemma PublicV6Selection(ips: seq<InstanceIP>)
    ensures (forall k :: IsFirst(ips, AnyV6, k) <==> IsFirst(ips, PublicV6, k)) <==> LeadingV6Public(ips)
  {
    forall k | IsFirst(ips, AnyV6, k) ensures IsFirst(ips, PublicV6, k) <==> ips[k].isPublic {
      LeadingPublicIsFirst(ips, k);
    }
    if LeadingV6Public(ips) {
      forall j | IsFirst(ips, PublicV6, j) ensures IsFirst(ips, AnyV6, j) {
        var k := SomeLeads(ips, AnyV6, j);
        FirstUnique(ips, PublicV6, j, k);
      }
    }
  }

  /**
    The two searches yield the same address if and only if the first non-empty
    IPv6 entry, if any, is public or repeats the address of the first public one.
  */
  lemma PublicV6Address(ips: seq<InstanceIP>)
    ensures FirstAddress(ips, AnyV6) == FirstAddress(ips, PublicV6) <==> LeadingV6Public(ips) || LeadingV6Repeated(ips)
  {
    FirstAddressIsFirst(ips, AnyV6);
    FirstAddressIsFirst(ips, PublicV6);
    PublicV6Selection(ips);
    if k :| IsFirst(ips, AnyV6, k) {
      if j :| IsFirst(ips, PublicV6, j) {
        forall k' | IsFirst(ips, AnyV6, k') ensures k' == k { FirstUnique(ips, AnyV6, k, k'); }
        forall j' | IsFirst(ips, PublicV6, j') ensures j' == j { FirstUnique(ips, PublicV6, j, j'); }
        LeadingPublicIsFirst(ips, k);
      } else {
        LeadingPublicIsFirst(ips, k);
      }
    }
  }

  /** The addresses that the conversion searches. */
  function AddressList(hw: Hardware): seq<InstanceIP> {
    if hw.metadata.Some? && hw.metadata.value.inst.Some? then hw.metadata.value.inst.value.ips else []
  }

  /** The instance that a hardware object describes, field by field. */
  function Convert(hw: Hardware): Instance {
    var inst := if hw.metadata.Some? then hw.metadata.value.inst else None;
    var facility := if hw.metadata.Some? then hw.metadata.value.facility else None;
    var os := if inst.Some? then inst.value.operatingSystem else None;
    var ips := AddressList(hw);
    Instance(
      if hw.userData.Some? then hw.userData.value else "",
      Metadata(
        if inst.Some? then inst.value.id else "",
        if inst.Some? then inst.value.hostname else "",
        if inst.Some? then inst.value.hostname else "",
        "",
        if facility.Some? then facility.value.planSlug else "",
        if facility.Some? then facility.value.facilityCode else "",
        if inst.Some? then inst.value.tags else [],
        [],
        FirstAddress(ips, PublicV4),
        FirstAddress(ips, AnyV6),
        FirstAddress(ips, LocalV4),
        if os.Some?
        then OperatingSystem(os.value.slug, os.value.distro, os.value.version, os.value.imageTag, LicenseActivation(""))
        else OperatingSystem("", "", "", "", LicenseActivation(""))))
  }

  /** The k-th entry is the first one wanted whose address is not empty. */
  ghost predicate Leads(ips: seq<InstanceIP>, k: int, wanted: InstanceIP -> bool) {
    && 0 <= k < |ips| && wanted(ips[k]) && ips[k].address != ""
    && forall j :: 0 <= j < k && wanted(ips[j]) ==> ips[j].address == ""
  }

  /** address is that of the leading entry wanted, or empty when there is none. */
  ghost predicate LeadingAddress(ips: seq<InstanceIP>, wanted: InstanceIP -> bool, address: string) {
    && (forall k :: Leads(ips, k, wanted) ==> address == ips[k].address)
    && (address == "" <==> forall k :: 0 <= k < |ips| && wanted(ips[k]) ==> ips[k].address == "")
  }

  lemma FirstLeads(ips: seq<InstanceIP>, class_: Class, wanted: InstanceIP -> bool)
    requires forall ip :: InClass(ip, class_) <==> wanted(ip)
    ensures LeadingAddress(ips, wanted, FirstAddress(ips, class_))
  {
    FirstAddressIsFirst(ips, class_);
    forall k | Leads(ips, k, wanted) ensures FirstAddress(ips, class_) == ips[k].address {
      assert IsFirst(ips, class_, k);
    }
  }

  /** Each address field is the first non-empty address of its kind: public IPv4, other IPv4, any IPv6. */
  lemma ConvertedAddresses(hw: Hardware, inst: HardwareInstance)
    requires hw.metadata.Some? && hw.metadata.value.inst == Some(inst)
    ensures LeadingAddress(inst.ips, (ip: InstanceIP) => ip.family == 4 && ip.isPublic, Convert(hw).metadata.publicIPv4)
    ensures LeadingAddress(inst.ips, (ip: InstanceIP) => ip.family == 4 && !ip.isPublic, Convert(hw).metadata.localIPv4)
    ensures LeadingAddress(inst.ips, (ip: InstanceIP) => ip.family == 6, Convert(hw).metadata.publicIPv6)
  {
    FirstLeads(inst.ips, PublicV4, (ip: InstanceIP) => ip.family == 4 && ip.isPublic);
    FirstLeads(inst.ips, LocalV4, (ip: InstanceIP) => ip.family == 4 && !ip.isPublic);
    FirstLeads(inst.ips, AnyV6, (ip: InstanceIP) => ip.family == 6);
  }

  /** One pass over the addresses does the work of three first-match searches. */
  method ToEC2Instance(hw: Hardware) returns (i: Instance)
    ensures i == Convert(hw)
  {
    i := EMPTY_INSTANCE;
    if hw.metadata.Some? && hw.metadata.value.inst.Some? {
      var inst := hw.metadata.value.inst.value;
      i := i.(metadata := i.metadata.(instanceID := inst.id));
      i := i.(metadata := i.metadata.(hostname := inst.hostname));
      i := i.(metadata := i.metadata.(localHostname := inst.hostname));
      i := i.(metadata := i.metadata.(tags := inst.tags));
      if inst.operatingSystem.Some? {
        var os := inst.operatingSystem.value;
        i := i.(metadata := i.metadata.(operatingSystem := i.metadata.operatingSystem.(slug := os.slug)));
        i := i.(metadata := i.metadata.(operatingSystem := i.metadata.operatingSystem.(distro := os.distro)));
        i := i.(metadata := i.metadata.(operatingSystem := i.metadata.operatingSystem.(version := os.version)));
        i := i.(metadata := i.metadata.(operatingSystem := i.metadata.operatingSystem.(imageTag := os.imageTag)));
      }
      ghost var before := i;
      for n := 0 to |inst.ips|
        invariant i == before.(metadata := before.metadata.(
                         publicIPv4 := FirstAddress(inst.ips[..n], PublicV4),
                         localIPv4 := FirstAddress(inst.ips[..n], LocalV4),
                         publicIPv6 := FirstAddress(inst.ips[..n], AnyV6)))
      {
        var ip := inst.ips[n];
        NextAddress(inst.ips, n);
        if ip.family == 4 && ip.isPublic && i.metadata.publicIPv4 == "" {
          i := i.(metadata := i.metadata.(publicIPv4 := ip.address));
        }
        if ip.family == 4 && !ip.isPublic && i.metadata.localIPv4 == "" {
          i := i.(metadata := i.metadata.(localIPv4 := ip.address));
        }
        if ip.family == 6 && i.metadata.publicIPv6 == "" {
          i := i.(metadata := i.metadata.(publicIPv6 := ip.address));
        }
      }
      assert inst.ips[..|inst.ips|] == inst.ips;
    }
    if hw.metadata.Some? && hw.metadata.value.facility.Some? {
      i := i.(metadata := i.metadata.(plan := hw.metadata.value.facility.value.planSlug));
      i := i.(metadata := i.metadata.(facility := hw.metadata.value.facility.value.facilityCode));
    }
    if hw.userData.Some? {
      i := i.(userdata := hw.userData.value);
    }
  }

  lemma NextAddress(ips: seq<InstanceIP>, n: nat)
    requires n < |ips|
    ensures forall class_ :: FirstAddress(ips[..n + 1], class_) ==
              if FirstAddress(ips[..n], class_) != "" then FirstAddress(ips[..n], class_)
              else if InClass(ips[n], class_) then ips[n].address else ""
  {
    assert ips[..n + 1] == ips[..n] + [ips[n]];
    forall class_ ensures FirstAddress(ips[..n + 1], class_) ==
              if FirstAddress(ips[..n], class_) != "" then FirstAddress(ips[..n], class_)
              else if InClass(ips[n], class_) then ips[n].address else ""
    {
      FirstAddressAppend(ips[..n], [ips[n]], class_);
      assert [ips[n]][1..] == [];
    }
  }

  /**
    The converted public IPv6 field is the first non-empty public IPv6 address if
    and only if the first non-empty IPv6 entry, if any, is public or repeats it.
  */
  lemma PublicIPv6Field(hw: Hardware)
    ensures Convert(hw).metadata.publicIPv6 == FirstAddress(AddressList(hw), PublicV6) <==>
              LeadingV6Public(AddressList(hw)) || LeadingV6Repeated(AddressList(hw))
  {
    PublicV6Address(AddressList(hw));
  }

  /** One hardware object whose only address is an IPv6 address that is not public. */
  const PRIVATE_V6_HARDWARE: Hardware :=
    var inst := HardwareInstance("", "", [], None, [InstanceIP("fd00::1", 6, false)]);
    Hardware("private-v6", [], Some(HardwareMetadata(Some(inst), None)), None)

  /** It has no public IPv6 entry, and its address is converted as the public IPv6 address all the same. */
  lemma PrivateV6Converted()
    ensures forall ip :: ip in AddressList(PRIVATE_V6_HARDWARE) ==> !InClass(ip, PublicV6)
    ensures FirstAddress(AddressList(PRIVATE_V6_HARDWARE), PublicV6) == ""
    ensures Convert(PRIVATE_V6_HARDWARE).metadata.publicIPv6 == "fd00::1"
  {
    var ips := AddressList(PRIVATE_V6_HARDWARE);
    assert ips == [InstanceIP("fd00::1", 6, false)];
    assert ips[1..] == [];
  }
}
