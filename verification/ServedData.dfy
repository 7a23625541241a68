/**
  What is read at the paths of the configured router: the bodies of the four
  listings, and, for the machine whose address belongs to one hardware object,
  the part of that object behind each data endpoint.
*/
module ServedData {
  import opened GoStrings
  import opened Wrappers
  import opened Ec2
  import opened Routing
  import opened Responses
  import opened Kubernetes
  import opened Requests
  import opened ServedTable

  // ----- Listings -----

  /** Everyone reads this listing at path, one name a line, with and without the trailing slash. */
  ghost predicate ReadsListing(table: Table, path: string, names: seq<string>) {
    && path in table && path + "/" in table
    && forall remote, client ::
         && Respond(table[path], remote, client) == Response(200, Join(names, '\n'))
         && Respond(table[path + "/"], remote, client) == Response(200, Join(names, '\n'))
  }

  lemma ListingRead(table: Table, path: string, names: seq<string>)
    requires AnswersTwice(table, path, StaticHandler(names))
    ensures ReadsListing(table, path, names)
  {
    forall remote, client
      ensures Respond(table[path], remote, client) == Response(200, Join(names, '\n'))
      ensures Respond(table[path + "/"], remote, client) == Response(200, Join(names, '\n'))
    {
      ListingServed(names, remote, client);
    }
  }

  /** The bodies of the four listings, whoever asks and whatever the backend holds. */
  lemma ListingsRead(table: Table)
    requires ServesTable(table)
    ensures forall remote, client ::
              Respond(table["/2009-04-04"], remote, client) == Response(200, "meta-data/\nuser-data")
    ensures ReadsListing(table, "/2009-04-04", ["meta-data/", "user-data"])
    ensures ReadsListing(table, "/2009-04-04/meta-data",
                  ["facility", "hostname", "instance-id", "iqn", "local-hostname", "local-ipv4",
                   "operating-system/", "plan", "public-ipv4", "public-ipv6", "public-keys", "tags"])
    ensures ReadsListing(table, "/2009-04-04/meta-data/operating-system",
                  ["distro", "image_tag", "license_activation/", "slug", "version"])
    ensures ReadsListing(table, "/2009-04-04/meta-data/operating-system/license_activation", ["state"])
  {
    ListingRead(table, "/2009-04-04", ["meta-data/", "user-data"]);
    RootBody();
    ListingRead(table, "/2009-04-04/meta-data",
                ["facility", "hostname", "instance-id", "iqn", "local-hostname", "local-ipv4",
                 "operating-system/", "plan", "public-ipv4", "public-ipv6", "public-keys", "tags"]);
    ListingRead(table, "/2009-04-04/meta-data/operating-system",
                ["distro", "image_tag", "license_activation/", "slug", "version"]);
    ListingRead(table, "/2009-04-04/meta-data/operating-system/license_activation", ["state"]);
  }

  lemma RootBody()
    ensures Join(["meta-data/", "user-data"], '\n') == "meta-data/\nuser-data"
  {
    assert ["meta-data/", "user-data"][1..] == ["user-data"];
  }

  // ----- Data -----

  /** The machine at ip reads this body at path, with and without the trailing slash. */
  ghost predicate Reads(table: Table, objects: seq<Object>, ip: string, path: string, body: string) {
    && path in table && Respond(table[path], Some(ip), KubernetesClient(Ok(objects))) == Response(200, body)
    && path + "/" in table && Respond(table[path + "/"], Some(ip), KubernetesClient(Ok(objects))) == Response(200, body)
  }

  lemma OwnerReads(table: Table, objects: seq<Object>, ip: string, k: int, path: string, projection: Instance -> string)
    requires AnswersData(table, path, projection) && OnlyOneAnswers(objects, ip, k)
    ensures Reads(table, objects, ip, path, projection(Convert(objects[k].hw)))
  {
    var filter :| AnswersTwice(table, path, DataHandler(filter)) && forall i :: filter(i) == projection(i);
    LookupTrichotomy(objects, ip, filter);
  }

  /** The parts of a hardware object, each of them possibly absent. */
  function InstanceOf(hw: Hardware): Option<HardwareInstance> {
    match hw.metadata
    case None => None
    case Some(metadata) => metadata.inst
  }

  function SystemOf(hw: Hardware): Option<HardwareOS> {
    match InstanceOf(hw)
    case None => None
    case Some(inst) => inst.operatingSystem
  }

  function FacilityOf(hw: Hardware): Option<HardwareFacility> {
    match hw.metadata
    case None => None
    case Some(metadata) => metadata.facility
  }

  /** The names are those of the owner's instance; both hostname endpoints serve its hostname. */
  lemma OwnerReadsNames(table: Table, objects: seq<Object>, ip: string, k: int)
    requires ServesTable(table) && OnlyOneAnswers(objects, ip, k)
    ensures Reads(table, objects, ip, "/2009-04-04/meta-data/instance-id",
                  match InstanceOf(objects[k].hw) case None => "" case Some(inst) => inst.id)
    ensures Reads(table, objects, ip, "/2009-04-04/meta-data/hostname",
                  match InstanceOf(objects[k].hw) case None => "" case Some(inst) => inst.hostname)
    ensures Reads(table, objects, ip, "/2009-04-04/meta-data/local-hostname",
                  match InstanceOf(objects[k].hw) case None => "" case Some(inst) => inst.hostname)
  {
    OwnerReads(table, objects, ip, k, "/2009-04-04/meta-data/instance-id", (i: Instance) => i.metadata.instanceID);
    OwnerReads(table, objects, ip, k, "/2009-04-04/meta-data/hostname", (i: Instance) => i.metadata.hostname);
    OwnerReads(table, objects, ip, k, "/2009-04-04/meta-data/local-hostname",
               (i: Instance) => i.metadata.localHostname);
  }

  /** The tags are the instance's, one a line. */
  lemma OwnerReadsTags(table: Table, objects: seq<Object>, ip: string, k: int)
    requires ServesTable(table) && OnlyOneAnswers(objects, ip, k)
    ensures Reads(table, objects, ip, "/2009-04-04/meta-data/tags",
                  match InstanceOf(objects[k].hw) case None => "" case Some(inst) => Join(inst.tags, '\n'))
  {
    OwnerReads(table, objects, ip, k, "/2009-04-04/meta-data/tags", (i: Instance) => Join(i.metadata.tags, '\n'));
  }

  /** The operating system is the instance's. */
  lemma OwnerReadsSystem(table: Table, objects: seq<Object>, ip: string, k: int)
    requires ServesTable(table) && OnlyOneAnswers(objects, ip, k)
    ensures Reads(table, objects, ip, "/2009-04-04/meta-data/operating-system/slug",
                  match SystemOf(objects[k].hw) case None => "" case Some(os) => os.slug)
    ensures Reads(table, objects, ip, "/2009-04-04/meta-data/operating-system/distro",
                  match SystemOf(objects[k].hw) case None => "" case Some(os) => os.distro)
    ensures Reads(table, objects, ip, "/2009-04-04/meta-data/operating-system/version",
                  match SystemOf(objects[k].hw) case None => "" case Some(os) => os.version)
    ensures Reads(table, objects, ip, "/2009-04-04/meta-data/operating-system/image_tag",
                  match SystemOf(objects[k].hw) case None => "" case Some(os) => os.imageTag)
  {
    OwnerReads(table, objects, ip, k, "/2009-04-04/meta-data/operating-system/slug",
               (i: Instance) => i.metadata.operatingSystem.slug);
    OwnerReads(table, objects, ip, k, "/2009-04-04/meta-data/operating-system/distro",
               (i: Instance) => i.metadata.operatingSystem.distro);
    OwnerReads(table, objects, ip, k, "/2009-04-04/meta-data/operating-system/version",
               (i: Instance) => i.metadata.operatingSystem.version);
    OwnerReads(table, objects, ip, k, "/2009-04-04/meta-data/operating-system/image_tag",
               (i: Instance) => i.metadata.operatingSystem.imageTag);
  }

  /** The plan and the facility are the hardware's. */
  lemma OwnerReadsFacility(table: Table, objects: seq<Object>, ip: string, k: int)
    requires ServesTable(table) && OnlyOneAnswers(objects, ip, k)
    ensures Reads(table, objects, ip, "/2009-04-04/meta-data/plan",
                  match FacilityOf(objects[k].hw) case None => "" case Some(facility) => facility.planSlug)
    ensures Reads(table, objects, ip, "/2009-04-04/meta-data/facility",
                  match FacilityOf(objects[k].hw) case None => "" case Some(facility) => facility.facilityCode)
  {
    OwnerReads(table, objects, ip, k, "/2009-04-04/meta-data/plan", (i: Instance) => i.metadata.plan);
    OwnerReads(table, objects, ip, k, "/2009-04-04/meta-data/facility", (i: Instance) => i.metadata.facility);
  }

  /** The user data is the hardware's. */
  lemma OwnerReadsUserData(table: Table, objects: seq<Object>, ip: string, k: int)
    requires ServesTable(table) && OnlyOneAnswers(objects, ip, k)
    ensures Reads(table, objects, ip, "/2009-04-04/user-data",
                  match objects[k].hw.userData case None => "" case Some(data) => data)
  {
    OwnerReads(table, objects, ip, k, "/2009-04-04/user-data", (i: Instance) => i.userdata);
  }

  /** What the hardware object has no field for is empty. */
  lemma OwnerReadsBlanks(table: Table, objects: seq<Object>, ip: string, k: int)
    requires ServesTable(table) && OnlyOneAnswers(objects, ip, k)
    ensures Reads(table, objects, ip, "/2009-04-04/meta-data/iqn", "")
    ensures Reads(table, objects, ip, "/2009-04-04/meta-data/public-keys", "")
    ensures Reads(table, objects, ip, "/2009-04-04/meta-data/operating-system/license_activation/state", "")
  {
    OwnerReads(table, objects, ip, k, "/2009-04-04/meta-data/iqn", (i: Instance) => i.metadata.iqn);
    OwnerReads(table, objects, ip, k, "/2009-04-04/meta-data/public-keys",
               (i: Instance) => Join(i.metadata.publicKeys, '\n'));
    OwnerReads(table, objects, ip, k, "/2009-04-04/meta-data/operating-system/license_activation/state",
               (i: Instance) => i.metadata.operatingSystem.licenseActivation.state);
  }

  /** The address at path is the owner's first non-empty one of the wanted kind, and empty when there is none. */
  ghost predicate ReadsAddress(table: Table, objects: seq<Object>, ip: string, k: int, path: string,
                               wanted: InstanceIP -> bool)
    requires 0 <= k < |objects| && objects[k].HardwareObject?
  {
    var ips := match InstanceOf(objects[k].hw) case None => [] case Some(inst) => inst.ips;
    exists address :: Reads(table, objects, ip, path, address) && LeadingAddress(ips, wanted, address)
  }

  lemma AddressRead(table: Table, objects: seq<Object>, ip: string, k: int, path: string,
                    projection: Instance -> string, wanted: InstanceIP -> bool)
    requires OnlyOneAnswers(objects, ip, k) && AnswersData(table, path, projection)
    requires var hw := objects[k].hw;
             match InstanceOf(hw)
             case None => projection(Convert(hw)) == ""
             case Some(inst) => LeadingAddress(inst.ips, wanted, projection(Convert(hw)))
    ensures ReadsAddress(table, objects, ip, k, path, wanted)
  {
    OwnerReads(table, objects, ip, k, path, projection);
  }

  lemma AddressesRead(table: Table, objects: seq<Object>, ip: string, k: int)
    requires ServesAddresses(table) && OnlyOneAnswers(objects, ip, k)
    ensures ReadsAddress(table, objects, ip, k, "/2009-04-04/meta-data/public-ipv4",
                         (entry: InstanceIP) => entry.family == 4 && entry.isPublic)
    ensures ReadsAddress(table, objects, ip, k, "/2009-04-04/meta-data/local-ipv4",
                         (entry: InstanceIP) => entry.family == 4 && !entry.isPublic)
    ensures ReadsAddress(table, objects, ip, k, "/2009-04-04/meta-data/public-ipv6",
                         (entry: InstanceIP) => entry.family == 6)
  {
    var hw := objects[k].hw;
    if InstanceOf(hw).Some? {
      ConvertedAddresses(hw, InstanceOf(hw).value);
    }
    AddressRead(table, objects, ip, k, "/2009-04-04/meta-data/public-ipv4",
                (i: Instance) => i.metadata.publicIPv4, (entry: InstanceIP) => entry.family == 4 && entry.isPublic);
    AddressRead(table, objects, ip, k, "/2009-04-04/meta-data/local-ipv4",
                (i: Instance) => i.metadata.localIPv4, (entry: InstanceIP) => entry.family == 4 && !entry.isPublic);
    AddressRead(table, objects, ip, k, "/2009-04-04/meta-data/public-ipv6",
                (i: Instance) => i.metadata.publicIPv6, (entry: InstanceIP) => entry.family == 6);
  }

  /** Each address endpoint serves the owner's first non-empty address of its kind. */
  lemma OwnerReadsAddresses(table: Table, objects: seq<Object>, ip: string, k: int)
    requires ServesTable(table) && OnlyOneAnswers(objects, ip, k)
    ensures ReadsAddress(table, objects, ip, k, "/2009-04-04/meta-data/public-ipv4",
                         (entry: InstanceIP) => entry.family == 4 && entry.isPublic)
    ensures ReadsAddress(table, objects, ip, k, "/2009-04-04/meta-data/local-ipv4",
                         (entry: InstanceIP) => entry.family == 4 && !entry.isPublic)
    ensures ReadsAddress(table, objects, ip, k, "/2009-04-04/meta-data/public-ipv6",
                         (entry: InstanceIP) => entry.family == 6)
  {
    AddressesRead(table, objects, ip, k);
  }
}
