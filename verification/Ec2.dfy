/** The EC2 instance data model and the table of data endpoints. */
module Ec2 {
  import opened GoStrings

  datatype Instance = Instance(userdata: string, metadata: Metadata)

  datatype Metadata = Metadata(
    instanceID: string,
    hostname: string,
    localHostname: string,
    iqn: string,
    plan: string,
    facility: string,
    tags: seq<string>,
    publicKeys: seq<string>,
    publicIPv4: string,
    publicIPv6: string,
    localIPv4: string,
    operatingSystem: OperatingSystem)

  datatype OperatingSystem = OperatingSystem(
    slug: string,
    distro: string,
    version: string,
    imageTag: string,
    licenseActivation: LicenseActivation)

  datatype LicenseActivation = LicenseActivation(state: string)

  /** Go's zero value of Instance. */
  const EMPTY_INSTANCE: Instance :=
    Instance("", Metadata("", "", "", "", "", "", [], [], "", "", "",
                          OperatingSystem("", "", "", "", LicenseActivation(""))))

  type Filter = Instance -> string

  datatype DataRoute = DataRoute(endpoint: string, filter: Filter)

  const NEWLINE := '\n'

  /** The body of a listing or of a multi-valued field: one entry a line. */
  function JoinLines(v: seq<string>): string {
    Join(v, NEWLINE)
  }

  function DataRoutes(): seq<DataRoute> {
    [ DataRoute("/user-data", (i: Instance) => i.userdata),
      DataRoute("/meta-data/instance-id", (i: Instance) => i.metadata.instanceID),
      DataRoute("/meta-data/hostname", (i: Instance) => i.metadata.hostname),
      DataRoute("/meta-data/local-hostname", (i: Instance) => i.metadata.localHostname),
      DataRoute("/meta-data/iqn", (i: Instance) => i.metadata.iqn),
      DataRoute("/meta-data/plan", (i: Instance) => i.metadata.plan),
      DataRoute("/meta-data/facility", (i: Instance) => i.metadata.facility),
      DataRoute("/meta-data/tags", (i: Instance) => JoinLines(i.metadata.tags)),
      DataRoute("/meta-data/public-ipv4", (i: Instance) => i.metadata.publicIPv4),
      DataRoute("/meta-data/public-ipv6", (i: Instance) => i.metadata.publicIPv6),
      DataRoute("/meta-data/local-ipv4", (i: Instance) => i.metadata.localIPv4),
      DataRoute("/meta-data/public-keys", (i: Instance) => JoinLines(i.metadata.publicKeys)),
      DataRoute("/meta-data/operating-system/slug", (i: Instance) => i.metadata.operatingSystem.slug),
      DataRoute("/meta-data/operating-system/distro", (i: Instance) => i.metadata.operatingSystem.distro),
      DataRoute("/meta-data/operating-system/version", (i: Instance) => i.metadata.operatingSystem.version),
      DataRoute("/meta-data/operating-system/image_tag", (i: Instance) => i.metadata.operatingSystem.imageTag),
      DataRoute("/meta-data/operating-system/license_activation/state",
                (i: Instance) => i.metadata.operatingSystem.licenseActivation.state) ]
  }
}
