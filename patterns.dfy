/**
 * The regular expressions the fact collectors of asa_facts.py search for. A pattern is
 * named by the helper that uses it; `Source` gives its text as the source writes it and
 * `Multiline` whether the helper passes `re.M`.
 */
module Patterns {

  datatype Pattern =
      // Default
    | Version | Hostname | Model | Image | Serialnum | AsdmVersion | AsdmImage
    | StackedModels | StackedSerialnums
      // Failover
    | FailoverOn | ThisHost | OtherHost
      // Hardware
    | Filesystems
      // Config
    | BootImages | ConfiguredAsdmImage
      // Interfaces
    | Description | MacAddress | Mtu | LineProtocol | OperStatus | InterfaceType
    | Ipv4Addr | Ipv4Subnet

  /** The pattern's text, as the raw string literal of its helper writes it. */
  function Source(p: Pattern): string {
    match p
    case Version => "Version (\\S+?)(?:,\\s|\\s)"
    case Hostname => "^(.+) up"
    case Model => "Hardware:\\s+(\\w+), "
    case Image => "image file is \"(.+)\""
    case Serialnum => "Serial Number: (\\S+)"
    case AsdmVersion => "Device Manager Version (\\S+)"
    case AsdmImage => "Device Manager image file, (.+)"
    case StackedModels => "^Model number\\s+: (\\S+)"
    case StackedSerialnums => "^System serial number\\s+: (\\S+)"
    case FailoverOn => "Failover On"
    case ThisHost => "This host:\\s+(Primary|Secondary) - (.+)"
    case OtherHost => "Other host:\\s+(Primary|Secondary) - (.+)"
    case Filesystems => "^Directory of (\\S+)/"
    case BootImages => "boot system (.+)"
    case ConfiguredAsdmImage => "asdm image (.+)"
    case Description => "Description: (.+)$"
    case MacAddress => "MAC address (.+),"
    case Mtu => "MTU (\\S+)"
    case LineProtocol => "line protocol is (.+)$"
    case OperStatus => "^(?:.+) is (.+),"
    case InterfaceType => "Hardware is (.+),"
    case Ipv4Addr => "IP address (.+),"
    case Ipv4Subnet => "subnet mask (.+)"
  }

  /** Whether the helper searches with `re.M`, so that `^` and `$` match at every line. */
  predicate Multiline(p: Pattern) {
    match p
    case Hostname | StackedModels | StackedSerialnums | Filesystems | BootImages
       | Description | LineProtocol | OperStatus | InterfaceType => true
    case _ => false
  }
}
