/** The values the collector passes around: what one poll of one lighthouse found. */
module Model {
  import opened Basics

  datatype Lighthouse = Lighthouse(name: string, user: string, address: string)

  function Target(l: Lighthouse): string {
    l.user + "@" + l.address
  }

  datatype CommandResult = CommandResult(
    command: string, startedAt: int, finishedAt: int, output: string, err: Option<string>)

  const COMMANDS: seq<string> := [
    "version", "device-info -json", "list-hostmap -json", "list-lighthouse-addrmap -json",
    "list-pending-hostmap -json", "print-relays"]

  datatype Certificate = Certificate(name: string, fingerprint: string, groups: seq<string>)

  datatype HostmapEntry = HostmapEntry(
    vpnAddrs: seq<string>, localIndex: nat, remoteIndex: nat, cert: Option<Certificate>)

  function PrimaryVPNAddr(e: HostmapEntry): string {
    if |e.vpnAddrs| == 0 then "" else e.vpnAddrs[0]
  }

  datatype AddrEntry = AddrEntry(learned: seq<string>, reported: seq<string>, relay: seq<string>)

  datatype AddrmapEntry = AddrmapEntry(vpnAddr: string, addrs: map<string, AddrEntry>)

  datatype PollResult = PollResult(
    lighthouse: Lighthouse,
    startedAt: int,
    finishedAt: int,
    commands: seq<CommandResult>,
    nebulaVersion: string,
    hostmap: seq<HostmapEntry>,
    pending: seq<HostmapEntry>,
    addrmap: seq<AddrmapEntry>,
    relays: string,
    err: Option<string>)

  datatype PresentPeer = PresentPeer(
    lighthouseName: string,
    peerKey: string,
    primaryVPNAddr: string,
    vpnAddrs: seq<string>,
    certName: string,
    certFingerprint: string,
    certGroups: seq<string>,
    nebulaVersion: string)
}
