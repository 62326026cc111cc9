/** Values shared by the soft-access-point API: fixed-width addresses, the
    status and command enumerations of the driver, the completion arguments
    every API function takes, and the caller-owned variables the functions
    receive pointers to. */
module EspTypes {

  datatype Option<+T> = None | Some(value: T) {
    function GetOr(default: T): T {
      match this
      case Some(v) => v
      case None => default
    }
  }

  /** An IPv4 address: the four bytes of esp_ip_t. */
  type Ip = s: seq<bv8> | |s| == 4 witness [0, 0, 0, 0]

  /** A MAC address: the six bytes of esp_mac_t. */
  type Mac = s: seq<bv8> | |s| == 6 witness [0, 0, 0, 0, 0, 0]

  /** The address a zero-filled record holds. */
  const ZeroIp: Ip := [0, 0, 0, 0]

  /** espr_t. Only the parameter error is produced by this layer; every other
      status comes from the dispatcher and is carried through unchanged. */
  datatype Espr = Ok | ParErr | Failed(code: nat)

  /** esp_ecn_t: the four encryption types an access point may use, and any
      other value the enumeration parameter can hold. */
  datatype Ecn = Open | WpaPsk | Wpa2Psk | WpaWpa2Psk | Unlisted(code: int)

  /** The esp_cmd_t tags this API issues. Idle is the tag of a record that
      has just been allocated and zero-filled. */
  datatype Cmd = Idle | CipApGet | CipApSet | CipApMacGet | CipApMacSet | CwSapSet | CwLif | CwQif

  /** esp_api_cmd_evt_fn: NULL or the entry point of a callback. */
  datatype EvtFn = NoEvtFn | EvtFn(entry: nat)

  /** The three trailing arguments of every API function: the callback, its
      opaque argument (a pointer value) and the blocking flag. */
  datatype Completion = Completion(evtFn: EvtFn, evtArg: nat, blocking: bv32)

  /** esp_sta_t: one station connected to the access point. */
  datatype Sta = Sta(ip: Ip, mac: Mac)

  /** A caller-owned esp_ip_t variable. */
  class IpVar {
    var ip: Ip

    constructor (ip: Ip)
      ensures this.ip == ip
    {
      this.ip := ip;
    }
  }

  /** A caller-owned esp_mac_t variable. */
  class MacVar {
    var mac: Mac

    constructor (mac: Mac)
      ensures this.mac == mac
    {
      this.mac := mac;
    }
  }

  /** A caller-owned size_t variable. */
  class SizeVar {
    var value: nat

    constructor (value: nat)
      ensures this.value == value
    {
      this.value := value;
    }
  }
}
