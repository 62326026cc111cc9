/** The command-request record (esp_msg_t) as far as the access-point API
    fills it: a command tag, the completion arguments, and one payload
    variant of the message union. */
module EspMsg {
  import opened EspTypes

  /** The payload union. Fixed-size addresses given for a "set" or a
      "disconnect" are COPIED: the variant holds the bytes. Strings, the
      station array and every output location are REFERENCED: the variant
      holds the caller's object itself. */
  datatype Payload =
    | Zeroed
    | ApGetIp(ipOut: IpVar?, gwOut: IpVar?, nmOut: IpVar?)
    | ApSetIp(ip: Ip, gw: Ip, nm: Ip)
    | ApGetMac(macOut: MacVar?)
    | ApSetMac(mac: Mac)
    | ApConf(ssid: array<char>, pwd: array?<char>, ch: bv8, ecn: Ecn, maxSta: bv8, hid: bv8)
    | StaList(stas: array<Sta>, stal: nat, staf: SizeVar?)
    | ApDisconnSta(mac: Mac)
  {
    /** The caller-owned objects the payload refers to: the memory the
        worker reads or writes when it later executes the command. */
    function Borrowed(): set<object>
    {
      match this
      case Zeroed => {}
      case ApGetIp(ip, gw, nm) => NonNull(ip) + NonNull(gw) + NonNull(nm)
      case ApSetIp(_, _, _) => {}
      case ApGetMac(mac) => NonNull(mac)
      case ApSetMac(_) => {}
      case ApConf(ssid, pwd, _, _, _, _) => {ssid} + NonNull(pwd)
      case StaList(stas, _, staf) => {stas} + NonNull(staf)
      case ApDisconnSta(_) => {}
    }
  }

  function NonNull(o: object?): set<object>
  {
    if o == null then {} else {o}
  }

  /** The value of a record: everything the dispatcher receives. */
  datatype Record = Record(cmd: Cmd, evtFn: EvtFn, evtArg: nat, blocking: bv32, payload: Payload)

  /** The zero-filled record ESP_MSG_VAR_ALLOC produces for a caller. */
  function Blank(blocking: bv32): Record
  {
    Record(Idle, NoEvtFn, 0, blocking, Zeroed)
  }

  /** One entry of the producer mailbox, as a value: the record and the
      timeout it was submitted with. */
  datatype Request = Request(rec: Record, timeout: nat)

  /** A message record object, filled field by field by the API functions. */
  class Msg {
    var cmdDef: Cmd
    var evtFn: EvtFn
    var evtArg: nat
    var blocking: bv32
    var payload: Payload

    function Value(): Record
      reads this
    {
      Record(cmdDef, evtFn, evtArg, blocking, payload)
    }

    constructor (blocking: bv32)
      ensures Value() == Blank(blocking)
    {
      cmdDef := Idle;
      evtFn := NoEvtFn;
      evtArg := 0;
      this.blocking := blocking;
      payload := Zeroed;
    }

    /** ESP_MSG_VAR_SET_EVT: records the callback and its argument. */
    method SetEvt(evtFn: EvtFn, evtArg: nat)
      modifies this
      ensures Value() == old(Value()).(evtFn := evtFn, evtArg := evtArg)
    {
      this.evtFn := evtFn;
      this.evtArg := evtArg;
    }
  }
}
