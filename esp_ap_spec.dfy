/** What a call of each soft-access-point API function does, as values:
    which arguments its guards accept, and the request (record and timeout)
    an accepted call places in the producer mailbox. A sequence of calls
    fills the mailbox with the requests of its accepted calls, in order. */
module EspApSpec {
  import opened EspTypes
  import opened EspMsg

  /** The arguments of one API call as the function receives them. A pointer
      whose pointee is copied appears as the pointee's value on entry (None
      for NULL); a pointer the record keeps appears as the reference. */
  datatype Call =
    | GetIp(ipOut: IpVar?, gwOut: IpVar?, nmOut: IpVar?)
    | SetIp(ip: Option<Ip>, gw: Option<Ip>, nm: Option<Ip>)
    | GetMac(macOut: MacVar?)
    | SetMac(mac: Option<Mac>)
    | Configure(ssid: array?<char>, pwd: array?<char>, ch: bv8, ecn: Ecn, maxSta: bv8, hid: bv8)
    | ListSta(sta: array?<Sta>, stal: nat, staf: SizeVar?)
    | DisconnSta(mac: Option<Mac>)

  /** A call together with its completion arguments. */
  datatype Invocation = Invocation(call: Call, cb: Completion)

  /** The multicast bit: bit 0 of the first byte of a MAC address. */
  predicate IsMulticast(mac: Mac)
    ensures IsMulticast(mac) <==> mac[0] as int % 2 == 1
  {
    mac[0] & 0x01 != 0
  }

  /** The encryption types an access point can be configured with. */
  predicate SupportedEcn(ecn: Ecn)
  {
    ecn == Open || ecn == WpaPsk || ecn == Wpa2Psk || ecn == WpaWpa2Psk
  }

  /** The ESP_ASSERT guards of each function, taken together. */
  predicate Admissible(c: Call)
  {
    match c
    case GetIp(_, _, _) => true
    case SetIp(ip, _, _) => ip.Some?
    case GetMac(_) => true
    case SetMac(mac) => mac.Some? && !IsMulticast(mac.value)
    case Configure(ssid, pwd, ch, ecn, maxSta, _) =>
      ssid != null && (pwd == null || pwd.Length <= 64) && SupportedEcn(ecn)
      && ch <= 128 && 0 < maxSta <= 10
    case ListSta(sta, stal, _) => sta != null && stal > 0
    case DisconnSta(mac) => mac.Some?
  }

  /** The command each function issues. */
  function CommandOf(c: Call): Cmd
  {
    match c
    case GetIp(_, _, _) => CipApGet
    case SetIp(_, _, _) => CipApSet
    case GetMac(_) => CipApMacGet
    case SetMac(_) => CipApMacSet
    case Configure(_, _, _, _, _, _) => CwSapSet
    case ListSta(_, _, _) => CwLif
    case DisconnSta(_) => CwQif
  }

  /** The timeout a command is submitted with. */
  function TimeoutFor(cmd: Cmd): nat
  {
    if cmd == CwSapSet then 10000 else 1000
  }

  /** The payload an accepted call stores. A NULL gateway or netmask given
      to SetIp leaves the zero-filled field in place. */
  function PayloadOf(c: Call): Payload
    requires Admissible(c)
  {
    match c
    case GetIp(ip, gw, nm) => ApGetIp(ip, gw, nm)
    case SetIp(ip, gw, nm) => ApSetIp(ip.value, gw.GetOr(ZeroIp), nm.GetOr(ZeroIp))
    case GetMac(mac) => ApGetMac(mac)
    case SetMac(mac) => ApSetMac(mac.value)
    case Configure(ssid, pwd, ch, ecn, maxSta, hid) => ApConf(ssid, pwd, ch, ecn, maxSta, hid)
    case ListSta(sta, stal, staf) => StaList(sta, stal, staf)
    case DisconnSta(mac) => ApDisconnSta(mac.value)
  }

  /** The request a call submits, or None when a guard rejects it. */
  function Expected(inv: Invocation): Option<Request>
  {
    var c, cb := inv.call, inv.cb;
    if Admissible(c) then
      Some(Request(Record(CommandOf(c), cb.evtFn, cb.evtArg, cb.blocking, PayloadOf(c)), TimeoutFor(CommandOf(c))))
    else
      None
  }

  /** The requests a sequence of calls places in the mailbox, in call order. */
  function Submitted(invs: seq<Invocation>): (s: seq<Request>)
    ensures |s| <= |invs|
    ensures forall k | 0 <= k < |s| :: s[k].rec.cmd != Idle && s[k].timeout == TimeoutFor(s[k].rec.cmd)
  {
    if invs == [] then []
    else
      var rest := Submitted(invs[..|invs| - 1]);
      match Expected(invs[|invs| - 1])
      case None => rest
      case Some(req) => rest + [req]
  }

  /** The accepted calls of a sequence, in order. */
  function Accepted(invs: seq<Invocation>): seq<Invocation>
  {
    if invs == [] then []
    else
      var last := invs[|invs| - 1];
      Accepted(invs[..|invs| - 1]) + if Admissible(last.call) then [last] else []
  }

  // ---------------------------------------------------------------------
  // Guards of the individual functions

  /** esp_ap_getip and esp_ap_getmac have no guards: they submit even when
      every output pointer is NULL. */
  lemma GettersAlwaysSubmit(ip: IpVar?, gw: IpVar?, nm: IpVar?, mac: MacVar?, cb: Completion)
    ensures Expected(Invocation(GetIp(ip, gw, nm), cb)).Some?
    ensures Expected(Invocation(GetMac(mac), cb)).Some?
    ensures Expected(Invocation(GetIp(null, null, null), cb)).Some?
    ensures Expected(Invocation(GetMac(null), cb)).Some?
  {
  }

  /** esp_ap_setip rejects exactly a NULL address; gateway and netmask are
      not checked. */
  lemma SetIpRejectsOnlyNullIp(ip: Option<Ip>, gw: Option<Ip>, nm: Option<Ip>, cb: Completion)
    ensures Expected(Invocation(SetIp(ip, gw, nm), cb)).None? <==> ip.None?
  {
  }

  /** A NULL gateway or netmask selects the default: the record keeps its
      zero-filled field; a given one is copied. */
  lemma SetIpDefaultsForNull(ip: Ip, gw: Option<Ip>, nm: Option<Ip>, cb: Completion)
    ensures var o := Expected(Invocation(SetIp(Some(ip), gw, nm), cb));
      o.Some? && o.value.rec.payload == ApSetIp(ip, if gw.Some? then gw.value else ZeroIp,
                                                    if nm.Some? then nm.value else ZeroIp)
  {
  }

  /** esp_ap_setmac rejects a NULL address and an address with the multicast
      bit set, and accepts every other. */
  lemma SetMacGuards(mac: Option<Mac>, cb: Completion)
    ensures Expected(Invocation(SetMac(mac), cb)).Some? <==> mac.Some? && mac.value[0] as int % 2 == 0
  {
  }

  /** esp_ap_configure accepts exactly when the SSID is given, the password
      is absent or at most 64 characters long, the encryption type is one of
      the four supported, the channel is at most 128 and the station limit
      lies in 1..10. The hidden flag is not checked. */
  lemma ConfigureGuards(ssid: array?<char>, pwd: array?<char>, ch: bv8, ecn: Ecn, maxSta: bv8, hid: bv8, cb: Completion)
    ensures Expected(Invocation(Configure(ssid, pwd, ch, ecn, maxSta, hid), cb)).Some? <==>
      && ssid != null
      && (pwd == null || pwd.Length <= 64)
      && (ecn == Open || ecn == WpaPsk || ecn == Wpa2Psk || ecn == WpaWpa2Psk)
      && ch as int <= 128
      && 1 <= maxSta as int <= 10
    ensures forall hid' :: Admissible(Configure(ssid, pwd, ch, ecn, maxSta, hid')) == Admissible(Configure(ssid, pwd, ch, ecn, maxSta, hid))
  {
  }

  /** A password of exactly 64 characters passes the guard, although the
      parameter's documentation asks for fewer than 64; 65 does not pass. */
  lemma PasswordOf64Accepted(ssid: array<char>, pwd: array<char>)
    ensures Admissible(Configure(ssid, pwd, 1, Wpa2Psk, 4, 0)) <==> pwd.Length <= 64
  {
  }

  /** esp_ap_list_sta rejects a NULL station array and a zero capacity; an
      accepted call stores the array, its capacity and the count pointer
      unchanged. */
  lemma ListStaGuards(sta: array?<Sta>, stal: nat, staf: SizeVar?, cb: Completion)
    ensures var o := Expected(Invocation(ListSta(sta, stal, staf), cb));
      && (o.Some? <==> sta != null && stal > 0)
      && (o.Some? ==> o.value.rec.payload == StaList(sta, stal, staf))
  {
  }

  /** esp_ap_disconn_sta rejects exactly a NULL address and copies the one
      it is given. */
  lemma DisconnStaGuards(mac: Option<Mac>, cb: Completion)
    ensures var o := Expected(Invocation(DisconnSta(mac), cb));
      && (o.Some? <==> mac.Some?)
      && (o.Some? ==> o.value.rec.payload == ApDisconnSta(mac.value))
  {
  }

  // ---------------------------------------------------------------------
  // What every accepted call submits

  /** An accepted call submits one record that carries the caller's
      completion arguments, the command of the function, and the timeout
      of that function: 10000 for esp_ap_configure, 1000 for the others. */
  lemma AcceptedRecord(inv: Invocation)
    ensures var o := Expected(inv);
      o.Some? ==>
        && o.value.rec.evtFn == inv.cb.evtFn
        && o.value.rec.evtArg == inv.cb.evtArg
        && o.value.rec.blocking == inv.cb.blocking
        && o.value.rec.cmd == CommandOf(inv.call)
        && o.value.timeout == (if inv.call.Configure? then 10000 else 1000)
  {
  }

  /** Copy versus reference: a record built from an address given for a set
      or a disconnect refers to no caller memory at all, while a record with
      strings, a station array or output locations refers to exactly the
      non-NULL objects the caller passed. */
  lemma PayloadOwnership(inv: Invocation)
    requires Expected(inv).Some?
    ensures var p := Expected(inv).value.rec.payload;
      match inv.call
      case SetIp(_, _, _) => p.Borrowed() == {}
      case SetMac(_) => p.Borrowed() == {}
      case DisconnSta(_) => p.Borrowed() == {}
      case GetIp(ip, gw, nm) => p.Borrowed() == NonNull(ip) + NonNull(gw) + NonNull(nm)
      case GetMac(mac) => p.Borrowed() == NonNull(mac)
      case Configure(ssid, pwd, _, _, _, _) => p.Borrowed() == NonNull(ssid) + NonNull(pwd)
      case ListSta(sta, _, staf) => p.Borrowed() == NonNull(sta) + NonNull(staf)
  {
  }

  // ---------------------------------------------------------------------
  // Sequences of calls

  /** The mailbox of a sequence of calls is that of its first part followed
      by that of the rest: submissions are appended in call order and never
      reordered. */
  lemma {:induction false} SubmittedConcat(a: seq<Invocation>, b: seq<Invocation>)
    ensures Submitted(a + b) == Submitted(a) + Submitted(b)
    decreases |b|
  {
    if b == [] {
      assert a + b == a;
    } else {
      var b' := b[..|b| - 1];
      assert (a + b)[..|a + b| - 1] == a + b';
      assert (a + b)[|a + b| - 1] == b[|b| - 1];
      SubmittedConcat(a, b');
    }
  }

  /** The mailbox holds one request per accepted call, in call order, and
      nothing for a rejected call. */
  lemma {:induction false} SubmittedAreAccepted(invs: seq<Invocation>)
    ensures |Submitted(invs)| == |Accepted(invs)|
    ensures forall k | 0 <= k < |Accepted(invs)| ::
      Admissible(Accepted(invs)[k].call) && Expected(Accepted(invs)[k]) == Some(Submitted(invs)[k])
  {
    if invs != [] {
      SubmittedAreAccepted(invs[..|invs| - 1]);
    }
  }

  /** A sequence of calls that each fail a guard leaves the mailbox as it was. */
  lemma {:induction false} RejectedCallsSubmitNothing(invs: seq<Invocation>)
    requires forall k | 0 <= k < |invs| :: !Admissible(invs[k].call)
    ensures Submitted(invs) == []
  {
    if invs != [] {
      RejectedCallsSubmitNothing(invs[..|invs| - 1]);
    }
  }
}
