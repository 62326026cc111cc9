/** The soft-access-point API functions of esp_ap.c. Each one runs its
    ESP_ASSERT guards (a failed guard returns ParErr before anything is
    allocated), allocates a record, fills it field by field and submits it
    to the producer mailbox with the function's timeout. Every function is
    proved against EspApSpec.Expected through Performed. */
module EspAp {
  import opened EspTypes
  import opened EspMsg
  import opened EspDriver
  import opened EspApSpec

  /** The value behind a pointer whose pointee is copied, None for NULL. */
  function IpOf(v: IpVar?): Option<Ip>
    reads v
  {
    if v == null then None else Some(v.ip)
  }

  function MacOf(v: MacVar?): Option<Mac>
    reads v
  {
    if v == null then None else Some(v.mac)
  }

  /** One call's effect on the driver. An admissible call appends exactly
      one submission (a fresh record holding the expected request), keeps
      the earlier entries in place, allocates one record and reports the
      dispatcher's reply; a rejected call leaves mailbox and allocation
      count as they were and reports ParErr. */
  twostate predicate Performed(d: Driver, inv: Invocation, reply: Espr, r: Espr)
    reads d, MsgsOf(d.mbox)
  {
    if Admissible(inv.call) then
      && |d.mbox| == |old(d.mbox)| + 1
      && d.mbox[..|old(d.mbox)|] == old(d.mbox)
      && fresh(d.mbox[|old(d.mbox)|].msg)
      && Request(d.mbox[|old(d.mbox)|].msg.Value(), d.mbox[|old(d.mbox)|].timeout) == Expected(inv).value
      && d.records == old(d.records) + 1
      && r == reply
    else
      && d.mbox == old(d.mbox)
      && d.records == old(d.records)
      && r == ParErr
  }

  lemma SubmittedSingle(inv: Invocation)
    ensures Submitted([inv]) == if Admissible(inv.call) then [Expected(inv).value] else []
  {
    assert [inv][..0] == [];
  }

  /** A performed call extends the mailbox, read as values, by exactly what
      the specification says the call submits. */
  twostate lemma PerformedAppends(d: Driver, inv: Invocation, reply: Espr, r: Espr)
    requires Performed(d, inv, reply, r)
    requires forall k | 0 <= k < |old(d.mbox)| :: unchanged(old(d.mbox)[k].msg)
    ensures d.Requests() == old(d.Requests()) + Submitted([inv])
  {
    SubmittedSingle(inv);
    RequestsOfUnchanged(old(d.mbox));
    if Admissible(inv.call) {
      assert d.mbox == old(d.mbox) + [d.mbox[|old(d.mbox)|]];
      RequestsOfSnoc(old(d.mbox), d.mbox[|old(d.mbox)|]);
    }
  }

  /** esp_ap_getip: no guard; the three output pointers are stored as they are. */
  method EspApGetIp(d: Driver, ip: IpVar?, gw: IpVar?, nm: IpVar?, cb: Completion, reply: Espr) returns (r: Espr)
    modifies d
    ensures Performed(d, Invocation(GetIp(ip, gw, nm), cb), reply, r)
  {
    ghost var inv := Invocation(GetIp(ip, gw, nm), cb);
    var msg := d.AllocMsg(cb.blocking);
    msg.SetEvt(cb.evtFn, cb.evtArg);
    msg.cmdDef := CipApGet;
    msg.payload := ApGetIp(ip, gw, nm);
    r := d.SendToProducerMbox(msg, 1000, reply);
  }

  /** The condition under which the copies of esp_ap_setip as written are
      defined: once the address is given, the gateway and netmask are read
      unconditionally. */
  predicate SetIpCopyDefined(ip: IpVar?, gw: IpVar?, nm: IpVar?)
  {
    ip != null ==> gw != null && nm != null
  }

  /** esp_ap_setip as written: rejects a NULL address, then copies address,
      gateway and netmask, so a NULL gateway or netmask is dereferenced. */
  method EspApSetIpAsWritten(d: Driver, ip: IpVar?, gw: IpVar?, nm: IpVar?, cb: Completion, reply: Espr) returns (r: Espr)
    requires SetIpCopyDefined(ip, gw, nm)
    modifies d
    ensures Performed(d, Invocation(SetIp(IpOf(ip), IpOf(gw), IpOf(nm)), cb), reply, r)
  {
    ghost var inv := Invocation(SetIp(IpOf(ip), IpOf(gw), IpOf(nm)), cb);
    if ip == null {
      return ParErr;
    }
    var msg := d.AllocMsg(cb.blocking);
    msg.SetEvt(cb.evtFn, cb.evtArg);
    msg.cmdDef := CipApSet;
    msg.payload := ApSetIp(ip.ip, gw.ip, nm.ip);
    r := d.SendToProducerMbox(msg, 1000, reply);
  }

  /** The guard of esp_ap_setip lets a NULL gateway and netmask through (as
      the parameters' documentation allows), but the copies as written are
      then undefined. */
  lemma SetIpNullGatewayCounterexample(ip: IpVar)
    ensures Admissible(SetIp(IpOf(ip), IpOf(null), IpOf(null)))
    ensures !SetIpCopyDefined(ip, null, null)
  {
  }

  /** esp_ap_setip with NULL gateway and netmask honoured: rejects only a
      NULL address, copies the address, and copies gateway and netmask when
      given, leaving the zero-filled default otherwise. */
  method EspApSetIp(d: Driver, ip: IpVar?, gw: IpVar?, nm: IpVar?, cb: Completion, reply: Espr) returns (r: Espr)
    modifies d
    ensures Performed(d, Invocation(SetIp(IpOf(ip), IpOf(gw), IpOf(nm)), cb), reply, r)
  {
    ghost var inv := Invocation(SetIp(IpOf(ip), IpOf(gw), IpOf(nm)), cb);
    if ip == null {
      return ParErr;
    }
    var msg := d.AllocMsg(cb.blocking);
    msg.SetEvt(cb.evtFn, cb.evtArg);
    msg.cmdDef := CipApSet;
    var gwBytes := if gw != null then gw.ip else ZeroIp;
    var nmBytes := if nm != null then nm.ip else ZeroIp;
    msg.payload := ApSetIp(ip.ip, gwBytes, nmBytes);
    r := d.SendToProducerMbox(msg, 1000, reply);
  }

  /** esp_ap_getmac: no guard; the output pointer is stored as it is. */
  method EspApGetMac(d: Driver, mac: MacVar?, cb: Completion, reply: Espr) returns (r: Espr)
    modifies d
    ensures Performed(d, Invocation(GetMac(mac), cb), reply, r)
  {
    ghost var inv := Invocation(GetMac(mac), cb);
    var msg := d.AllocMsg(cb.blocking);
    msg.SetEvt(cb.evtFn, cb.evtArg);
    msg.cmdDef := CipApMacGet;
    msg.payload := ApGetMac(mac);
    r := d.SendToProducerMbox(msg, 1000, reply);
  }

  /** esp_ap_setmac: rejects a NULL address and a multicast address, then
      copies the address into the record. */
  method EspApSetMac(d: Driver, mac: MacVar?, cb: Completion, reply: Espr) returns (r: Espr)
    modifies d
    ensures Performed(d, Invocation(SetMac(MacOf(mac)), cb), reply, r)
  {
    ghost var inv := Invocation(SetMac(MacOf(mac)), cb);
    if mac == null {
      return ParErr;
    }
    if mac.mac[0] & 0x01 != 0 {
      return ParErr;
    }
    var msg := d.AllocMsg(cb.blocking);
    msg.SetEvt(cb.evtFn, cb.evtArg);
    msg.cmdDef := CipApMacSet;
    msg.payload := ApSetMac(mac.mac);
    r := d.SendToProducerMbox(msg, 1000, reply);
  }

  /** esp_ap_configure: five guards (the hidden flag is not checked), then
      SSID and password are stored by reference and the numbers by value;
      submitted with the long timeout. */
  method EspApConfigure(d: Driver, ssid: array?<char>, pwd: array?<char>, ch: bv8, ecn: Ecn, maxSta: bv8, hid: bv8,
                     cb: Completion, reply: Espr) returns (r: Espr)
    modifies d
    ensures Performed(d, Invocation(Configure(ssid, pwd, ch, ecn, maxSta, hid), cb), reply, r)
  {
    ghost var inv := Invocation(Configure(ssid, pwd, ch, ecn, maxSta, hid), cb);
    if ssid == null {
      return ParErr;
    }
    if !(pwd == null || pwd.Length <= 64) {
      return ParErr;
    }
    if !(ecn == Open || ecn == WpaPsk || ecn == Wpa2Psk || ecn == WpaWpa2Psk) {
      return ParErr;
    }
    if !(ch <= 128) {
      return ParErr;
    }
    if !(maxSta > 0 && maxSta <= 10) {
      return ParErr;
    }
    var msg := d.AllocMsg(cb.blocking);
    msg.SetEvt(cb.evtFn, cb.evtArg);
    msg.cmdDef := CwSapSet;
    msg.payload := ApConf(ssid, pwd, ch, ecn, maxSta, hid);
    r := d.SendToProducerMbox(msg, 10000, reply);
  }

  /** esp_ap_list_sta: rejects a NULL station array and a zero capacity
      without touching the count; once accepted, zeroes the count (when
      given) before the record is built, and stores array, capacity and
      count pointer as they are. */
  method EspApListSta(d: Driver, sta: array?<Sta>, stal: nat, staf: SizeVar?, cb: Completion, reply: Espr) returns (r: Espr)
    modifies d, staf
    ensures Performed(d, Invocation(ListSta(sta, stal, staf), cb), reply, r)
    ensures staf != null ==> staf.value == if sta != null && stal > 0 then 0 else old(staf.value)
  {
    ghost var inv := Invocation(ListSta(sta, stal, staf), cb);
    if sta == null {
      return ParErr;
    }
    if !(stal > 0) {
      return ParErr;
    }
    if staf != null {
      staf.value := 0;
    }
    var msg := d.AllocMsg(cb.blocking);
    msg.SetEvt(cb.evtFn, cb.evtArg);
    msg.cmdDef := CwLif;
    msg.payload := StaList(sta, stal, staf);
    r := d.SendToProducerMbox(msg, 1000, reply);
  }

  /** esp_ap_disconn_sta: rejects a NULL address, then copies it. */
  method EspApDisconnSta(d: Driver, mac: MacVar?, cb: Completion, reply: Espr) returns (r: Espr)
    modifies d
    ensures Performed(d, Invocation(DisconnSta(MacOf(mac)), cb), reply, r)
  {
    ghost var inv := Invocation(DisconnSta(MacOf(mac)), cb);
    if mac == null {
      return ParErr;
    }
    var msg := d.AllocMsg(cb.blocking);
    msg.SetEvt(cb.evtFn, cb.evtArg);
    msg.cmdDef := CwQif;
    msg.payload := ApDisconnSta(mac.mac);
    r := d.SendToProducerMbox(msg, 1000, reply);
  }

  // ---------------------------------------------------------------------
  // Callers: what a later write to a passed buffer does to the queued record

  /** A caller that overwrites its MAC variable right after esp_ap_setmac
      returns leaves the queued record as it was: the address was copied. */
  method SetMacThenReuse(d: Driver, mac: MacVar, next: Mac, cb: Completion, reply: Espr) returns (r: Espr)
    requires !IsMulticast(mac.mac)
    modifies d, mac
    ensures mac.mac == next
    ensures |d.mbox| == |old(d.mbox)| + 1
    ensures d.Requests()[|d.mbox| - 1].rec.payload == ApSetMac(old(mac.mac))
  {
    r := EspApSetMac(d, mac, cb, reply);
    mac.mac := next;
  }

  /** A caller that writes into its SSID buffer after esp_ap_configure
      returns changes what the queued record holds: the SSID is referenced,
      and the worker will read the new contents. */
  method ConfigureThenOverwriteSsid(d: Driver, ssid: array<char>, pwd: array?<char>, ch: bv8, ecn: Ecn, maxSta: bv8,
                                    hid: bv8, cb: Completion, reply: Espr, i: nat, c: char) returns (r: Espr)
    requires Admissible(Configure(ssid, pwd, ch, ecn, maxSta, hid))
    requires i < ssid.Length
    modifies d, ssid
    ensures |d.mbox| == |old(d.mbox)| + 1
    ensures var p := d.Requests()[|d.mbox| - 1].rec.payload;
      p.ApConf? && p.ssid == ssid && p.ssid[..] == old(ssid[..])[i := c]
  {
    r := EspApConfigure(d, ssid, pwd, ch, ecn, maxSta, hid, cb, reply);
    ssid[i] := c;
  }
}
