/**
 Key resolution, per-source replay tracking and the inbound hook that replaces a secured cEMI payload in
 place (src/secure/dataSecureKeys.ts). `Handle` is the hook on values; the method below it is the hook on
 the three objects it touches.
 */
module DataSecureKeys {
  import opened Bytes
  import opened Cemi
  import opened Crypto
  import opened DataSecure
  import opened Wrappers
  import Apci
  import CemiMessage

  datatype KeyContext = KeyContext(src: int, dst: int, dstIsGroup: bool, toolAccess: bool, systemBroadcast: bool)

  /** The contents of a key store. */
  datatype Keys = Keys(group: map<int, bytes>, p2p: map<int, bytes>, tool: Option<bytes>, backbone: Option<bytes>) {

    function Resolve(ctx: KeyContext): Option<bytes> {
      if ctx.systemBroadcast then backbone
      else if ctx.toolAccess && tool.Some? then tool
      else if !ctx.toolAccess && ctx.dstIsGroup then Lookup(group, ctx.dst)
      else Lookup(p2p, ctx.src)
    }
  }

  function Lookup(m: map<int, bytes>, address: int): Option<bytes> {
    if address in m then Some(m[address]) else None
  }

  /** Storing a key changes the answer for exactly the telegrams that key is for. */
  lemma EachKeyServes(keys: Keys, address: int, key: bytes, ctx: KeyContext)
    ensures keys.(group := keys.group[address := key]).Resolve(ctx) ==
      if !ctx.systemBroadcast && !ctx.toolAccess && ctx.dstIsGroup && ctx.dst == address then Some(key)
      else keys.Resolve(ctx)
    ensures keys.(p2p := keys.p2p[address := key]).Resolve(ctx) ==
      if !ctx.systemBroadcast && ctx.src == address && (if ctx.toolAccess then keys.tool.None? else !ctx.dstIsGroup)
      then Some(key) else keys.Resolve(ctx)
    ensures keys.(tool := Some(key)).Resolve(ctx) ==
      if !ctx.systemBroadcast && ctx.toolAccess then Some(key) else keys.Resolve(ctx)
    ensures keys.(backbone := Some(key)).Resolve(ctx) ==
      if ctx.systemBroadcast then Some(key) else keys.Resolve(ctx)
  {
  }

  /** The last accepted sequence number of each source. */
  type Tracker = map<int, int>

  predicate Fresh(t: Tracker, src: int, sequence: int) {
    src in t ==> sequence > t[src]
  }

  class InMemoryDataSecureKeys {
    var group: map<int, bytes>
    var p2p: map<int, bytes>
    var tool: Option<bytes>
    var backbone: Option<bytes>

    ghost function View(): Keys
      reads this
    {
      Keys(group, p2p, tool, backbone)
    }

    constructor ()
      ensures View() == Keys(map[], map[], None, None)
    {
      group, p2p, tool, backbone := map[], map[], None, None;
    }

    method SetGroupKey(groupAddress: int, key: bytes)
      modifies this
      ensures View() == old(View()).(group := old(group)[groupAddress % U16_LIMIT := key])
    {
      group := group[groupAddress % U16_LIMIT := key];
    }

    method SetP2pKey(individualAddress: int, key: bytes)
      modifies this
      ensures View() == old(View()).(p2p := old(p2p)[individualAddress % U16_LIMIT := key])
    {
      p2p := p2p[individualAddress % U16_LIMIT := key];
    }

    method SetToolKey(key: bytes)
      modifies this
      ensures View() == old(View()).(tool := Some(key))
    {
      tool := Some(key);
    }

    method SetBackboneKey(key: bytes)
      modifies this
      ensures View() == old(View()).(backbone := Some(key))
    {
      backbone := Some(key);
    }

    method ResolveKey(ctx: KeyContext) returns (key: Option<bytes>)
      ensures key == View().Resolve(ctx)
    {
      if ctx.systemBroadcast {
        return backbone;
      }
      if ctx.toolAccess {
        return if tool.Some? then tool else Lookup(p2p, ctx.src);
      }
      if ctx.dstIsGroup {
        return Lookup(group, ctx.dst);
      }
      return Lookup(p2p, ctx.src);
    }
  }

  class DataSecureAntiReplay {
    var last: Tracker

    constructor ()
      ensures last == map[]
    {
      last := map[];
    }

    method CheckAndUpdate(src: int, seqNo: int) returns (accepted: bool)
      modifies this
      ensures accepted <==> Fresh(old(last), src, seqNo)
      ensures last == if accepted then old(last)[src := seqNo] else old(last)
    {
      if src in last && seqNo <= last[src] {
        return false;
      }
      last := last[src := seqNo];
      return true;
    }

    /** Forget one source, or all of them. */
    method Reset(src: Option<int>)
      modifies this
      ensures last == if src.None? then map[] else old(last) - {src.value}
    {
      last := if src.None? then map[] else last - {src.value};
    }
  }

  // ---------- the hook on values ----------

  datatype Outcome = Passthrough | Decrypted | Dropped(reason: Reason)

  datatype Reason = SecuredTooShort | NoKey | DecodeFailed(error: DataSecureError) | NotDataService | Replay | NotAnApci

  datatype Handled = Handled(outcome: Outcome, tracker: Option<Tracker>, data: LData)

  predicate CarriesSecured(d: LData) {
    d.payload.Some? && d.payload.value.Unknown? && d.payload.value.service == APCI_DATA_SECURE
  }

  function LinkOf(d: LData): Link {
    Link(d.src, d.dst.raw, d.GroupFlag())
  }

  function ContextOf(d: LData, scf: byte): KeyContext {
    KeyContext(d.src, d.dst.raw, d.GroupFlag(), ToolAccess(scf), SystemBroadcast(scf))
  }

  /** The authenticated content of a secured frame, or why there is none. */
  function Opened(E: Cipher, keys: Keys, d: LData): Result<Pdu, Reason>
    requires CarriesSecured(d)
  {
    var lsdu := d.payload.value.raw;
    if |lsdu| < 3 then Err(SecuredTooShort)
    else
      var key := keys.Resolve(ContextOf(d, lsdu[2]));
      if key.None? then Err(NoKey)
      else
        var pdu := Decode(E, key.value, LinkOf(d), lsdu);
        if pdu.Err? then Err(DecodeFailed(pdu.error))
        else if pdu.value.service != SERVICE_DATA then Err(NotDataService)
        else Ok(pdu.value)
  }

  function Handle(E: Cipher, keys: Option<Keys>, tracker: Option<Tracker>, d: LData): Handled {
    if !CarriesSecured(d) || keys.None? then Handled(Passthrough, tracker, d)
    else
      var pdu := Opened(E, keys.value, d);
      if pdu.Err? then Handled(Dropped(pdu.error), tracker, d)
      else if tracker.Some? && !Fresh(tracker.value, d.src, pdu.value.sequence) then
        Handled(Dropped(Replay), tracker, d)
      else
        var advanced := if tracker.Some? then Some(tracker.value[d.src := pdu.value.sequence]) else None;
        var apci := Apci.Decode(pdu.value.plain);
        if apci.Err? then Handled(Dropped(NotAnApci), advanced, d)
        else Handled(Decrypted, advanced, d.(payload := Some(apci.value)))
  }

  // ---------- the hook on objects ----------

  ghost function TrackerOf(t: DataSecureAntiReplay?): Option<Tracker>
    reads t
  {
    if t == null then None else Some(t.last)
  }

  ghost function KeysOf(k: InMemoryDataSecureKeys?): Option<Keys>
    reads k
  {
    if k == null then None else Some(k.View())
  }

  /** `handleSecuredCemi`: writes the payload of the frame and the tracker, nothing else. */
  method HandleSecuredCemi(E: Cipher, data: CemiMessage.CEMILData, resolver: InMemoryDataSecureKeys?,
                           antiReplay: DataSecureAntiReplay?)
    returns (outcome: Outcome)
    modifies data`payload, antiReplay
    ensures Handled(outcome, TrackerOf(antiReplay), data.View())
         == old(Handle(E, KeysOf(resolver), TrackerOf(antiReplay), data.View()))
  {
    var pl := data.payload;
    if pl.None? || !pl.value.Unknown? || pl.value.service != APCI_DATA_SECURE {
      return Passthrough;
    }
    if resolver == null {
      return Passthrough;
    }
    var lsdu := pl.value.raw;
    if |lsdu| < 3 {
      return Dropped(SecuredTooShort);
    }
    var scf := lsdu[2];
    var dstIsGroup := data.flags / 0x80 % 2 == 1;
    var ctx := KeyContext(data.srcAddr, data.dstAddr.raw, dstIsGroup, ToolAccess(scf), SystemBroadcast(scf));
    var key := resolver.ResolveKey(ctx);
    if key.None? {
      return Dropped(NoKey);
    }
    var pdu := Decode(E, key.value, Link(ctx.src, ctx.dst, dstIsGroup), lsdu);
    if pdu.Err? {
      return Dropped(DecodeFailed(pdu.error));
    }
    if pdu.value.service != SERVICE_DATA {
      return Dropped(NotDataService);
    }
    if antiReplay != null {
      var accepted := antiReplay.CheckAndUpdate(ctx.src, pdu.value.sequence);
      if !accepted {
        return Dropped(Replay);
      }
    }
    var apci := Apci.Decode(pdu.value.plain);
    if apci.Err? {
      return Dropped(NotAnApci);
    }
    data.payload := Some(apci.value);
    return Decrypted;
  }
}
