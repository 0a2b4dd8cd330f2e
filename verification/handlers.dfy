/** The HTTP handlers' decision logic: what each one answers, which storage writes it
    makes and whether it restarts the device. Argument extraction (form fields or a JSON
    body) happens before the decisions modelled here, so the handlers receive the SSID and
    password as the bytes of the Arduino `String`s they were read into.

    Status codes are those of RFC 9110: 204 No Content (section 15.3.5), 302 Found
    (section 15.4.3), 400 Bad Request (section 15.5.1) and 404 Not Found (section
    15.5.5). */
module Handlers {
  import opened Wrappers
  import opened Eeprom
  import opened Record
  import opened Machine
  import opened Radio
  import opened Boot
  import opened JsonValues
  import opened ParameterGroups
  import opened Captive

  const NoContent: nat := 204
  const Found: nat := 302
  const BadRequest: nat := 400
  const NotFound: nat := 404

  /** A response: status code, the `Location` header when one is sent, and whether the
      handler closes the client connection itself. */
  datatype Response = Response(code: nat, location: Option<string>, closed: bool)

  /** Everything a request does: the response, the storage writes, and `ESP.restart()`. */
  datatype Effect = Effect(response: Response, ops: seq<Op>, restart: bool)

  const Rejected: Effect := Effect(Response(BadRequest, None, false), [], false)

  function Accepted(ops: seq<Op>, restart: bool): Effect
  {
    Effect(Response(NoContent, None, false), ops, restart)
  }

  /** Validate-then-mutate: a rejected request writes nothing and does not restart. */
  predicate RejectsCleanly(e: Effect)
  {
    e.response.code == BadRequest ==> e.ops == [] && !e.restart
  }

  // ---------------------------------------------------------------- credentials

  /** `handlePostConnect`: an empty SSID is rejected; otherwise `storeWifiSettings` runs
      (which itself writes nothing before `begin`), the request is accepted and the device
      restarts. */
  function HandlePostConnect(l: Layout, memoryInitialized: bool, ssid: seq<Byte>, password: seq<Byte>): (e: Effect)
    requires Valid(l)
    ensures RejectsCleanly(e) && OpsFit(e.ops, l.size)
    ensures e.response.code == BadRequest <==> |ssid| == 0
    ensures e.response.code != BadRequest ==> e.response.code == NoContent && e.restart
    ensures e.ops != [] <==> |ssid| > 0 && memoryInitialized
    ensures e.ops != [] ==> MarkerLast(e.ops) && EndsCommitted(e.ops)
  {
    if |ssid| == 0 then Rejected
    else Accepted(StoreWifiSettingsOps(l, memoryInitialized, ssid, password), true)
  }

  /** What a boot finds after an accepted connect request: the record is marked valid, a
      join is attempted exactly when the submitted SSID does not start with NUL, with the
      SSID and password `strncpy`'d to their field widths and a NULL password when the
      submitted one is empty. The blob survives. */
  lemma ConnectThenBoot(l: Layout, mem: seq<Byte>, ssid: seq<Byte>, password: seq<Byte>,
                        ssidBuf: seq<Byte>, passwordBuf: seq<Byte>, config: seq<Byte>, env: Env, m: Machine)
    requires Valid(l) && Consistent(l) && Disjoint(l) && |mem| == l.size
    requires |ssidBuf| == l.ssidLength && |passwordBuf| == l.passwordLength && |config| == l.configSize
    requires |ssid| > 0
    ensures var f := Apply(Loaded(mem), HandlePostConnect(l, true, ssid, password).ops).flash;
      && |f| == l.size && MarkerMatches(f)
      && var r := SetupCurrent(l, f, ssidBuf, passwordBuf, config, env, m);
         && r.ops == [] && r.config == ConfigBlob(l, mem)
         && (r.join.Some? <==> ssid[0] != NUL)
         && (r.join.Some? ==> r.join.value.ssid == StrNCpy(ssid, l.ssidLength))
         && (r.join.Some? ==> (r.join.value.password.None? <==> |CStr(password)| == 0))
         && (r.join.Some? && r.join.value.password.Some? ==> r.join.value.password.value == StrNCpy(password, l.passwordLength))
  {
    StoreWifiSettingsReadBack(l, mem, ssid, password);
    var s := StrNCpy(ssid, l.ssidLength);
    var p := StrNCpy(password, l.passwordLength);
    StrNCpyCells(ssid, l.ssidLength);
    StrNCpyCells(password, l.passwordLength);
    assert s[0] == NUL <==> ssid[0] == NUL;
    assert p[0] == NUL <==> |CStr(password)| == 0;
  }

  /** Before `begin` the connect request is still accepted and still restarts the device,
      but nothing reaches storage. */
  lemma ConnectBeforeBeginIsLost(l: Layout, mem: seq<Byte>, ssid: seq<Byte>, password: seq<Byte>)
    requires Valid(l) && |mem| == l.size && |ssid| > 0
    ensures HandlePostConnect(l, false, ssid, password).response.code == NoContent
    ensures HandlePostConnect(l, false, ssid, password).restart
    ensures Apply(Loaded(mem), HandlePostConnect(l, false, ssid, password).ops) == Loaded(mem)
  {
  }

  /** `handlePostDisconnect`: always accepted; the marker and zero-filled credential fields
      are written and committed, then the device restarts. */
  function HandlePostDisconnect(l: Layout): (e: Effect)
    requires Valid(l)
    ensures e.response.code == NoContent && e.restart
    ensures e.ops == DisconnectOps(l)
  {
    Accepted(DisconnectOps(l), true)
  }

  /** After a disconnect the next boot reads empty credentials, attempts no join, keeps the
      blob, and enters provisioning mode with the timeout disabled unless the radio
      reports a connection of its own. */
  lemma DisconnectThenBoot(l: Layout, mem: seq<Byte>, ssidBuf: seq<Byte>, passwordBuf: seq<Byte>,
                           config: seq<Byte>, env: Env, m: Machine)
    requires Valid(l) && Disjoint(l) && |mem| == l.size
    requires |ssidBuf| == l.ssidLength && |passwordBuf| == l.passwordLength && |config| == l.configSize
    ensures var f := Apply(Loaded(mem), HandlePostDisconnect(l).ops).flash;
      && |f| == l.size
      && var r := SetupCurrent(l, f, ssidBuf, passwordBuf, config, env, m);
         && r.ops == [] && r.join.None? && r.config == ConfigBlob(l, mem)
         && (env.status(0) != WlConnected ==> r.machine.mode == ModeAP && r.machine.apTimeout == 0)
  {
    DisconnectReadBack(l, mem);
    var f := Apply(Loaded(mem), HandlePostDisconnect(l).ops).flash;
    assert SsidField(l, f, l.ssidLength)[0] == NUL;
  }

  /** The older draft's `handleAPPost`: an empty SSID is rejected; otherwise the marker,
      then the `strncpy`'d credentials are written and committed, the request is accepted
      and the device restarts. */
  function HandleAPPost(l: Layout, ssid: seq<Byte>, password: seq<Byte>): (e: Effect)
    requires DraftValid(l)
    ensures RejectsCleanly(e) && OpsFit(e.ops, l.size)
    ensures e.response.code == BadRequest <==> |ssid| == 0
    ensures e.response.code != BadRequest ==> e.response.code == NoContent && e.restart
    ensures e.response.code != BadRequest ==> EndsCommitted(e.ops) && !MarkerLast(e.ops)
  {
    if |ssid| == 0 then Rejected else Accepted(DraftApPostOps(l, ssid, password), true)
  }

  /** What the older draft's boot finds after an accepted `handleAPPost`: a join with the
      SSID and password `strncpy`'d to 32 and 64 bytes, attempted whatever the SSID's first
      byte is. */
  lemma APPostThenDraftBoot(l: Layout, mem: seq<Byte>, ssid: seq<Byte>, password: seq<Byte>, env: Env, m: Machine)
    requires DraftValid(l) && DraftDisjoint(l) && |mem| == l.size && |ssid| > 0
    ensures var f := Apply(Loaded(mem), HandleAPPost(l, ssid, password).ops).flash;
      && |f| == l.size
      && var r := SetupDraft(l, f, env, m);
         && r.config == ConfigBlob(l, mem)
         && r.join == Some(DraftJoin(StrNCpy(ssid, DraftSsidLength), StrNCpy(password, DraftPasswordLength)))
  {
    DraftApPostReadBack(l, mem, ssid, password);
  }

  // ---------------------------------------------------------------- delete

  /** `handleDeleteSettings` as written: accepted, the valid marker is rewritten and
      committed, and the device restarts. */
  function HandleDeleteSettings(l: Layout): (e: Effect)
    requires Valid(l)
    ensures e.response.code == NoContent && e.restart
    ensures e.ops == DeleteSettingsOps(l)
  {
    Accepted(DeleteSettingsOps(l), true)
  }

  /** The delete request as written clears nothing: the next boot sees a valid record and
      reads exactly the credentials and blob that were stored before. */
  lemma DeleteThenBootKeepsSettings(l: Layout, mem: seq<Byte>, ssidBuf: seq<Byte>, passwordBuf: seq<Byte>,
                                    config: seq<Byte>, env: Env, m: Machine)
    requires Valid(l) && Disjoint(l) && |mem| == l.size
    requires |ssidBuf| == l.ssidLength && |passwordBuf| == l.passwordLength && |config| == l.configSize
    requires MarkerMatches(mem)
    ensures var f := Apply(Loaded(mem), HandleDeleteSettings(l).ops).flash;
      && |f| == l.size
      && SetupCurrent(l, f, ssidBuf, passwordBuf, config, env, m) == SetupCurrent(l, mem, ssidBuf, passwordBuf, config, env, m)
  {
    DeleteSettingsReadBack(l, mem);
    var f := Apply(Loaded(mem), HandleDeleteSettings(l).ops).flash;
    assert SsidField(l, f, l.ssidLength) == SsidField(l, mem, l.ssidLength);
    assert PasswordField(l, f, l.passwordLength) == PasswordField(l, mem, l.passwordLength);
    assert ConfigBlob(l, f) == ConfigBlob(l, mem);
  }

  /** `handleDeleteSettings` as evidently intended: the empty marker is written instead. */
  function HandleDeleteSettingsCleared(l: Layout): (e: Effect)
    requires Valid(l)
    ensures e.response.code == NoContent && e.restart
    ensures e.ops == DeleteSettingsClearedOps(l)
  {
    Accepted(DeleteSettingsClearedOps(l), true)
  }

  /** With the empty marker, the next boot treats the record as absent and takes the
      first-run path. */
  lemma DeleteClearedThenBootStartsFresh(l: Layout, mem: seq<Byte>, ssidBuf: seq<Byte>, passwordBuf: seq<Byte>,
                                         config: seq<Byte>, env: Env, m: Machine)
    requires Valid(l) && |mem| == l.size
    requires |ssidBuf| == l.ssidLength && |passwordBuf| == l.passwordLength && |config| == l.configSize
    ensures var f := Apply(Loaded(mem), HandleDeleteSettingsCleared(l).ops).flash;
      && |f| == l.size && !MarkerMatches(f)
      && SetupCurrent(l, f, ssidBuf, passwordBuf, config, env, m).ops == FirstBootOps(l, ssidBuf, passwordBuf, config)
  {
    DeleteSettingsClearedReadBack(l, mem);
  }

  // ---------------------------------------------------------------- settings

  /** The outcome of `handlePostSettings`: the effect and the groups afterwards. */
  datatype SettingsOutcome<P> = SettingsOutcome(effect: Effect, groups: seq<Group<P>>)

  /** `handlePostSettings`. The body is parsed once to decide: a parse error (an empty
      body is one: the parser reports empty input) is rejected before any group changes
      or anything is written. Otherwise every group's `fromJson` runs, in registry order,
      on the object `decodeJson` gives, the blob `encode` makes of the updated groups is
      written by `writeConfig`, and the request is accepted. No restart follows. */
  function HandlePostSettings<P>(l: Layout, body: string, parse: Parser, gs: seq<Group<P>>,
                                 leaf: Leaf<P>, encode: seq<Group<P>> -> seq<Byte>): (r: SettingsOutcome<P>)
    requires Valid(l)
    ensures RejectsCleanly(r.effect) && !r.effect.restart
    ensures r.effect.response.code == BadRequest <==> |body| == 0 || parse(body).None?
    ensures r.effect.response.code == BadRequest ==> r.groups == gs
    ensures r.effect.response.code != BadRequest ==>
              && r.effect.response.code == NoContent
              && r.groups == RegistryFromJson(gs, leaf, DecodeJson(body, parse))
              && r.effect.ops == WriteConfigOps(l.configOffset, encode(r.groups))
  {
    if |body| == 0 || parse(body).None? then SettingsOutcome(Rejected, gs)
    else
      var updated := RegistryFromJson(gs, leaf, DecodeJson(body, parse));
      SettingsOutcome(Accepted(WriteConfigOps(l.configOffset, encode(updated)), false), updated)
  }

  /** An accepted settings update is what the next boot loads, while the credentials and
      the marker stay as they were. */
  lemma PostSettingsThenBoot<P>(l: Layout, mem: seq<Byte>, body: string, parse: Parser, gs: seq<Group<P>>,
                                leaf: Leaf<P>, encode: seq<Group<P>> -> seq<Byte>,
                                ssidBuf: seq<Byte>, passwordBuf: seq<Byte>, config: seq<Byte>, env: Env, m: Machine)
    requires Valid(l) && Disjoint(l) && |mem| == l.size && MarkerMatches(mem)
    requires |ssidBuf| == l.ssidLength && |passwordBuf| == l.passwordLength && |config| == l.configSize
    requires |body| > 0 && parse(body).Some?
    requires |encode(RegistryFromJson(gs, leaf, DecodeJson(body, parse)))| == l.configSize
    ensures var out := HandlePostSettings(l, body, parse, gs, leaf, encode);
      var f := Apply(Loaded(mem), out.effect.ops).flash;
      && |f| == l.size
      && var r := SetupCurrent(l, f, ssidBuf, passwordBuf, config, env, m);
         && r.config == encode(out.groups)
         && r.join == SetupCurrent(l, mem, ssidBuf, passwordBuf, config, env, m).join
  {
    var out := HandlePostSettings(l, body, parse, gs, leaf, encode);
    WriteConfigReadBack(l, mem, encode(out.groups));
  }

  /** Groups the accepted document does not name keep their parameters. */
  lemma PostSettingsLeavesUnnamedGroups<P>(l: Layout, body: string, parse: Parser, gs: seq<Group<P>>,
                                           leaf: Leaf<P>, encode: seq<Group<P>> -> seq<Byte>, i: nat)
    requires Valid(l) && i < |gs|
    requires Lookup(DecodeJson(body, parse), gs[i].name).None?
    ensures HandlePostSettings(l, body, parse, gs, leaf, encode).groups[i] == gs[i]
  {
    PartialDocumentTouchesOnlyNamedGroups(gs, leaf, DecodeJson(body, parse), i);
  }

  /** `handleGetSettings` as written (status 200, RFC 9110 section 15.3.1): the loop
      writes through `jsonBuffer.as<JsonObject>()` of a document that holds nothing yet, a
      null reference, so the body is `null` whatever the registry holds. */
  function HandleGetSettings<P>(gs: seq<Group<P>>, leaf: Leaf<P>): (body: Json)
    ensures body == JNull
  {
    Serialized(RegistryToJsonAt(gs, leaf, NullRef))
  }

  /** `handleGetSettings` as evidently intended, starting from a bound empty object
      (`jsonBuffer.to<JsonObject>()`): the body is an object in which every group that
      is the last with its name holds its parameters' object, and no other key occurs. */
  function HandleGetSettingsObject<P>(gs: seq<Group<P>>, leaf: Leaf<P>): (body: Json)
    ensures body.JObject?
    ensures forall i :: 0 <= i < |gs| && LastWithName(gs, i) ==>
              Lookup(body.members, gs[i].name) == Some(JObject(ParamsToJson(leaf, gs[i].params, [])))
    ensures forall k :: (forall j :: 0 <= j < |gs| ==> gs[j].name != k) ==> Lookup(body.members, k).None?
  {
    var ref := RegistryToJsonAt(gs, leaf, ObjectRef([]));
    assert forall i :: 0 <= i < |gs| && LastWithName(gs, i) ==>
             Lookup(ref.members, gs[i].name) == Some(JObject(ParamsToJson(leaf, gs[i].params, []))) by {
      forall i | 0 <= i < |gs| && LastWithName(gs, i)
        ensures Lookup(ref.members, gs[i].name) == Some(JObject(ParamsToJson(leaf, gs[i].params, [])))
      {
        RegistryToJsonHoldsEveryGroup(gs, leaf, [], i);
      }
    }
    assert forall k :: (forall j :: 0 <= j < |gs| ==> gs[j].name != k) ==> Lookup(ref.members, k).None? by {
      forall k | forall j :: 0 <= j < |gs| ==> gs[j].name != k
        ensures Lookup(ref.members, k).None?
      {
        RegistryToJsonKeepsOtherKeys(gs, leaf, [], k);
      }
    }
    Serialized(ref)
  }

  /** As written, GET `/settings` loses every group: for any non-empty registry the body
      is `null`, while the intended handler reports the last group's parameters. */
  lemma GetSettingsAnswersNull<P>(gs: seq<Group<P>>, leaf: Leaf<P>)
    requires |gs| > 0
    ensures HandleGetSettings(gs, leaf) == JNull
    ensures HandleGetSettings(gs, leaf) != HandleGetSettingsObject(gs, leaf)
    ensures Lookup(HandleGetSettingsObject(gs, leaf).members, gs[|gs| - 1].name)
              == Some(JObject(ParamsToJson(leaf, gs[|gs| - 1].params, [])))
  {
    assert LastWithName(gs, |gs| - 1);
  }

  // ---------------------------------------------------------------- captive portal

  /** `handleNotFound` (identical in both drafts): a `Host` header that is not an address
      is redirected to `http://` and the station's own address; an address gets 404. The
      connection is closed either way. */
  function HandleNotFound(host: string, localIp: U32): (r: Response)
    ensures r.closed
    ensures r.code == Found <==> !IsIp(host)
    ensures r.code != Found ==> r.code == NotFound && r.location.None?
    ensures r.code == Found ==>
              && r.location.Some? && |r.location.value| >= 7 && r.location.value[..7] == "http://"
              && ParseIp(r.location.value[7..]) == Some(localIp)
    ensures r.code == Found ==> r.location == Some("http://" + FormatIp(localIp))
  {
    if !IsIp(host) then
      var target := FormatIp(localIp);
      FormatIpRoundTrip(localIp);
      assert ("http://" + target)[7..] == target;
      Response(Found, Some("http://" + target), true)
    else Response(NotFound, None, true)
  }

  /** A client that follows the redirect sends the redirect target as its `Host` and gets
      404, not another redirect. */
  lemma RedirectDoesNotLoop(host: string, localIp: U32, laterIp: U32)
    requires !IsIp(host)
    ensures var target := HandleNotFound(host, localIp).location.value[7..];
      HandleNotFound(target, laterIp).code == NotFound
  {
    var target := FormatIp(localIp);
    assert ("http://" + target)[7..] == target;
    FormatIpRoundTrip(localIp);
  }
}
