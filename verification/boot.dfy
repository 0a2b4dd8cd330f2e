/** The boot sequence (`setup`) of both drafts, as a function from what the device finds
    (storage contents, the stack buffers' leftover bytes, the radio's answers, the clock)
    to what it leaves behind (the write trace, the loaded blob, the join attempt, the
    machine state). */
module Boot {
  import opened Wrappers
  import opened Eeprom
  import opened Record
  import opened Radio
  import opened Machine

  /** The arguments of `WiFi.begin(ssid, password[0] == '\0' ? NULL : password)`: the raw
      buffers, since nothing guarantees them a terminator. */
  datatype JoinRequest = JoinRequest(ssid: seq<Byte>, password: Option<seq<Byte>>)

  /** The radio's answers, the join retry count, and `millis()` when `startAP` runs. */
  datatype Env = Env(status: StatusOracle, retries: int, now: U32)

  /** What `setup` leaves behind. `poll` is the result of `wifiConnected` when it ran. */
  datatype Boot = Boot(ops: seq<Op>, config: seq<Byte>, join: Option<JoinRequest>, poll: Option<PollResult>, machine: Machine)

  /** The join decision of the current draft: attempted only when the SSID buffer does not
      start with NUL, with a NULL password when the password buffer does. */
  function JoinFor(ssid: seq<Byte>, password: seq<Byte>): (r: Option<JoinRequest>)
    requires |ssid| >= 1 && |password| >= 1
    ensures r.Some? <==> ssid[0] != NUL
    ensures r.Some? ==> r.value.ssid == ssid
    ensures r.Some? ==> (r.value.password.None? <==> password[0] == NUL)
    ensures r.Some? && r.value.password.Some? ==> r.value.password.value == password
  {
    if ssid[0] != NUL then Some(DraftJoin(ssid, password)) else None
  }

  /** The `WiFi.begin` call of either draft once it has decided to join. */
  function DraftJoin(ssid: seq<Byte>, password: seq<Byte>): (j: JoinRequest)
    requires |password| >= 1
    ensures j.ssid == ssid && (j.password.None? <==> password[0] == NUL)
    ensures j.password.Some? ==> j.password.value == password
  {
    JoinRequest(ssid, if password[0] == NUL then None else Some(password))
  }

  /** Index of the `WiFi.status()` call the current draft makes after the wait. */
  function NextStatusIndex(poll: Option<PollResult>): nat
  {
    if poll.Some? then poll.value.polls else 0
  }

  /** The current draft's `setup`.

      Marker match: both credential fields and the blob are read, nothing is written.
      Marker mismatch: the marker, the two credential buffers as they happen to be (they
      are never initialised) and the in-memory blob are written and committed.
      Then a join is attempted when the SSID buffer does not start with NUL, and a
      successful wait enters application mode. A separate `WiFi.status()` call decides
      the fallback: anything but connected disables the session timeout and enters
      provisioning mode. The web server is started in every case. */
  function SetupCurrent(l: Layout, mem: seq<Byte>, ssidBuf: seq<Byte>, passwordBuf: seq<Byte>,
                        config: seq<Byte>, env: Env, m: Machine): (r: Boot)
    requires Valid(l) && |mem| == l.size
    requires |ssidBuf| == l.ssidLength && |passwordBuf| == l.passwordLength && |config| == l.configSize
    ensures MarkerMatches(mem) ==> r.ops == [] && r.config == ConfigBlob(l, mem)
    ensures !MarkerMatches(mem) ==> r.ops == FirstBootOps(l, ssidBuf, passwordBuf, config) && r.config == config
    ensures var ssid := if MarkerMatches(mem) then SsidField(l, mem, l.ssidLength) else ssidBuf;
            var password := if MarkerMatches(mem) then PasswordField(l, mem, l.passwordLength) else passwordBuf;
            r.join == JoinFor(ssid, password)
    ensures r.poll.Some? <==> r.join.Some?
    ensures r.poll.Some? ==> (r.poll.value.connected <==> ConnectsWithin(env.status, 0, env.retries))
    ensures env.status(NextStatusIndex(r.poll)) != WlConnected ==>
              r.machine.mode == ModeAP && r.machine.apTimeout == 0 && r.machine.apStart == env.now && r.machine.dnsRunning
    ensures env.status(NextStatusIndex(r.poll)) == WlConnected ==>
              && r.machine.mode == (if r.poll.Some? && r.poll.value.connected then ModeAPI else m.mode)
              && r.machine.apTimeout == m.apTimeout && r.machine.apStart == m.apStart && r.machine.dnsRunning == m.dnsRunning
    ensures r.machine.serverRunning
  {
    var matched := MarkerMatches(mem);
    var ssid := if matched then SsidField(l, mem, l.ssidLength) else ssidBuf;
    var password := if matched then PasswordField(l, mem, l.passwordLength) else passwordBuf;
    var ops := if matched then [] else FirstBootOps(l, ssidBuf, passwordBuf, config);
    var blob := if matched then ConfigBlob(l, mem) else config;
    var join := JoinFor(ssid, password);
    var poll := if join.Some? then Some(Poll(env.status, env.retries, 0)) else None;
    var m1 := if poll.Some? && poll.value.connected then StartApi(m) else m;
    var m2 := if env.status(NextStatusIndex(poll)) != WlConnected then StartAP(m1.(apTimeout := 0), env.now) else m1;
    Boot(ops, blob, join, poll, StartWebServer(m2))
  }

  /** The older draft's `setup`.

      Both credential fields (32 and 64 bytes) and the blob are read unconditionally and
      nothing is ever written. Marker match: a join is attempted even when the SSID is
      empty, and success enters application mode; failure leaves the mode as it was and
      starts no access point. Marker mismatch: the session timeout is disabled and
      provisioning mode is entered. The web server is started in every case. */
  function SetupDraft(l: Layout, mem: seq<Byte>, env: Env, m: Machine): (r: Boot)
    requires DraftValid(l) && |mem| == l.size
    ensures r.ops == [] && r.config == ConfigBlob(l, mem)
    ensures r.join.Some? <==> MarkerMatches(mem)
    ensures r.join.Some? ==> r.join.value == DraftJoin(SsidField(l, mem, DraftSsidLength), PasswordField(l, mem, DraftPasswordLength))
    ensures r.poll.Some? <==> r.join.Some?
    ensures r.poll.Some? ==> (r.poll.value.connected <==> ConnectsWithin(env.status, 0, env.retries))
    ensures r.machine.mode == ModeAP <==> !MarkerMatches(mem) || (m.mode == ModeAP && !r.poll.value.connected)
    ensures !MarkerMatches(mem) ==> r.machine.apTimeout == 0 && r.machine.apStart == env.now && r.machine.dnsRunning
    ensures MarkerMatches(mem) ==> r.machine.apTimeout == m.apTimeout && r.machine.dnsRunning == m.dnsRunning
    ensures r.machine.serverRunning
  {
    var ssid := SsidField(l, mem, DraftSsidLength);
    var password := PasswordField(l, mem, DraftPasswordLength);
    var blob := ConfigBlob(l, mem);
    if MarkerMatches(mem) then
      var poll := Poll(env.status, env.retries, 0);
      var m1 := if poll.connected then StartApi(m) else m;
      Boot([], blob, Some(DraftJoin(ssid, password)), Some(poll), StartWebServer(m1))
    else
      Boot([], blob, None, None, StartWebServer(StartAP(m.(apTimeout := 0), env.now)))
  }

  /** The current draft's `setup` with both credential buffers zero-initialised, as the
      first-run path evidently intends. */
  function SetupCurrentZeroed(l: Layout, mem: seq<Byte>, config: seq<Byte>, env: Env, m: Machine): (r: Boot)
    requires Valid(l) && |mem| == l.size && |config| == l.configSize
    ensures !MarkerMatches(mem) ==> r.join.None?
  {
    SetupCurrent(l, mem, Zeros(l.ssidLength), Zeros(l.passwordLength), config, env, m)
  }

  // ---------------------------------------------------------------- boot decisions

  /** A connection that only comes up after the last poll of the wait: the extra status
      call sees it, so neither `startApi` nor `startAP` runs and the mode keeps whatever
      value it had before `setup`. */
  lemma CurrentLateConnectionKeepsMode(l: Layout, mem: seq<Byte>, ssidBuf: seq<Byte>, passwordBuf: seq<Byte>,
                                       config: seq<Byte>, env: Env, m: Machine)
    requires Valid(l) && |mem| == l.size
    requires |ssidBuf| == l.ssidLength && |passwordBuf| == l.passwordLength && |config| == l.configSize
    requires env.retries >= 0
    requires forall j :: 0 <= j < env.retries ==> env.status(j) != WlConnected
    requires env.status(env.retries) == WlConnected
    requires SetupCurrent(l, mem, ssidBuf, passwordBuf, config, env, m).join.Some?
    ensures SetupCurrent(l, mem, ssidBuf, passwordBuf, config, env, m).machine == StartWebServer(m)
  {
    var r := SetupCurrent(l, mem, ssidBuf, passwordBuf, config, env, m);
    assert !ConnectsWithin(env.status, 0, env.retries);
    assert r.poll.value.polls == env.retries;
  }

  /** With a valid record the older draft never enters provisioning mode on a failed join:
      the machine keeps its mode, timeout and (absent) DNS responder, and only the web
      server is started. */
  lemma DraftFailedJoinStaysOutOfAp(l: Layout, mem: seq<Byte>, env: Env, m: Machine)
    requires DraftValid(l) && |mem| == l.size
    requires MarkerMatches(mem)
    requires forall j :: 0 <= j < env.retries ==> env.status(j) != WlConnected
    ensures SetupDraft(l, mem, env, m).machine == StartWebServer(m)
  {
    assert !ConnectsWithin(env.status, 0, env.retries);
  }

  /** The drafts disagree on a valid record with an empty SSID: the older one still calls
      `WiFi.begin`, the current one does not. */
  lemma DraftsDisagreeOnEmptySsid(l: Layout, mem: seq<Byte>, ssidBuf: seq<Byte>, passwordBuf: seq<Byte>,
                                  config: seq<Byte>, env: Env, m: Machine)
    requires Valid(l) && DraftValid(l) && |mem| == l.size
    requires |ssidBuf| == l.ssidLength && |passwordBuf| == l.passwordLength && |config| == l.configSize
    requires MarkerMatches(mem) && mem[l.wifiOffset] == NUL
    ensures SetupDraft(l, mem, env, m).join.Some?
    ensures SetupCurrent(l, mem, ssidBuf, passwordBuf, config, env, m).join.None?
  {
    assert SsidField(l, mem, l.ssidLength)[0] == mem[l.wifiOffset];
  }

  // ---------------------------------------------------------------- first boot

  /** First boot as written: when the never-initialised SSID buffer does not start with
      NUL, the device tries to join a network named by stack garbage, and the garbage is
      committed under a valid marker, so every later boot reads it back as configured
      credentials and tries the same join again. */
  lemma FirstBootPersistsGarbage(l: Layout, mem: seq<Byte>, ssidBuf: seq<Byte>, passwordBuf: seq<Byte>,
                                 config: seq<Byte>, env: Env, m: Machine,
                                 laterSsidBuf: seq<Byte>, laterPasswordBuf: seq<Byte>, laterEnv: Env, laterM: Machine)
    requires Valid(l) && Disjoint(l) && |mem| == l.size
    requires |ssidBuf| == l.ssidLength && |passwordBuf| == l.passwordLength && |config| == l.configSize
    requires |laterSsidBuf| == l.ssidLength && |laterPasswordBuf| == l.passwordLength
    requires !MarkerMatches(mem) && ssidBuf[0] != NUL
    ensures var r := SetupCurrent(l, mem, ssidBuf, passwordBuf, config, env, m);
      && r.join == Some(DraftJoin(ssidBuf, passwordBuf))
      && var f := Apply(Loaded(mem), r.ops).flash;
         && |f| == l.size
         && SetupCurrent(l, f, laterSsidBuf, laterPasswordBuf, config, laterEnv, laterM).join == Some(DraftJoin(ssidBuf, passwordBuf))
  {
    FirstBootReadBack(l, mem, ssidBuf, passwordBuf, config);
  }

  /** First boot with zeroed buffers: no join is attempted, the committed record is marked
      valid with empty credentials and the in-memory blob, and when the radio does not
      report a connection the device is in provisioning mode with the timeout disabled.
      Later boots find the same empty credentials and attempt no join either. */
  lemma FreshDeviceProvisions(l: Layout, mem: seq<Byte>, config: seq<Byte>, env: Env, m: Machine,
                              laterSsidBuf: seq<Byte>, laterPasswordBuf: seq<Byte>, laterEnv: Env, laterM: Machine)
    requires Valid(l) && Disjoint(l) && |mem| == l.size && |config| == l.configSize
    requires |laterSsidBuf| == l.ssidLength && |laterPasswordBuf| == l.passwordLength
    requires !MarkerMatches(mem) && env.status(0) != WlConnected
    ensures var r := SetupCurrentZeroed(l, mem, config, env, m);
      && r.join.None?
      && r.machine.mode == ModeAP && r.machine.apTimeout == 0 && r.machine.serverRunning && r.machine.dnsRunning
      && var f := Apply(Loaded(mem), r.ops).flash;
         && |f| == l.size && MarkerMatches(f)
         && SsidField(l, f, l.ssidLength) == Zeros(l.ssidLength)
         && ConfigBlob(l, f) == config
         && SetupCurrent(l, f, laterSsidBuf, laterPasswordBuf, config, laterEnv, laterM).join.None?
  {
    FirstBootReadBack(l, mem, Zeros(l.ssidLength), Zeros(l.passwordLength), config);
  }
}
