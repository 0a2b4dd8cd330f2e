/** The operating mode of the device and the once-per-tick `loop`.

    `millis()` is an input: a 32-bit unsigned count of milliseconds that wraps around. */
module Machine {

  const Wrap: int := 0x1_0000_0000

  /** An `unsigned long` on the 32-bit target. */
  type U32 = x: int | 0 <= x < 0x1_0000_0000

  /** `MODE_AP` / `ap`: the device is its own access point; `MODE_API` / `api`: it has joined
      the configured network. */
  datatype Mode = ModeAP | ModeAPI

  /** The members of `ConfigManager` that the boot sequence and the loop read or set. */
  datatype Machine = Machine(mode: Mode, apTimeout: int, apStart: U32, dnsRunning: bool, serverRunning: bool)

  /** `startAP`, radio configuration left out: provisioning mode, captive DNS started,
      session start recorded. */
  function StartAP(m: Machine, now: U32): (r: Machine)
    ensures r.mode == ModeAP && r.apStart == now && r.dnsRunning
    ensures r.apTimeout == m.apTimeout && r.serverRunning == m.serverRunning
  {
    m.(mode := ModeAP, apStart := now, dnsRunning := true)
  }

  /** `startApi`, radio configuration left out: application mode. */
  function StartApi(m: Machine): (r: Machine)
    ensures r.mode == ModeAPI && r == m.(mode := ModeAPI)
  {
    m.(mode := ModeAPI)
  }

  /** `startWebServer`, route wiring left out: the server exists afterwards. */
  function StartWebServer(m: Machine): (r: Machine)
    ensures r.serverRunning && r == m.(serverRunning := true)
  {
    m.(serverRunning := true)
  }

  /** `millis() - apStart` in unsigned 32-bit arithmetic. */
  function Elapsed(now: U32, start: U32): (d: U32)
    ensures start <= now ==> d == now - start
    ensures now < start ==> d == now + Wrap - start
  {
    (now - start) % Wrap
  }

  /** The timeout condition of both drafts' `loop`:
      `mode == AP && apTimeout > 0 && (millis() - apStart) / 1000 > apTimeout`. Because
      `apTimeout > 0` is evaluated first, its conversion to unsigned is exact. */
  predicate ApTimedOut(m: Machine, now: U32)
  {
    m.mode == ModeAP && m.apTimeout > 0 && Elapsed(now, m.apStart) / 1000 > m.apTimeout
  }

  /** What one `loop` tick does: restart the device, pump the DNS responder, pump the web
      server. */
  datatype Tick = Tick(restart: bool, dnsPumped: bool, serverPumped: bool)

  /** The current draft's `loop`: the restart is commented out, so a tick never restarts,
      whatever the timeout; DNS and web server are pumped exactly when they exist. */
  function LoopCurrent(m: Machine, now: U32): (t: Tick)
    ensures !t.restart
    ensures t.dnsPumped == m.dnsRunning && t.serverPumped == m.serverRunning
  {
    Tick(false, m.dnsRunning, m.serverRunning)
  }

  /** The older draft's `loop`: restarts exactly when, in provisioning mode with a positive
      timeout of T seconds, at least (T + 1) * 1000 milliseconds have passed since the
      session started (the comparison is strict and whole seconds are compared).
      `ESP.restart()` does not return, so a restarting tick pumps neither the DNS
      responder nor the web server; any other tick pumps what exists. */
  function LoopDraft(m: Machine, now: U32): (t: Tick)
    ensures t.restart <==> m.mode == ModeAP && m.apTimeout > 0 && Elapsed(now, m.apStart) >= 1000 * (m.apTimeout + 1)
    ensures t.dnsPumped == (!t.restart && m.dnsRunning)
    ensures t.serverPumped == (!t.restart && m.serverRunning)
  {
    var restart := ApTimedOut(m, now);
    Tick(restart, !restart && m.dnsRunning, !restart && m.serverRunning)
  }

  /** The unsigned subtraction measures real elapsed time across a wrap of the counter, as
      long as less than 2^32 milliseconds (about 49.7 days) have passed. */
  lemma ElapsedAcrossWrap(start: U32, d: nat)
    requires d < Wrap
    ensures Elapsed((start + d) % Wrap, start) == d
  {
    if start + d >= Wrap {
      assert (start + d) % Wrap == start + d - Wrap;
    }
  }

  /** A session timeout of 4294967 seconds or more can never fire: the elapsed count
      wraps before reaching it. */
  lemma TimeoutOutOfRange(m: Machine, now: U32)
    requires m.apTimeout >= (Wrap - 1) / 1000
    ensures !ApTimedOut(m, now)
    ensures !LoopDraft(m, now).restart
  {
    assert Elapsed(now, m.apStart) / 1000 <= (Wrap - 1) / 1000;
  }
}
