/** The bounded wait for a station join (`wifiConnected`, identical in both drafts).

    The radio is an oracle: `status(k)` is the answer of the k-th `WiFi.status()` call of
    the boot sequence, counting from 0. `delay(wifiConnectInterval)` takes no time here;
    only the number of delays is kept. */
module Radio {

  /** The `wl_status_t` values of the radio driver. */
  datatype WlStatus =
    | WlIdleStatus | WlNoSsidAvail | WlScanCompleted | WlConnected
    | WlConnectFailed | WlConnectionLost | WlDisconnected

  /** The answers of successive `WiFi.status()` calls. */
  type StatusOracle = nat -> WlStatus

  /** Outcome of the wait: its return value, how many status calls it made, and how many
      times it called `delay`. */
  datatype PollResult = PollResult(connected: bool, polls: nat, delays: nat)

  /** Some status call with index in `[from, retries)` reports a connection. */
  ghost predicate ConnectsWithin(status: StatusOracle, from: nat, retries: int)
  {
    exists j :: from <= j < retries && status(j) == WlConnected
  }

  /** The wait from status call `i` on: `true` as soon as a call with index below
      `retries` reports a connection, `false` once the index reaches `retries`. */
  function Poll(status: StatusOracle, retries: int, i: nat): (r: PollResult)
    ensures r.connected <==> ConnectsWithin(status, i, retries)
    ensures r.connected ==> i < r.polls <= retries && status(r.polls - 1) == WlConnected
    ensures forall j :: i <= j < r.polls - 1 ==> status(j) != WlConnected
    ensures !r.connected ==> r.polls == (if i < retries then retries else i)
                             && forall j :: i <= j < r.polls ==> status(j) != WlConnected
    ensures r.delays == r.polls - i - (if r.connected then 1 else 0)
    decreases retries - i
  {
    if i >= retries then PollResult(false, i, 0)
    else if status(i) == WlConnected then PollResult(true, i + 1, 0)
    else
      var r := Poll(status, retries, i + 1);
      PollResult(r.connected, r.polls, r.delays + 1)
  }

  /** `wifiConnected`: polls at most `retries` times with a delay after each miss and stops
      at the first connected report; with `retries <= 0` it neither polls nor waits. */
  method WifiConnected(status: StatusOracle, retries: int) returns (r: PollResult)
    ensures r.connected <==> exists j :: 0 <= j < retries && status(j) == WlConnected
    ensures r.polls <= (if retries > 0 then retries else 0)
    ensures r.delays <= r.polls
    ensures retries <= 0 ==> r == PollResult(false, 0, 0)
    ensures r.connected ==> 1 <= r.polls && status(r.polls - 1) == WlConnected
                            && forall j :: 0 <= j < r.polls - 1 ==> status(j) != WlConnected
    ensures r == Poll(status, retries, 0)
  {
    var i := 0;
    var delays := 0;
    while i < retries
      invariant i == delays
      invariant retries > 0 ==> i <= retries
      invariant retries <= 0 ==> i == 0
      invariant forall j :: 0 <= j < i ==> status(j) != WlConnected
      invariant Poll(status, retries, 0).connected == Poll(status, retries, i).connected
      invariant Poll(status, retries, 0).polls == Poll(status, retries, i).polls
      invariant Poll(status, retries, 0).delays == Poll(status, retries, i).delays + i
    {
      if status(i) == WlConnected {
        return PollResult(true, i + 1, delays);
      }
      delays := delays + 1;
      i := i + 1;
    }
    return PollResult(false, i, delays);
  }
}
