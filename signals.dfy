/** Translation between poll(2) event bits and channel wait signals
    (zxrio_wait_begin / zxrio_wait_end). The five low poll events map to the
    user signals by a shift of 24; POLLRDHUP, which lies outside that range,
    maps to ZX_CHANNEL_PEER_CLOSED; POLLERR is always waited for. */
module Signals {

  const POLLIN: bv32 := 0x001
  const POLLPRI: bv32 := 0x002
  const POLLOUT: bv32 := 0x004
  const POLLERR: bv32 := 0x008
  const POLLHUP: bv32 := 0x010
  const POLLRDHUP: bv32 := 0x2000

  const POLL_SHIFT: bv32 := 24
  const POLL_MASK: bv32 := 0x1F

  /** ZX_OBJECT_SIGNAL_2, which a channel raises when its peer is closed. */
  const ZX_CHANNEL_PEER_CLOSED: bv32 := 0x4

  /** The signals zxrio_wait_begin asks to wait for, given poll events. */
  function WaitBeginSignals(events: bv32): (signals: bv32)
    // an error is always waited for, whatever the caller asked
    ensures signals & (POLLERR << POLL_SHIFT) != 0
    // the five low events appear shifted into the user-signal range
    ensures (signals >> POLL_SHIFT) & POLL_MASK == (events | POLLERR) & POLL_MASK
    // peer-closed is requested exactly when POLLRDHUP was
    ensures (signals & ZX_CHANNEL_PEER_CLOSED != 0) <==> (events & POLLRDHUP != 0)
    // nothing else is requested
    ensures signals & !((POLL_MASK << POLL_SHIFT) | ZX_CHANNEL_PEER_CLOSED) == 0
  {
    var extra: bv32 := if events & POLLRDHUP != 0 then ZX_CHANNEL_PEER_CLOSED else 0;
    (((POLLERR | events) & POLL_MASK) << POLL_SHIFT) | extra
  }

  /** The poll events zxrio_wait_end reports, given the observed signals. */
  function WaitEndEvents(signals: bv32): (events: bv32)
    ensures events & POLL_MASK == (signals >> POLL_SHIFT) & POLL_MASK
    ensures (events & POLLRDHUP != 0) <==> (signals & ZX_CHANNEL_PEER_CLOSED != 0)
    ensures events & !(POLL_MASK | POLLRDHUP) == 0
  {
    var extra: bv32 := if signals & ZX_CHANNEL_PEER_CLOSED != 0 then POLLRDHUP else 0;
    ((signals >> POLL_SHIFT) & POLL_MASK) | extra
  }

  /** Waiting for what wait_begin asked and seeing all of it raised reports
      back the requested low events with POLLERR added, and POLLRDHUP exactly
      when it was requested; every other requested bit is dropped. */
  lemma WaitRoundTrip(events: bv32)
    ensures WaitEndEvents(WaitBeginSignals(events))
              == ((events | POLLERR) & POLL_MASK) | (events & POLLRDHUP)
  {
    var s := WaitBeginSignals(events);
    var e := WaitEndEvents(s);
    assert e & POLL_MASK == (events | POLLERR) & POLL_MASK;
    assert (e & POLLRDHUP != 0) <==> (events & POLLRDHUP != 0);
  }
}
