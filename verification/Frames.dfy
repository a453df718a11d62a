/**
  The 32-byte radio frame, addressed by byte offset. The structures the code lays over one another
  (`ping_t` over `Trans_t`, `Role_t`, `Monitor_t` and `Power_t` over `Ctr_t`, `sxFrame_t` over the
  whole frame) are different readings of the same offsets.
 */
module Frames {
  import opened Bytes

  const FRAME_SIZE := 32

  type Frame = f: seq<bv8> | |f| == FRAME_SIZE witness seq(FRAME_SIZE, _ => 0)

  // MyAddr_t
  const PID := 0
  const ROLE := 1
  const GID := 4
  // Ctr_t
  const HIGH := 6
  const LOW := 7
  const LEVEL := 8
  // Role_t, Monitor_t and Power_t inside Ctr_t
  const NEW_PID := 10
  const NEW_ROLE := 11
  const NEW_GID := 12
  const TRAFFIC := 6
  const MONITOR := 10
  const PHOTO := 12
  const POWER := 10
  // Cmd_t
  const COMMAND := 14
  const SUB_COMMAND := 15
  const TIME := 16
  // ping_t inside Trans_t
  const DST_PID := 18
  const DST_ROLE := 19
  const DST_GID := 20
  // Trans_t
  const RESERVE := 24
  const CHECK_SUM := 31
  // the trailing CRC of sxFrame_t
  const SX_CRC := 30

  // eRole_t
  const RX: bv8 := 1
  const TX: bv8 := 2
  const SRX: bv8 := 4
  const GW: bv8 := 32
  const MST: bv8 := 64

  function U16(f: Frame, i: nat): bv16
    requires i + 1 < FRAME_SIZE
  {
    Word(f[i], f[i + 1])
  }

  function SetU16(f: Frame, i: nat, w: bv16): (r: Frame)
    requires i + 1 < FRAME_SIZE
    ensures U16(r, i) == w
    ensures forall k :: 0 <= k < FRAME_SIZE && k != i && k != i + 1 ==> r[k] == f[k]
  {
    WordOfParts(w);
    f[i := Lo(w)][i + 1 := Hi(w)]
  }

  predicate IsTx(f: Frame) { f[ROLE] == TX }

  predicate IsGw(f: Frame) { f[ROLE] == GW }

  predicate IsGateway(role: bv8) { role == MST || role == GW }

  predicate IsMstOrGw(f: Frame) { IsGateway(f[ROLE]) }

  /** The frames agree outside the listed offsets. */
  ghost predicate SameExcept(f: Frame, g: Frame, offsets: set<nat>) {
    forall i :: 0 <= i < FRAME_SIZE && i !in offsets ==> f[i] == g[i]
  }
}
