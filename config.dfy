/** Compile-time capacities of the node engine (the NM_* macros of the public header). */
module Config {

  /** NM_CHILD_NODE: child slots per node. */
  const ChildCapacity: nat := 16

  /** NM_CHAR_NAME: bytes of storage for a signal or callback name, terminator included. */
  const NameCapacity: nat := 64

  /** NM_SIGNAL_HASH: slots of a node's signal table. */
  const SignalCapacity: nat := 67

  /** NM_CALLBACK_HASH: slots of each signal's callback table; the header defines it as NM_SIGNAL_HASH,
      and callback slots are chosen by the same hash reduced modulo SignalCapacity, so the two must agree. */
  const CallbackCapacity: nat := SignalCapacity

  /** NM_NODE_STATE: state slots of a node machine. */
  const StateCapacity: nat := 16

  /** uint16_t, the type of child indices. */
  type u16 = x: int | 0 <= x < 0x1_0000
}
