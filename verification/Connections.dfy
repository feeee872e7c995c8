/** What a connection slot holds, and how the static slots are configured. */
module Connections {

  /** The value that marks "no socket"; real sockets are non-negative. */
  const INVALID_SOCKET: int := -1

  datatype ConnState = NonExistent | Established | TimedOut

  /** The application connection type; explicit messaging connections are class 3. */
  datatype Kind = Explicit | ExclusiveOwner | InputOnly | ListenOnly

  datatype Traffic = NullType | Multicast | PointToPoint | InvalidType

  datatype Triad = Triad(serial: nat, vendor: nat, originator: nat)

  /** The target-to-originator parameters that all multicast connections on one input must share. */
  datatype Production = Production(
    interval: nat,        // microseconds
    variableSize: bool,
    priority: nat,
    transportClass: nat,
    trigger: nat,         // 0 cyclic, 1 change of state, 2 application object
    inhibit: nat)         // milliseconds; 256 marks "no segment in the path"

  datatype Conn = Conn(
    state: ConnState,
    kind: Kind,
    tToO: Traffic,
    output: nat,
    input: nat,
    config: nat,
    producing: int,
    consuming: int,
    remote: nat,
    producedId: nat,
    consumedId: nat,
    triad: Triad,
    number: nat,
    address: nat,
    session: nat,
    production: Production,
    supervised: bool,
    oToTInterval: nat,    // microseconds
    multiplier: nat,
    eipSequence: nat,
    sequenceCount: nat,
    trigger: nat,
    watchdog: nat,
    consumedSequence: nat,
    sequenceReceived: bool,
    closable: bool)       // whether the close function is set

  /** A slot after `ConnectionObjectInitializeEmpty`. */
  const EMPTY: Conn := Conn(
    NonExistent, Explicit, NullType, 0, 0, 0, INVALID_SOCKET, INVALID_SOCKET, 0, 0, 0, Triad(0, 0, 0), 0, 0, 0,
    Production(0, false, 0, 0, 0, 0), false, 0, 0, 0, 0, 0, 0, 0, false, false)

  /** A configured application path and the slots reserved for it. */
  datatype Entry = Entry(output: nat, input: nat, config: nat, base: nat, size: nat)

  /** What a slot is reserved for. */
  datatype Home = Home(kind: Kind, output: nat, input: nat, config: nat)

  /** The connection points as configured at start-up; `homes` has one element per slot. */
  datatype Config = Config(
    owners: seq<Entry>, inputs: seq<Entry>, listeners: seq<Entry>, explicits: Entry, homes: seq<Home>)

  /** Every slot of an entry is reserved for that entry. */
  ghost predicate Reserves(homes: seq<Home>, kind: Kind, e: Entry) {
    && e.base + e.size <= |homes|
    && forall c :: e.base <= c < e.base + e.size ==>
      homes[c].kind == kind && (kind != Explicit ==> homes[c] == Home(kind, e.output, e.input, e.config))
  }

  /** Slots are reserved for one entry each, and an exclusive-owner entry has one slot. */
  ghost predicate WellFormed(cfg: Config) {
    && (forall i :: 0 <= i < |cfg.owners| ==> cfg.owners[i].size == 1 && Reserves(cfg.homes, ExclusiveOwner, cfg.owners[i]))
    && (forall i :: 0 <= i < |cfg.inputs| ==> Reserves(cfg.homes, InputOnly, cfg.inputs[i]))
    && (forall i :: 0 <= i < |cfg.listeners| ==> Reserves(cfg.homes, ListenOnly, cfg.listeners[i]))
    && Reserves(cfg.homes, Explicit, cfg.explicits)
  }

  /** No two exclusive-owner slots produce the same input assembly. */
  ghost predicate OwnerInputsDistinct(cfg: Config) {
    forall a, b :: 0 <= a < b < |cfg.homes| && cfg.homes[a].kind == ExclusiveOwner && cfg.homes[b].kind == ExclusiveOwner ==>
      cfg.homes[a].input != cfg.homes[b].input
  }

  /** The number of list nodes reserved: one per path, whatever the slots per path. */
  function NodePoolSize(cfg: Config): nat {
    cfg.explicits.size + |cfg.inputs| + |cfg.owners| + |cfg.listeners|
  }
}
