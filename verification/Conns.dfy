/** The socket row shipped to the frontend (conns.go), reduced to the fields
    that the modelled components read or write. */
module Conns {

  /** Why a row has no process attached. `Attributed` is the empty reason:
      nothing to explain. */
  datatype Reason = Attributed | NoProc | Denied | Kernel | Gone

  /** TCP states, the two states given to UDP sockets, the ghost state, and
      the empty state of an unknown TCP code. */
  datatype SocketState =
    | Established | SynSent | SynRecv | FinWait1 | FinWait2 | TimeWait
    | Close | CloseWait | LastAck | Listen | Closing | NewSynRecv
    | Unconn | Disconnected | Unknown

  datatype Conn = Conn(
    id: string, proto: string, state: SocketState,
    laddr: string, lport: nat, raddr: string, rport: nat,
    pid: int, comm: string, app: string,
    host: string, owner: string, alias: string,
    lhost: string, lowner: string, lalias: string, hide: bool,
    up: nat, down: nat, upRate: real, downRate: real,
    noPid: Reason, inherit: bool, wasPid: int)

  /** Two rows that say the same of a socket, apart from its state, its rates and
      the process it belongs to. */
  predicate SameRecord(a: Conn, b: Conn) {
    && a.id == b.id && a.proto == b.proto
    && a.laddr == b.laddr && a.lport == b.lport && a.raddr == b.raddr && a.rport == b.rport
    && a.host == b.host && a.owner == b.owner && a.alias == b.alias
    && a.lhost == b.lhost && a.lowner == b.lowner && a.lalias == b.lalias
    && a.hide == b.hide && a.up == b.up && a.down == b.down && a.noPid == b.noPid
  }

  /** A dead row: its state says so, and nothing flows. */
  predicate IsDead(c: Conn) {
    c.state == Disconnected && c.upRate == 0.0 && c.downRate == 0.0
  }

  /** The kernel named a process for this row, and that process has a name. */
  predicate HasOwner(c: Conn) {
    c.pid > 0 && c.comm != ""
  }

  /** A nameless row that memory may speak for: its owner exited, or the
      kernel keeps no process for it. `Denied` and `Kernel` rows may not. */
  predicate Answerable(c: Conn) {
    c.comm == "" && (c.noPid == Gone || c.noPid == NoProc)
  }

  /** The rows' last-writer-wins table by id: how a Go map is filled from a
      slice whose ids may repeat. */
  function LastRows(rows: seq<Conn>): (m: map<string, Conn>)
    ensures forall id :: id in m <==> Present(rows, id)
    ensures forall id :: id in m ==> m[id].id == id
  {
    if rows == [] then map[]
    else
      var m := LastRows(rows[..|rows| - 1]);
      assert rows == rows[..|rows| - 1] + [rows[|rows| - 1]];
      m[rows[|rows| - 1].id := rows[|rows| - 1]]
  }

  predicate Present(rows: seq<Conn>, id: string) {
    exists i :: 0 <= i < |rows| && rows[i].id == id
  }
}
