/** Connection bookkeeping and endpoint addressing of the sender. */
module Transport {
  import opened Common

  /** Host prefix that selects a Unix domain stream socket. */
  const UNIX_PREFIX: string := "unix://"

  /** Where the sender connects: a socket path, or a TCP host and port. */
  datatype Address = Unix(path: string) | Tcp(host: string, port: int)

  /** The socket handle: absent, or open towards an address. */
  datatype Conn = Disconnected | Connected(peer: Address)

  /** What the network would do on this call: accept a fresh connect, accept the write. */
  datatype Network = Network(connectSucceeds: bool, writeSucceeds: bool)

  /** The endpoint selected by the configured host and port. */
  function AddressOf(host: string, port: int): (a: Address)
    ensures a.Unix? <==> HasPrefix(host, UNIX_PREFIX)
    ensures a.Unix? ==> UNIX_PREFIX + a.path == host
    ensures a.Tcp? ==> a == Tcp(host, port)
  {
    if HasPrefix(host, UNIX_PREFIX) then Unix(host[|UNIX_PREFIX|..]) else Tcp(host, port)
  }

  /** The host string that denotes the Unix socket at `path`. */
  function UnixHost(path: string): string {
    UNIX_PREFIX + path
  }

  /** Addressing round trip: a `unix://` host selects exactly the path after the prefix. */
  lemma UnixHostRoundTrip(path: string, port: int)
    ensures AddressOf(UnixHost(path), port) == Unix(path)
  {
    assert (UNIX_PREFIX + path)[..|UNIX_PREFIX|] == UNIX_PREFIX;
  }

  /** Opens a connection only when none exists; `None` means the connect raised. */
  function Reconnect(conn: Conn, addr: Address, connects: bool): (r: Option<Conn>)
    ensures conn.Connected? ==> r == Some(conn)
    ensures conn.Disconnected? ==> (r.Some? <==> connects)
    ensures conn.Disconnected? && r.Some? ==> r.value == Connected(addr)
  {
    if conn.Connected? then Some(conn)
    else if connects then Some(Connected(addr))
    else None
  }

  /** Drops the handle, whether or not one was open. */
  function Close(conn: Conn): (r: Conn)
    ensures !r.Connected?
  {
    Disconnected
  }

  /** Reconnecting an open handle, whatever the network would do, keeps that same handle. */
  lemma ReconnectIdempotent(conn: Conn, addr: Address, connects: bool, again: bool)
    requires Reconnect(conn, addr, connects).Some?
    ensures Reconnect(Reconnect(conn, addr, connects).value, addr, again) == Reconnect(conn, addr, connects)
  {
  }

  /** True when a call that starts with handle `conn` gets its bytes out. */
  predicate Reaches(conn: Conn, net: Network) {
    (conn.Connected? || net.connectSucceeds) && net.writeSucceeds
  }

  /** Reconnect, then write everything; the handle in use on success, `None` on any error. */
  function Deliver(conn: Conn, addr: Address, net: Network): (r: Option<Conn>)
    ensures r.Some? <==> Reaches(conn, net)
    ensures r.Some? ==> r.value.Connected?
    ensures r.Some? && conn.Connected? ==> r.value == conn
    ensures r.Some? && conn.Disconnected? ==> r.value == Connected(addr)
  {
    match Reconnect(conn, addr, net.connectSucceeds)
    case None => None
    case Some(open) => if net.writeSucceeds then Some(open) else None
  }
}
