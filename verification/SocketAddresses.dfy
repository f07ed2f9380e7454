/** `host:port` text: printing a socket address, and reading a backend string back. */
module SocketAddresses {
  import opened Prelude
  import opened Text
  import opened Decimal
  import opened PluginSys

  const MAX_PORT: nat := 0xFFFF

  // `From<SocketAddress> for String`.
  function Show(addr: SocketAddress): string {
    addr.host + ":" + Print(addr.port)
  }

  datatype BackendError = InvalidAddress(text: string) | InvalidPort(text: string)

  function ParseBackend(value: string): Result<SocketAddress, BackendError> {
    match RSplitOnce(value, ':')
    case None => Err(InvalidAddress(value))
    case Some(split) =>
      match ParseUnsigned(split.1, MAX_PORT)
      case None => Err(InvalidPort(value))
      case Some(port) => Ok(SocketAddress(split.0, port))
  }

  function KeepRoute(): RouteDecision {
    RouteDecision(Keep, None, None)
  }

  function RouteTo(backend: string): RouteDecision {
    match ParseBackend(backend)
    case Err(_) => KeepRoute()
    case Ok(upstream) => RouteDecision(ReplaceUpstream, Some(upstream), None)
  }

  // The text of a backend that names addr: a sign and leading zeros are tolerated in the port.
  function PaddedShow(addr: SocketAddress, pad: Padding): string {
    addr.host + ":" + Padded(addr.port, pad)
  }

  lemma PaddedShowParses(addr: SocketAddress, pad: Padding)
    ensures ParseBackend(PaddedShow(addr, pad)) == Ok(addr)
  {
    var port := Padded(addr.port, pad);
    PaddedPrintAccepted(addr.port, pad, MAX_PORT);
    PaddedLacks(addr.port, pad, ':');
    RSplitOnceAt(addr.host, port, ':');
  }

  // Every address, whatever colons its host holds, survives printing and parsing.
  lemma ShowThenParse(addr: SocketAddress)
    ensures ParseBackend(Show(addr)) == Ok(addr)
  {
    PaddedShowParses(addr, Padding(false, 0));
    assert Padded(addr.port, Padding(false, 0)) == Print(addr.port);
  }

  lemma ParsedBackendIsPaddedShow(value: string) returns (pad: Padding)
    requires ParseBackend(value).Ok?
    ensures value == PaddedShow(ParseBackend(value).value, pad)
  {
    pad := AcceptedIsPaddedPrint(RSplitOnce(value, ':').value.1, MAX_PORT);
  }

  // A backend string is accepted as addr exactly when it is addr's text up to the port's sign and zeros.
  lemma AcceptedBackends(value: string, addr: SocketAddress)
    ensures ParseBackend(value) == Ok(addr) <==> exists pad :: value == PaddedShow(addr, pad)
  {
    if ParseBackend(value) == Ok(addr) {
      var pad := ParsedBackendIsPaddedShow(value);
    }
    forall pad | value == PaddedShow(addr, pad) ensures ParseBackend(value) == Ok(addr) {
      PaddedShowParses(addr, pad);
    }
  }

  // Two addresses never print alike.
  lemma ShowInjective(a: SocketAddress, b: SocketAddress)
    requires Show(a) == Show(b)
    ensures a == b
  {
    ShowThenParse(a);
    ShowThenParse(b);
  }

  // The route is replaced by the address the backend text names, sign and zeros in its port or not,
  // and kept when it names none.
  lemma {:induction false} RouteToKeepsIffUnparsable(backend: string)
    ensures RouteTo(backend).action == Keep <==> forall addr, pad :: backend != PaddedShow(addr, pad)
    ensures RouteTo(backend).action == Keep ==> RouteTo(backend) == RouteDecision(Keep, None, None)
    ensures forall addr, pad ::
              RouteTo(PaddedShow(addr, pad)) == RouteDecision(ReplaceUpstream, Some(addr), None)
    ensures forall addr :: RouteTo(Show(addr)) == RouteDecision(ReplaceUpstream, Some(addr), None)
  {
    forall addr, pad ensures ParseBackend(PaddedShow(addr, pad)) == Ok(addr) {
      PaddedShowParses(addr, pad);
    }
    forall addr ensures ParseBackend(Show(addr)) == Ok(addr) {
      ShowThenParse(addr);
    }
    if ParseBackend(backend).Ok? {
      var pad := ParsedBackendIsPaddedShow(backend);
    }
  }

  // What is printed: the host, a colon, and the port's digits, without a sign and without a leading zero.
  lemma ShowIsPlain(addr: SocketAddress) returns (port: string)
    ensures Show(addr) == addr.host + ":" + port
    ensures AllDigits(port) && port != "" && (port[0] == '0' <==> addr.port == 0) && Value(port) == addr.port
  {
    port := Print(addr.port);
    PrintedDigits(addr.port);
  }

  // A refused text: without a colon it is no address, otherwise its port is at fault.
  lemma RejectedBackends(value: string, error: BackendError)
    ensures ParseBackend(value) == Err(error) <==>
              && (forall addr, pad :: value != PaddedShow(addr, pad))
              && error == if ':' in value then InvalidPort(value) else InvalidAddress(value)
  {
    forall addr, pad | value == PaddedShow(addr, pad) ensures ParseBackend(value).Ok? {
      PaddedShowParses(addr, pad);
    }
    if ParseBackend(value).Ok? {
      var pad := ParsedBackendIsPaddedShow(value);
    }
  }
}
