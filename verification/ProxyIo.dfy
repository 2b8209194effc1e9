/** The HTTP CONNECT tunnel of http_proxy_io.c: a state machine over API calls and callbacks of the underlying IO. */
module ProxyIo {
  import opened ProxyResponse
  import opened Wrappers

  datatype State = Closed | OpeningUnderlyingIo | WaitingForConnectResponse | Open | Closing | Error

  datatype OpenResult = OpenOk | OpenError | OpenCancelled

  // What the instance does outward: callbacks to its user, and calls on the underlying IO.
  datatype Call =
    | OpenComplete(result: OpenResult)
    | BytesReceived(bytes: string)
    | IoError
    | CloseComplete
    | UnderlyingOpen
    | UnderlyingClose
    | SendConnect
    | UnderlyingSend(bytes: string)

  // The API calls and the callbacks it receives, with the results of the calls they make in turn.
  datatype Event =
    | CallOpen(underlyingOk: bool)
    | CallClose(callback: bool, closed: bool)
    | CallSend(data: string, sent: bool)
    | OnOpenComplete(result: OpenResult, connectSent: bool)
    | OnBytesReceived(data: string, gotMemory: bool)
    | OnError
    | OnCloseComplete

  datatype Io = Io(state: State, buffer: string, closeCallback: bool)

  // ----- The transition function -----

  function Fail(io: Io): (Io, seq<Call>) {
    (io.(state := Closed), [UnderlyingClose, OpenComplete(OpenError)])
  }

  // The end of the header, once it is in the buffer, decides; bytes after it are passed on.
  function Decide(io: Io): (Io, seq<Call>) {
    match HeaderLength(io.buffer)
    case None => (io, [])
    case Some(e) =>
      if Success(Status(CString(io.buffer))) then
        (io.(state := Open), [OpenComplete(OpenOk)] + if e < |io.buffer| then [BytesReceived(io.buffer[e..])] else [])
      else Fail(io)
  }

  function Step(io: Io, e: Event): (Io, seq<Call>) {
    match e
    case CallOpen(underlyingOk) =>
      if io.state != Closed then (io, [])
      else (io.(state := if underlyingOk then OpeningUnderlyingIo else Closed), if underlyingOk then [UnderlyingOpen] else [])
    case CallClose(callback, closed) => (
      match io.state
      case Closed => (io, [])
      case Closing => (io, [])
      case OpeningUnderlyingIo => (io.(state := Closed), [UnderlyingClose, OpenComplete(OpenCancelled)])
      case WaitingForConnectResponse => (io.(state := Closed), [UnderlyingClose, OpenComplete(OpenCancelled)])
      case _ => (io.(state := if closed then Closing else io.state, closeCallback := callback), [UnderlyingClose])
    )
    case CallSend(data, sent) =>
      (io, if io.state == Open && data != "" then [UnderlyingSend(data)] else [])
    case OnOpenComplete(result, connectSent) => (
      match io.state
      case Open => (io, [IoError])
      case Closing => (io, [IoError])
      case WaitingForConnectResponse => Fail(io)
      case OpeningUnderlyingIo => (
        match result
        case OpenError => Fail(io)
        case OpenCancelled => (io.(state := Closed), [UnderlyingClose, OpenComplete(OpenCancelled)])
        case OpenOk =>
          if connectSent then (io.(state := WaitingForConnectResponse), [SendConnect]) else Fail(io)
      )
      case _ => (io, [])
    )
    case OnBytesReceived(data, gotMemory) => (
      match io.state
      case OpeningUnderlyingIo => Fail(io)
      case WaitingForConnectResponse =>
        if gotMemory then Decide(io.(buffer := io.buffer + data))
        else
          // The failure is reported, and the old buffer is looked at all the same.
          var (failed, calls) := Fail(io);
          var (io', more) := Decide(failed);
          (io', calls + more)
      case Open => (io, [BytesReceived(data)])
      case _ => (io, [])
    )
    case OnError => (
      match io.state
      case OpeningUnderlyingIo => Fail(io)
      case WaitingForConnectResponse => Fail(io)
      case Open => (io.(state := Error), [IoError])
      case _ => (io, [])
    )
    case OnCloseComplete =>
      if io.state == Closing then (io.(state := Closed), if io.closeCallback then [CloseComplete] else []) else (io, [])
  }

  function Run(io: Io, es: seq<Event>): (Io, seq<Call>)
    decreases |es|
  {
    if es == [] then (io, [])
    else
      var (io', calls) := Step(io, es[0]);
      var (io'', more) := Run(io', es[1..]);
      (io'', calls + more)
  }

  // ----- The instance -----

  class Instance {
    var state: State
    var receiveBuffer: string     // receive_buffer[..receive_buffer_size]
    var onCloseComplete: bool     // whether a close callback was given
    var calls: seq<Call>          // everything done outward so far

    constructor ()
      ensures Value() == Io(Closed, "", false) && calls == []
    {
      state := Closed;
      receiveBuffer := "";
      onCloseComplete := false;
      calls := [];
    }

    function Value(): Io
      reads this
    {
      Io(state, receiveBuffer, onCloseComplete)
    }

    // This and `calls` after handling e, in terms of the state before.
    twostate predicate Did(e: Event)
      reads this
    {
      var (io, more) := Step(old(Value()), e);
      Value() == io && calls == old(calls) + more
    }

    method IndicateOpenCompleteErrorAndClose()
      modifies this
      ensures Value() == Fail(old(Value())).0 && calls == old(calls) + Fail(old(Value())).1
    {
      state := Closed;
      calls := calls + [UnderlyingClose];
      calls := calls + [OpenComplete(OpenError)];
    }

    method HttpProxyIoOpen(underlyingOk: bool) returns (ok: bool)
      modifies this
      ensures Did(CallOpen(underlyingOk)) && ok == (old(state) == Closed && underlyingOk)
    {
      if state != Closed {
        return false;
      }
      state := OpeningUnderlyingIo;
      if !underlyingOk {
        state := Closed;
        return false;
      }
      calls := calls + [UnderlyingOpen];
      ok := true;
    }

    method HttpProxyIoClose(callback: bool, closed: bool) returns (ok: bool)
      modifies this
      ensures Did(CallClose(callback, closed))
      ensures ok == (old(state) == OpeningUnderlyingIo || old(state) == WaitingForConnectResponse
                     || ((old(state) == Open || old(state) == Error) && closed))
    {
      if state == Closed || state == Closing {
        return false;
      } else if state == OpeningUnderlyingIo || state == WaitingForConnectResponse {
        state := Closed;
        calls := calls + [UnderlyingClose];
        calls := calls + [OpenComplete(OpenCancelled)];
        return true;
      }
      var previousState := state;
      state := Closing;
      onCloseComplete := callback;
      calls := calls + [UnderlyingClose];
      if !closed {
        state := previousState;
      }
      ok := closed;
    }

    method HttpProxyIoSend(data: string, sent: bool) returns (ok: bool)
      modifies this
      ensures Did(CallSend(data, sent)) && ok == (old(state) == Open && data != "" && sent)
      ensures Value() == old(Value())
      ensures calls == if old(state) == Open && data != "" then old(calls) + [UnderlyingSend(data)] else old(calls)
    {
      if data == "" || state != Open {
        return false;
      }
      calls := calls + [UnderlyingSend(data)];
      ok := sent;
    }

    method OnUnderlyingIoOpenComplete(result: OpenResult, connectSent: bool)
      modifies this
      ensures Did(OnOpenComplete(result, connectSent))
    {
      if state == Closing || state == Open {
        calls := calls + [IoError];
      } else if state == WaitingForConnectResponse {
        IndicateOpenCompleteErrorAndClose();
      } else if state == OpeningUnderlyingIo {
        match result {
          case OpenError =>
            IndicateOpenCompleteErrorAndClose();
          case OpenCancelled =>
            state := Closed;
            calls := calls + [UnderlyingClose];
            calls := calls + [OpenComplete(OpenCancelled)];
          case OpenOk =>
            state := WaitingForConnectResponse;
            if connectSent {
              calls := calls + [SendConnect];
            } else {
              IndicateOpenCompleteErrorAndClose();
            }
        }
      }
    }

    method OnUnderlyingIoError()
      modifies this
      ensures Did(OnError)
    {
      if state == OpeningUnderlyingIo || state == WaitingForConnectResponse {
        IndicateOpenCompleteErrorAndClose();
      } else if state == Open {
        state := Error;
        calls := calls + [IoError];
      }
    }

    method OnUnderlyingIoCloseComplete()
      modifies this
      ensures Did(OnCloseComplete)
    {
      if state == Closing {
        state := Closed;
        if onCloseComplete {
          calls := calls + [CloseComplete];
        }
      }
    }

    method OnUnderlyingIoBytesReceived(data: string, gotMemory: bool)
      modifies this
      ensures Did(OnBytesReceived(data, gotMemory))
    {
      hide Decide;
      if state == OpeningUnderlyingIo {
        IndicateOpenCompleteErrorAndClose();
      } else if state == WaitingForConnectResponse {
        if gotMemory {
          receiveBuffer := receiveBuffer + data;
        } else {
          IndicateOpenCompleteErrorAndClose();
        }
        DecideOnHeader();
      } else if state == Open {
        calls := calls + [BytesReceived(data)];
      }
    }

    // The part of the callback that looks for the double new-line and parses the response.
    method DecideOnHeader()
      modifies this
      ensures Value() == Decide(old(Value())).0 && calls == old(calls) + Decide(old(Value())).1
    {
      hide Status, CString, HeaderLength;
      if |receiveBuffer| >= 4 {
        var requestEnd := HeaderLength(receiveBuffer);
        if requestEnd.Some? {
          var statusCode := ParseHttpResponse(CString(receiveBuffer));
          if statusCode.None? {
            IndicateOpenCompleteErrorAndClose();
          } else if statusCode.value < 200 || statusCode.value > 299 {
            IndicateOpenCompleteErrorAndClose();
          } else {
            var lengthRemaining := |receiveBuffer| - requestEnd.value;
            state := Open;
            calls := calls + [OpenComplete(OpenOk)];
            if lengthRemaining > 0 {
              calls := calls + [BytesReceived(receiveBuffer[requestEnd.value..])];
            }
          }
        }
      }
    }
  }
}
