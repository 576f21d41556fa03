// The actions of the HTTP/1 DFA (http1/action.rs).
module Http1Action {
  import opened Base

  const NONE: nat := 0
  const START_CAPTURE: nat := 1
  const END_CAPTURE: nat := 2
  const F_DONE: nat := 1

  datatype Action = StartCapture(mid: byte) | EndCapture(mid: byte) | Done | EndCaptureAndDone(mid: byte)

  // An action as the parser program reads it.
  datatype CAction = CAction(kind: nat, flags: nat, mid: nat)

  const NOOP := CAction(NONE, 0, 0)

  function Encode(a: Action): CAction {
    match a
    case Done => CAction(NONE, F_DONE, 0)
    case StartCapture(mid) => CAction(START_CAPTURE, 0, mid)
    case EndCapture(mid) => CAction(END_CAPTURE, 0, mid)
    case EndCaptureAndDone(mid) => CAction(END_CAPTURE, F_DONE, mid)
  }
}
