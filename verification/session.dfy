/** The `/watch` handler's select loop: one viewer session on one file, driven
    by a trace of inputs (the close signal from the reader goroutine, or an
    event taken from the event channel together with what rendering and the
    socket writer answered for it). */
module Session {
  import opened Base

  /** What `conn.NextWriter` and the write of the rendered HTML answered. */
  datatype Writer =
    | Written                          // writer obtained, HTML written
    | WriteError(message: string)      // writer obtained, writing failed
    | NextWriterClosed                 // `NextWriter` failed with a close error
    | NextWriterError(message: string) // `NextWriter` failed otherwise

  datatype Input =
    | CloseSignal
    | Notified(name: Path, rendered: Rendered, writer: Writer)

  datatype State = Active(filename: Path) | Closed(filename: Path)

  datatype Effect = NoEffect | Push(html: Html) | Logged(message: string)

  datatype Transition = Transition(next: State, effect: Effect)

  /** Inputs after which an active session on `f` returns from the loop. */
  predicate Terminates(f: Path, i: Input) {
    || i.CloseSignal?
    || (i.Notified? && i.name == f && i.rendered.RenderOk? && i.writer.NextWriterClosed?)
  }

  /** Inputs that make an active session on `f` send a complete message. */
  predicate Delivers(f: Path, i: Input) {
    i.Notified? && i.name == f && i.rendered.RenderOk? && i.writer.Written?
  }

  /** One iteration of the select loop. */
  function Step(s: State, i: Input): (r: Transition)
    ensures r.next.filename == s.filename
    ensures s.Closed? ==> r == Transition(s, NoEffect)
    ensures s.Active? ==> (r.next.Closed? <==> Terminates(s.filename, i))
    ensures r.effect.Push? <==> s.Active? && Delivers(s.filename, i)
    ensures r.effect.Push? ==> r.effect.html == i.rendered.html
    ensures i.Notified? && i.name != s.filename ==> r == Transition(s, NoEffect)
  {
    match s
    case Closed(_) => Transition(s, NoEffect)
    case Active(f) =>
      match i
      case CloseSignal => Transition(Closed(f), NoEffect)
      case Notified(name, rendered, writer) =>
        if name != f then Transition(s, NoEffect)
        else match rendered
          case RenderErr(m) => Transition(s, Logged(m))
          case RenderOk(html) =>
            match writer
            case NextWriterClosed => Transition(Closed(f), NoEffect)
            case NextWriterError(m) => Transition(s, Logged("failed to get socket writer " + m))
            case WriteError(m) => Transition(s, Logged("failed to write html to socket " + m))
            case Written => Transition(s, Push(html))
  }

  /** The final state and the messages sent over a trace. */
  datatype Trace = Trace(final: State, pushes: seq<Html>)

  function Run(s: State, inputs: seq<Input>): Trace
    decreases |inputs|
  {
    if |inputs| == 0 then Trace(s, [])
    else
      var t := Step(s, inputs[0]);
      var rest := Run(t.next, inputs[1..]);
      Trace(rest.final, (if t.effect.Push? then [t.effect.html] else []) + rest.pushes)
  }

  /** Reference: the HTML of the inputs that deliver to `f`, in order. */
  function Deliveries(f: Path, inputs: seq<Input>): (r: seq<Html>)
    ensures |r| <= |inputs|
  {
    if |inputs| == 0 then []
    else (if Delivers(f, inputs[0]) then [inputs[0].rendered.html] else []) + Deliveries(f, inputs[1..])
  }

  /** A closed session stays closed and sends nothing, whatever follows. */
  lemma {:induction false} ClosedIsFinal(f: Path, inputs: seq<Input>)
    ensures Run(Closed(f), inputs) == Trace(Closed(f), [])
    decreases |inputs|
  {
    if |inputs| > 0 {
      ClosedIsFinal(f, inputs[1..]);
    }
  }

  /** Without a terminating input the session stays active and sends exactly
      the deliverable inputs for its own file. */
  lemma {:induction false} RunWithoutTermination(f: Path, inputs: seq<Input>)
    requires forall k :: 0 <= k < |inputs| ==> !Terminates(f, inputs[k])
    ensures Run(Active(f), inputs) == Trace(Active(f), Deliveries(f, inputs))
    decreases |inputs|
  {
    if |inputs| > 0 {
      RunWithoutTermination(f, inputs[1..]);
    }
  }

  /** At the first terminating input the session closes; it has sent exactly
      the deliverable inputs before that one, and nothing afterwards. */
  lemma {:induction false} RunUntilTermination(f: Path, inputs: seq<Input>, k: nat)
    requires k < |inputs| && Terminates(f, inputs[k])
    requires forall j :: 0 <= j < k ==> !Terminates(f, inputs[j])
    ensures Run(Active(f), inputs) == Trace(Closed(f), Deliveries(f, inputs[..k]))
    decreases k
  {
    if k == 0 {
      ClosedIsFinal(f, inputs[1..]);
    } else {
      assert inputs[1..][..k - 1] == inputs[..k][1..];
      RunUntilTermination(f, inputs[1..], k - 1);
    }
  }

  /** Events about other files never produce a push and never close the session. */
  lemma {:induction false} OtherFilesIgnored(f: Path, inputs: seq<Input>)
    requires forall k :: 0 <= k < |inputs| ==> inputs[k].Notified? && inputs[k].name != f
    ensures Run(Active(f), inputs) == Trace(Active(f), [])
    decreases |inputs|
  {
    if |inputs| > 0 {
      OtherFilesIgnored(f, inputs[1..]);
    }
  }
}
