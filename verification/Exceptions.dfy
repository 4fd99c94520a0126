/**
 * The boundary of exported native functions: `throw!`, `throw_and_exit!`, panics, and the two nested
 * `catch_unwind` of `ffi_export!`, against the exception pending in the JVM.
 */
module Exceptions {
  import opened Wrappers

  const RUNTIME_EXCEPTION: string := "java/lang/RuntimeException"

  /** An exception class with its message. */
  datatype Exception = Exception(name: string, message: string)

  /** Which JNI call inside `_throw_inner` fails, if any. */
  datatype Fault = NoFault | CheckFails | FindClassFails | ThrowNewFails

  /** What crosses the boundary: a reference (0 is null), a primitive, or nothing. */
  datatype JniValue = Reference(address: nat) | Number(n: int) | Void

  /** The four forms of `ffi_export!`, by the declared result. */
  datatype Variant = ForObject | ForByteArray | ForDefault | ForVoid {
    predicate Types(v: JniValue) {
      match this
      case ForObject => v.Reference?
      case ForByteArray => v.Reference?
      case ForDefault => v.Number?
      case ForVoid => v.Void?
    }

    /** What a call returns whose body panicked. */
    function Default(): (v: JniValue)
      ensures Types(v)
    {
      match this
      case ForObject => Reference(0)
      case ForByteArray => Reference(0)
      case ForDefault => Number(0)
      case ForVoid => Void
    }
  }

  /** One step of a native body; all but the first leave it. */
  datatype Action =
    | JavaThrows(raised: Exception)                         // a JNI call runs Java code that throws
    | Throw(thrown: Exception, fault: Fault, value: JniValue)   // `throw!`, which then returns
    | ThrowAndExit(thrown: Exception, fault: Fault)         // `throw_and_exit!`, which then panics
    | Panics(message: string)                               // `panic!`, `expect`, `unwrap`
    | Returns(value: JniValue)

  /** A native body, and the value it returns when it reaches its end. */
  datatype Body = Body(steps: seq<Action>, last: JniValue) {
    function Rest(): Body
      requires steps != []
    {
      Body(steps[1..], last)
    }
  }

  /** How Rust code leaves a scope: with a value, or unwinding the stack with a panic. */
  datatype Leaving<+T> = Value(value: T) | Unwinding(message: string)

  /** What `catch_unwind` returns: the panic has become a value, and unwinding stops here. */
  datatype Caught<+T> = Completed(value: T) | Panic(message: string)

  function CatchUnwind<T>(leaving: Leaving<T>): Caught<T> {
    match leaving
    case Value(value) => Completed(value)
    case Unwinding(message) => Panic(message)
  }

  /** What the JVM sees of a call: a value, the end of the process, or a stack that unwinds into it. */
  datatype CallResult = Returned(value: JniValue) | Aborted | Unwound(message: string)

  // ----- one throw, one body, one call -----

  /** `_throw_inner`: nothing when an exception is pending, and a panic when a needed call fails. */
  predicate ThrowPanics(pending: Option<Exception>, fault: Fault) {
    fault == CheckFails || (pending.None? && fault != NoFault)
  }

  function AfterThrow(pending: Option<Exception>, exc: Exception, fault: Fault): Option<Exception> {
    if pending.None? && fault == NoFault then Some(exc) else pending
  }

  function FaultMessage(exc: Exception, fault: Fault): string {
    match fault
    case CheckFails => "called `Result::unwrap()` on an `Err` value"
    case FindClassFails => "Unable to find " + exc.name + " class"
    case ThrowNewFails => "Should be able to throw " + exc.name
    case NoFault => ""
  }

  function ExitMessage(exc: Exception): string {
    "Thrown exception: " + exc.name + " for reason: " + exc.message
  }

  /** A body, step by step: the exception pending when it leaves, and how it leaves. */
  function Run(pending: Option<Exception>, body: Body): (Option<Exception>, Leaving<JniValue>)
    decreases |body.steps|
  {
    if body.steps == [] then (pending, Value(body.last))
    else
      match body.steps[0]
      case JavaThrows(e) => Run(if pending.None? then Some(e) else pending, body.Rest())
      case Throw(e, fault, value) =>
        (AfterThrow(pending, e, fault),
         if ThrowPanics(pending, fault) then Unwinding(FaultMessage(e, fault)) else Value(value))
      case ThrowAndExit(e, fault) =>
        (AfterThrow(pending, e, fault),
         Unwinding(if ThrowPanics(pending, fault) then FaultMessage(e, fault) else ExitMessage(e)))
      case Panics(message) => (pending, Unwinding(message))
      case Returns(value) => (pending, Value(value))
  }

  /** The handler's closure: `throw!` of a `RuntimeException` with the panic's message. */
  function Handler(message: string, variant: Variant, fault: Fault): Body {
    Body([Throw(Exception(RUNTIME_EXCEPTION, message), fault, variant.Default())], variant.Default())
  }

  /** The panic of `eprintln!` when writing to the standard error stream fails. */
  function PrintMessage(stderrError: string): string {
    "failed printing to stderr: " + stderrError
  }

  /**
   * An exported call: a caught body, a caught handler, and then, outside both catches, a line on the
   * standard error stream and an abort. `stderrError` is the failure to write that line, if any.
   */
  function Export(pending: Option<Exception>, body: Body, variant: Variant, handlerFault: Fault, stderrError: Option<string>)
    : (Option<Exception>, CallResult)
  {
    var (p, leaving) := Run(pending, body);
    match CatchUnwind(leaving)
    case Completed(value) => (p, Returned(value))
    case Panic(message) =>
      var (q, handled) := Run(p, Handler(message, variant, handlerFault));
      match CatchUnwind(handled)
      case Completed(value) => (q, Returned(value))
      case Panic(_) => (q, if stderrError.Some? then Unwound(PrintMessage(stderrError.value)) else Aborted)
  }

  // ----- the same from outside: what the body raised and where it left -----

  /** The exceptions that the body raises in the JVM, in order, up to where it leaves. */
  function Raised(body: Body): seq<Exception>
    decreases |body.steps|
  {
    if body.steps == [] then []
    else
      match body.steps[0]
      case JavaThrows(e) => [e] + Raised(body.Rest())
      case Throw(e, fault, _) => if fault == NoFault then [e] else []
      case ThrowAndExit(e, fault) => if fault == NoFault then [e] else []
      case Panics(_) => []
      case Returns(_) => []
  }

  /** Where the body leaves: its first action that is not a Java exception, or its end. */
  function Exit(body: Body): Action
    decreases |body.steps|
  {
    if body.steps == [] then Returns(body.last)
    else if body.steps[0].JavaThrows? then Exit(body.Rest())
    else body.steps[0]
  }

  /** The first of the exception already pending and those the body raises. */
  function First(pending: Option<Exception>, body: Body): Option<Exception> {
    if pending.Some? then pending else if Raised(body) != [] then Some(Raised(body)[0]) else None
  }

  /** The body leaves by a panic, by `throw_and_exit!`, or by a `throw!` that fails. */
  predicate Panicking(pending: Option<Exception>, body: Body) {
    match Exit(body)
    case Throw(_, fault, _) => ThrowPanics(First(pending, body), fault)
    case ThrowAndExit(_, _) => true
    case Panics(_) => true
    case _ => false
  }

  /** The message of a panic that raised no exception. */
  function SilentMessage(body: Body): string {
    match Exit(body)
    case Panics(message) => message
    case Throw(e, fault, _) => FaultMessage(e, fault)
    case ThrowAndExit(e, fault) => FaultMessage(e, fault)
    case _ => ""
  }

  /** The value of a body that does not panic. */
  function ResultOf(body: Body): JniValue {
    match Exit(body)
    case Throw(_, _, value) => value
    case Returns(value) => value
    case _ => body.last
  }

  lemma {:induction false} RunExact(pending: Option<Exception>, body: Body)
    ensures Run(pending, body).0 == First(pending, body)
    ensures Run(pending, body).1.Unwinding? <==> Panicking(pending, body)
    ensures Panicking(pending, body) && First(pending, body).None? ==>
              Run(pending, body).1 == Unwinding(SilentMessage(body))
    ensures !Panicking(pending, body) ==> Run(pending, body).1 == Value(ResultOf(body))
    decreases |body.steps|
  {
    if body.steps != [] && body.steps[0].JavaThrows? {
      RunExact(if pending.None? then Some(body.steps[0].raised) else pending, body.Rest());
    }
  }

  /**
   * The exception protocol, for every body and every form of export.
   *
   * A call unwinds into the JVM exactly when the body panics, throwing from the handler panics and the
   * line on the standard error stream cannot be written; with that line written it aborts. In every
   * other case it returns: the body's own value, or the default of its form after a panic.
   *
   * The first exception is never lost or replaced. A panic that raised none becomes a
   * `RuntimeException` with its message, and a call whose body returned adds nothing of its own.
   */
  lemma ExportExact(pending: Option<Exception>, body: Body, variant: Variant, handlerFault: Fault, stderrError: Option<string>)
    ensures var (p, r) := Export(pending, body, variant, handlerFault, stderrError);
            var first, panics := First(pending, body), Panicking(pending, body);
            var uncaught := panics && (handlerFault.CheckFails? || (first.None? && !handlerFault.NoFault?));
            && (uncaught && stderrError.Some? <==> r.Unwound?)
            && (r.Unwound? ==> r.message == "failed printing to stderr: " + stderrError.value)
            && (uncaught && stderrError.None? <==> r.Aborted?)
            && (r.Returned? && !panics ==> r.value == ResultOf(body))
            && (r.Returned? && panics ==> match variant
                                          case ForObject => r.value == Reference(0)
                                          case ForByteArray => r.value == Reference(0)
                                          case ForDefault => r.value == Number(0)
                                          case ForVoid => r.value == Void)
            && p == if panics && first.None? && !uncaught
                    then Some(Exception("java/lang/RuntimeException", SilentMessage(body)))
                    else first
  {
    RunExact(pending, body);
    var (p, leaving) := Run(pending, body);
    if leaving.Unwinding? {
      RunExact(p, Handler(leaving.message, variant, handlerFault));
    }
  }

  /** What a call never does: it neither drops nor replaces an exception that is already pending. */
  lemma PendingStays(e: Exception, body: Body, variant: Variant, handlerFault: Fault, stderrError: Option<string>)
    ensures Export(Some(e), body, variant, handlerFault, stderrError).0 == Some(e)
  {
    ExportExact(Some(e), body, variant, handlerFault, stderrError);
  }

  /**
   * The first exception that a body raises, by Java code or by a throw that succeeds, is the one
   * pending afterwards, whatever the body does next and however the call ends.
   */
  lemma FirstRaisedStays(e: Exception, steps: seq<Action>, last: JniValue, variant: Variant, handlerFault: Fault,
                         stderrError: Option<string>)
    requires steps != []
    requires || steps[0] == JavaThrows(e)
             || steps[0] == ThrowAndExit(e, NoFault)
             || (steps[0].Throw? && steps[0].thrown == e && steps[0].fault == NoFault)
    ensures Export(None, Body(steps, last), variant, handlerFault, stderrError).0 == Some(e)
  {
    ExportExact(None, Body(steps, last), variant, handlerFault, stderrError);
  }

  /**
   * Bodies that leave with nothing pending before, when every throw succeeds: one that returns gives
   * its value, one that throws and returns gives both, and one that panics gives a `RuntimeException`
   * with its message.
   */
  lemma LeavesQuietly(steps: seq<Action>, last: JniValue, variant: Variant, stderrError: Option<string>)
    requires steps != []
    ensures var (p, r) := Export(None, Body(steps, last), variant, NoFault, stderrError);
            && (steps[0].Returns? ==> p == None && r == Returned(steps[0].value))
            && (steps[0].Throw? && steps[0].fault.NoFault? ==> p == Some(steps[0].thrown) && r == Returned(steps[0].value))
            && (steps[0].Panics? ==> p == Some(Exception("java/lang/RuntimeException", steps[0].message)) && r.Returned?)
  {
    ExportExact(None, Body(steps, last), variant, NoFault, stderrError);
  }

  // ----- the state machine -----

  /** The JVM as the native side sees it: the exception pending in the current thread. */
  class JniEnv {
    var pending: Option<Exception>

    constructor (pending: Option<Exception>)
      ensures this.pending == pending
    {
      this.pending := pending;
    }

    /** `_throw_inner`; the result says whether it panicked. */
    method ThrowInner(exc: Exception, fault: Fault) returns (panicked: bool)
      modifies this
      ensures panicked == ThrowPanics(old(pending), fault)
      ensures pending == AfterThrow(old(pending), exc, fault)
      ensures panicked <==> fault.CheckFails? || (old(pending).None? && !fault.NoFault?)
      ensures pending == if old(pending).None? && fault.NoFault? then Some(exc) else old(pending)
    {
      if fault.CheckFails? {
        return true;
      }
      if pending.None? {
        if fault.FindClassFails? || fault.ThrowNewFails? {
          return true;
        }
        pending := Some(exc);
      }
      panicked := false;
    }

    /** Runs a native body up to where it leaves. */
    method RunBody(body: Body) returns (r: Leaving<JniValue>)
      modifies this
      ensures (pending, r) == Run(old(pending), body)
    {
      for k := 0 to |body.steps|
        invariant Run(old(pending), body) == Run(pending, Body(body.steps[k..], body.last))
      {
        assert body.steps[k..][0] == body.steps[k] && body.steps[k..][1..] == body.steps[k + 1..];
        match body.steps[k]
        case JavaThrows(e) =>
          if pending.None? {
            pending := Some(e);
          }
        case Throw(e, fault, value) =>
          var panicked := ThrowInner(e, fault);
          return if panicked then Unwinding(FaultMessage(e, fault)) else Value(value);
        case ThrowAndExit(e, fault) =>
          var panicked := ThrowInner(e, fault);
          return Unwinding(if panicked then FaultMessage(e, fault) else ExitMessage(e));
        case Panics(message) =>
          return Unwinding(message);
        case Returns(value) =>
          return Value(value);
      }
      r := Value(body.last);
    }

    /** `ffi_export!`: two nested catches, then the line on the standard error stream and the abort. */
    method FfiExport(body: Body, variant: Variant, handlerFault: Fault, stderrError: Option<string>) returns (r: CallResult)
      modifies this
      ensures (pending, r) == Export(old(pending), body, variant, handlerFault, stderrError)
    {
      var leaving := RunBody(body);
      match CatchUnwind(leaving)
      case Completed(value) =>
        r := Returned(value);
      case Panic(message) =>
        var handled := RunBody(Handler(message, variant, handlerFault));
        match CatchUnwind(handled)
        case Completed(value) =>
          r := Returned(value);
        case Panic(_) =>
          r := if stderrError.Some? then Unwound(PrintMessage(stderrError.value)) else Aborted;
    }
  }
}
