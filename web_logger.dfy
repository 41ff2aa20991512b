/** The log handler of the web interface (autoui/lib/web_logger.py): it
    forwards each record to the page, flagged as an error from level ERROR
    up, and is attached to a logger at most once per handler class. */
module WebLogger {

  /** `logging.ERROR`. */
  const ERROR: int := 40

  /** A `logging.Handler`, known by its class: `type(handler)`. */
  class Handler {
    const className: string

    constructor (className: string)
      ensures this.className == className
    {
      this.className := className;
    }

    /** `LogHandlerWeb.add_to_logger`: look for a handler of this handler's
        class among the logger's handlers and attach this one only when
        there is none. */
    method AddToLogger(logger: Logger)
      modifies logger
      ensures logger.handlers == Attach(old(logger.handlers), this)
    {
      var found := false;
      var i := 0;
      while i < |logger.handlers|
        invariant 0 <= i <= |logger.handlers|
        invariant logger.handlers == old(logger.handlers)
        invariant forall k :: 0 <= k < i ==> logger.handlers[k].className != className
        invariant !found
      {
        if logger.handlers[i].className == className {
          found := true;
          break;
        }
        i := i + 1;
      }
      if !found {
        logger.AddHandler(this);
      }
    }
  }

  /** A `logging.Logger`, reduced to its list of handlers. */
  class Logger {
    var handlers: seq<Handler>

    constructor ()
      ensures handlers == []
    {
      handlers := [];
    }

    /** `Logger.addHandler`: append the handler unless it is already there. */
    method AddHandler(h: Handler)
      modifies this
      ensures handlers == if h in old(handlers) then old(handlers) else old(handlers) + [h]
    {
      if h !in handlers {
        handlers := handlers + [h];
      }
    }
  }

  /** Some handler in `hs` has class `c`. */
  predicate HasClass(hs: seq<Handler>, c: string)
  {
    exists k :: 0 <= k < |hs| && hs[k].className == c
  }

  /** The handlers after `h.add_to_logger(logger)`. */
  function Attach(hs: seq<Handler>, h: Handler): seq<Handler>
  {
    if HasClass(hs, h.className) then hs else hs + [h]
  }

  /** Number of handlers of class `c`. */
  function CountClass(hs: seq<Handler>, c: string): nat
  {
    if hs == [] then 0
    else CountClass(hs[..|hs| - 1], c) + (if hs[|hs| - 1].className == c then 1 else 0)
  }

  /** Attaching only ever appends, and afterwards a handler of that class is
      present: the existing handlers keep their order. */
  lemma AttachAppends(hs: seq<Handler>, h: Handler)
    ensures hs <= Attach(hs, h)
    ensures |Attach(hs, h)| <= |hs| + 1
    ensures HasClass(Attach(hs, h), h.className)
    ensures Attach(hs, h) == hs <==> HasClass(hs, h.className)
  {
    if !HasClass(hs, h.className) {
      assert (hs + [h])[|hs|] == h;
    }
  }

  /** Attaching the same handler twice is the same as attaching it once. */
  lemma AttachIdempotent(hs: seq<Handler>, h: Handler)
    ensures Attach(Attach(hs, h), h) == Attach(hs, h)
  {
    AttachAppends(hs, h);
  }

  lemma {:induction false} CountClassAppend(hs: seq<Handler>, h: Handler, c: string)
    ensures CountClass(hs + [h], c) == CountClass(hs, c) + (if h.className == c then 1 else 0)
  {
    assert (hs + [h])[..|hs|] == hs;
  }

  lemma {:induction false} CountClassZero(hs: seq<Handler>, c: string)
    ensures CountClass(hs, c) == 0 <==> !HasClass(hs, c)
    decreases |hs|
  {
    if hs != [] {
      var init := hs[..|hs| - 1];
      CountClassZero(init, c);
      if HasClass(init, c) {
        var k :| 0 <= k < |init| && init[k].className == c;
        assert hs[k] == init[k];
      }
      if HasClass(hs, c) && !HasClass(init, c) {
        var k :| 0 <= k < |hs| && hs[k].className == c;
        if k < |init| {
          assert init[k] == hs[k];
        }
      }
    }
  }

  /** The handlers after attaching each of `ws` in turn. */
  function AttachAll(hs: seq<Handler>, ws: seq<Handler>): seq<Handler>
    decreases |ws|
  {
    if ws == [] then hs else AttachAll(Attach(hs, ws[0]), ws[1..])
  }

  /** However many handlers of one class are attached, and in whatever
      order, the logger ends with exactly one of that class when it had at
      most one, and the others stay as they were. */
  lemma {:induction false} OneHandlerPerClass(hs: seq<Handler>, ws: seq<Handler>, c: string)
    requires ws != []
    requires forall k :: 0 <= k < |ws| ==> ws[k].className == c
    requires CountClass(hs, c) <= 1
    ensures CountClass(AttachAll(hs, ws), c) == 1
    ensures forall c' :: c' != c ==> CountClass(AttachAll(hs, ws), c') == CountClass(hs, c')
    decreases |ws|
  {
    var next := Attach(hs, ws[0]);
    CountClassZero(hs, c);
    if !HasClass(hs, c) {
      CountClassAppend(hs, ws[0], c);
      forall c' | c' != c
        ensures CountClass(next, c') == CountClass(hs, c')
      {
        CountClassAppend(hs, ws[0], c');
      }
    }
    assert CountClass(next, c) == 1;
    if |ws| > 1 {
      OneHandlerPerClass(next, ws[1..], c);
    }
  }

  /** What the handler sends to the page for one record. */
  datatype LogEvent = LogEvent(datetime: string, levelName: string, isError: bool, message: string)

  /** `LogHandlerWeb.emit`: the record's formatted time, level name and
      message, and whether its level is ERROR or above. The time formatting
      is done by the caller of this model. */
  function Emit(datetime: string, levelNo: int, levelName: string, msg: string): (e: LogEvent)
    ensures e.isError <==> levelNo >= ERROR
    ensures e.datetime == datetime && e.levelName == levelName && e.message == msg
  {
    LogEvent(datetime, levelName, levelNo >= ERROR, msg)
  }

  /** The standard levels: ERROR and CRITICAL are errors, WARNING, INFO
      and DEBUG are not, and a higher level is never less of an error. */
  lemma ErrorLevels(a: int, b: int)
    ensures Emit("", 50, "CRITICAL", "").isError && Emit("", 40, "ERROR", "").isError
    ensures !Emit("", 30, "WARNING", "").isError && !Emit("", 20, "INFO", "").isError
    ensures !Emit("", 10, "DEBUG", "").isError
    ensures a <= b && Emit("", a, "", "").isError ==> Emit("", b, "", "").isError
  {
  }
}
