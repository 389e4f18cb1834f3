/**
 * The library log context: a priority threshold taken from LOG_ERR by
 * default or from an environment value, which may be a number or one of
 * the names err, info and debug.
 */
module Log {
  import opened Wrappers
  import opened CStr

  const LOG_ERR: int := 3
  const LOG_INFO: int := 6
  const LOG_DEBUG: int := 7

  const INT_MAX: int := 0x7FFF_FFFF

  /**
   * The priority a string names: the base-10 number when nothing but the
   * end of the string or white space follows it (no digits at all counts
   * as 0 here as well), otherwise the value of a leading "err", "info" or
   * "debug", otherwise 0.
   */
  function LogPriority(s: string): (r: int)
    ensures -0x8000_0000 <= r <= INT_MAX
    ensures (At(s, Strtol(s).end) == '\0' || IsSpace(At(s, Strtol(s).end))) ==> r == ToInt32(Strtol(s).value)
    ensures !(At(s, Strtol(s).end) == '\0' || IsSpace(At(s, Strtol(s).end))) ==>
      r in {LOG_ERR, LOG_INFO, LOG_DEBUG, 0}
  {
    var c := Strtol(s);
    if At(s, c.end) == '\0' || IsSpace(At(s, c.end)) then ToInt32(c.value)
    else if HasPrefix(s, "err") then LOG_ERR
    else if HasPrefix(s, "info") then LOG_INFO
    else if HasPrefix(s, "debug") then LOG_DEBUG
    else 0
  }

  /** A numeral in `int` range, alone or followed by white space, names its own value. */
  lemma NumeralPriority(n: nat, tail: string)
    requires n <= INT_MAX
    requires tail == [] || IsSpace(tail[0])
    ensures LogPriority(Decimal(n) + tail) == n
  {
    assert DigitVal(At(tail, 0)) >= 10 by {
      if tail != [] {
        assert IsSpace(tail[0]);
      }
    }
    DecimalRoundTrip(n, tail);
    assert At(Decimal(n) + tail, |Decimal(n)|) == At(tail, 0);
  }

  /** A string starting with a letter is not converted as a number at all. */
  lemma NoDigits(s: string)
    requires |s| > 0 && 'a' <= s[0] <= 'z'
    ensures Strtol(s).end == 0
  {
    assert SkipSpace(s, 0) == 0;
    assert DigitVal(s[0]) >= 10;
  }

  /** The names select their levels, whatever follows them. */
  lemma NamedPriorities(t: string)
    ensures LogPriority("err" + t) == LOG_ERR
    ensures LogPriority("info" + t) == LOG_INFO
    ensures LogPriority("debug" + t) == LOG_DEBUG
  {
    NoDigits("err" + t);
    assert ("err" + t)[..3] == "err";
    NoDigits("info" + t);
    assert ("info" + t)[..4] == "info";
    assert ("info" + t)[..3] != "err";
    NoDigits("debug" + t);
    assert ("debug" + t)[..5] == "debug";
    assert ("debug" + t)[..3] != "err";
    assert ("debug" + t)[..4] != "info";
  }

  /** A word that is none of the names gives priority 0. */
  lemma UnknownNameIsZero(s: string)
    requires |s| > 0 && 'a' <= s[0] <= 'z'
    requires !HasPrefix(s, "err") && !HasPrefix(s, "info") && !HasPrefix(s, "debug")
    ensures LogPriority(s) == 0
  {
    NoDigits(s);
  }

  /** The part of the log context the model keeps: its threshold. */
  datatype LogCtx = LogCtx(priority: int)

  /** `log_init`: LOG_ERR unless the environment variable is set, which then decides. */
  function LogInit(env: Option<string>): (ctx: LogCtx)
    ensures env.None? ==> ctx.priority == LOG_ERR
    ensures env.Some? ==> ctx.priority == LogPriority(env.value)
  {
    match env
    case None => LogCtx(LOG_ERR)
    case Some(v) => LogCtx(LogPriority(v))
  }

  /** `log_cond`: a message goes out when the threshold is at least its priority. */
  predicate Emits(ctx: LogCtx, prio: int)
  {
    ctx.priority >= prio
  }

  /** By default errors are logged and informational and debug messages are not. */
  lemma DefaultLogsErrorsOnly()
    ensures Emits(LogInit(None), LOG_ERR)
    ensures !Emits(LogInit(None), LOG_INFO) && !Emits(LogInit(None), LOG_DEBUG)
  {
  }

  /** Setting the variable to "debug" lets every level through. */
  lemma DebugLogsEverything(t: string, prio: int)
    requires prio <= LOG_DEBUG
    ensures Emits(LogInit(Some("debug" + t)), prio)
  {
    NamedPriorities(t);
  }
}
