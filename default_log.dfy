/*
 * DefaultLog: an export log that keeps its messages in order with one counter per severity,
 * and the two string helpers it formats messages with.
 */
module DefaultLogs {
  import opened Wrappers
  import opened JavaText

  const SeverityInfo := 1
  const SeverityWarning := 2
  const SeverityError := 3

  /** One log entry (`DocmaLogMessage`); `generator` is None when the entry has none. */
  datatype LogMessage = LogMessage(timestamp: int, severity: int, message: string, generator: Option<string>)

  /** How many entries of `log` have the given severity. */
  function CountOf(log: seq<LogMessage>, severity: int): nat
    decreases |log|
  {
    if log == [] then 0
    else CountOf(log[..|log| - 1], severity) + (if log[|log| - 1].severity == severity then 1 else 0)
  }

  /** A severity has a positive count exactly when some entry carries it. */
  lemma {:induction false} CountOfPositive(log: seq<LogMessage>, severity: int)
    ensures CountOf(log, severity) > 0 <==> exists i :: 0 <= i < |log| && log[i].severity == severity
    decreases |log|
  {
    if log != [] {
      var init := log[..|log| - 1];
      CountOfPositive(init, severity);
      if exists i :: 0 <= i < |init| && init[i].severity == severity {
        var i :| 0 <= i < |init| && init[i].severity == severity;
        assert log[i] == init[i];
      }
      if exists i :: 0 <= i < |log| && log[i].severity == severity {
        var i :| 0 <= i < |log| && log[i].severity == severity;
        if i < |init| {
          assert init[i] == log[i];
        }
      }
    }
  }

  /** Appending an entry adds one to the count of its severity only. */
  lemma AppendCounts(log: seq<LogMessage>, m: LogMessage, severity: int)
    ensures CountOf(log + [m], severity) == CountOf(log, severity) + (if m.severity == severity then 1 else 0)
  {
    assert (log + [m])[..|log|] == log;
  }

  /** Whether `getLog(infos, warnings, errors)` selects an entry. */
  predicate Selected(m: LogMessage, infos: bool, warnings: bool, errors: bool)
  {
    (m.severity == SeverityInfo && infos) || (m.severity == SeverityWarning && warnings)
    || (m.severity == SeverityError && errors)
  }

  /** The selected entries of `log`, in log order. */
  function Filter(log: seq<LogMessage>, infos: bool, warnings: bool, errors: bool): seq<LogMessage>
    decreases |log|
  {
    if log == [] then []
    else
      var rest := Filter(log[..|log| - 1], infos, warnings, errors);
      if Selected(log[|log| - 1], infos, warnings, errors) then rest + [log[|log| - 1]] else rest
  }

  /** Filtering keeps exactly the selected entries and never reorders them. */
  lemma {:induction false} FilterKeepsSelected(log: seq<LogMessage>, infos: bool, warnings: bool, errors: bool)
    ensures forall m :: m in Filter(log, infos, warnings, errors) <==> m in log && Selected(m, infos, warnings, errors)
    ensures |Filter(log, infos, warnings, errors)| <= |log|
    ensures (forall i :: 0 <= i < |log| ==> Selected(log[i], infos, warnings, errors)) ==>
      Filter(log, infos, warnings, errors) == log
    decreases |log|
  {
    if log != [] {
      var init := log[..|log| - 1];
      FilterKeepsSelected(init, infos, warnings, errors);
      assert log == init + [log[|log| - 1]];
      if forall i :: 0 <= i < |log| ==> Selected(log[i], infos, warnings, errors) {
        assert forall i :: 0 <= i < |init| ==> init[i] == log[i];
      }
    }
  }

  /** Filters compose over concatenation: the entries of two logs are selected independently. */
  lemma {:induction false} FilterAppend(a: seq<LogMessage>, b: seq<LogMessage>, infos: bool, warnings: bool, errors: bool)
    ensures Filter(a + b, infos, warnings, errors) == Filter(a, infos, warnings, errors) + Filter(b, infos, warnings, errors)
    decreases |b|
  {
    if b == [] {
      assert a + b == a;
    } else {
      var init := b[..|b| - 1];
      assert (a + b)[..|a + b| - 1] == a + init;
      FilterAppend(a, init, infos, warnings, errors);
    }
  }

  /**
   * `formatMsg(location, msg, args)`: `found` is what the resource lookup returns for the key
   * `msg` (None for null); an empty or missing result leaves the key itself. A non-empty location
   * is appended after ": \n", with one trailing '.' of the message dropped.
   */
  function FormatMsg(location: Option<string>, msg: string, found: Option<string>): (r: string)
    ensures var message := if found.None? || found.value == "" then msg else found.value;
      (location.None? || location.value == "") ==> r == message
  {
    var message := if found.None? || found.value == "" then msg else found.value;
    if location.Some? && location.value != "" then
      var m := if EndsWith(message, ".") then message[..|message| - 1] else message;
      m + ": \n" + location.value
    else message
  }

  /**
   * With a location, the formatted message is the message without one trailing '.', then
   * ": \n" and the location; it never shows ".: ".
   */
  lemma FormatMsgWithLocation(location: string, message: string)
    requires location != "" && message != ""
    ensures var r := FormatMsg(Some(location), message, None);
      EndsWith(r, ": \n" + location)
      && (EndsWith(message, ".") ==> r == message[..|message| - 1] + ": \n" + location)
      && (!EndsWith(message, ".") ==> r == message + ": \n" + location)
  {
    var m := if EndsWith(message, ".") then message[..|message| - 1] else message;
    var r := m + ": \n" + location;
    assert r[|r| - |": \n" + location|..] == ": \n" + location;
  }

  /** `toXMLAttribute(str)`: '"' becomes '\'' and the line and form feeds become spaces. */
  function ToXmlAttribute(str: string): (r: string)
    ensures |r| == |str|
    ensures '"' !in r && '\n' !in r && '\r' !in r && '\U{0C}' !in r
    ensures forall i :: 0 <= i < |str| && str[i] !in "\"\n\r\U{0C}" ==> r[i] == str[i]
  {
    ReplaceChar(ReplaceChar(ReplaceChar(ReplaceChar(str, '"', '\''), '\n', ' '), '\r', ' '), '\U{0C}', ' ')
  }

  class DefaultLog {
    var logList: seq<LogMessage>
    var cntInfo: nat
    var cntWarning: nat
    var cntError: nat

    /** Each counter is the number of entries of its severity. */
    ghost predicate Valid()
      reads this
    {
      cntInfo == CountOf(logList, SeverityInfo) && cntWarning == CountOf(logList, SeverityWarning)
      && cntError == CountOf(logList, SeverityError)
    }

    constructor ()
      ensures Valid() && logList == []
    {
      logList := [];
      cntInfo, cntWarning, cntError := 0, 0, 0;
    }

    /** `infoMsg(message)`: one info entry stamped `timestamp`, and one more info. */
    method InfoMsg(timestamp: int, message: string)
      requires Valid()
      modifies this
      ensures Valid() && logList == old(logList) + [LogMessage(timestamp, SeverityInfo, message, None)]
      ensures cntInfo == old(cntInfo) + 1 && cntWarning == old(cntWarning) && cntError == old(cntError)
    {
      AddLogMsg(LogMessage(timestamp, SeverityInfo, message, None));
    }

    /** `warningMsg(message)`. */
    method WarningMsg(timestamp: int, message: string)
      requires Valid()
      modifies this
      ensures Valid() && logList == old(logList) + [LogMessage(timestamp, SeverityWarning, message, None)]
      ensures cntWarning == old(cntWarning) + 1 && cntInfo == old(cntInfo) && cntError == old(cntError)
    {
      AddLogMsg(LogMessage(timestamp, SeverityWarning, message, None));
    }

    /** `errorMsg(message)`. */
    method ErrorMsg(timestamp: int, message: string)
      requires Valid()
      modifies this
      ensures Valid() && logList == old(logList) + [LogMessage(timestamp, SeverityError, message, None)]
      ensures cntError == old(cntError) + 1 && cntInfo == old(cntInfo) && cntWarning == old(cntWarning)
    {
      AddLogMsg(LogMessage(timestamp, SeverityError, message, None));
    }

    /** `addLogMsg(logmsg)`: appends and counts the entry under its severity, if it has one of the three. */
    method AddLogMsg(m: LogMessage)
      requires Valid()
      modifies this
      ensures Valid() && logList == old(logList) + [m]
      ensures cntInfo == old(cntInfo) + (if m.severity == SeverityInfo then 1 else 0)
      ensures cntWarning == old(cntWarning) + (if m.severity == SeverityWarning then 1 else 0)
      ensures cntError == old(cntError) + (if m.severity == SeverityError then 1 else 0)
    {
      AppendCounts(logList, m, SeverityInfo);
      AppendCounts(logList, m, SeverityWarning);
      AppendCounts(logList, m, SeverityError);
      logList := logList + [m];
      if m.severity == SeverityInfo {
        cntInfo := cntInfo + 1;
      } else if m.severity == SeverityWarning {
        cntWarning := cntWarning + 1;
      } else if m.severity == SeverityError {
        cntError := cntError + 1;
      }
    }

    /** `hasError()`: true iff some entry is an error. */
    predicate HasError()
      requires Valid()
      reads this
      ensures HasError() <==> exists i :: 0 <= i < |logList| && logList[i].severity == SeverityError
    {
      CountOfPositive(logList, SeverityError);
      cntError > 0
    }

    /** `hasInfo()`. */
    predicate HasInfo()
      requires Valid()
      reads this
      ensures HasInfo() <==> exists i :: 0 <= i < |logList| && logList[i].severity == SeverityInfo
    {
      CountOfPositive(logList, SeverityInfo);
      cntInfo > 0
    }

    /** `hasWarning()`. */
    predicate HasWarning()
      requires Valid()
      reads this
      ensures HasWarning() <==> exists i :: 0 <= i < |logList| && logList[i].severity == SeverityWarning
    {
      CountOfPositive(logList, SeverityWarning);
      cntWarning > 0
    }

    /**
     * `getLog(fromIndex, toIndex)`: `toIndex` is clipped to the size; an empty range gives no
     * entries, and a range that starts below 0 fails at its first read.
     */
    method GetLogRange(fromIndex: int, toIndex: int) returns (r: Result<seq<LogMessage>>)
      ensures var to := if toIndex > |logList| then |logList| else toIndex;
        (to <= fromIndex ==> r == Ok([]))
        && (to > fromIndex && fromIndex < 0 ==> r.Err?)
        && (to > fromIndex >= 0 ==> r == Ok(logList[fromIndex..to]))
    {
      var to := toIndex;
      if to > |logList| {
        to := |logList|;
      }
      if to <= fromIndex {
        return Ok([]);
      }
      if fromIndex < 0 {
        return Err("Index out of range: " + IntToString(fromIndex));
      }
      var res: seq<LogMessage> := [];
      var i := 0;
      while i < to - fromIndex
        invariant 0 <= i <= to - fromIndex
        invariant res == logList[fromIndex..fromIndex + i]
      {
        res := res + [logList[fromIndex + i]];
        i := i + 1;
      }
      return Ok(res);
    }

    /**
     * `getLog(infos, warnings, errors)`: the entries of the selected severities in log order;
     * with all three selected, the whole log.
     */
    method GetLogFiltered(infos: bool, warnings: bool, errors: bool) returns (r: seq<LogMessage>)
      ensures infos && warnings && errors ==> r == logList
      ensures !(infos && warnings && errors) ==> r == Filter(logList, infos, warnings, errors)
    {
      if infos && warnings && errors {
        return logList;
      }
      r := [];
      var i := 0;
      while i < |logList|
        invariant 0 <= i <= |logList|
        invariant r == Filter(logList[..i], infos, warnings, errors)
      {
        assert logList[..i + 1][..i] == logList[..i];
        if Selected(logList[i], infos, warnings, errors) {
          r := r + [logList[i]];
        }
        i := i + 1;
      }
      assert logList[..|logList|] == logList;
    }

    /** `clear()`: no entries and all counters zero. */
    method Clear()
      modifies this
      ensures Valid() && logList == [] && cntInfo == 0 && cntWarning == 0 && cntError == 0
    {
      logList := [];
      cntInfo, cntWarning, cntError := 0, 0, 0;
    }
  }

  /**
   * The shortcut for all three severities agrees with the filter when every entry has one of
   * them.
   */
  lemma AllSelectedIsWholeLog(log: seq<LogMessage>)
    requires forall i :: 0 <= i < |log| ==> log[i].severity in {SeverityInfo, SeverityWarning, SeverityError}
    ensures Filter(log, true, true, true) == log
  {
    FilterKeepsSelected(log, true, true, true);
  }
}
