/**
 * The bounded log window behind the UI logger (`useLog` / `addLog`):
 * an append-only list of log lines of which only the most recent
 * WindowSize are kept.
 */
module LogWindow {

  datatype LogType = Info | Error

  /**
   * One log line as the caller hands it to `addLog`: its group (a vault
   * name or "System"), its message and its type.
   */
  datatype Log = Log(group: string, message: string, kind: LogType)

  /** At most this many log lines are kept. */
  const WindowSize: nat := 1000

  /** The most recent WindowSize elements of `s`, in their original order. */
  function Recent(s: seq<Log>): (r: seq<Log>)
    ensures |r| == if |s| <= WindowSize then |s| else WindowSize
    ensures forall i :: 0 <= i < |r| ==> r[i] == s[|s| - |r| + i]
  {
    if |s| <= WindowSize then s else s[|s| - WindowSize..]
  }

  /** The log list after `addLog(entry)` on `logs`. */
  function Appended(logs: seq<Log>, entry: Log): (r: seq<Log>)
    ensures 0 < |r| <= WindowSize
    ensures r[|r| - 1] == entry
    ensures |logs| < WindowSize ==> r == logs + [entry]
    ensures |logs| >= WindowSize ==>
              |r| == WindowSize && r[..WindowSize - 1] == logs[|logs| - (WindowSize - 1)..]
  {
    var r := Recent(logs + [entry]);
    assert |logs| >= WindowSize ==> r[..WindowSize - 1] == logs[|logs| - (WindowSize - 1)..];
    r
  }

  /** The log list after `addLog` has been called with each of `entries` in turn. */
  function AppendedAll(logs: seq<Log>, entries: seq<Log>): seq<Log>
    decreases |entries|
  {
    if entries == [] then logs else AppendedAll(Appended(logs, entries[0]), entries[1..])
  }

  /** Recent(Recent(s) + t) keeps the same entries as Recent(s + t). */
  lemma RecentOfRecent(s: seq<Log>, t: seq<Log>)
    ensures Recent(Recent(s) + t) == Recent(s + t)
  {
    var a, b := Recent(Recent(s) + t), Recent(s + t);
    assert |a| == |b|;
    forall i | 0 <= i < |a| ensures a[i] == b[i] {
      var k := |Recent(s) + t| - |a| + i;
      if k >= |Recent(s)| {
        assert a[i] == t[k - |Recent(s)|];
      }
    }
  }

  /** One addLog followed by the window of further lines is the window of all of them. */
  lemma AppendedThenRecent(logs: seq<Log>, entry: Log, rest: seq<Log>)
    ensures Recent(Appended(logs, entry) + rest) == Recent(logs + ([entry] + rest))
  {
    RecentOfRecent(logs + [entry], rest);
    assert logs + [entry] + rest == logs + ([entry] + rest);
  }

  /**
   * However many lines are added one by one, the window ends up holding
   * exactly the most recent WindowSize lines of everything logged, in order.
   */
  lemma {:induction false} AppendedAllKeepsRecent(logs: seq<Log>, entries: seq<Log>)
    ensures AppendedAll(logs, entries) == if entries == [] then logs else Recent(logs + entries)
    decreases |entries|
  {
    if entries != [] {
      var next := Appended(logs, entries[0]);
      AppendedAllKeepsRecent(next, entries[1..]);
      assert [entries[0]] + entries[1..] == entries;
      if entries[1..] == [] {
        assert Appended(logs, entries[0]) == Recent(logs + [entries[0]]);
      } else {
        AppendedThenRecent(logs, entries[0], entries[1..]);
      }
    }
  }

  /** The logger hook's state: the list of log lines it renders. */
  class Logger {
    var logs: seq<Log>

    constructor ()
      ensures logs == []
    {
      logs := [];
    }

    /** `addLog`: copy the list, push the new line, keep the last WindowSize. */
    method Add(group: string, message: string, kind: LogType)
      modifies this
      ensures logs == Appended(old(logs), Log(group, message, kind))
    {
      var newLogs := logs + [Log(group, message, kind)];
      if |newLogs| > WindowSize {
        newLogs := newLogs[|newLogs| - WindowSize..];
      }
      logs := newLogs;
    }
  }
}
