/** `EventLog` of `src/event_log.rs`: a newest-first log of at most 20
    entries, each numbered with a running counter. The lock around the state
    is left out; the state itself is a value. */
module Events {

  datatype Level = Info | Error

  datatype LogLine = LogLine(num: nat, level: Level, value: string)

  /** `last` is the number the next entry gets; `events` is newest first. */
  datatype State = State(last: nat, events: seq<LogLine>)

  const Capacity: nat := 20

  const Empty := State(0, [])

  /** The log holds at most `Capacity` entries, numbered one apart from the
      front (newest, `last - 1`) to the back. */
  predicate Inv(s: State) {
    |s.events| <= Capacity &&
    forall i :: 0 <= i < |s.events| ==> s.events[i].num + i + 1 == s.last
  }

  /** `EventLog::push`: the new entry goes to the front with the current
      number, the number moves on by one, and past capacity the oldest entry
      is dropped from the back. */
  function Push(s: State, level: Level, str: string): (r: State)
    ensures r.last == s.last + 1
    ensures |r.events| > 0 && r.events[0] == LogLine(s.last, level, str)
    ensures |r.events| == if |s.events| < Capacity then |s.events| + 1 else |s.events|
    ensures r.events[1..] == s.events[..|r.events| - 1]
    ensures Inv(s) ==> Inv(r)
  {
    var events := [LogLine(s.last, level, str)] + s.events;
    State(s.last + 1, if |events| > Capacity then events[..|events| - 1] else events)
  }

  /** `EventLog::info` */
  function LogInfo(s: State, str: string): (r: State)
    ensures |r.events| > 0 && r.events[0] == LogLine(s.last, Info, str)
    ensures r.last == s.last + 1 && |r.events| <= |s.events| + 1 && r.events[1..] == s.events[..|r.events| - 1]
  {
    Push(s, Info, str)
  }

  /** `EventLog::error` */
  function LogError(s: State, str: string): (r: State)
    ensures |r.events| > 0 && r.events[0] == LogLine(s.last, Error, str)
    ensures r.last == s.last + 1 && |r.events| <= |s.events| + 1 && r.events[1..] == s.events[..|r.events| - 1]
  {
    Push(s, Error, str)
  }

  /** `EventLog::list`: the entries, newest first. Which entries they are is
      stated by `LogAllKeepsNewest`. */
  function List(s: State): seq<LogLine> {
    s.events
  }

  /** Logging each message in order, from `s`. */
  function LogAll(s: State, msgs: seq<(Level, string)>): State {
    if msgs == [] then s else
      var m := msgs[|msgs| - 1];
      Push(LogAll(s, msgs[..|msgs| - 1]), m.0, m.1)
  }

  /** `r` lists the last `Capacity` of `msgs` (or all of them, when fewer),
      newest first, each numbered with its position in `msgs`. */
  predicate ListsNewest(r: State, msgs: seq<(Level, string)>) {
    && r.last == |msgs|
    && |r.events| == (if |msgs| < Capacity then |msgs| else Capacity)
    && forall i :: 0 <= i < |r.events| ==>
         r.events[i] == LogLine(|msgs| - 1 - i, msgs[|msgs| - 1 - i].0, msgs[|msgs| - 1 - i].1)
  }

  /** One more message keeps a log listing the newest messages. */
  lemma PushKeepsNewest(prev: State, front: seq<(Level, string)>, m: (Level, string))
    requires ListsNewest(prev, front)
    ensures ListsNewest(Push(prev, m.0, m.1), front + [m])
  {
    var msgs := front + [m];
    var r := Push(prev, m.0, m.1);
    forall i | 1 <= i < |r.events|
      ensures r.events[i] == LogLine(|msgs| - 1 - i, msgs[|msgs| - 1 - i].0, msgs[|msgs| - 1 - i].1)
    {
      assert r.events[i] == r.events[1..][i - 1] == prev.events[i - 1];
      assert front[|msgs| - 1 - i] == msgs[|msgs| - 1 - i];
    }
  }

  /** From an empty log, the log lists the newest messages. */
  lemma {:induction false} LogAllKeepsNewest(msgs: seq<(Level, string)>)
    ensures ListsNewest(LogAll(Empty, msgs), msgs)
  {
    if msgs != [] {
      var front := msgs[..|msgs| - 1];
      LogAllKeepsNewest(front);
      PushKeepsNewest(LogAll(Empty, front), front, msgs[|msgs| - 1]);
      assert front + [msgs[|msgs| - 1]] == msgs;
    }
  }

  /** The logging invariant holds from the empty log on. */
  lemma {:induction false} LogAllKeepsInv(s: State, msgs: seq<(Level, string)>)
    requires Inv(s)
    ensures Inv(LogAll(s, msgs))
  {
    if msgs != [] {
      LogAllKeepsInv(s, msgs[..|msgs| - 1]);
    }
  }
}
