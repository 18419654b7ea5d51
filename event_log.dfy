/** The event log: newest entry first, holding at most MaxEntries entries. */
module EventLog {
  import opened Field

  const MaxEntries: int := 20

  /**
   * The messages the session records. Timestamps are not modelled; amounts are
   * in half-units of pesticide (see module Pesticide).
   */
  datatype Event =
    | SystemInitialized
    | DiseaseMarked(at: Coord)
    | ScanInitiated
    | ScanComplete(found: nat)
    | TargetedSprayInitiated
    | GridsTreated(count: nat)
    | ManualSprayStarted(target: Coord, amount: nat)
    | GridTreated(target: Coord)
    | BlanketSprayInitiated
    | TankEmpty(treated: nat)
    | BlanketSprayComplete

  /**
   * Recording one event: it goes in front, every earlier entry moves back by one,
   * and when the log would exceed MaxEntries the last (oldest) entry is dropped.
   */
  function Record(log: seq<Event>, e: Event): (r: seq<Event>)
    ensures |r| == if |log| < MaxEntries then |log| + 1 else |log|
    ensures r[0] == e
    ensures r[1..] == log[..|r| - 1]
    ensures |log| <= MaxEntries ==> |r| <= MaxEntries
  {
    var grown := [e] + log;
    if |grown| > MaxEntries then grown[..|grown| - 1] else grown
  }

  /** Recording the events es one after the other, es[0] first. */
  function RecordAll(log: seq<Event>, es: seq<Event>): seq<Event>
    decreases |es|
  {
    if es == [] then log else RecordAll(Record(log, es[0]), es[1..])
  }

  function Reversed(es: seq<Event>): (r: seq<Event>)
    ensures |r| == |es|
    ensures forall i :: 0 <= i < |es| ==> r[i] == es[|es| - 1 - i]
  {
    if es == [] then [] else Reversed(es[1..]) + [es[0]]
  }

  /**
   * Whatever was recorded, a bounded log holds the most recent MaxEntries events
   * (or all of them), newest first, followed by what is left of the old log.
   */
  lemma {:induction false} RecordAllWindow(log: seq<Event>, es: seq<Event>)
    requires |log| <= MaxEntries
    ensures RecordAll(log, es) == (Reversed(es) + log)[..Min(|es| + |log|, MaxEntries)]
    decreases |es|
  {
    if es != [] {
      var e, rest := es[0], es[1..];
      var log' := Record(log, e);
      assert log' == ([e] + log)[..Min(|log| + 1, MaxEntries)];
      RecordAllWindow(log', rest);
      assert Reversed(es) == Reversed(rest) + [e];
      var whole := Reversed(es) + log;
      assert whole == Reversed(rest) + ([e] + log);
      var m := Min(|es| + |log|, MaxEntries);
      assert m == Min(|rest| + |log'|, MaxEntries);
      assert (Reversed(rest) + log')[..m] == whole[..m];
    }
  }
}
