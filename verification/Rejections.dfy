/**
 The authenticator's refusal record: every refusal is counted, and each reason is warned
 about at most once per interval, with the number of refusals that went unlogged.
 */
module Rejections {
  import opened Wrappers

  datatype Reason = NoToken | InvalidToken | MissingScope | MissingClaim | NotReady

  /** One reason's warning state. `suppressed` is the source's int64, idealised. */
  datatype LogWindow = LogWindow(logged: int, suppressed: nat)

  type Windows = map<Reason, LogWindow>

  /** A refusal and the clock's reading when it is recorded. */
  datatype Refusal = Refusal(why: Reason, now: int)

  /** A warning: when, for what, and how many refusals for it were not warned about before it. */
  datatype Warning = Warning(why: Reason, now: int, suppressed: nat)

  /** `admit`: Some is a warning with its count. */
  function Admitted(w: Windows, interval: int, r: Refusal): Option<nat> {
    if r.why !in w then Some(0)
    else if r.now - w[r.why].logged < interval then None
    else Some(w[r.why].suppressed)
  }

  function After(w: Windows, interval: int, r: Refusal): Windows {
    if Admitted(w, interval, r).Some? then w[r.why := LogWindow(r.now, 0)]
    else w[r.why := w[r.why].(suppressed := w[r.why].suppressed + 1)]
  }

  class Recorder {
    const interval: int
    var counts: map<Reason, nat>
    var windows: Windows

    constructor (interval: int)
      ensures this.interval == interval && windows == map[] && counts == map[]
    {
      this.interval := interval;
      counts, windows := map[], map[];
    }

    method Admit(why: Reason, now: int) returns (warning: Option<nat>)
      modifies this`windows
      ensures warning == old(Admitted(windows, interval, Refusal(why, now)))
      ensures windows == old(After(windows, interval, Refusal(why, now)))
    {
      if why !in windows {
        windows := windows[why := LogWindow(now, 0)];
        return Some(0);
      }
      var w := windows[why];
      if now - w.logged < interval {
        windows := windows[why := w.(suppressed := w.suppressed + 1)];
        return None;
      }
      windows := windows[why := LogWindow(now, 0)];
      return Some(w.suppressed);
    }

    method Record(why: Reason, now: int) returns (warning: Option<nat>)
      modifies this
      ensures counts == old(counts)[why := (if why in old(counts) then old(counts)[why] else 0) + 1]
      ensures warning == old(Admitted(windows, interval, Refusal(why, now)))
      ensures windows == old(After(windows, interval, Refusal(why, now)))
    {
      counts := counts[why := (if why in counts then counts[why] else 0) + 1];
      warning := Admit(why, now);
    }
  }

  // -------------------------------------------------------------------- runs

  /** The windows after a sequence of refusals, from a fresh recorder. */
  function WindowsAfter(refusals: seq<Refusal>, interval: int): Windows {
    if refusals == [] then map[]
    else After(WindowsAfter(refusals[..|refusals| - 1], interval), interval, refusals[|refusals| - 1])
  }

  /** The warnings written over a sequence of refusals. */
  function WarningsOf(refusals: seq<Refusal>, interval: int): seq<Warning> {
    if refusals == [] then []
    else
      var last := refusals[|refusals| - 1];
      var admitted := Admitted(WindowsAfter(refusals[..|refusals| - 1], interval), interval, last);
      WarningsOf(refusals[..|refusals| - 1], interval)
      + if admitted.Some? then [Warning(last.why, last.now, admitted.value)] else []
  }

  /** A run of the recorder, and what it writes, is the specification's. */
  method RecordAll(refusals: seq<Refusal>, interval: int) returns (recorder: Recorder, warnings: seq<Warning>)
    ensures fresh(recorder) && recorder.interval == interval
    ensures recorder.windows == WindowsAfter(refusals, interval)
    ensures warnings == WarningsOf(refusals, interval)
  {
    recorder := new Recorder(interval);
    warnings := [];
    for i := 0 to |refusals|
      invariant fresh(recorder) && recorder.interval == interval
      invariant recorder.windows == WindowsAfter(refusals[..i], interval)
      invariant warnings == WarningsOf(refusals[..i], interval)
    {
      assert refusals[..i + 1][..i] == refusals[..i];
      var warning := recorder.Record(refusals[i].why, refusals[i].now);
      if warning.Some? {
        warnings := warnings + [Warning(refusals[i].why, refusals[i].now, warning.value)];
      }
    }
    assert refusals[..|refusals|] == refusals;
  }

  function CountOf(refusals: seq<Refusal>, why: Reason): nat {
    if refusals == [] then 0
    else CountOf(refusals[..|refusals| - 1], why) + if refusals[|refusals| - 1].why == why then 1 else 0
  }

  /** What the warnings of a reason account for: themselves, and what they report as suppressed. */
  function Accounted(warnings: seq<Warning>, why: Reason): nat {
    if warnings == [] then 0
    else
      var last := warnings[|warnings| - 1];
      Accounted(warnings[..|warnings| - 1], why) + if last.why == why then 1 + last.suppressed else 0
  }

  function Pending(w: Windows, why: Reason): nat {
    if why in w then w[why].suppressed else 0
  }

  lemma AccountedStep(warnings: seq<Warning>, w: Warning, why: Reason)
    ensures Accounted(warnings + [w], why) ==
            Accounted(warnings, why) + if w.why == why then 1 + w.suppressed else 0
  {
    assert (warnings + [w])[..|warnings|] == warnings;
  }

  /** No refusal is lost: refusals = warnings + reported suppressed + pending, for each reason. */
  lemma {:induction false} RefusalsAccountedFor(refusals: seq<Refusal>, interval: int, why: Reason)
    ensures CountOf(refusals, why) ==
            Accounted(WarningsOf(refusals, interval), why) + Pending(WindowsAfter(refusals, interval), why)
  {
    if refusals != [] {
      var front, last := refusals[..|refusals| - 1], refusals[|refusals| - 1];
      RefusalsAccountedFor(front, interval, why);
      var admitted := Admitted(WindowsAfter(front, interval), interval, last);
      if admitted.Some? {
        AccountedStep(WarningsOf(front, interval), Warning(last.why, last.now, admitted.value), why);
      } else {
        assert WarningsOf(refusals, interval) == WarningsOf(front, interval);
      }
    }
  }

  /** What the warnings of a reason so far say of its window and of each other. */
  ghost predicate Spaced(w: Windows, ws: seq<Warning>, interval: int, why: Reason) {
    && (forall i :: 0 <= i < |ws| && ws[i].why == why ==> why in w && ws[i].now <= w[why].logged)
    && (forall i, j :: 0 <= i < j < |ws| && ws[i].why == why && ws[j].why == why ==> ws[j].now - ws[i].now >= interval)
  }

  lemma SpacedStep(w: Windows, ws: seq<Warning>, interval: int, why: Reason, r: Refusal)
    requires interval > 0 && Spaced(w, ws, interval, why)
    ensures var admitted := Admitted(w, interval, r);
            Spaced(After(w, interval, r),
                   ws + if admitted.Some? then [Warning(r.why, r.now, admitted.value)] else [], interval, why)
  {
    var admitted := Admitted(w, interval, r);
    if admitted.Some? {
      var longer := ws + [Warning(r.why, r.now, admitted.value)];
      assert forall i :: 0 <= i < |ws| ==> longer[i] == ws[i];
    } else {
      assert ws + [] == ws;
    }
  }

  lemma {:induction false} WindowsSpaceWarnings(refusals: seq<Refusal>, interval: int, why: Reason)
    requires interval > 0
    ensures Spaced(WindowsAfter(refusals, interval), WarningsOf(refusals, interval), interval, why)
  {
    if refusals != [] {
      var front := refusals[..|refusals| - 1];
      WindowsSpaceWarnings(front, interval, why);
      SpacedStep(WindowsAfter(front, interval), WarningsOf(front, interval), interval, why, refusals[|refusals| - 1]);
    }
  }

  /** The readings of any two warnings for one reason are at least the interval apart, whatever the clock does. */
  lemma WarningsAreSpaced(refusals: seq<Refusal>, interval: int, i: nat, j: nat)
    requires interval > 0 && i < j < |WarningsOf(refusals, interval)|
    requires WarningsOf(refusals, interval)[i].why == WarningsOf(refusals, interval)[j].why
    ensures WarningsOf(refusals, interval)[j].now - WarningsOf(refusals, interval)[i].now >= interval
  {
    WindowsSpaceWarnings(refusals, interval, WarningsOf(refusals, interval)[i].why);
  }

  function Only(refusals: seq<Refusal>, why: Reason): seq<Refusal> {
    if refusals == [] then []
    else
      var last := refusals[|refusals| - 1];
      Only(refusals[..|refusals| - 1], why) + if last.why == why then [last] else []
  }

  function OnlyWarnings(warnings: seq<Warning>, why: Reason): seq<Warning> {
    if warnings == [] then []
    else
      var last := warnings[|warnings| - 1];
      OnlyWarnings(warnings[..|warnings| - 1], why) + if last.why == why then [last] else []
  }

  lemma OnlyWarningsStep(warnings: seq<Warning>, w: Warning, why: Reason)
    ensures OnlyWarnings(warnings + [w], why) == OnlyWarnings(warnings, why) + if w.why == why then [w] else []
  {
    assert (warnings + [w])[..|warnings|] == warnings;
  }

  ghost predicate SameWindow(a: Windows, b: Windows, why: Reason) {
    (why in a <==> why in b) && (why in a ==> a[why] == b[why])
  }

  lemma OneMore(refusals: seq<Refusal>, last: Refusal, interval: int)
    ensures var w := WindowsAfter(refusals, interval);
            var admitted := Admitted(w, interval, last);
            && WindowsAfter(refusals + [last], interval) == After(w, interval, last)
            && WarningsOf(refusals + [last], interval) ==
               WarningsOf(refusals, interval)
               + if admitted.Some? then [Warning(last.why, last.now, admitted.value)] else []
  {
    assert (refusals + [last])[..|refusals|] == refusals;
  }

  lemma OnlyOneMore(refusals: seq<Refusal>, last: Refusal, interval: int, why: Reason)
    ensures var admitted := Admitted(WindowsAfter(refusals, interval), interval, last);
            OnlyWarnings(WarningsOf(refusals + [last], interval), why) ==
            OnlyWarnings(WarningsOf(refusals, interval), why)
            + if admitted.Some? && last.why == why then [Warning(why, last.now, admitted.value)] else []
  {
    OneMore(refusals, last, interval);
    var admitted := Admitted(WindowsAfter(refusals, interval), interval, last);
    if admitted.Some? {
      OnlyWarningsStep(WarningsOf(refusals, interval), Warning(last.why, last.now, admitted.value), why);
    } else {
      assert WarningsOf(refusals + [last], interval) == WarningsOf(refusals, interval);
    }
  }

  lemma OnlyLast(refusals: seq<Refusal>, last: Refusal, why: Reason)
    ensures Only(refusals + [last], why) == Only(refusals, why) + if last.why == why then [last] else []
  {
    assert (refusals + [last])[..|refusals|] == refusals;
  }

  lemma AfterWindow(a: Windows, b: Windows, interval: int, r: Refusal, why: Reason)
    requires SameWindow(a, b, why)
    ensures r.why == why ==> Admitted(a, interval, r) == Admitted(b, interval, r)
    ensures SameWindow(After(a, interval, r), if r.why == why then After(b, interval, r) else b, why)
  {
  }

  lemma {:induction false} WindowsAreIndependent(refusals: seq<Refusal>, interval: int, why: Reason)
    ensures SameWindow(WindowsAfter(refusals, interval), WindowsAfter(Only(refusals, why), interval), why)
  {
    if refusals != [] {
      var front, last := refusals[..|refusals| - 1], refusals[|refusals| - 1];
      assert refusals == front + [last];
      var only := Only(front, why);
      WindowsAreIndependent(front, interval, why);
      AfterWindow(WindowsAfter(front, interval), WindowsAfter(only, interval), interval, last, why);
      OnlyLast(front, last, why);
      if last.why == why {
        OneMore(only, last, interval);
      } else {
        assert only + [] == only;
      }
    }
  }

  /** Reasons do not affect each other: one reason's warnings are those of a run of its refusals alone. */
  lemma {:induction false} ReasonsAreIndependent(refusals: seq<Refusal>, interval: int, why: Reason)
    ensures OnlyWarnings(WarningsOf(refusals, interval), why) == WarningsOf(Only(refusals, why), interval)
    ensures SameWindow(WindowsAfter(refusals, interval), WindowsAfter(Only(refusals, why), interval), why)
  {
    WindowsAreIndependent(refusals, interval, why);
    if refusals != [] {
      var front, last := refusals[..|refusals| - 1], refusals[|refusals| - 1];
      assert refusals == front + [last];
      var only := Only(front, why);
      ReasonsAreIndependent(front, interval, why);
      AfterWindow(WindowsAfter(front, interval), WindowsAfter(only, interval), interval, last, why);
      OnlyLast(front, last, why);
      OnlyOneMore(front, last, interval, why);
      if last.why == why {
        OneMore(only, last, interval);
      } else {
        assert only + [] == only;
      }
    }
  }

  // ----------------------------------------------------- when a warning is written

  /** The last refusal of the run was warned about, and its reason is the one asked about. */
  predicate Warned(refusals: seq<Refusal>, interval: int, why: Reason)
    requires refusals != []
  {
    var n := |refusals| - 1;
    refusals[n].why == why && |WarningsOf(refusals, interval)| > |WarningsOf(refusals[..n], interval)|
  }

  /** How many refusals there were up to and including the last one of the reason warned about. */
  function LastWarned(refusals: seq<Refusal>, interval: int, why: Reason): (n: nat)
    ensures n <= |refusals|
  {
    if refusals == [] then 0
    else if Warned(refusals, interval, why) then |refusals|
    else LastWarned(refusals[..|refusals| - 1], interval, why)
  }

  /** The window holds the reading of the reason's last warning, and there is none without one. */
  ghost predicate LogsLast(w: Windows, ws: seq<Warning>, why: Reason) {
    if why !in w then forall i :: 0 <= i < |ws| ==> ws[i].why != why
    else exists i :: 0 <= i < |ws| && ws[i].why == why && ws[i].now == w[why].logged
                     && forall j :: i < j < |ws| ==> ws[j].why != why
  }

  lemma LogsLastStep(w: Windows, ws: seq<Warning>, interval: int, why: Reason, r: Refusal)
    requires LogsLast(w, ws, why)
    ensures var admitted := Admitted(w, interval, r);
            LogsLast(After(w, interval, r),
                     ws + if admitted.Some? then [Warning(r.why, r.now, admitted.value)] else [], why)
  {
    var admitted := Admitted(w, interval, r);
    if admitted.Some? {
      var longer := ws + [Warning(r.why, r.now, admitted.value)];
      assert forall i :: 0 <= i < |ws| ==> longer[i] == ws[i];
      if r.why == why {
        assert longer[|ws|].why == why;
      } else if why in w {
        var i :| 0 <= i < |ws| && ws[i].why == why && ws[i].now == w[why].logged
                 && forall j :: i < j < |ws| ==> ws[j].why != why;
        assert longer[i].why == why;
      }
    } else {
      assert ws + [] == ws;
    }
  }

  lemma {:induction false} WindowLogsLast(refusals: seq<Refusal>, interval: int, why: Reason)
    ensures LogsLast(WindowsAfter(refusals, interval), WarningsOf(refusals, interval), why)
  {
    if refusals != [] {
      var front := refusals[..|refusals| - 1];
      WindowLogsLast(front, interval, why);
      LogsLastStep(WindowsAfter(front, interval), WarningsOf(front, interval), interval, why, refusals[|refusals| - 1]);
    }
  }

  lemma LastWarnedStep(refusals: seq<Refusal>, r: Refusal, interval: int, why: Reason)
    ensures var admitted := Admitted(WindowsAfter(refusals, interval), interval, r);
            LastWarned(refusals + [r], interval, why) ==
            if r.why == why && admitted.Some? then |refusals| + 1 else LastWarned(refusals, interval, why)
  {
    OneMore(refusals, r, interval);
    assert (refusals + [r])[..|refusals|] == refusals;
  }

  lemma CountSince(refusals: seq<Refusal>, r: Refusal, n: nat, why: Reason)
    requires n <= |refusals|
    ensures CountOf((refusals + [r])[n..], why) == CountOf(refusals[n..], why) + if r.why == why then 1 else 0
  {
    var rest := refusals[n..];
    assert (refusals + [r])[n..] == rest + [r];
    assert (rest + [r])[..|rest|] == rest;
  }

  lemma PendingSince(refusals: seq<Refusal>, r: Refusal, interval: int, why: Reason)
    requires Pending(WindowsAfter(refusals, interval), why) ==
             CountOf(refusals[LastWarned(refusals, interval, why)..], why)
    ensures Pending(WindowsAfter(refusals + [r], interval), why) ==
            CountOf((refusals + [r])[LastWarned(refusals + [r], interval, why)..], why)
  {
    OneMore(refusals, r, interval);
    LastWarnedStep(refusals, r, interval, why);
    if r.why == why && Admitted(WindowsAfter(refusals, interval), interval, r).Some? {
      assert (refusals + [r])[|refusals| + 1..] == [];
    } else {
      CountSince(refusals, r, LastWarned(refusals, interval, why), why);
    }
  }

  /** The pending count of a reason is of its refusals since the last one warned about. */
  lemma {:induction false} WindowCountsSince(refusals: seq<Refusal>, interval: int, why: Reason)
    ensures Pending(WindowsAfter(refusals, interval), why) ==
            CountOf(refusals[LastWarned(refusals, interval, why)..], why)
  {
    if refusals != [] {
      var front, last := refusals[..|refusals| - 1], refusals[|refusals| - 1];
      assert refusals == front + [last];
      WindowCountsSince(front, interval, why);
      PendingSince(front, last, interval, why);
    }
  }

  /**
   A refusal is warned about exactly when every warning for its reason so far was read at least
   the interval before it, and the warning says how many refusals of the reason went unlogged
   since the last one.
   */
  lemma WarnedExactly(refusals: seq<Refusal>, r: Refusal, interval: int)
    requires interval > 0
    ensures var before, after := WarningsOf(refusals, interval), WarningsOf(refusals + [r], interval);
            var since := CountOf(refusals[LastWarned(refusals, interval, r.why)..], r.why);
            after == if Due(before, r, interval) then before + [Warning(r.why, r.now, since)] else before
  {
    OneMore(refusals, r, interval);
    WindowLogsLast(refusals, interval, r.why);
    WindowCountsSince(refusals, interval, r.why);
    var before, w := WarningsOf(refusals, interval), WindowsAfter(refusals, interval);
    if r.why in w {
      var i :| 0 <= i < |before| && before[i].why == r.why && before[i].now == w[r.why].logged
               && forall j :: i < j < |before| ==> before[j].why != r.why;
      forall j | 0 <= j < |before| && before[j].why == r.why ensures before[j].now <= before[i].now {
        if j < i {
          WarningsAreSpaced(refusals, interval, j, i);
        }
      }
    }
  }

  predicate Due(warnings: seq<Warning>, r: Refusal, interval: int) {
    forall i :: 0 <= i < |warnings| && warnings[i].why == r.why ==> r.now - warnings[i].now >= interval
  }
}
