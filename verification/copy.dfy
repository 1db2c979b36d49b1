/** `run_initiator`: copying every note of one storage into another. The
    destination is cleared, the source is read page by page, notes are
    staged one at a time and committed whenever a full portion is staged;
    the running total is reported after each commit and at the end. */
module Copy {
  import opened Common
  import Paginator
  import BaseAdapter
  import Firestore

  /** What the destination sees and what the copy reports, in order. */
  datatype Event =
    | Clear
    | Stage(note: Rec)   // add_to_portion(title, content)
    | Commit
    | Report(total: nat) // a yielded (or, in the older loader, printed) count

  /** The page size the copy reads the source with. */
  const CountOnPage := 100

  // -------------------------------------------------------------------
  // The staging loop as a function of the notes read
  // -------------------------------------------------------------------

  datatype CopyState = CopyState(portion: nat, total: nat, events: seq<Event>)

  /** Staging one note: commit and report when the portion reaches the
      destination's maximum. */
  function StageOne(s: CopyState, note: Rec, maxPortion: nat): CopyState {
    var portion := s.portion + 1;
    var events := s.events + [Stage(note)];
    if portion == maxPortion then CopyState(0, s.total + portion, events + [Commit, Report(s.total + portion)])
    else CopyState(portion, s.total, events)
  }

  function CopySteps(notes: seq<Rec>, maxPortion: nat): CopyState
    decreases |notes|
  {
    if notes == [] then CopyState(0, 0, [])
    else StageOne(CopySteps(notes[..|notes| - 1], maxPortion), notes[|notes| - 1], maxPortion)
  }

  lemma CopyStepsAppend(notes: seq<Rec>, note: Rec, maxPortion: nat)
    ensures CopySteps(notes + [note], maxPortion) == StageOne(CopySteps(notes, maxPortion), note, maxPortion)
  {
    assert (notes + [note])[..|notes|] == notes;
  }

  /** Everything after `clear`: the staging loop, the commit of a non-empty
      leftover portion, and the final report. */
  function CopyEvents(notes: seq<Rec>, maxPortion: nat): (r: seq<Event>)
    ensures r != [] && (maxPortion > 0 ==> r[|r| - 1] == Report(|notes|))
    ensures maxPortion > 0 ==> Staged(r) == notes && Clears(r) == 0
  {
    var s := CopySteps(notes, maxPortion);
    var r := s.events + (if s.portion > 0 then [Commit] else []) + [Report(s.total + s.portion)];
    assert maxPortion > 0 ==> r[|r| - 1] == Report(|notes|) && Staged(r) == notes && Clears(r) == 0 by {
      if maxPortion > 0 {
        CopyStepsInvariant(notes, maxPortion);
        ReadTail(s.events, s.portion > 0, s.total + s.portion);
      }
    }
    r
  }

  // -------------------------------------------------------------------
  // Reading the trace
  // -------------------------------------------------------------------

  function Reports(events: seq<Event>): seq<nat>
    decreases |events|
  {
    if events == [] then []
    else Reports(events[..|events| - 1]) + (if events[|events| - 1].Report? then [events[|events| - 1].total] else [])
  }

  function Staged(events: seq<Event>): seq<Rec>
    decreases |events|
  {
    if events == [] then []
    else Staged(events[..|events| - 1]) + (if events[|events| - 1].Stage? then [events[|events| - 1].note] else [])
  }

  function Commits(events: seq<Event>): nat
    decreases |events|
  {
    if events == [] then 0
    else Commits(events[..|events| - 1]) + (if events[|events| - 1].Commit? then 1 else 0)
  }

  function Clears(events: seq<Event>): nat
    decreases |events|
  {
    if events == [] then 0
    else Clears(events[..|events| - 1]) + (if events[|events| - 1].Clear? then 1 else 0)
  }

  /** Reading a trace in two parts. */
  lemma ReadAppend(a: seq<Event>, b: seq<Event>)
    ensures Reports(a + b) == Reports(a) + Reports(b)
    ensures Staged(a + b) == Staged(a) + Staged(b)
    ensures Commits(a + b) == Commits(a) + Commits(b)
    ensures Clears(a + b) == Clears(a) + Clears(b)
  {
    ReportsAppend(a, b);
    StagedAppend(a, b);
    CommitsAppend(a, b);
    ClearsAppend(a, b);
  }

  lemma {:induction false} ReportsAppend(a: seq<Event>, b: seq<Event>)
    ensures Reports(a + b) == Reports(a) + Reports(b)
    decreases |b|
  {
    if b == [] {
      assert a + b == a;
    } else {
      ReportsAppend(a, b[..|b| - 1]);
      assert (a + b)[..|a + b| - 1] == a + b[..|b| - 1];
    }
  }

  lemma {:induction false} StagedAppend(a: seq<Event>, b: seq<Event>)
    ensures Staged(a + b) == Staged(a) + Staged(b)
    decreases |b|
  {
    if b == [] {
      assert a + b == a;
    } else {
      StagedAppend(a, b[..|b| - 1]);
      assert (a + b)[..|a + b| - 1] == a + b[..|b| - 1];
    }
  }

  lemma {:induction false} CommitsAppend(a: seq<Event>, b: seq<Event>)
    ensures Commits(a + b) == Commits(a) + Commits(b)
    decreases |b|
  {
    if b == [] {
      assert a + b == a;
    } else {
      CommitsAppend(a, b[..|b| - 1]);
      assert (a + b)[..|a + b| - 1] == a + b[..|b| - 1];
    }
  }

  lemma {:induction false} ClearsAppend(a: seq<Event>, b: seq<Event>)
    ensures Clears(a + b) == Clears(a) + Clears(b)
    decreases |b|
  {
    if b == [] {
      assert a + b == a;
    } else {
      ClearsAppend(a, b[..|b| - 1]);
      assert (a + b)[..|a + b| - 1] == a + b[..|b| - 1];
    }
  }

  // -------------------------------------------------------------------
  // The staging loop in closed form
  // -------------------------------------------------------------------

  /** The first k positive multiples of m. */
  function Multiples(k: nat, m: nat): (r: seq<nat>)
    ensures |r| == k && forall i :: 0 <= i < k ==> r[i] == (i + 1) * m
  {
    seq(k, i requires 0 <= i < k => (i + 1) * m)
  }

  /** Quotient and remainder are unique. */
  lemma DivModUnique(n: nat, m: nat, q: nat, r: nat)
    requires m > 0 && n == q * m + r && r < m
    ensures n / m == q && n % m == r
  {
    var q', r' := n / m, n % m;
    assert q * m + r == q' * m + r';
    if q < q' {
      Paginator.MulMonotone(q + 1, q', m);
    } else if q' < q {
      Paginator.MulMonotone(q' + 1, q, m);
    }
  }

  /** Reading the events of one staged note. */
  lemma ReadStageOne(s: CopyState, note: Rec, maxPortion: nat)
    ensures var t := StageOne(s, note, maxPortion);
      var commit := s.portion + 1 == maxPortion;
      && Reports(t.events) == Reports(s.events) + (if commit then [s.total + s.portion + 1] else [])
      && Staged(t.events) == Staged(s.events) + [note]
      && Commits(t.events) == Commits(s.events) + (if commit then 1 else 0)
      && Clears(t.events) == Clears(s.events)
  {
    var e1 := s.events + [Stage(note)];
    assert e1[..|e1| - 1] == s.events;
    assert Reports(e1) == Reports(s.events) && Staged(e1) == Staged(s.events) + [note];
    assert Commits(e1) == Commits(s.events) && Clears(e1) == Clears(s.events);
    if s.portion + 1 == maxPortion {
      var e2 := e1 + [Commit];
      assert e2[..|e2| - 1] == e1;
      assert Reports(e2) == Reports(e1) && Staged(e2) == Staged(e1);
      assert Commits(e2) == Commits(e1) + 1 && Clears(e2) == Clears(e1);
      var e3 := e2 + [Report(s.total + s.portion + 1)];
      assert e3[..|e3| - 1] == e2;
      assert Reports(e3) == Reports(e2) + [s.total + s.portion + 1] && Staged(e3) == Staged(e2);
      assert Commits(e3) == Commits(e2) && Clears(e3) == Clears(e2);
      assert StageOne(s, note, maxPortion).events == e3;
    }
  }

  /** The staging loop keeps a portion smaller than the maximum; every
      note read is either committed or in the portion; one report per
      commit, each the running total; and the notes staged are the notes
      read, in order. */
  lemma {:induction false} CopyStepsInvariant(notes: seq<Rec>, maxPortion: nat)
    requires maxPortion > 0
    ensures var s := CopySteps(notes, maxPortion);
      && s.portion < maxPortion
      && s.total + s.portion == |notes|
      && s.total == Commits(s.events) * maxPortion
      && Reports(s.events) == Multiples(Commits(s.events), maxPortion)
      && Staged(s.events) == notes
      && Clears(s.events) == 0
    decreases |notes|
  {
    if notes != [] {
      var init := notes[..|notes| - 1];
      var note := notes[|notes| - 1];
      CopyStepsInvariant(init, maxPortion);
      var s := CopySteps(init, maxPortion);
      assert init + [note] == notes;
      var t := StageOne(s, note, maxPortion);
      assert CopySteps(notes, maxPortion) == t;
      ReadStageOne(s, note, maxPortion);
      var c := Commits(s.events);
      if s.portion + 1 == maxPortion {
        MultiplesNext(c, maxPortion);
        assert t.portion == 0 && t.total == c * maxPortion + maxPortion;
        assert Commits(t.events) == c + 1;
        assert t.total == Commits(t.events) * maxPortion;
      } else {
        assert t.portion == s.portion + 1 && t.total == s.total;
        assert Commits(t.events) == c && Reports(t.events) == Reports(s.events);
      }
    }
  }

  /** One more commit adds the next multiple to the reports. */
  lemma MultiplesNext(c: nat, m: nat)
    ensures (c + 1) * m == c * m + m
    ensures Multiples(c, m) + [(c + 1) * m] == Multiples(c + 1, m)
  {
    assert (c + 1) * m == c * m + m;
    assert Multiples(c, m) + [(c + 1) * m] == Multiples(c + 1, m);
  }

  /** After staging n notes the portion holds n mod max notes and n div
      max portions were committed and reported. */
  lemma CopyStepsClosedForm(notes: seq<Rec>, maxPortion: nat)
    requires maxPortion > 0
    ensures var s := CopySteps(notes, maxPortion);
      && s.portion == |notes| % maxPortion
      && s.total == (|notes| / maxPortion) * maxPortion
      && Reports(s.events) == Multiples(|notes| / maxPortion, maxPortion)
      && Staged(s.events) == notes
      && Commits(s.events) == |notes| / maxPortion
      && Clears(s.events) == 0
  {
    var s := CopySteps(notes, maxPortion);
    CopyStepsInvariant(notes, maxPortion);
    DivModUnique(|notes|, maxPortion, Commits(s.events), s.portion);
  }

  /** The whole copy after `clear`, read back: every note read is staged
      once and in order; there is one commit per full portion plus one for
      a non-empty remainder; the reports are the multiples of the maximum up
      to the total, then the number of notes. */
  lemma CopyEventsRead(notes: seq<Rec>, maxPortion: nat)
    requires maxPortion > 0
    ensures var events := CopyEvents(notes, maxPortion);
      && Staged(events) == notes
      && Commits(events) == |notes| / maxPortion + (if |notes| % maxPortion > 0 then 1 else 0)
      && Reports(events) == Multiples(|notes| / maxPortion, maxPortion) + [|notes|]
      && Clears(events) == 0
  {
    var s := CopySteps(notes, maxPortion);
    CopyStepsInvariant(notes, maxPortion);
    CopyStepsClosedForm(notes, maxPortion);
    ReadTail(s.events, s.portion > 0, s.total + s.portion);
  }

  /** Reading the end of the copy: an optional last commit, then the final
      report. */
  lemma ReadTail(events: seq<Event>, commit: bool, total: nat)
    ensures var full := events + (if commit then [Commit] else []) + [Report(total)];
      && Reports(full) == Reports(events) + [total]
      && Staged(full) == Staged(events)
      && Commits(full) == Commits(events) + (if commit then 1 else 0)
      && Clears(full) == Clears(events)
  {
    var last := [Report(total)];
    assert last[..0] == [];
    if commit {
      var tail := [Commit];
      assert tail[..0] == [];
      ReadAppend(events, tail);
      ReadAppend(events + tail, last);
    } else {
      assert events + [] == events;
      ReadAppend(events, last);
    }
  }

  /** The reports never decrease; every report before the last is a
      positive multiple of the maximum, and the last is the number of notes. */
  lemma ReportsNonDecreasing(notes: seq<Rec>, maxPortion: nat)
    requires maxPortion > 0
    ensures var reports := Reports(CopyEvents(notes, maxPortion));
      && |reports| >= 1 && reports[|reports| - 1] == |notes|
      && (forall i :: 0 <= i < |reports| - 1 ==> reports[i] > 0 && reports[i] % maxPortion == 0)
      && (forall i, j :: 0 <= i <= j < |reports| ==> reports[i] <= reports[j])
  {
    CopyEventsRead(notes, maxPortion);
    var k := |notes| / maxPortion;
    assert k * maxPortion <= |notes| by {
      assert |notes| == k * maxPortion + |notes| % maxPortion;
    }
    MultiplesThenTotal(k, maxPortion, |notes|);
  }

  /** The first k multiples of m followed by a total n of at least k * m
      never decrease, and all but the last are positive multiples of m. */
  lemma MultiplesThenTotal(k: nat, m: nat, n: nat)
    requires m > 0 && k * m <= n
    ensures var reports := Multiples(k, m) + [n];
      && (forall i :: 0 <= i < |reports| - 1 ==> reports[i] > 0 && reports[i] % m == 0)
      && (forall i, j :: 0 <= i <= j < |reports| ==> reports[i] <= reports[j])
  {
    var reports := Multiples(k, m) + [n];
    forall i | 0 <= i < |reports| - 1 ensures reports[i] > 0 && reports[i] % m == 0 {
      assert reports[i] == (i + 1) * m;
      DivModUnique(reports[i], m, i + 1, 0);
    }
    forall i, j | 0 <= i <= j < |reports| ensures reports[i] <= reports[j] {
      if j < |reports| - 1 {
        Paginator.MulMonotone(i + 1, j + 1, m);
      } else if i < |reports| - 1 {
        Paginator.MulMonotone(i + 1, k, m);
      }
    }
  }

  /** 1050 notes at 400 a portion report 400, 800, 1050; 800 notes report
      400, 800 and then 800 again. */
  lemma ReportExamples(a: seq<Rec>, b: seq<Rec>)
    requires |a| == 1050 && |b| == 800
    ensures Reports(CopyEvents(a, 400)) == [400, 800, 1050]
    ensures Reports(CopyEvents(b, 400)) == [400, 800, 800]
  {
    CopyEventsRead(a, 400);
    CopyEventsRead(b, 400);
    assert Multiples(2, 400) == [400, 800];
  }

  // -------------------------------------------------------------------
  // A destination whose calls may raise
  // -------------------------------------------------------------------

  /** Whether the destination call `e`, made after the events `before`,
      raises. `clearOk` says whether the destination's `clear` succeeds (a
      GitHub destination has none); `commitOk(n)` says whether the commit
      that brings the number of notes staged to n succeeds (a relational
      destination refuses a title that any storage holds). Staging and
      reporting never raise. */
  predicate Raises(e: Event, before: seq<Event>, clearOk: bool, commitOk: nat -> bool) {
    (e.Clear? && !clearOk) || (e.Commit? && !commitOk(|Staged(before)|))
  }

  /** The events of a copy, and whether it ended with an exception. */
  datatype Run = Run(events: seq<Event>, raised: bool)

  /** A copy ended by the first destination call that raises: the
      exception leaves the generator, so the events are those up to and
      including that call. */
  function Stop(events: seq<Event>, clearOk: bool, commitOk: nat -> bool): Run
    decreases |events|
  {
    if events == [] then Run([], false)
    else
      var init := events[..|events| - 1];
      var prev := Stop(init, clearOk, commitOk);
      if prev.raised then prev
      else Run(events, Raises(events[|events| - 1], init, clearOk, commitOk))
  }

  /** What a stopped copy is: a prefix of the events, all of them when
      nothing raised; otherwise its last call raised, and every call
      before it completed. */
  lemma {:induction false} StopMeaning(events: seq<Event>, clearOk: bool, commitOk: nat -> bool)
    ensures var r := Stop(events, clearOk, commitOk);
      && r.events <= events
      && (!r.raised ==> r.events == events)
      && (r.raised ==> r.events != [] && Raises(r.events[|r.events| - 1], r.events[..|r.events| - 1], clearOk, commitOk))
      && forall i :: 0 <= i < |r.events| - (if r.raised then 1 else 0) ==> !Raises(r.events[i], r.events[..i], clearOk, commitOk)
    decreases |events|
  {
    if events != [] {
      var init := events[..|events| - 1];
      StopMeaning(init, clearOk, commitOk);
      assert forall i :: 0 <= i < |init| ==> events[..i] == init[..i];
    }
  }

  /** One more event: a copy that raised stays as it was; otherwise the
      event happens, and raises or not. */
  lemma StopAppend(events: seq<Event>, e: Event, clearOk: bool, commitOk: nat -> bool)
    ensures Stop(events + [e], clearOk, commitOk) ==
      if Stop(events, clearOk, commitOk).raised then Stop(events, clearOk, commitOk)
      else Run(events + [e], Raises(e, events, clearOk, commitOk))
  {
    assert (events + [e])[..|events|] == events;
  }

  /** Once a copy raised, the events that would have followed change
      nothing. */
  lemma {:induction false} StopExtends(a: seq<Event>, b: seq<Event>, clearOk: bool, commitOk: nat -> bool)
    requires Stop(a, clearOk, commitOk).raised
    ensures Stop(a + b, clearOk, commitOk) == Stop(a, clearOk, commitOk)
    decreases |b|
  {
    if b == [] {
      assert a + b == a;
    } else {
      var init := b[..|b| - 1];
      StopExtends(a, init, clearOk, commitOk);
      assert a + b == (a + init) + [b[|b| - 1]];
      StopAppend(a + init, b[|b| - 1], clearOk, commitOk);
    }
  }

  /** A destination whose calls all succeed sees the whole copy. */
  lemma {:induction false} NothingRaises(events: seq<Event>, commitOk: nat -> bool)
    requires forall n :: commitOk(n)
    ensures Stop(events, true, commitOk) == Run(events, false)
    decreases |events|
  {
    if events != [] {
      var init := events[..|events| - 1];
      NothingRaises(init, commitOk);
      assert init + [events[|events| - 1]] == events;
      StopAppend(init, events[|events| - 1], true, commitOk);
    }
  }

  /** Staging a note, then committing: the stage completes and the commit
      raises exactly when the destination refuses the notes staged so far. */
  lemma StopStageCommit(t: seq<Event>, note: Rec, clearOk: bool, commitOk: nat -> bool)
    requires Stop(t, clearOk, commitOk) == Run(t, false)
    ensures Stop(t + [Stage(note)], clearOk, commitOk) == Run(t + [Stage(note)], false)
    ensures |Staged(t + [Stage(note)])| == |Staged(t)| + 1
  {
    StopAppend(t, Stage(note), clearOk, commitOk);
    assert (t + [Stage(note)])[..|t|] == t;
  }

  lemma StopCommit(t: seq<Event>, clearOk: bool, commitOk: nat -> bool)
    requires Stop(t, clearOk, commitOk) == Run(t, false)
    ensures Stop(t + [Commit], clearOk, commitOk) == Run(t + [Commit], !commitOk(|Staged(t)|))
  {
    StopAppend(t, Commit, clearOk, commitOk);
  }

  lemma StopReport(t: seq<Event>, total: nat, clearOk: bool, commitOk: nat -> bool)
    requires Stop(t, clearOk, commitOk) == Run(t, false)
    ensures Stop(t + [Report(total)], clearOk, commitOk) == Run(t + [Report(total)], false)
  {
    StopAppend(t, Report(total), clearOk, commitOk);
  }

  /** Staging n notes stages exactly those notes, and each is either
      committed or in the portion. */
  lemma {:induction false} CopyStepsCount(notes: seq<Rec>, maxPortion: nat)
    ensures Staged(CopySteps(notes, maxPortion).events) == notes
    ensures CopySteps(notes, maxPortion).total + CopySteps(notes, maxPortion).portion == |notes|
    decreases |notes|
  {
    if notes != [] {
      var init := notes[..|notes| - 1];
      CopyStepsCount(init, maxPortion);
      assert init + [notes[|notes| - 1]] == notes;
      ReadStageOne(CopySteps(init, maxPortion), notes[|notes| - 1], maxPortion);
    }
  }

  /** The events of staging some notes start the events of staging more. */
  lemma {:induction false} CopyStepsPrefix(a: seq<Rec>, b: seq<Rec>, maxPortion: nat)
    ensures CopySteps(a, maxPortion).events <= CopySteps(a + b, maxPortion).events
    decreases |b|
  {
    if b == [] {
      assert a + b == a;
    } else {
      var init := b[..|b| - 1];
      CopyStepsPrefix(a, init, maxPortion);
      assert a + b == (a + init) + [b[|b| - 1]];
      CopyStepsAppend(a + init, b[|b| - 1], maxPortion);
      var s := CopySteps(a + init, maxPortion);
      assert s.events <= StageOne(s, b[|b| - 1], maxPortion).events;
    }
  }

  /** The copy's trace after `clear` continues the staging loop's events. */
  lemma CopyEventsExtendSteps(notes: seq<Rec>, maxPortion: nat)
    ensures var s := CopySteps(notes, maxPortion);
      CopyEvents(notes, maxPortion) == s.events + (if s.portion > 0 then [Commit] else []) + [Report(s.total + s.portion)]
  {
  }

  /** A copy that raised while staging `read`, a prefix of the notes it
      would read in all, is the copy of all of them stopped at that call. */
  lemma RaisedWhileStaging(trace: seq<Event>, read: seq<Rec>, all: seq<Rec>, maxPortion: nat, clearOk: bool, commitOk: nat -> bool)
    requires Stop([Clear] + trace, clearOk, commitOk) == Run([Clear] + trace, true)
    requires trace <= CopySteps(read, maxPortion).events && read <= all
    ensures Stop([Clear] + CopyEvents(all, maxPortion), clearOk, commitOk) == Run([Clear] + trace, true)
  {
    assert all == read + all[|read|..];
    CopyStepsPrefix(read, all[|read|..], maxPortion);
    CopyEventsExtendSteps(all, maxPortion);
    var full := [Clear] + CopyEvents(all, maxPortion);
    assert [Clear] + trace <= full;
    assert full == ([Clear] + trace) + full[|trace| + 1..];
    StopExtends([Clear] + trace, full[|trace| + 1..], clearOk, commitOk);
  }

  /** A destination that refuses the first commit stops the copy there:
      the first portion (or every note, when there are fewer) is staged,
      the commit raises, and nothing is reported. */
  lemma FirstCommitRaises(notes: seq<Rec>, maxPortion: nat, commitOk: nat -> bool)
    requires maxPortion > 0 && notes != []
    requires !commitOk(Paginator.Min(|notes|, maxPortion))
    ensures var run := Stop([Clear] + CopyEvents(notes, maxPortion), true, commitOk);
      var m := Paginator.Min(|notes|, maxPortion);
      && run.raised
      && Staged(run.events) == notes[..m]
      && Commits(run.events) == 1
      && Reports(run.events) == []
  {
    var m := Paginator.Min(|notes|, maxPortion);
    var s := CopySteps(notes[..m - 1], maxPortion);
    FirstPortionStopped(notes, maxPortion, commitOk);
    FirstPortionStartsCopy(notes, maxPortion);
    var stopped := [Clear] + s.events + [Stage(notes[m - 1]), Commit];
    var full := [Clear] + CopyEvents(notes, maxPortion);
    assert full == stopped + full[|stopped|..];
    StopExtends(stopped, full[|stopped|..], true, commitOk);
  }

  /** The first portion staged and committed, against a destination that
      refuses that commit. */
  lemma FirstPortionStopped(notes: seq<Rec>, maxPortion: nat, commitOk: nat -> bool)
    requires maxPortion > 0 && notes != []
    requires !commitOk(Paginator.Min(|notes|, maxPortion))
    ensures var m := Paginator.Min(|notes|, maxPortion);
      var stopped := [Clear] + CopySteps(notes[..m - 1], maxPortion).events + [Stage(notes[m - 1]), Commit];
      && Stop(stopped, true, commitOk) == Run(stopped, true)
      && Staged(stopped) == notes[..m]
      && Commits(stopped) == 1
      && Reports(stopped) == []
  {
    var m := Paginator.Min(|notes|, maxPortion);
    var before := notes[..m - 1];
    TakeOneMore(notes, m);
    QuietSteps(before, maxPortion);
    QuietThenCommit(CopySteps(before, maxPortion).events, notes[m - 1], commitOk);
  }

  lemma TakeOneMore<T>(s: seq<T>, m: nat)
    requires 0 < m <= |s|
    ensures s[..m - 1] + [s[m - 1]] == s[..m]
  {
  }

  /** Fewer notes than a portion: only stages, nothing committed yet. */
  lemma QuietSteps(before: seq<Rec>, maxPortion: nat)
    requires |before| < maxPortion
    ensures var s := CopySteps(before, maxPortion);
      && Commits(s.events) == 0 && Reports(s.events) == [] && Staged(s.events) == before && Clears(s.events) == 0
      && s.portion == |before| && s.total == 0
  {
    CopyStepsClosedForm(before, maxPortion);
    DivModUnique(|before|, maxPortion, 0, |before|);
  }

  /** After `clear` and some stages, one more stage and a commit: the
      commit raises exactly when the destination refuses that many notes. */
  lemma QuietThenCommit(e: seq<Event>, note: Rec, commitOk: nat -> bool)
    requires Commits(e) == 0 && Reports(e) == []
    ensures var stopped := [Clear] + e + [Stage(note), Commit];
      && Stop(stopped, true, commitOk) == Run(stopped, !commitOk(|Staged(e)| + 1))
      && Staged(stopped) == Staged(e) + [note]
      && Commits(stopped) == 1
      && Reports(stopped) == []
  {
    var t := [Clear] + e;
    ReadQuietCommit(e, note);
    ReadClearFirst(e);
    NoCommitCompletes(t, commitOk);
    StopStageCommit(t, note, true, commitOk);
    StopCommit(t + [Stage(note)], true, commitOk);
    assert t + [Stage(note)] + [Commit] == [Clear] + e + [Stage(note), Commit];
  }

  /** What `clear`, some quiet stages, one more stage and a commit record. */
  lemma ReadQuietCommit(e: seq<Event>, note: Rec)
    requires Commits(e) == 0 && Reports(e) == []
    ensures var stopped := [Clear] + e + [Stage(note), Commit];
      && Staged(stopped) == Staged(e) + [note]
      && Commits(stopped) == 1
      && Reports(stopped) == []
  {
    ReadClearFirst(e);
    ReadStageCommit(note);
    ReadAppend([Clear] + e, [Stage(note), Commit]);
  }

  lemma ReadClearFirst(e: seq<Event>)
    ensures Staged([Clear] + e) == Staged(e) && Commits([Clear] + e) == Commits(e) && Reports([Clear] + e) == Reports(e)
  {
    ReadOne(Clear);
    ReadAppend([Clear], e);
  }

  lemma ReadStageCommit(note: Rec)
    ensures Staged([Stage(note), Commit]) == [note] && Commits([Stage(note), Commit]) == 1 && Reports([Stage(note), Commit]) == []
  {
    ReadOne(Stage(note));
    ReadOne(Commit);
    ReadAppend([Stage(note)], [Commit]);
    assert [Stage(note)] + [Commit] == [Stage(note), Commit];
  }

  /** Reading a single event. */
  lemma ReadOne(e: Event)
    ensures Staged([e]) == (if e.Stage? then [e.note] else [])
    ensures Commits([e]) == (if e.Commit? then 1 else 0)
    ensures Reports([e]) == (if e.Report? then [e.total] else [])
    ensures Clears([e]) == (if e.Clear? then 1 else 0)
  {
    assert [e][..0] == [];
  }

  /** The first portion staged and committed starts the whole copy. */
  lemma FirstPortionStartsCopy(notes: seq<Rec>, maxPortion: nat)
    requires maxPortion > 0 && notes != []
    ensures var m := Paginator.Min(|notes|, maxPortion);
      CopySteps(notes[..m - 1], maxPortion).events + [Stage(notes[m - 1]), Commit] <= CopyEvents(notes, maxPortion)
  {
    var m := Paginator.Min(|notes|, maxPortion);
    QuietPortion(notes[..m - 1], maxPortion);
    SplitAt(notes, m);
    if m == maxPortion {
      FullFirstPortion(notes[..m - 1], notes[m - 1], notes[m..], maxPortion);
    } else {
      ShortCopy(notes[..m - 1], notes[m - 1], maxPortion);
    }
  }

  lemma SplitAt<T>(s: seq<T>, m: nat)
    requires 0 < m <= |s|
    ensures s == s[..m - 1] + [s[m - 1]] + s[m..]
    ensures m == |s| ==> s == s[..m - 1] + [s[m - 1]]
  {
  }

  lemma QuietPortion(before: seq<Rec>, maxPortion: nat)
    requires |before| < maxPortion
    ensures CopySteps(before, maxPortion).portion == |before|
  {
    QuietSteps(before, maxPortion);
  }

  lemma PrefixTrans<T>(a: seq<T>, b: seq<T>, c: seq<T>)
    requires a <= b && b <= c
    ensures a <= c
  {
  }

  /** A first portion that fills up is committed before anything that
      follows it. */
  lemma FullFirstPortion(before: seq<Rec>, note: Rec, rest: seq<Rec>, maxPortion: nat)
    requires CopySteps(before, maxPortion).portion + 1 == maxPortion
    ensures CopySteps(before, maxPortion).events + [Stage(note), Commit] <= CopyEvents(before + [note] + rest, maxPortion)
  {
    var e := CopySteps(before, maxPortion).events;
    CopyStepsAppend(before, note, maxPortion);
    var filled := CopySteps(before + [note], maxPortion).events;
    assert e + [Stage(note), Commit] <= filled;
    CopyStepsPrefix(before + [note], rest, maxPortion);
    var all := before + [note] + rest;
    CopyEventsExtendSteps(all, maxPortion);
    PrefixTrans(e + [Stage(note), Commit], filled, CopySteps(all, maxPortion).events);
    PrefixTrans(e + [Stage(note), Commit], CopySteps(all, maxPortion).events, CopyEvents(all, maxPortion));
  }

  /** Fewer notes than a portion: the last is staged, then the leftover
      portion is committed. */
  lemma ShortCopy(before: seq<Rec>, note: Rec, maxPortion: nat)
    requires CopySteps(before, maxPortion).portion + 1 < maxPortion
    ensures CopySteps(before, maxPortion).events + [Stage(note), Commit] <= CopyEvents(before + [note], maxPortion)
  {
    var e := CopySteps(before, maxPortion).events;
    CopyStepsAppend(before, note, maxPortion);
    CopyEventsExtendSteps(before + [note], maxPortion);
    assert CopyEvents(before + [note], maxPortion) == e + [Stage(note)] + [Commit] + [Report(CopySteps(before, maxPortion).total + CopySteps(before, maxPortion).portion + 1)];
  }

  /** A trace without commits never raises at a destination whose `clear`
      succeeds. */
  lemma {:induction false} NoCommitCompletes(t: seq<Event>, commitOk: nat -> bool)
    requires Commits(t) == 0
    ensures Stop(t, true, commitOk) == Run(t, false)
    decreases |t|
  {
    if t != [] {
      var init := t[..|t| - 1];
      NoCommitCompletes(init, commitOk);
      assert init + [t[|t| - 1]] == t;
      StopAppend(init, t[|t| - 1], true, commitOk);
    }
  }

  // -------------------------------------------------------------------
  // run_initiator
  // -------------------------------------------------------------------

  /** The notes of source pages 1..k, in page order. */
  function PagesRead(getList: nat -> (seq<Rec>, nat), k: nat): seq<Rec> {
    if k == 0 then [] else PagesRead(getList, k - 1) + getList(k).0
  }

  /** The pages requested: page 1 once for the page count, then pages
      2..numPages, each once and in order. */
  function Requests(numPages: nat): (r: seq<nat>)
    ensures |r| >= 1 && r[0] == 1
    ensures |r| == if numPages == 0 then 1 else numPages
    ensures forall i :: 0 < i < |r| ==> r[i] == i + 1
  {
    if numPages <= 1 then [1] else Requests(numPages - 1) + [numPages]
  }

  /** A `clear` that raises ends the copy before anything else. */
  lemma ClearRaises(rest: seq<Event>, commitOk: nat -> bool)
    ensures Stop([Clear] + rest, false, commitOk) == Run([Clear], true)
  {
    StopAppend([], Clear, false, commitOk);
    assert [] + [Clear] == [Clear];
    StopExtends([Clear], rest, false, commitOk);
  }

  /** A `clear` that succeeds starts a copy that has not raised. */
  lemma ClearCompletes(commitOk: nat -> bool)
    ensures Stop([Clear] + [], true, commitOk) == Run([Clear] + [], false)
  {
    StopAppend([], Clear, true, commitOk);
    assert [] + [Clear] == [Clear] + [];
  }

  /** Staging one more note on a copy that has not raised: the stage
      completes, and one more note is staged. */
  lemma StageStepRun(done: seq<Rec>, note: Rec, maxPortion: nat, clearOk: bool, commitOk: nat -> bool)
    requires Stop([Clear] + CopySteps(done, maxPortion).events, clearOk, commitOk) == Run([Clear] + CopySteps(done, maxPortion).events, false)
    ensures var s := CopySteps(done, maxPortion);
      var staged := s.events + [Stage(note)];
      && s.total + s.portion == |done|
      && Stop([Clear] + staged, clearOk, commitOk) == Run([Clear] + staged, false)
      && |Staged([Clear] + staged)| == |done| + 1
  {
    var s := CopySteps(done, maxPortion);
    CopyStepsCount(done, maxPortion);
    ReadClearFirst(s.events);
    StopStageCommit([Clear] + s.events, note, clearOk, commitOk);
    AppendAssoc([Clear], s.events, [Stage(note)]);
  }

  /** A commit after the events `t` of a copy that has not raised raises
      exactly when the destination refuses the notes staged so far;
      otherwise the report after it completes as well. */
  lemma CommitStepRun(t: seq<Event>, total: nat, clearOk: bool, commitOk: nat -> bool)
    requires Stop([Clear] + t, clearOk, commitOk) == Run([Clear] + t, false)
    ensures Stop([Clear] + (t + [Commit]), clearOk, commitOk) == Run([Clear] + (t + [Commit]), !commitOk(|Staged([Clear] + t)|))
    ensures commitOk(|Staged([Clear] + t)|) ==>
      Stop([Clear] + (t + [Commit] + [Report(total)]), clearOk, commitOk) == Run([Clear] + (t + [Commit] + [Report(total)]), false)
  {
    StopCommit([Clear] + t, clearOk, commitOk);
    AppendAssoc([Clear], t, [Commit]);
    if commitOk(|Staged([Clear] + t)|) {
      StopReport([Clear] + (t + [Commit]), total, clearOk, commitOk);
      AppendAssoc([Clear], t + [Commit], [Report(total)]);
    }
  }

  lemma AppendAssoc<T>(a: seq<T>, b: seq<T>, c: seq<T>)
    ensures a + (b + c) == (a + b) + c
  {
  }

  /** The commit that fills a portion on page `pageNotes` starts the events
      of staging the whole page. */
  lemma PageStepPrefix(read: seq<Rec>, pageNotes: seq<Rec>, i: nat, maxPortion: nat)
    requires i < |pageNotes| && CopySteps(read + pageNotes[..i], maxPortion).portion + 1 == maxPortion
    ensures CopySteps(read + pageNotes[..i], maxPortion).events + [Stage(pageNotes[i])] + [Commit] <=
      CopySteps(read + pageNotes, maxPortion).events
  {
    var done := read + pageNotes[..i];
    CopyStepsAppend(done, pageNotes[i], maxPortion);
    assert read + pageNotes == (done + [pageNotes[i]]) + pageNotes[i + 1..];
    CopyStepsPrefix(done + [pageNotes[i]], pageNotes[i + 1..], maxPortion);
  }

  /** After the staging loop: a non-empty leftover portion is committed,
      which raises exactly when the destination refuses all the notes;
      otherwise the final report completes the copy. */
  lemma FinishRun(read: seq<Rec>, maxPortion: nat, clearOk: bool, commitOk: nat -> bool)
    requires Stop([Clear] + CopySteps(read, maxPortion).events, clearOk, commitOk) == Run([Clear] + CopySteps(read, maxPortion).events, false)
    ensures var s := CopySteps(read, maxPortion);
      && s.total + s.portion == |read|
      && Stop([Clear] + CopyEvents(read, maxPortion), clearOk, commitOk) ==
         if s.portion > 0 && !commitOk(|read|) then Run([Clear] + (s.events + [Commit]), true)
         else Run([Clear] + CopyEvents(read, maxPortion), false)
  {
    var s := CopySteps(read, maxPortion);
    CopyStepsCount(read, maxPortion);
    ReadClearFirst(s.events);
    CopyEventsExtendSteps(read, maxPortion);
    var last := Report(s.total + s.portion);
    if s.portion > 0 {
      CommitStepRun(s.events, s.total + s.portion, clearOk, commitOk);
      if !commitOk(|read|) {
        StopExtends([Clear] + (s.events + [Commit]), [last], clearOk, commitOk);
        AppendAssoc([Clear], s.events + [Commit], [last]);
      }
    } else {
      FinishQuiet(s.events, last, clearOk, commitOk);
    }
  }

  lemma FinishQuiet(t: seq<Event>, last: Event, clearOk: bool, commitOk: nat -> bool)
    requires last.Report?
    requires Stop([Clear] + t, clearOk, commitOk) == Run([Clear] + t, false)
    ensures Stop([Clear] + (t + [] + [last]), clearOk, commitOk) == Run([Clear] + (t + [] + [last]), false)
  {
    StopReport([Clear] + t, last.total, clearOk, commitOk);
    assert t + [] == t;
    AppendAssoc([Clear], t, [last]);
  }

  /** The body of the inner loop of `run_initiator`: staging one note
      after the notes `done`, then committing and reporting if it fills the
      portion. A commit the destination refuses raises. */
  method StageNote(portion0: nat, total0: nat, trace0: seq<Event>, ghost done: seq<Rec>, note: Rec, maxPortion: nat,
                   clearOk: bool, commitOk: nat -> bool)
    returns (portion: nat, total: nat, trace: seq<Event>, raised: bool)
    requires CopySteps(done, maxPortion) == CopyState(portion0, total0, trace0)
    requires Stop([Clear] + trace0, clearOk, commitOk) == Run([Clear] + trace0, false)
    ensures Stop([Clear] + trace, clearOk, commitOk) == Run([Clear] + trace, raised)
    ensures !raised ==> CopySteps(done + [note], maxPortion) == CopyState(portion, total, trace)
    ensures raised ==> portion0 + 1 == maxPortion && trace == trace0 + [Stage(note)] + [Commit]
  {
    CopyStepsAppend(done, note, maxPortion);
    StageStepRun(done, note, maxPortion, clearOk, commitOk);
    portion, total, trace, raised := portion0 + 1, total0, trace0 + [Stage(note)], false;
    if portion == maxPortion {
      CommitStepRun(trace, total + portion, clearOk, commitOk);
      trace := trace + [Commit];
      if !commitOk(total + portion) {
        raised := true;
        return;
      }
      total := total + portion;
      portion := 0;
      trace := trace + [Report(total)];
    }
  }

  /** The inner loop of `run_initiator`: staging the notes of one page,
      committing and reporting at each full portion, continuing from the
      state reached after `read`. A commit the destination refuses raises
      and ends the page there; otherwise the page extends the copy exactly
      as if it were appended to the notes read so far. */
  method StagePage(portion0: nat, total0: nat, trace0: seq<Event>, ghost read: seq<Rec>, pageNotes: seq<Rec>, maxPortion: nat,
                   clearOk: bool, commitOk: nat -> bool)
    returns (portion: nat, total: nat, trace: seq<Event>, raised: bool)
    requires CopySteps(read, maxPortion) == CopyState(portion0, total0, trace0)
    requires Stop([Clear] + trace0, clearOk, commitOk) == Run([Clear] + trace0, false)
    ensures Stop([Clear] + trace, clearOk, commitOk) == Run([Clear] + trace, raised)
    ensures !raised ==> CopySteps(read + pageNotes, maxPortion) == CopyState(portion, total, trace)
    ensures raised ==> trace <= CopySteps(read + pageNotes, maxPortion).events
  {
    portion, total, trace := portion0, total0, trace0;
    raised := false;
    var i := 0;
    assert read + pageNotes[..0] == read;
    while i < |pageNotes|
      invariant 0 <= i <= |pageNotes|
      invariant CopySteps(read + pageNotes[..i], maxPortion) == CopyState(portion, total, trace)
      invariant Stop([Clear] + trace, clearOk, commitOk) == Run([Clear] + trace, false)
    {
      ghost var done := read + pageNotes[..i];
      portion, total, trace, raised := StageNote(portion, total, trace, done, pageNotes[i], maxPortion, clearOk, commitOk);
      if raised {
        PageStepPrefix(read, pageNotes, i, maxPortion);
        return;
      }
      assert read + pageNotes[..i + 1] == done + [pageNotes[i]];
      i := i + 1;
    }
    assert pageNotes[..i] == pageNotes;
  }

  /** The outer loop of `run_initiator`, after a `clear` that succeeded:
      pages 1..numPages of the source staged in order (`notes` is page 1,
      read before the loop). A commit that raises ends the copy there. */
  method CopyPages(getList: nat -> (seq<Rec>, nat), notes: seq<Rec>, numPages: nat, maxPortion: nat, clearOk: bool, commitOk: nat -> bool)
    returns (portion: nat, total: nat, trace: seq<Event>, raised: bool, requested: seq<nat>)
    requires notes == getList(1).0 && clearOk
    ensures raised ==> Stop([Clear] + CopyEvents(PagesRead(getList, numPages), maxPortion), clearOk, commitOk) == Run([Clear] + trace, true)
    ensures raised ==> requested <= Requests(numPages)
    ensures !raised ==> CopySteps(PagesRead(getList, numPages), maxPortion) == CopyState(portion, total, trace)
    ensures !raised ==> Stop([Clear] + trace, clearOk, commitOk) == Run([Clear] + trace, false)
    ensures !raised ==> requested == Requests(numPages)
  {
    requested := [1];
    portion, total, trace, raised := 0, 0, [], false;
    ClearCompletes(commitOk);
    var page := 1;
    while page <= numPages
      invariant 1 <= page <= numPages + 1 || (numPages == 0 && page == 1)
      invariant requested == Requests(if page == 1 then 1 else page - 1)
      invariant CopySteps(PagesRead(getList, page - 1), maxPortion) == CopyState(portion, total, trace)
      invariant Stop([Clear] + trace, clearOk, commitOk) == Run([Clear] + trace, false)
    {
      portion, total, trace, raised, requested := CopyPage(getList, notes, page, portion, total, trace, requested, maxPortion, clearOk, commitOk);
      if raised {
        PageRaised(getList, page, numPages, PagesRead(getList, page), trace, requested, maxPortion, clearOk, commitOk);
        return;
      }
      page := page + 1;
    }
    assert page == numPages + 1 || numPages == 0;
  }

  /** One pass of the outer loop: page `page` is read (page 1 was read
      before the loop) and its notes staged after those of the pages
      before it. */
  method CopyPage(getList: nat -> (seq<Rec>, nat), notes: seq<Rec>, page: nat, portion0: nat, total0: nat, trace0: seq<Event>,
                  requested0: seq<nat>, maxPortion: nat, clearOk: bool, commitOk: nat -> bool)
    returns (portion: nat, total: nat, trace: seq<Event>, raised: bool, requested: seq<nat>)
    requires page >= 1 && notes == getList(1).0
    requires requested0 == Requests(if page == 1 then 1 else page - 1)
    requires CopySteps(PagesRead(getList, page - 1), maxPortion) == CopyState(portion0, total0, trace0)
    requires Stop([Clear] + trace0, clearOk, commitOk) == Run([Clear] + trace0, false)
    ensures requested == Requests(page)
    ensures Stop([Clear] + trace, clearOk, commitOk) == Run([Clear] + trace, raised)
    ensures !raised ==> CopySteps(PagesRead(getList, page), maxPortion) == CopyState(portion, total, trace)
    ensures raised ==> trace <= CopySteps(PagesRead(getList, page), maxPortion).events
  {
    var pageNotes := if page > 1 then getList(page).0 else notes;
    NextPage(getList, page, PagesRead(getList, page - 1), requested0);
    requested := if page > 1 then requested0 + [page] else requested0;
    portion, total, trace, raised := StagePage(portion0, total0, trace0, PagesRead(getList, page - 1), pageNotes, maxPortion, clearOk, commitOk);
  }

  /** A commit that raised while staging page `page` ends the whole copy
      there, after the pages requested so far. */
  lemma PageRaised(getList: nat -> (seq<Rec>, nat), page: nat, numPages: nat, read: seq<Rec>, trace: seq<Event>,
                   requested: seq<nat>, maxPortion: nat, clearOk: bool, commitOk: nat -> bool)
    requires 1 <= page <= numPages
    requires read == PagesRead(getList, page) && requested == Requests(page)
    requires Stop([Clear] + trace, clearOk, commitOk) == Run([Clear] + trace, true)
    requires trace <= CopySteps(read, maxPortion).events
    ensures Stop([Clear] + CopyEvents(PagesRead(getList, numPages), maxPortion), clearOk, commitOk) == Run([Clear] + trace, true)
    ensures requested <= Requests(numPages)
  {
    PagesReadPrefix(getList, page, numPages);
    RequestsPrefix(page, numPages);
    RaisedWhileStaging(trace, read, PagesRead(getList, numPages), maxPortion, clearOk, commitOk);
  }

  /** `run_initiator(source_from, source_to)` on adapters already opened.
      `getList(p)` stands for the source's `get_list(p, 100)`: the notes of
      page p and the page count; `maxPortion` is the destination's
      `MAX_PORTION_SIZE`; `clearOk` says whether the destination's `clear`
      succeeds and `commitOk(n)` whether a commit succeeds once n notes
      have been staged in all. The events are what the destination saw and
      what the copy yielded, in order, up to the call that raised, if any;
      `requested` is the pages read from the source. */
  method RunInitiator(maxPortion: nat, getList: nat -> (seq<Rec>, nat), clearOk: bool, commitOk: nat -> bool)
    returns (events: seq<Event>, raised: bool, requested: seq<nat>)
    ensures Run(events, raised) == Stop([Clear] + CopyEvents(PagesRead(getList, getList(1).1), maxPortion), clearOk, commitOk)
    ensures requested <= Requests(getList(1).1)
    ensures !raised ==> requested == Requests(getList(1).1)
  {
    if !clearOk {
      ClearRaises(CopyEvents(PagesRead(getList, getList(1).1), maxPortion), commitOk);
      return [Clear], true, [];
    }
    var first := getList(1);
    var portion, total, trace;
    portion, total, trace, raised, requested := CopyPages(getList, first.0, first.1, maxPortion, clearOk, commitOk);
    if raised {
      return [Clear] + trace, true, requested;
    }
    FinishRun(PagesRead(getList, first.1), maxPortion, clearOk, commitOk);
    if portion > 0 {
      trace := trace + [Commit];
      if !commitOk(total + portion) {
        return [Clear] + trace, true, requested;
      }
    }
    trace := trace + [Report(total + portion)];
    events := [Clear] + trace;
  }

  /** The notes of the first k pages start the notes of the first n. */
  lemma {:induction false} PagesReadPrefix(getList: nat -> (seq<Rec>, nat), k: nat, n: nat)
    requires k <= n
    ensures PagesRead(getList, k) <= PagesRead(getList, n)
    decreases n
  {
    if k < n {
      PagesReadPrefix(getList, k, n - 1);
    }
  }

  /** The pages requested while reading page k start those requested while
      reading all n. */
  lemma {:induction false} RequestsPrefix(k: nat, n: nat)
    requires 1 <= k <= n
    ensures Requests(k) <= Requests(n)
    decreases n
  {
    if k < n {
      RequestsPrefix(k, n - 1);
    }
  }

  /** Reading page `page` extends the notes read and the pages requested by
      that page (page 1 was requested before the loop). */
  lemma NextPage(getList: nat -> (seq<Rec>, nat), page: nat, read: seq<Rec>, requested: seq<nat>)
    requires page >= 1
    requires read == PagesRead(getList, page - 1)
    requires requested == Requests(if page == 1 then 1 else page - 1)
    ensures read + getList(page).0 == PagesRead(getList, page)
    ensures (if page > 1 then requested + [page] else requested) == Requests(page)
  {
  }

  /** A source that reports no pages copies nothing: the destination is
      cleared and 0 is yielded. Firestore reports no pages whenever it holds
      a non-zero multiple of 100 documents, so such a store is never copied. */
  lemma NoPagesCopiesNothing(getList: nat -> (seq<Rec>, nat), maxPortion: nat, docs: seq<Firestore.Doc>)
    requires getList(1).1 == 0
    ensures [Clear] + CopyEvents(PagesRead(getList, getList(1).1), maxPortion) == [Clear, Report(0)]
    ensures |docs| > 0 && |docs| % CountOnPage == 0 ==> Firestore.ListDocs(docs, 1, CountOnPage).value.numPages == 0
  {
  }
}
