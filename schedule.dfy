/**
 * Class entries and the pure logic around them: the time-range label, the
 * active and focused entry of `updateActiveClass`, the `filter` and `map`
 * that the Remove and Save-notes actions rebuild the list with, and the
 * validation and end-time resolution of the add-class form.
 */
module Schedule {
  import opened Wrappers
  import opened Clock

  /** The id `crypto.randomUUID()` assigns to an entry. */
  type Id = string

  /** One scheduled class, as stored: `{id, name, date, start, end, notes}`. */
  datatype Entry = Entry(id: Id, name: string, date: string, start: string, end: string, notes: string)

  /** The separator `formatTimeRange` puts between start and end: " → ". */
  const RangeSeparator: string := " \U{2192} "

  /** `formatTimeRange(entry)`: "{start} → {end}". */
  function FormatTimeRange(e: Entry): (r: string)
    ensures |r| == |e.start| + |RangeSeparator| + |e.end|
    ensures r[..|e.start|] == e.start && r[|e.start| + |RangeSeparator|..] == e.end
    ensures r[|e.start|..|e.start| + |RangeSeparator|] == RangeSeparator
  {
    e.start + RangeSeparator + e.end
  }

  /** Two entries with clock-string starts show the same range only if start and end agree. */
  lemma FormatTimeRangeInjective(a: Entry, b: Entry)
    requires IsClock(a.start) && IsClock(b.start)
    requires FormatTimeRange(a) == FormatTimeRange(b)
    ensures a.start == b.start && a.end == b.end
  {
    assert |a.start| == |b.start|;
  }

  // ---------------------------------------------------------------------------
  // Array.prototype.find

  /** `i` is the first position of `s` whose element satisfies `p`. */
  predicate IsFirst<T>(s: seq<T>, p: T -> bool, i: int)
  {
    0 <= i < |s| && p(s[i]) && forall j :: 0 <= j < i ==> !p(s[j])
  }

  /** At most one position is the first. */
  lemma FirstIsUnique<T>(s: seq<T>, p: T -> bool, i: int, j: int)
    requires IsFirst(s, p, i) && IsFirst(s, p, j)
    ensures i == j
  {
  }

  /** The position of the first element satisfying `p`, scanning in list order. */
  function FirstIndex<T>(s: seq<T>, p: T -> bool): (r: Option<nat>)
    ensures r.Some? ==> IsFirst(s, p, r.value)
    ensures r.None? ==> forall j :: 0 <= j < |s| ==> !p(s[j])
    decreases |s|
  {
    if s == [] then None
    else if p(s[0]) then Some(0)
    else
      match FirstIndex(s[1..], p)
      case None => None
      case Some(i) => Some(i + 1)
  }

  /** `s.find(p)`: the first element satisfying `p`, or none. */
  function Find<T>(s: seq<T>, p: T -> bool): (r: Option<T>)
    ensures r.None? <==> forall j :: 0 <= j < |s| ==> !p(s[j])
    ensures r.Some? ==> exists i :: IsFirst(s, p, i) && s[i] == r.value
  {
    match FirstIndex(s, p)
    case Some(i) => Some(s[i])
    case None => None
  }

  // ---------------------------------------------------------------------------
  // The active and the focused entry

  /**
   * An entry is active at `now` on `today` when its date is today and
   * `start <= now <= end` in string order, both ends included.
   */
  predicate IsActiveAt(e: Entry, today: string, now: string)
  {
    e.date == today && LexLe(e.start, now) && LexLe(now, e.end)
  }

  /** The predicate the active-entry `find` applies. */
  function ActiveAt(today: string, now: string): Entry -> bool
  {
    (e: Entry) => IsActiveAt(e, today, now)
  }

  /** The predicate `entry.id === id`. */
  function IdIs(id: Id): Entry -> bool
  {
    (e: Entry) => e.id == id
  }

  /** The active entry: the first one in list order that is active, if any. */
  function ActiveEntry(classes: seq<Entry>, today: string, now: string): (r: Option<Entry>)
    ensures r.None? <==> forall j :: 0 <= j < |classes| ==> !IsActiveAt(classes[j], today, now)
    ensures r.Some? ==> exists i :: IsFirst(classes, ActiveAt(today, now), i) && classes[i] == r.value
    ensures r.Some? ==> r.value in classes && IsActiveAt(r.value, today, now)
  {
    Find(classes, ActiveAt(today, now))
  }

  /** Some entry of `classes` carries `id`. */
  predicate HasId(classes: seq<Entry>, id: Id)
  {
    exists i :: 0 <= i < |classes| && classes[i].id == id
  }

  /** The focused entry: the selected one when it is in the list, the active one otherwise. */
  function FocusedEntry(classes: seq<Entry>, selected: Option<Id>, today: string, now: string): (r: Option<Entry>)
    ensures selected.Some? && HasId(classes, selected.value) ==>
              r.Some? && exists i :: IsFirst(classes, IdIs(selected.value), i) && classes[i] == r.value
    ensures selected.None? || !HasId(classes, selected.value) ==> r == ActiveEntry(classes, today, now)
    ensures r.Some? ==> r.value in classes
  {
    var picked := match selected
      case Some(id) => Find(classes, IdIs(id))
      case None => None;
    if picked.Some? then picked else ActiveEntry(classes, today, now)
  }

  /** With well-formed clock strings the string test is the minute-of-day window, both ends included. */
  lemma ActiveOnClocks(e: Entry, today: string, now: string)
    requires IsClock(e.start) && IsClock(e.end) && IsClock(now)
    ensures IsActiveAt(e, today, now) <==>
              e.date == today && ClockValue(e.start) <= ClockValue(now) <= ClockValue(e.end)
  {
    ClockOrder(e.start, now);
    ClockOrder(now, e.end);
  }

  /** An active entry is dated today and its start sorts no later than its end. */
  lemma ActiveWindowOrdered(e: Entry, today: string, now: string)
    requires IsActiveAt(e, today, now)
    ensures e.date == today && LexLe(e.start, e.end)
  {
    LexLeTransitive(e.start, now, e.end);
  }

  /** An entry whose end sorts before its start is never active. */
  lemma InvertedWindowNeverActive(e: Entry, today: string, now: string)
    requires !LexLe(e.start, e.end)
    ensures !IsActiveAt(e, today, now)
  {
    if LexLe(e.start, now) && LexLe(now, e.end) {
      LexLeTransitive(e.start, now, e.end);
    }
  }

  /** An end of "NaN:NaN" sorts after every clock string, so such an entry stays active for the rest of its day. */
  lemma NaNEndStaysOpen(e: Entry, today: string, now: string)
    requires e.end == "NaN:NaN" && IsClock(now)
    requires e.date == today && LexLe(e.start, now)
    ensures IsActiveAt(e, today, now)
  {
    assert now[0] < 'N';
  }

  /** At 10:15, 10:00-10:30 and 10:00-10:15 are active and 10:16-10:30 is not. */
  lemma ActiveBoundaryExamples(today: string)
    ensures IsActiveAt(Entry("a", "A", today, "10:00", "10:30", ""), today, "10:15")
    ensures IsActiveAt(Entry("b", "B", today, "10:00", "10:15", ""), today, "10:15")
    ensures !IsActiveAt(Entry("c", "C", today, "10:16", "10:30", ""), today, "10:15")
  {
  }

  // ---------------------------------------------------------------------------
  // Rebuilding the list: filter and map

  /** `classes.filter((item) => item.id !== id)`. */
  function WithoutId(classes: seq<Entry>, id: Id): (r: seq<Entry>)
    ensures |r| <= |classes|
    ensures forall i :: 0 <= i < |r| ==> r[i].id != id
    decreases |classes|
  {
    if classes == [] then []
    else (if classes[0].id == id then [] else [classes[0]]) + WithoutId(classes[1..], id)
  }

  /** The filtered list holds exactly the entries of the list whose id differs. */
  lemma {:induction false} WithoutIdMembers(classes: seq<Entry>, id: Id, e: Entry)
    ensures e in WithoutId(classes, id) <==> e in classes && e.id != id
    decreases |classes|
  {
    if classes != [] {
      WithoutIdMembers(classes[1..], id, e);
      assert classes == [classes[0]] + classes[1..];
    }
  }

  /** Filtering works piecewise, so the kept entries stay in their original order. */
  lemma {:induction false} WithoutIdConcat(a: seq<Entry>, b: seq<Entry>, id: Id)
    ensures WithoutId(a + b, id) == WithoutId(a, id) + WithoutId(b, id)
    decreases |a|
  {
    if a != [] {
      var head := if a[0].id == id then [] else [a[0]];
      assert (a + b)[0] == a[0] && (a + b)[1..] == a[1..] + b;
      assert WithoutId(a + b, id) == head + WithoutId(a[1..] + b, id);
      WithoutIdConcat(a[1..], b, id);
      assert head + (WithoutId(a[1..], id) + WithoutId(b, id)) == (head + WithoutId(a[1..], id)) + WithoutId(b, id);
    } else {
      assert a + b == b;
    }
  }

  /** A list that does not carry `id` is left as it is. */
  lemma {:induction false} WithoutIdAbsent(classes: seq<Entry>, id: Id)
    requires !HasId(classes, id)
    ensures WithoutId(classes, id) == classes
    decreases |classes|
  {
    if classes != [] {
      assert !HasId(classes[1..], id) by {
        forall i | 0 <= i < |classes[1..]| ensures classes[1..][i].id != id {
          assert classes[1..][i] == classes[i + 1];
        }
      }
      WithoutIdAbsent(classes[1..], id);
    }
  }

  /** Removing an id that only position `k` carries deletes exactly that position. */
  lemma WithoutIdAt(classes: seq<Entry>, k: nat, id: Id)
    requires k < |classes| && classes[k].id == id
    requires forall i :: 0 <= i < |classes| && i != k ==> classes[i].id != id
    ensures WithoutId(classes, id) == classes[..k] + classes[k + 1..]
  {
    var before, after := classes[..k], classes[k + 1..];
    assert classes == before + [classes[k]] + after;
    assert !HasId(before, id) by {
      forall i | 0 <= i < |before| ensures before[i].id != id {
        assert before[i] == classes[i];
      }
    }
    assert !HasId(after, id) by {
      forall i | 0 <= i < |after| ensures after[i].id != id {
        assert after[i] == classes[k + 1 + i];
      }
    }
    WithoutIdConcat(before + [classes[k]], after, id);
    WithoutIdConcat(before, [classes[k]], id);
    WithoutIdAbsent(before, id);
    WithoutIdAbsent(after, id);
  }

  /** No two entries share an id. */
  predicate DistinctIds(classes: seq<Entry>)
  {
    forall i, j :: 0 <= i < j < |classes| ==> classes[i].id != classes[j].id
  }

  /** Filtering keeps ids distinct. */
  lemma {:induction false} WithoutIdKeepsDistinctIds(classes: seq<Entry>, id: Id)
    requires DistinctIds(classes)
    ensures DistinctIds(WithoutId(classes, id))
    decreases |classes|
  {
    if classes != [] {
      var rest := classes[1..];
      assert DistinctIds(rest) by {
        forall i, j | 0 <= i < j < |rest| ensures rest[i].id != rest[j].id {
          assert rest[i] == classes[i + 1] && rest[j] == classes[j + 1];
        }
      }
      WithoutIdKeepsDistinctIds(rest, id);
      var kept := WithoutId(rest, id);
      forall e | e in kept ensures e.id != classes[0].id {
        WithoutIdMembers(rest, id, e);
        var j :| 0 <= j < |rest| && rest[j] == e;
        assert rest[j] == classes[j + 1];
      }
    }
  }

  /** Appending an entry whose id is new keeps ids distinct. */
  lemma AppendKeepsDistinctIds(classes: seq<Entry>, e: Entry)
    requires DistinctIds(classes) && !HasId(classes, e.id)
    ensures DistinctIds(classes + [e])
  {
    var all := classes + [e];
    forall i, j | 0 <= i < j < |all| ensures all[i].id != all[j].id {
      assert all[i] == classes[i];
      if j < |classes| {
        assert all[j] == classes[j];
      }
    }
  }

  /** The entry with `id` replaced by a copy whose notes are `html`. */
  function UpdateNotes(e: Entry, id: Id, html: string): (r: Entry)
    ensures r.notes == (if e.id == id then html else e.notes)
    ensures r.(notes := e.notes) == e
  {
    if e.id == id then e.(notes := html) else e
  }

  /** `classes.map((entry) => entry.id === id ? { ...entry, notes: html } : entry)`. */
  function WithNotes(classes: seq<Entry>, id: Id, html: string): (r: seq<Entry>)
    ensures |r| == |classes|
    ensures forall i :: 0 <= i < |classes| ==> r[i] == UpdateNotes(classes[i], id, html)
    decreases |classes|
  {
    if classes == [] then []
    else [UpdateNotes(classes[0], id, html)] + WithNotes(classes[1..], id, html)
  }

  /** Saving notes touches no field but `notes`, and only on entries carrying `id`. */
  lemma WithNotesKeepsOtherFields(classes: seq<Entry>, id: Id, html: string, i: nat)
    requires i < |classes|
    ensures var e, e' := classes[i], WithNotes(classes, id, html)[i];
      && e'.id == e.id && e'.name == e.name && e'.date == e.date
      && e'.start == e.start && e'.end == e.end
      && e'.notes == (if e.id == id then html else e.notes)
  {
  }

  /** After saving notes for a selected entry that is in the list, the focused entry is it, carrying exactly those notes. */
  lemma SavedNotesAreFocused(classes: seq<Entry>, id: Id, html: string, k: nat, today: string, now: string)
    requires IsFirst(classes, IdIs(id), k)
    ensures FocusedEntry(WithNotes(classes, id, html), Some(id), today, now) == Some(classes[k].(notes := html))
  {
    var saved := WithNotes(classes, id, html);
    assert IsFirst(saved, IdIs(id), k) by {
      forall j | 0 <= j < k ensures !IdIs(id)(saved[j]) {
        assert saved[j].id == classes[j].id;
      }
    }
    assert HasId(saved, id);
    var r := FocusedEntry(saved, Some(id), today, now);
    var i :| IsFirst(saved, IdIs(id), i) && saved[i] == r.value;
    FirstIsUnique(saved, IdIs(id), i, k);
  }

  /** After Remove, the entry shown in the detail panel, if any, is an old entry that does not carry the removed id. */
  lemma RemovedEntryNotFocused(classes: seq<Entry>, selected: Option<Id>, id: Id, today: string, now: string)
    ensures var r := FocusedEntry(WithoutId(classes, id), if selected == Some(id) then None else selected, today, now);
      r.Some? ==> r.value.id != id && r.value in classes
  {
    var kept := WithoutId(classes, id);
    var r := FocusedEntry(kept, if selected == Some(id) then None else selected, today, now);
    if r.Some? {
      var i :| 0 <= i < |kept| && kept[i] == r.value;
      WithoutIdMembers(classes, id, r.value);
    }
  }

  // ---------------------------------------------------------------------------
  // The add-class form

  /** JavaScript's white space and line terminators, the characters `trim()` removes. */
  predicate IsJsWhitespace(c: char)
    ensures IsJsWhitespace(c) ==> !IsDigit(c) && c != ':'
  {
    || c == '\t' || c == '\n' || c == '\U{B}' || c == '\U{C}' || c == '\r' || c == ' '
    || c == '\U{A0}' || c == '\U{1680}' || ('\U{2000}' <= c <= '\U{200A}')
    || c == '\U{2028}' || c == '\U{2029}' || c == '\U{202F}' || c == '\U{205F}'
    || c == '\U{3000}' || c == '\U{FEFF}'
  }

  predicate IsBlank(s: string) { forall i :: 0 <= i < |s| ==> IsJsWhitespace(s[i]) }

  /** Leading white space removed. */
  function TrimStart(s: string): (r: string)
    ensures |r| <= |s| && r == s[|s| - |r|..]
    ensures r == [] || !IsJsWhitespace(r[0])
    ensures forall i :: 0 <= i < |s| - |r| ==> IsJsWhitespace(s[i])
    decreases |s|
  {
    if s != [] && IsJsWhitespace(s[0]) then TrimStart(s[1..]) else s
  }

  /** Trailing white space removed. */
  function TrimEnd(s: string): (r: string)
    ensures |r| <= |s| && r == s[..|r|]
    ensures r == [] || !IsJsWhitespace(r[|r| - 1])
    ensures forall i :: |r| <= i < |s| ==> IsJsWhitespace(s[i])
    decreases |s|
  {
    if s != [] && IsJsWhitespace(s[|s| - 1]) then TrimEnd(s[..|s| - 1]) else s
  }

  /** `s.trim()`: empty exactly when `s` is all white space; otherwise it neither starts nor ends with any. */
  function Trim(s: string): (r: string)
    ensures r == [] <==> IsBlank(s)
    ensures r != [] ==> !IsJsWhitespace(r[0]) && !IsJsWhitespace(r[|r| - 1])
    ensures |r| <= |s|
  {
    TrimEnd(TrimStart(s))
  }

  /** Trimming cuts a slice out of the input with only white space before and after it. */
  lemma TrimIsSlice(s: string)
    ensures exists a, b :: 0 <= a <= b <= |s| && Trim(s) == s[a..b] && IsBlank(s[..a]) && IsBlank(s[b..])
  {
    var t := TrimStart(s);
    CutBothEnds(s, t, TrimEnd(t));
  }

  /**
   * A suffix `t` of `s` after white space, and a prefix `r` of `t` before
   * white space, is a slice of `s` with only white space around it.
   */
  lemma CutBothEnds(s: string, t: string, r: string)
    requires |t| <= |s| && t == s[|s| - |t|..]
    requires forall i :: 0 <= i < |s| - |t| ==> IsJsWhitespace(s[i])
    requires |r| <= |t| && r == t[..|r|]
    requires forall i :: |r| <= i < |t| ==> IsJsWhitespace(t[i])
    ensures exists a, b :: 0 <= a <= b <= |s| && r == s[a..b] && IsBlank(s[..a]) && IsBlank(s[b..])
  {
    var a := |s| - |t|;
    var b := a + |r|;
    assert r == s[a..b];
    BlankPrefix(s, a);
    assert s[b..] == t[|r|..];
    BlankSuffix(t, |r|);
  }

  lemma BlankPrefix(s: string, n: nat)
    requires n <= |s| && forall k :: 0 <= k < n ==> IsJsWhitespace(s[k])
    ensures IsBlank(s[..n])
  {
    forall i | 0 <= i < n ensures IsJsWhitespace(s[..n][i]) {
      assert s[..n][i] == s[i];
    }
  }

  lemma BlankSuffix(s: string, n: nat)
    requires n <= |s| && forall k :: n <= k < |s| ==> IsJsWhitespace(s[k])
    ensures IsBlank(s[n..])
  {
    forall i | 0 <= i < |s| - n ensures IsJsWhitespace(s[n..][i]) {
      assert s[n..][i] == s[n + i];
    }
  }

  /** The values of the add-class form's inputs when it is submitted. */
  datatype Form = Form(date: string, name: string, start: string, end: string, duration: string)

  /** Why a submission adds nothing: a blank name or no start (silently), or no end (with an alert). */
  datatype SubmitError = MissingNameOrStart | MissingEnd

  /** No end can be computed from this start and duration. */
  predicate NoComputedEnd(start: string, duration: string)
  {
    duration == "" || HourField(start).None? || HourField(duration).None?
  }

  /**
   * The end the form resolves to: a computed end from the duration
   * overrides the typed end; without one the typed end stays.
   */
  function ResolveEnd(start: string, end: string, duration: string): (r: string)
    ensures NoComputedEnd(start, duration) ==> r == end
    ensures ClockMinutes(start).Some? && ClockMinutes(duration).Some? ==>
              IsClock(r) && ClockValue(r) == (ClockMinutes(start).value + ClockMinutes(duration).value) % MinutesPerDay
    ensures r == "" <==> end == "" && NoComputedEnd(start, duration)
  {
    match ComputeEndFromDuration(start, duration)
    case Some(computed) => computed
    case None => end
  }

  /** Every entry the form creates has a non-empty name, start and end. */
  predicate IsComplete(e: Entry)
  {
    e.name != "" && e.start != "" && e.end != ""
  }

  /** Every stored entry is complete. */
  predicate AllComplete(classes: seq<Entry>)
  {
    forall e :: e in classes ==> IsComplete(e)
  }

  /** The submit handler's checks and the entry it would append. */
  function PrepareEntry(form: Form, today: string, id: Id): (r: Result<Entry, SubmitError>)
    ensures r == Failure(MissingNameOrStart) <==> IsBlank(form.name) || form.start == ""
    ensures r == Failure(MissingEnd) <==>
              !IsBlank(form.name) && form.start != "" && form.end == "" && NoComputedEnd(form.start, form.duration)
    ensures r.Success? ==>
              && IsComplete(r.value) && r.value.id == id && r.value.notes == ""
              && r.value.name == Trim(form.name) && r.value.start == form.start
              && r.value.date == (if form.date != "" then form.date else today)
              && r.value.end == ResolveEnd(form.start, form.end, form.duration)
  {
    var name := Trim(form.name);
    if name == "" || form.start == "" then Failure(MissingNameOrStart)
    else
      var end := ResolveEnd(form.start, form.end, form.duration);
      if end == "" then Failure(MissingEnd)
      else
        var date := if form.date != "" then form.date else today;
        Success(Entry(id, name, date, form.start, end, ""))
  }

  /** Remove keeps every remaining entry complete. */
  lemma WithoutIdKeepsComplete(classes: seq<Entry>, id: Id)
    requires AllComplete(classes)
    ensures AllComplete(WithoutId(classes, id))
  {
    forall e | e in WithoutId(classes, id) ensures IsComplete(e) {
      WithoutIdMembers(classes, id, e);
    }
  }

  /** Saving notes keeps every entry complete. */
  lemma WithNotesKeepsComplete(classes: seq<Entry>, id: Id, html: string)
    requires AllComplete(classes)
    ensures AllComplete(WithNotes(classes, id, html))
  {
    var r := WithNotes(classes, id, html);
    forall e | e in r ensures IsComplete(e) {
      var i :| 0 <= i < |r| && r[i] == e;
      assert classes[i] in classes;
    }
  }

  /** Appending a complete entry keeps every entry complete. */
  lemma AppendKeepsComplete(classes: seq<Entry>, e: Entry)
    requires AllComplete(classes) && IsComplete(e)
    ensures AllComplete(classes + [e])
  {
    forall x | x in classes + [e] ensures IsComplete(x) {
      if x != e {
        assert x in classes;
      }
    }
  }

  /** A duration that carries the start past midnight resolves to an end before the start. */
  lemma OvernightEndBeforeStart(start: string, end: string, duration: string)
    requires IsClock(start) && IsClock(duration)
    requires ClockValue(start) + ClockValue(duration) >= MinutesPerDay
    ensures IsClock(ResolveEnd(start, end, duration))
    ensures ClockValue(ResolveEnd(start, end, duration)) < ClockValue(start)
  {
    var a, b := ClockValue(start), ClockValue(duration);
    var r := ResolveEnd(start, end, duration);
    assert IsClock(r) && ClockValue(r) == (a + b) % MinutesPerDay by {
      ClockMinutesOfClock(start);
      ClockMinutesOfClock(duration);
    }
    WrapBelowStart(a, b);
  }

  /** Wrapping a sum of two minute-of-day values past midnight lands before the first. */
  lemma WrapBelowStart(a: nat, b: nat)
    requires a < MinutesPerDay && b < MinutesPerDay && a + b >= MinutesPerDay
    ensures (a + b) % MinutesPerDay < a
  {
    WrapOnce(a + b);
  }

  /** A sum of two minute-of-day values past midnight wraps by exactly one day. */
  lemma WrapOnce(x: nat)
    requires MinutesPerDay <= x < 2 * MinutesPerDay
    ensures x % MinutesPerDay == x - MinutesPerDay
  {
  }

  /**
   * A named entry whose clock start and duration carry it past midnight is
   * created, but ends before it starts, so it is never active.
   */
  lemma OvernightEntryNeverActive(form: Form, today: string, id: Id, day: string, now: string)
    requires !IsBlank(form.name) && IsClock(form.start) && IsClock(form.duration)
    requires ClockValue(form.start) + ClockValue(form.duration) >= MinutesPerDay
    ensures PrepareEntry(form, today, id).Success?
    ensures !IsActiveAt(PrepareEntry(form, today, id).value, day, now)
  {
    OvernightEndBeforeStart(form.start, form.end, form.duration);
    var r := PrepareEntry(form, today, id);
    assert r.Success?;
    var e := r.value;
    assert e.start == form.start && e.end == ResolveEnd(form.start, form.end, form.duration);
    ClockOrder(e.start, e.end);
    InvertedWindowNeverActive(e, day, now);
  }

  /** Creating "Algebra" at 09:00 for 01:30 with no date stores end 10:30 on today's date. */
  lemma AlgebraEntryExample(today: string, id: Id)
    ensures PrepareEntry(Form("", "Algebra", "09:00", "", "01:30"), today, id)
            == Success(Entry(id, "Algebra", today, "09:00", "10:30", ""))
  {
    var name := "Algebra";
    assert !IsJsWhitespace(name[0]) && !IsJsWhitespace(name[|name| - 1]);
    assert TrimStart(name) == name;
    assert TrimEnd(name) == name;
    ComputeEndOfClocks("09:00", "01:30", "10:30");
  }

  /** Once a newly appended entry is selected, saving "<b>hi</b>" puts exactly that string in its notes. */
  lemma SaveNotesOnNewEntryExample(classes: seq<Entry>, e: Entry, today: string, now: string)
    requires !HasId(classes, e.id)
    ensures FocusedEntry(WithNotes(classes + [e], e.id, "<b>hi</b>"), Some(e.id), today, now)
            == Some(e.(notes := "<b>hi</b>"))
  {
    var all := classes + [e];
    assert IsFirst(all, IdIs(e.id), |classes|) by {
      forall j | 0 <= j < |classes| ensures !IdIs(e.id)(all[j]) {
        assert all[j] == classes[j];
      }
    }
    SavedNotesAreFocused(all, e.id, "<b>hi</b>", |classes|, today, now);
  }
}
