/** The history of traced calls: a ring of named entries, shared by the call hook, which adds and
    refreshes entries, and the draw loop, which lets them fade and clears their names. */
module TraceHistory {
  import opened CircularBuffer

  datatype Entry = Entry(name: string, time: real, goneTime: real, hitCount: int)

  /** No name that is not empty appears twice. */
  ghost predicate NamesOnce(s: seq<Entry>) {
    forall i, j :: 0 <= i < j < |s| && s[i].name != "" ==> s[i].name != s[j].name
  }

  ghost predicate HasName(s: seq<Entry>, name: string) {
    exists i :: 0 <= i < |s| && s[i].name == name
  }

  // ----- the steps

  /** The newest entry with the name, -1 if there is none. */
  function Newest(s: seq<Entry>, name: string): (i: int)
    ensures -1 <= i < |s|
    ensures 0 <= i ==> s[i].name == name && forall j :: i < j < |s| ==> s[j].name != name
    ensures i == -1 ==> forall j :: 0 <= j < |s| ==> s[j].name != name
    decreases |s|
  {
    if s == [] then -1
    else if s[|s| - 1].name == name then |s| - 1
    else Newest(s[..|s| - 1], name)
  }

  lemma NewestOfNone(name: string)
    ensures Newest([], name) == -1
  {
  }

  lemma NewestStep(s: seq<Entry>, k: nat, name: string)
    requires 0 < k <= |s|
    ensures Newest(s[..k], name) == if s[k - 1].name == name then k - 1 else Newest(s[..k - 1], name)
  {
    assert s[..k][..k - 1] == s[..k - 1];
  }

  function Refreshed(e: Entry): Entry {
    e.(goneTime := 10.0, time := 2.0, hitCount := e.hitCount + 1)
  }

  function FreshEntry(name: string): Entry { Entry(name, 2.0, 10.0, 0) }

  /** A call: the newest entry with its name is refreshed; if there is none, one is appended. */
  function Called(s: seq<Entry>, cap: nat, name: string): seq<Entry> {
    var i := Newest(s, name);
    if 0 <= i then s[i := Refreshed(s[i])] else Appended(s, cap, FreshEntry(name))
  }

  /** The draw loop's turn at one entry, `dt` after the last one: entries without a name are
      skipped; one whose time is up loses its name. */
  function Drawn(e: Entry, dt: real): Entry {
    if e.name == "" then e
    else
      var f := e.(time := if e.time > 0.0 then e.time - dt else e.time, goneTime := e.goneTime - dt);
      if f.goneTime <= 0.0 then f.(name := "") else f
  }

  datatype Step = Call(name: string) | Draw(i: nat, dt: real)

  function Next(s: seq<Entry>, cap: nat, step: Step): seq<Entry> {
    match step
    case Call(name) => Called(s, cap, name)
    case Draw(i, dt) => if i < |s| then s[i := Drawn(s[i], dt)] else s
  }

  function HistoryAfter(s: seq<Entry>, cap: nat, steps: seq<Step>): seq<Entry>
    decreases |steps|
  {
    if steps == [] then s else Next(HistoryAfter(s, cap, steps[..|steps| - 1]), cap, steps[|steps| - 1])
  }

  lemma CalledIs(s: seq<Entry>, cap: nat, name: string)
    ensures var i := Newest(s, name);
      Called(s, cap, name) == if 0 <= i then s[i := Refreshed(s[i])] else Appended(s, cap, FreshEntry(name))
  {
  }

  // ----- names stay unique

  /** Appending an entry keeps the names unique exactly when its name is empty or is not among
      the entries that stay. */
  lemma {:induction false} AppendKeepsIff(s: seq<Entry>, cap: nat, e: Entry)
    requires NamesOnce(s) && 0 < cap && |s| <= cap
    ensures NamesOnce(Appended(s, cap, e)) <==> e.name == "" || !HasName(LastOf(s, cap - 1), e.name)
  {
    var kept, t := LastOf(s, cap - 1), Appended(s, cap, e);
    assert t == kept + [e];
    if e.name != "" && HasName(kept, e.name) {
      var i :| 0 <= i < |kept| && kept[i].name == e.name;
      assert t[i].name == t[|kept|].name && t[i].name != "";
    }
  }

  lemma {:induction false} CallKeeps(s: seq<Entry>, cap: nat, name: string)
    requires NamesOnce(s) && 0 < cap && |s| <= cap
    ensures NamesOnce(Called(s, cap, name)) && |Called(s, cap, name)| <= cap
    ensures HasName(Called(s, cap, name), name)
  {
    var i, t := Newest(s, name), Called(s, cap, name);
    if 0 <= i {
      assert t[i].name == name;
    } else {
      AppendKeepsIff(s, cap, FreshEntry(name));
      assert t[|t| - 1].name == name;
    }
  }

  lemma DrawKeeps(s: seq<Entry>, i: nat, dt: real)
    requires NamesOnce(s) && i < |s|
    ensures NamesOnce(s[i := Drawn(s[i], dt)])
  {
  }

  /** However calls and draw steps interleave, and whatever is evicted, no name appears twice. */
  lemma {:induction false} NamesStayUnique(s: seq<Entry>, cap: nat, steps: seq<Step>)
    requires NamesOnce(s) && 0 < cap && |s| <= cap
    ensures NamesOnce(HistoryAfter(s, cap, steps)) && |HistoryAfter(s, cap, steps)| <= cap
    decreases |steps|
  {
    if steps != [] {
      NamesStayUnique(s, cap, steps[..|steps| - 1]);
      var t := HistoryAfter(s, cap, steps[..|steps| - 1]);
      match steps[|steps| - 1]
      case Call(name) => CallKeeps(t, cap, name);
      case Draw(i, dt) => if i < |t| { DrawKeeps(t, i, dt); }
    }
  }

  // ----- what becomes of an entry

  /** What a call does to the history `s`: its newest entry with the name lives two and ten seconds
      more and counts one more hit; or the name is entered, and the oldest entry goes if there is
      no room. */
  ghost predicate Entered(s: seq<Entry>, t: seq<Entry>, cap: nat, name: string)
    requires 0 < cap
  {
    var i := Newest(s, name);
    if HasName(s, name) then
      && |t| == |s| && t[i] == Entry(name, 2.0, 10.0, s[i].hitCount + 1)
      && forall j :: 0 <= j < |s| && j != i ==> t[j] == s[j]
    else
      t == (if |s| < cap then s else s[|s| - cap + 1..]) + [Entry(name, 2.0, 10.0, 0)]
  }

  lemma {:induction false} CalledEnters(s: seq<Entry>, cap: nat, name: string)
    requires 0 < cap
    ensures Entered(s, Called(s, cap, name), cap, name)
  {
  }

  /** What drawing for `dt` makes of the entry `e`. */
  ghost predicate Faded(e: Entry, dt: real, f: Entry) {
    if e.name == "" then f == e
    else
      && f.goneTime == e.goneTime - dt && f.time == (if e.time > 0.0 then e.time - dt else e.time)
      && f.name == (if e.goneTime <= dt then "" else e.name) && f.hitCount == e.hitCount
  }

  lemma DrawnFades(e: Entry, dt: real)
    ensures Faded(e, dt, Drawn(e, dt))
  {
  }

  /** The step needs the oldest entry's place. */
  ghost predicate Evicts(s: seq<Entry>, cap: nat, step: Step) {
    step.Call? && !HasName(s, step.name) && |s| == cap
  }

  /** Where the entry at `i` is after the steps: one place further down for each eviction, and gone
      below 0. */
  ghost function PlaceAfter(s: seq<Entry>, cap: nat, i: int, steps: seq<Step>): int
    decreases |steps|
  {
    if steps == [] then i
    else
      var front := steps[..|steps| - 1];
      PlaceAfter(s, cap, i, front) - if Evicts(HistoryAfter(s, cap, front), cap, steps[|steps| - 1]) then 1 else 0
  }

  /** How long the entry at `i`, for `name`, was drawn since the name was last called. */
  ghost function DrawnFor(s: seq<Entry>, cap: nat, i: int, name: string, steps: seq<Step>): real
    decreases |steps|
  {
    if steps == [] then 0.0
    else
      var front := steps[..|steps| - 1];
      match steps[|steps| - 1]
      case Call(n) => if n == name then 0.0 else DrawnFor(s, cap, i, name, front)
      case Draw(j, dt) =>
        DrawnFor(s, cap, i, name, front) + if j == PlaceAfter(s, cap, i, front) then dt else 0.0
  }

  ghost function CallsOf(name: string, steps: seq<Step>): nat
    decreases |steps|
  {
    if steps == [] then 0
    else CallsOf(name, steps[..|steps| - 1]) + if steps[|steps| - 1] == Call(name) then 1 else 0
  }

  /** At no time during the steps had ten seconds passed since the last call. */
  ghost predicate InTime(s: seq<Entry>, cap: nat, i: int, name: string, steps: seq<Step>) {
    forall k :: 0 <= k <= |steps| ==> DrawnFor(s, cap, i, name, steps[..k]) < 10.0
  }

  lemma {:induction false} InTimeStep(s: seq<Entry>, cap: nat, i: int, name: string, steps: seq<Step>)
    requires steps != []
    ensures InTime(s, cap, i, name, steps)
       <==> InTime(s, cap, i, name, steps[..|steps| - 1]) && DrawnFor(s, cap, i, name, steps) < 10.0
  {
    hide DrawnFor;
    var front := steps[..|steps| - 1];
    assert steps[..|steps|] == steps;
    forall k | 0 <= k <= |front| ensures front[..k] == steps[..k] {
    }
    if InTime(s, cap, i, name, steps) {
      forall k | 0 <= k <= |front| ensures DrawnFor(s, cap, i, name, front[..k]) < 10.0 {
        assert DrawnFor(s, cap, i, name, steps[..k]) < 10.0;
      }
    }
  }

  lemma InTimeNow(s: seq<Entry>, cap: nat, i: int, name: string, steps: seq<Step>)
    ensures InTime(s, cap, i, name, steps) ==> DrawnFor(s, cap, i, name, steps) < 10.0
  {
    assert steps[..|steps|] == steps;
  }

  /** The entry `e` is what has become of one first called before the steps: as long as it was in
      time it has its name, and the hits and the time left are told by the calls and draws since;
      if it ever was not, it has no name. */
  ghost predicate Became(e: Entry, name: string, inTime: bool, hits: nat, drawn: real) {
    if inTime then e.name == name && e.hitCount == hits && e.goneTime == 10.0 - drawn else e.name == ""
  }

  lemma {:induction false} EntryLives(s: seq<Entry>, cap: nat, i: nat, steps: seq<Step>)
    requires NamesOnce(s) && 0 < cap && |s| <= cap && i < |s|
    requires s[i].name != "" && s[i].goneTime == 10.0 && s[i].hitCount == 0
    ensures var p, t, name := PlaceAfter(s, cap, i, steps), HistoryAfter(s, cap, steps), s[i].name;
      p < |t| && (0 <= p ==>
        Became(t[p], name, InTime(s, cap, i, name, steps), CallsOf(name, steps), DrawnFor(s, cap, i, name, steps)))
    decreases |steps|
  {
    hide InTime, HistoryAfter, DrawnFor, PlaceAfter, CallsOf, Became, NamesOnce, Next, Evicts, DrawnOnce;
    var name := s[i].name;
    if steps == [] {
      NoSteps(s, cap, i, name);
    } else {
      var front, last := steps[..|steps| - 1], steps[|steps| - 1];
      EntryLives(s, cap, i, front);
      NamesStayUnique(s, cap, front);
      InTimeStep(s, cap, i, name, steps);
      InTimeNow(s, cap, i, name, front);
      Unfold(s, cap, i, name, steps);
      EntryStep(HistoryAfter(s, cap, front), cap, PlaceAfter(s, cap, i, front), name, last,
                InTime(s, cap, i, name, front), CallsOf(name, front), DrawnFor(s, cap, i, name, front));
    }
  }

  lemma NoSteps(s: seq<Entry>, cap: nat, i: nat, name: string)
    requires i < |s| && s[i].name == name && s[i].goneTime == 10.0 && s[i].hitCount == 0
    ensures HistoryAfter(s, cap, []) == s && PlaceAfter(s, cap, i, []) == i
    ensures Became(s[i], name, InTime(s, cap, i, name, []), CallsOf(name, []), DrawnFor(s, cap, i, name, []))
  {
  }

  lemma Unfold(s: seq<Entry>, cap: nat, i: nat, name: string, steps: seq<Step>)
    requires steps != []
    ensures var front, last := steps[..|steps| - 1], steps[|steps| - 1];
      && HistoryAfter(s, cap, steps) == Next(HistoryAfter(s, cap, front), cap, last)
      && PlaceAfter(s, cap, i, steps)
           == PlaceAfter(s, cap, i, front) - (if Evicts(HistoryAfter(s, cap, front), cap, last) then 1 else 0)
      && CallsOf(name, steps) == CallsOf(name, front) + (if last == Call(name) then 1 else 0)
      && DrawnFor(s, cap, i, name, steps)
           == DrawnOnce(DrawnFor(s, cap, i, name, front), PlaceAfter(s, cap, i, front), name, last)
  {
  }

  ghost function DrawnOnce(drawn: real, p: int, name: string, step: Step): real {
    match step
    case Call(n) => if n == name then 0.0 else drawn
    case Draw(j, dt) => if j == p then drawn + dt else drawn
  }

  lemma {:induction false} EntryStep(t: seq<Entry>, cap: nat, p: int, name: string, step: Step,
                                     inTime: bool, hits: nat, drawn: real)
    requires NamesOnce(t) && 0 < cap && |t| <= cap && p < |t| && name != "" && (inTime ==> drawn < 10.0)
    requires 0 <= p ==> Became(t[p], name, inTime, hits, drawn)
    ensures var t', p' := Next(t, cap, step), p - if Evicts(t, cap, step) then 1 else 0;
      && p' < |t'|
      && var drawn' := DrawnOnce(drawn, p, name, step);
         0 <= p' ==>
           Became(t'[p'], name, inTime && drawn' < 10.0, hits + if step == Call(name) then 1 else 0, drawn')
  {
    hide Became, NamesOnce, Entered, Called, HasName, Drawn;
    match step
    case Draw(j, dt) =>
      if 0 <= p && j == p {
        DrawnFades(t[p], dt);
        FadedBecame(t[p], dt, Drawn(t[p], dt), name, inTime, hits, drawn);
      } else if 0 <= p {
        StaysBecome(t[p], name, inTime, hits, drawn);
      }
    case Call(n) =>
      CallStep(t, cap, p, name, n, inTime, hits, drawn);
  }

  lemma FadedBecame(e: Entry, dt: real, f: Entry, name: string, inTime: bool, hits: nat, drawn: real)
    requires Faded(e, dt, f) && Became(e, name, inTime, hits, drawn) && name != ""
    ensures Became(f, name, inTime && drawn + dt < 10.0, hits, drawn + dt)
  {
  }

  /** An entry in time, and untouched, has not been drawn for ten seconds. */
  lemma StaysBecome(e: Entry, name: string, inTime: bool, hits: nat, drawn: real)
    requires Became(e, name, inTime, hits, drawn) && (inTime ==> drawn < 10.0)
    ensures Became(e, name, inTime && drawn < 10.0, hits, drawn)
  {
  }

  lemma {:induction false} CallStep(t: seq<Entry>, cap: nat, p: int, name: string, n: string, inTime: bool, hits: nat, drawn: real)
    requires NamesOnce(t) && 0 < cap && |t| <= cap && p < |t| && name != "" && (inTime ==> drawn < 10.0)
    requires 0 <= p ==> Became(t[p], name, inTime, hits, drawn)
    ensures var t', p' := Called(t, cap, n), p - if Evicts(t, cap, Call(n)) then 1 else 0;
      && p' < |t'|
      && var drawn' := if n == name then 0.0 else drawn;
         0 <= p' ==> Became(t'[p'], name, inTime && drawn' < 10.0, hits + if n == name then 1 else 0, drawn')
  {
    hide Called;
    CalledEnters(t, cap, n);
  }

  /** A name not yet in the history is entered by a call.  Whatever is called and drawn after that,
      the entry, until it is evicted, counts the further calls, and keeps its name exactly while it
      was never drawn for ten seconds without a call. */
  lemma {:induction false} CallLives(s: seq<Entry>, cap: nat, name: string, steps: seq<Step>)
    requires NamesOnce(s) && 0 < cap && |s| <= cap && name != "" && !HasName(s, name)
    ensures var s' := Called(s, cap, name); var i := |s'| - 1; var p, t := PlaceAfter(s', cap, i, steps), HistoryAfter(s', cap, steps);
      && p < |t|
      && (0 <= p ==>
            && (t[p].name == name <==> InTime(s', cap, i, name, steps))
            && (t[p].name == name ==>
                  && t[p].hitCount == CallsOf(name, steps)
                  && t[p].goneTime == 10.0 - DrawnFor(s', cap, i, name, steps)))
  {
    hide HistoryAfter, DrawnFor, PlaceAfter, CallsOf, InTime;
    CallKeeps(s, cap, name);
    CalledEnters(s, cap, name);
    var s' := Called(s, cap, name);
    EntryLives(s', cap, |s'| - 1, steps);
  }

  /** The draw loop's pass over `n` entries. */
  function Pass(n: nat, dt: real): (steps: seq<Step>)
    ensures |steps| == n
  {
    if n == 0 then [] else Pass(n - 1, dt) + [Draw(n - 1, dt)]
  }

  /** A pass lets each of the entries fade by its time, and does nothing else. */
  lemma {:induction false} PassDraws(s: seq<Entry>, cap: nat, n: nat, dt: real)
    requires n <= |s|
    ensures var t := HistoryAfter(s, cap, Pass(n, dt));
      |t| == |s| && forall k :: 0 <= k < |s| ==> t[k] == if k < n then Drawn(s[k], dt) else s[k]
    decreases n
  {
    if 0 < n {
      assert Pass(n, dt)[..n - 1] == Pass(n - 1, dt);
      PassDraws(s, cap, n - 1, dt);
    }
  }

  /** So a pass keeps names unique. */
  lemma {:induction false} PassKeeps(s: seq<Entry>, cap: nat, n: nat, dt: real)
    requires NamesOnce(s) && n <= |s|
    ensures NamesOnce(HistoryAfter(s, cap, Pass(n, dt)))
    decreases n
  {
    if 0 < n {
      assert Pass(n, dt)[..n - 1] == Pass(n - 1, dt);
      PassKeeps(s, cap, n - 1, dt);
      PassDraws(s, cap, n - 1, dt);
      DrawKeeps(HistoryAfter(s, cap, Pass(n - 1, dt)), n - 1, dt);
    }
  }

  lemma {:induction false} PassIs(s: seq<Entry>, t: seq<Entry>, cap: nat, dt: real)
    requires |t| == |s| && forall k :: 0 <= k < |s| ==> t[k] == Drawn(s[k], dt)
    ensures t == HistoryAfter(s, cap, Pass(|s|, dt)) && (NamesOnce(s) ==> NamesOnce(t))
  {
    PassDraws(s, cap, |s|, dt);
    assert t == HistoryAfter(s, cap, Pass(|s|, dt));
    if NamesOnce(s) { PassKeeps(s, cap, |s|, dt); }
  }

  // ----- without atomicity

  /** The hook's search and its append are each locked, but not together: two threads may search
      before either appends, and the draw loop may come in between. */
  datatype Micro = Search(thread: nat, name: string) | Append(thread: nat) | Fade(i: nat, dt: real)

  /** The entries, and what each thread has found missing and will append. */
  datatype Shared = Shared(s: seq<Entry>, pending: map<nat, string>)

  function MicroNext(h: Shared, cap: nat, m: Micro): Shared {
    match m
    case Search(th, name) =>
      var i := Newest(h.s, name);
      if 0 <= i then Shared(h.s[i := Refreshed(h.s[i])], h.pending - {th}) else Shared(h.s, h.pending[th := name])
    case Append(th) =>
      if th in h.pending then Shared(Appended(h.s, cap, FreshEntry(h.pending[th])), h.pending - {th}) else h
    case Fade(i, dt) => if i < |h.s| then Shared(h.s[i := Drawn(h.s[i], dt)], h.pending) else h
  }

  function MicroAfter(h: Shared, cap: nat, ms: seq<Micro>): Shared
    decreases |ms|
  {
    if ms == [] then h else MicroAfter(MicroNext(h, cap, ms[0]), cap, ms[1..])
  }

  /** A search directly followed by the same thread's append is a call. */
  lemma {:induction false} SearchThenAppendIsCall(h: Shared, cap: nat, th: nat, name: string)
    ensures MicroAfter(h, cap, [Search(th, name), Append(th)]).s == Called(h.s, cap, name)
  {
    var ms := [Search(th, name), Append(th)];
    var h1 := MicroNext(h, cap, ms[0]);
    assert ms[1..] == [Append(th)] && [Append(th)][1..] == [];
    assert MicroAfter(h, cap, ms) == MicroAfter(h1, cap, [Append(th)]);
    assert MicroAfter(h1, cap, [Append(th)]) == MicroNext(h1, cap, Append(th));
  }

  /** What threads are about to append is not there yet. */
  ghost predicate Missing(h: Shared, cap: nat) {
    && NamesOnce(h.s) && |h.s| <= cap
    && forall th :: th in h.pending ==> h.pending[th] != "" && !HasName(h.s, h.pending[th])
  }

  /** No two threads are about to append the same name. */
  ghost predicate Apart(pending: map<nat, string>) {
    forall th, th' :: th in pending && th' in pending && th != th' ==> pending[th] != pending[th']
  }

  /** The step is no search for a name some other thread is about to append. */
  ghost predicate Separate(h: Shared, m: Micro) {
    m.Search? ==> m.name != "" && forall th :: th in h.pending && th != m.thread ==> h.pending[th] != m.name
  }

  ghost predicate AllSeparate(h: Shared, cap: nat, ms: seq<Micro>)
    decreases |ms|
  {
    ms == [] || (Separate(h, ms[0]) && AllSeparate(MicroNext(h, cap, ms[0]), cap, ms[1..]))
  }

  lemma {:induction false} MicroKeeps(h: Shared, cap: nat, m: Micro)
    requires 0 < cap && Missing(h, cap) && Apart(h.pending) && Separate(h, m)
    ensures Missing(MicroNext(h, cap, m), cap) && Apart(MicroNext(h, cap, m).pending)
  {
    var h' := MicroNext(h, cap, m);
    match m
    case Search(th, name) =>
    case Fade(i, dt) =>
    case Append(th) =>
      if th in h.pending {
        var e := FreshEntry(h.pending[th]);
        AppendKeepsIff(h.s, cap, e);
        NoneNew(h.s, cap, e, e.name);
        forall o | o in h'.pending ensures !HasName(h'.s, h'.pending[o]) {
          NoneNew(h.s, cap, e, h.pending[o]);
        }
      }
  }

  /** Appending brings in no name but the entry's own. */
  lemma NoneNew(s: seq<Entry>, cap: nat, e: Entry, name: string)
    requires 0 < cap && !HasName(s, name)
    ensures !HasName(LastOf(s, cap - 1), name)
    ensures name != e.name ==> !HasName(Appended(s, cap, e), name)
  {
  }

  /** Over every run in which no thread searches for a name another is about to append, names stay
      unique. */
  lemma {:induction false} SeparateRunsKeep(h: Shared, cap: nat, ms: seq<Micro>)
    requires 0 < cap && Missing(h, cap) && Apart(h.pending) && AllSeparate(h, cap, ms)
    ensures NamesOnce(MicroAfter(h, cap, ms).s)
    decreases |ms|
  {
    if ms != [] {
      MicroKeeps(h, cap, ms[0]);
      SeparateRunsKeep(MicroNext(h, cap, ms[0]), cap, ms[1..]);
    }
  }

  ghost predicate NoSearches(ms: seq<Micro>) {
    forall i :: 0 <= i < |ms| ==> !ms[i].Search?
  }

  /** However the pending appends come, names stay unique exactly if no two of them are for one name. */
  lemma {:induction false} FinishIff(h: Shared, cap: nat)
    requires 2 <= cap && Missing(h, cap)
    ensures Apart(h.pending) <==> forall ms: seq<Micro> :: NoSearches(ms) ==> NamesOnce(MicroAfter(h, cap, ms).s)
  {
    if Apart(h.pending) {
      forall ms: seq<Micro> | NoSearches(ms) ensures NamesOnce(MicroAfter(h, cap, ms).s) {
        SeparateIfNoSearches(h, cap, ms);
        SeparateRunsKeep(h, cap, ms);
      }
    } else {
      var th, th' :| th in h.pending && th' in h.pending && th != th' && h.pending[th] == h.pending[th'];
      AppendTwice(h, cap, th, th');
      assert NoSearches([Append(th), Append(th')]);
    }
  }

  lemma {:induction false} SeparateIfNoSearches(h: Shared, cap: nat, ms: seq<Micro>)
    requires NoSearches(ms)
    ensures AllSeparate(h, cap, ms)
    decreases |ms|
  {
    if ms != [] {
      SeparateIfNoSearches(MicroNext(h, cap, ms[0]), cap, ms[1..]);
    }
  }

  lemma {:induction false} AppendTwice(h: Shared, cap: nat, th: nat, th': nat)
    requires 2 <= cap && th in h.pending && th' in h.pending && th != th'
    requires h.pending[th] == h.pending[th'] && h.pending[th] != ""
    ensures !NamesOnce(MicroAfter(h, cap, [Append(th), Append(th')]).s)
  {
    var ms, name := [Append(th), Append(th')], h.pending[th];
    var h1 := MicroNext(h, cap, ms[0]);
    var h2 := MicroNext(h1, cap, Append(th'));
    assert ms[1..] == [Append(th')] && [Append(th')][1..] == [];
    assert MicroAfter(h, cap, ms) == MicroAfter(h1, cap, [Append(th')]);
    assert MicroAfter(h1, cap, [Append(th')]) == h2;
    assert h2.s[|h2.s| - 1].name == name && h2.s[|h2.s| - 2].name == name;
  }

  /** Two threads entering the same new function together end up there. */
  lemma {:induction false} OverlappingCallsRepeat(s: seq<Entry>, cap: nat, name: string)
    requires name != "" && !HasName(s, name) && 2 <= cap
    ensures !NamesOnce(MicroAfter(Shared(s, map[]), cap, [Search(0, name), Search(1, name), Append(0), Append(1)]).s)
  {
    var ms := [Search(0, name), Search(1, name), Append(0), Append(1)];
    var h1, h2 := Shared(s, map[0 := name]), Shared(s, map[0 := name, 1 := name]);
    assert Newest(s, name) == -1;
    assert ms[1..] == [Search(1, name), Append(0), Append(1)] && ms[1..][1..] == [Append(0), Append(1)];
    assert MicroAfter(Shared(s, map[]), cap, ms) == MicroAfter(h1, cap, ms[1..]);
    assert MicroAfter(h1, cap, ms[1..]) == MicroAfter(h2, cap, [Append(0), Append(1)]);
    AppendTwice(h2, cap, 0, 1);
  }

  // ----- in place

  class History {
    const visited: Ring<Entry>

    constructor (capacity: nat)
      requires 0 < capacity
      ensures visited.Valid() && visited.Contents() == [] && fresh(visited) && fresh(visited.buff)
    {
      visited := new Ring<Entry>(capacity);
    }

    /** Finds the newest entry with the name, walking back from the newest one. */
    method Find(name: string) returns (i: int)
      requires visited.Valid()
      ensures i == Newest(visited.Contents(), name)
    {
      hide Newest;
      ghost var s := visited.Contents();
      var k := visited.size;
      assert s[..k] == s;
      NewestOfNone(name);
      while k > 0
        invariant 0 <= k <= visited.size && Newest(s[..k], name) == Newest(s, name)
      {
        NewestStep(s, k, name);
        var e := visited.At(k - 1);
        if e.value.name == name {
          return k - 1;
        }
        k := k - 1;
      }
      return -1;
    }

    /** A traced call. */
    method OnEnter(name: string)
      requires visited.Valid() && 0 < visited.maxSize
      modifies visited`head, visited`tail, visited`size, visited.buff
      ensures visited.Valid() && visited.Contents() == Called(old(visited.Contents()), visited.maxSize, name)
      ensures Entered(old(visited.Contents()), visited.Contents(), visited.maxSize, name)
      ensures old(NamesOnce(visited.Contents())) ==> NamesOnce(visited.Contents())
    {
      hide Entered, Called, Newest, Appended, LastOf, Refreshed, FreshEntry, Wrapped, HasName;
      CalledIs(visited.Contents(), visited.maxSize, name);
      CalledEnters(visited.Contents(), visited.maxSize, name);
      if NamesOnce(visited.Contents()) { CallKeeps(visited.Contents(), visited.maxSize, name); }
      var i := Find(name);
      if 0 <= i {
        var e := visited.At(i);
        var ok := visited.SetAt(i, Refreshed(e.value));
      } else {
        visited.PushBack(FreshEntry(name));
      }
    }

    /** One pass of the draw loop over all entries: a `Draw` step for each. */
    method DrawAll(dt: real)
      requires visited.Valid()
      modifies visited.buff
      ensures visited.Valid() && |visited.Contents()| == old(|visited.Contents()|)
      ensures visited.Contents() == HistoryAfter(old(visited.Contents()), visited.maxSize, Pass(|visited.Contents()|, dt))
      ensures old(NamesOnce(visited.Contents())) ==> NamesOnce(visited.Contents())
      ensures forall k :: 0 <= k < |visited.Contents()| ==>
        Faded(old(visited.Contents())[k], dt, visited.Contents()[k])
    {
      ghost var was := visited.Contents();
      var i := 0;
      while i < visited.size
        invariant visited.Valid() && 0 <= i <= visited.size == |was|
        invariant forall k :: 0 <= k < |was| ==>
          visited.Contents()[k] == if k < i then Drawn(was[k], dt) else was[k]
      {
        var e := visited.At(i);
        var ok := visited.SetAt(i, Drawn(e.value, dt));
        i := i + 1;
      }
      PassIs(was, visited.Contents(), visited.maxSize, dt);
      forall k | 0 <= k < |was| { DrawnFades(was[k], dt); }
    }
  }
}
