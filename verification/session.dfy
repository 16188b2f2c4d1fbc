/** Sessions of the page: a startup load followed by the user's events. The
    two copies of the list, the rendered items and the stored slot, are
    compared across them. From storage holding only task texts they keep
    the same multiset of texts; they stay equal as sequences under adds and
    reloads, but a remove click on a duplicate can reorder storage relative
    to the screen. */
module Session {
  import opened Wrappers
  import opened Text
  import opened Sequences
  import opened Storage
  import opened TaskList

  /** Page startup: an empty list and an empty field, then `loadTasks`. */
  function Start(slot: Slot): (e: Effect)
    ensures e.state.slot == slot
    ensures AllTasks(GetStoredTasks(slot)) ==> e.state.rendered == GetStoredTasks(slot) && e.alerts == 0
  {
    LoadTasks(State(slot, [], ""))
  }

  /** What the user can do: type into the field, submit it (the add button
      or Enter, both of which call `addTask()` with no arguments), click the
      remove button of the item at a position, or reload the page. */
  datatype Event = Edit(text: string) | Submit | Remove(k: nat) | Reload

  /** One event. A remove position past the end of the list names no
      button, so nothing happens. Only a submit or a remove click can write
      storage: typing and reloading leave the slot as it was. */
  function Step(st: State, ev: Event): (r: State)
    ensures (ev.Edit? || ev.Reload?) ==> r.slot == st.slot
    ensures ev.Remove? && ev.k >= |st.rendered| ==> r == st
  {
    match ev
    case Edit(text) => st.(input := text)
    case Submit => AddTask(st, None, true).state
    case Remove(k) => if k < |st.rendered| then ClickRemove(st, k) else st
    case Reload => Start(st.slot).state
  }

  function Run(st: State, evs: seq<Event>): State
    decreases |evs|
  {
    if evs == [] then st else Run(Step(st, evs[0]), evs[1..])
  }

  /** Storage holds only task texts, and the same multiset of them as the
      screen. */
  predicate Consistent(st: State) {
    AllTasks(st.Stored()) && multiset(st.rendered) == multiset(st.Stored())
  }

  /** Storage holds only task texts, and exactly the screen's list. */
  predicate InSync(st: State) {
    AllTasks(st.Stored()) && st.rendered == st.Stored()
  }

  lemma InSyncIsConsistent(st: State)
    requires InSync(st)
    ensures Consistent(st)
  {
  }

  /** A list drawn, as a multiset, from task texts holds only task texts. */
  lemma AllTasksSub(a: seq<string>, b: seq<string>)
    requires AllTasks(a) && multiset(b) <= multiset(a)
    ensures AllTasks(b)
  {
    forall i | 0 <= i < |b|
      ensures IsTask(b[i])
    {
      assert b[i] in multiset(b);
      assert b[i] in a;
      var j :| 0 <= j < |a| && a[j] == b[i];
    }
  }

  /** A submitted add appends the same task text to both copies, so it
      keeps them consistent, and keeps them equal when they were. A blank
      submission changes nothing and raises the alert. */
  lemma SubmitKeepsCopiesAligned(st: State)
    ensures AllWs(st.input) ==> Step(st, Submit) == st && AddTask(st, None, true).alerts == 1
    ensures Consistent(st) ==> Consistent(Step(st, Submit))
    ensures InSync(st) ==> InSync(Step(st, Submit))
  {
    var r := Step(st, Submit);
    if !AllWs(st.input) {
      var text := Trim(st.input);
      assert r.rendered == st.rendered + [text] && r.Stored() == st.Stored() + [text];
      if AllTasks(st.Stored()) {
        assert AllTasks(r.Stored()) by {
          forall i | 0 <= i < |r.Stored()|
            ensures IsTask(r.Stored()[i])
          {
            if i < |st.Stored()| {
              assert r.Stored()[i] == st.Stored()[i];
            }
          }
        }
      }
    }
  }

  /** A remove click keeps the two copies consistent: the clicked text is
      stored somewhere, and one copy of it leaves each side. */
  lemma ClickRemoveKeepsConsistent(st: State, k: nat)
    requires k < |st.rendered|
    requires Consistent(st)
    ensures Consistent(ClickRemove(st, k))
  {
    var r := ClickRemove(st, k);
    var text := st.rendered[k];
    assert text in multiset(st.rendered);
    assert text in st.Stored();
    ClickRemoveMultisets(st, k);
    AllTasksSub(st.Stored(), r.Stored());
  }

  /** The click alone keeps the multisets equal, whatever storage holds. */
  lemma ClickRemoveKeepsMultisets(st: State, k: nat)
    requires k < |st.rendered|
    requires multiset(st.rendered) == multiset(st.Stored())
    ensures var r := ClickRemove(st, k);
      multiset(r.rendered) == multiset(r.Stored())
  {
    assert st.rendered[k] in multiset(st.rendered);
    ClickRemoveMultisets(st, k);
  }

  /** When screen and storage agree, a remove click keeps them equal exactly
      when every item from the first one with the clicked text up to the
      clicked one has that text: storage drops the first such item, the
      screen drops the clicked one, and the two lists coincide only if that
      whole stretch is one repeated text. */
  lemma ClickRemoveInSyncIff(st: State, k: nat)
    requires k < |st.rendered|
    requires InSync(st)
    ensures var j := IndexOf(st.rendered, st.rendered[k]);
      InSync(ClickRemove(st, k)) <==> forall m :: j <= m <= k ==> st.rendered[m] == st.rendered[k]
  {
    var text := st.rendered[k];
    var j := IndexOf(st.rendered, text);
    ClickRemoveKeepsConsistent(st, k);
    SpliceIndexOfIsRemoveFirst(st.rendered, text);
    SpliceSameIff(st.rendered, j, k);
  }

  /** In particular, clicking the first item with a given text keeps the
      two copies equal. */
  lemma ClickFirstOccurrenceKeepsInSync(st: State, k: nat)
    requires k < |st.rendered| && st.rendered[k] !in st.rendered[..k]
    requires InSync(st)
    ensures InSync(ClickRemove(st, k))
  {
    ClickRemoveInSyncIff(st, k);
  }

  /** With two different task texts `a` and `b`, clicking the second `a`
      of a screen and storage both holding [a, b, a] takes the last item off
      the screen but the first one out of storage: afterwards they hold the
      same texts in different orders. */
  lemma DuplicateClickReorders(a: string, b: string)
    requires IsTask(a) && IsTask(b) && a != b
    ensures var st := State(Some([a, b, a]), [a, b, a], "");
      var r := ClickRemove(st, 2);
      && InSync(st)
      && r.rendered == [a, b]
      && r.Stored() == [b, a]
      && !InSync(r) && Consistent(r)
  {
    var st := State(Some([a, b, a]), [a, b, a], "");
    assert InSync(st);
    ClickRemoveKeepsConsistent(st, 2);
    var r := ClickRemove(st, 2);
    assert r.rendered == [a, b, a][..2] == [a, b];
    assert RemoveFirst([a, b, a], a) == [b, a];
    assert r.rendered[0] != r.Stored()[0];
  }

  /** Clicking the first `a` of [a, b, a] leaves [b, a] in storage and on
      screen. */
  lemma FirstDuplicateClick(a: string, b: string)
    requires a != b
    ensures var r := ClickRemove(State(Some([a, b, a]), [a, b, a], ""), 0);
      r.Stored() == [b, a] && r.rendered == [b, a]
  {
    assert RemoveFirst([a, b, a], a) == [b, a];
  }

  /** Every event keeps the two copies consistent. */
  lemma StepKeepsConsistent(st: State, ev: Event)
    requires Consistent(st)
    ensures Consistent(Step(st, ev))
  {
    match ev
    case Edit(_) =>
    case Submit => SubmitKeepsCopiesAligned(st);
    case Remove(k) =>
      if k < |st.rendered| {
        ClickRemoveKeepsConsistent(st, k);
      }
    case Reload =>
  }

  lemma {:induction false} RunKeepsConsistent(st: State, evs: seq<Event>)
    requires Consistent(st)
    ensures Consistent(Run(st, evs))
    decreases |evs|
  {
    if evs != [] {
      StepKeepsConsistent(st, evs[0]);
      RunKeepsConsistent(Step(st, evs[0]), evs[1..]);
    }
  }

  /** Without remove clicks, screen and storage stay equal. */
  lemma {:induction false} RunWithoutRemoveKeepsInSync(st: State, evs: seq<Event>)
    requires InSync(st)
    requires forall i :: 0 <= i < |evs| ==> !evs[i].Remove?
    ensures InSync(Run(st, evs))
    decreases |evs|
  {
    if evs != [] {
      var next := Step(st, evs[0]);
      if evs[0].Submit? {
        SubmitKeepsCopiesAligned(st);
      }
      assert forall i :: 0 <= i < |evs[1..]| ==> !evs[1..][i].Remove? by {
        forall i | 0 <= i < |evs[1..]|
          ensures !evs[1..][i].Remove?
        {
          assert evs[1..][i] == evs[i + 1];
        }
      }
      RunWithoutRemoveKeepsInSync(next, evs[1..]);
    }
  }

  /** Whatever happened in a session that started from a slot of task
      texts, reloading the page shows exactly the stored list, writes
      nothing, and shows the same multiset of texts as before the reload. */
  lemma ReloadAfterSession(slot: Slot, evs: seq<Event>)
    requires AllTasks(GetStoredTasks(slot))
    ensures var before := Run(Start(slot).state, evs);
      var after := Step(before, Reload);
      && InSync(after)
      && after.slot == before.slot
      && multiset(after.rendered) == multiset(before.rendered)
  {
    var st := Start(slot).state;
    assert InSync(st);
    InSyncIsConsistent(st);
    RunKeepsConsistent(st, evs);
    ReloadShowsStorage(Run(st, evs));
  }

  /** The reload round trip: after a session of adds, edits and reloads
      that began with screen and storage equal, a reload shows the same
      ordered list as before it and writes nothing. */
  lemma ReloadAfterAddsRestoresScreen(st: State, evs: seq<Event>)
    requires InSync(st)
    requires forall i :: 0 <= i < |evs| ==> !evs[i].Remove?
    ensures var before := Run(st, evs);
      && Step(before, Reload).rendered == before.rendered
      && Step(before, Reload).slot == before.slot
  {
    RunWithoutRemoveKeepsInSync(st, evs);
    ReloadShowsStorage(Run(st, evs));
  }

  /** Why the copies are compared only from storage holding task texts: a
      stored entry with a leading space renders trimmed, so a click on it
      finds no equal stored entry and storage keeps it, while the screen
      loses it; a reload then brings the item back. */
  lemma UntrimmedEntryOutlivesClick(a: string)
    requires IsTask(a)
    ensures Start(Some([[' '] + a])).state.rendered == [a]
    ensures var r := ClickRemove(Start(Some([[' '] + a])).state, 0);
      && r.rendered == [] && r.Stored() == [[' '] + a]
      && Step(r, Reload).rendered == [a]
  {
    var raw := [' '] + a;
    StartUntrimmed(a);
    assert a != raw by {
      assert |raw| == |a| + 1;
    }
    assert a !in [raw];
    var r := ClickRemove(Start(Some([raw])).state, 0);
    assert r.slot == Some([raw]);
  }

  /** Loading a slot holding `a` behind one space renders `a`. */
  lemma StartUntrimmed(a: string)
    requires IsTask(a)
    ensures Start(Some([[' '] + a])).state.rendered == [a]
  {
    var raw := [' '] + a;
    assert AllWs([' ']) && AllWs([]);
    assert raw == [' '] + a + [];
    TrimUnique([' '], a, []);
    assert Rendering(raw) == [a] by {
      assert raw[1] == a[0];
    }
    assert TasksOf([raw]) == Rendering(raw) + TasksOf([]);
    ReplayRenders(State(Some([raw]), [], ""), [raw]);
  }

  /** Typing a task text and submitting it appends it to both copies and
      clears the field. */
  lemma TypeAndSubmit(st: State, text: string)
    requires IsTask(text)
    ensures Step(Step(st, Edit(text)), Submit) == State(Some(st.Stored() + [text]), st.rendered + [text], "")
  {
    TrimOfTrimmed(text);
  }

  /** A reload of a page whose storage holds task texts shows exactly the
      stored list and writes nothing. */
  lemma ReloadShowsStorage(st: State)
    requires AllTasks(st.Stored())
    ensures InSync(Step(st, Reload)) && Step(st, Reload).slot == st.slot
  {
  }

  /** Loading the page with nothing stored shows an empty list and writes
      nothing. */
  lemma StartEmpty()
    ensures Start(None) == Effect(State(None, [], ""), 0)
  {
  }

  /** From the empty page, typing and submitting two task texts shows and
      stores both, in order. */
  lemma AddTwo(a: string, b: string)
    requires IsTask(a) && IsTask(b)
    ensures var s2 := Step(Step(State(None, [], ""), Edit(a)), Submit);
      Step(Step(s2, Edit(b)), Submit) == State(Some([a, b]), [a, b], "")
  {
    var s0 := State(None, [], "");
    TypeAndSubmit(s0, a);
    var s2 := Step(Step(s0, Edit(a)), Submit);
    assert s2 == State(Some([a]), [a], "");
    TypeAndSubmit(s2, b);
    assert [a] + [b] == [a, b];
  }

  /** With two different texts shown and stored, removing the first item
      and reloading leaves just the second. */
  lemma RemoveFirstThenReload(a: string, b: string)
    requires IsTask(a) && IsTask(b) && a != b
    ensures var s5 := Step(State(Some([a, b]), [a, b], ""), Remove(0));
      Step(s5, Reload) == State(Some([b]), [b], "")
  {
    var s4 := State(Some([a, b]), [a, b], "");
    assert RemoveFirst([a, b], a) == [b];
    var s5 := Step(s4, Remove(0));
    assert s5 == State(Some([b]), [b], "");
    ReloadShowsStorage(s5);
  }

  /** Starting from empty storage: add `a`, add a different `b`, remove
      the first item, reload; the page then shows and stores just `b` (for
      instance `a` = "Buy milk" and `b` = "Walk dog"). */
  lemma AddAddRemoveReload(a: string, b: string)
    requires IsTask(a) && IsTask(b) && a != b
    ensures var s0 := Start(None).state;
      var s2 := Step(Step(s0, Edit(a)), Submit);
      var s4 := Step(Step(s2, Edit(b)), Submit);
      var s6 := Step(Step(s4, Remove(0)), Reload);
      s6.rendered == [b] && s6.slot == Some([b])
  {
    StartEmpty();
    AddTwo(a, b);
    RemoveFirstThenReload(a, b);
  }
}
