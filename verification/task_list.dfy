/** The controller of script.js as pure transitions on the page state: the
    `'tasks'` storage slot, the texts of the rendered `<li>` items in order,
    and the contents of the text field. */
module TaskList {
  import opened Wrappers
  import opened Text
  import opened Sequences
  import opened Storage

  datatype State = State(slot: Slot, rendered: seq<string>, input: string) {

    /** The stored list, an absent slot read as empty. */
    function Stored(): seq<string> {
      GetStoredTasks(slot)
    }
  }

  /** The state after an operation, with the number of "Please enter a
      task" alerts it raised. */
  datatype Effect = Effect(state: State, alerts: nat)

  /** `addTask(param, save)`. The text is `param` when one is given and the
      field's contents otherwise, then trimmed. A blank text raises the alert
      and changes nothing. Otherwise the trimmed text is rendered last,
      stored last when `save` is set (the slot is left alone when it is
      not), and the field is cleared. */
  function AddTask(st: State, param: Option<string>, save: bool): (e: Effect)
    ensures var text := Trim(param.GetOr(st.input));
      && (e.alerts == 1 <==> text == [])
      && (text == [] ==> e.state == st)
      && (text != [] ==>
        && e.alerts == 0
        && IsTask(text)
        && e.state.rendered == st.rendered + [text]
        && e.state.input == ""
        && (save ==> e.state.Stored() == st.Stored() + [text])
        && (!save ==> e.state.slot == st.slot))
  {
    var text := Trim(param.GetOr(st.input));
    if text == [] then
      Effect(st, 1)
    else
      var slot := if save then SaveTask(st.slot, text) else st.slot;
      assert save ==> GetStoredTasks(slot) == st.Stored() + [text];
      Effect(State(slot, st.rendered + [text], ""), 0)
  }

  /** The handler of the remove button on the item at position `k`: the
      clicked item leaves the list, then the first stored entry equal to its
      text leaves storage (none, when no entry is equal). The field is
      untouched. */
  function ClickRemove(st: State, k: nat): (r: State)
    requires k < |st.rendered|
    ensures r.input == st.input
    ensures |r.rendered| == |st.rendered| - 1
    ensures r.rendered[..k] == st.rendered[..k] && r.rendered[k..] == st.rendered[k + 1..]
    ensures r.Stored() == RemoveFirst(st.Stored(), st.rendered[k])
    ensures st.rendered[k] !in st.Stored() ==> r.slot == st.slot
  {
    var text := st.rendered[k];
    State(RemoveTaskFromStorage(st.slot, text), Splice(st.rendered, k), st.input)
  }

  /** A remove click takes one copy of the clicked text out of the screen's
      multiset, and out of storage's when storage holds it. */
  lemma ClickRemoveMultisets(st: State, k: nat)
    requires k < |st.rendered|
    ensures var r := ClickRemove(st, k);
      && multiset(r.rendered) == multiset(st.rendered) - multiset{st.rendered[k]}
      && (st.rendered[k] in st.Stored() ==>
            multiset(r.Stored()) == multiset(st.Stored()) - multiset{st.rendered[k]})
  {
    SpliceMultiset(st.rendered, k);
    if st.rendered[k] in st.Stored() {
      RemoveFirstMultiset(st.Stored(), st.rendered[k]);
    }
  }

  /** What `addTask(raw, false)` renders: the trimmed text, or nothing
      when it is blank. */
  function Rendering(raw: string): (r: seq<string>)
    ensures |r| <= 1
    ensures r == [] <==> AllWs(raw)
  {
    var text := Trim(raw);
    if text == [] then [] else [text]
  }

  /** What replaying `ts` through `addTask` renders: each entry trimmed,
      blank ones skipped. */
  function TasksOf(ts: seq<string>): (r: seq<string>)
    ensures |r| <= |ts|
    ensures AllTasks(r)
  {
    if ts == [] then [] else Rendering(ts[0]) + TasksOf(ts[1..])
  }

  /** One step of the replay: `addTask(raw, false)` writes nothing, renders
      `Rendering(raw)`, alerts when that is empty and clears the field
      otherwise. */
  lemma LoadStep(st: State, raw: string)
    ensures var e := AddTask(st, Some(raw), false);
      && e.state.slot == st.slot
      && e.state.rendered == st.rendered + Rendering(raw)
      && e.alerts == 1 - |Rendering(raw)|
      && e.state.input == if Rendering(raw) == [] then st.input else ""
  {
  }

  /** Feeds each text of `ts`, in order, to `addTask(text, false)`, as the
      `forEach` of `loadTasks` does. Storage is never written; one alert is
      raised per blank entry; the field is cleared exactly when something
      was rendered; `ReplayRenders` gives the rendered list. */
  function Replay(st: State, ts: seq<string>): (e: Effect)
    ensures e.state.slot == st.slot
    ensures e.alerts == |ts| - |TasksOf(ts)|
    ensures e.state.input == if TasksOf(ts) == [] then st.input else ""
    decreases |ts|
  {
    if ts == [] then Effect(st, 0)
    else
      var first := AddTask(st, Some(ts[0]), false);
      LoadStep(st, ts[0]);
      var rest := Replay(first.state, ts[1..]);
      Effect(rest.state, first.alerts + rest.alerts)
  }

  /** Replaying `ts` renders `TasksOf(ts)` after what was already shown. */
  lemma {:induction false} ReplayRenders(st: State, ts: seq<string>)
    ensures Replay(st, ts).state.rendered == st.rendered + TasksOf(ts)
    decreases |ts|
  {
    if ts != [] {
      var first := AddTask(st, Some(ts[0]), false);
      LoadStep(st, ts[0]);
      ReplayRenders(first.state, ts[1..]);
      var head, tail := Rendering(ts[0]), TasksOf(ts[1..]);
      assert Replay(st, ts).state == Replay(first.state, ts[1..]).state;
      assert TasksOf(ts) == head + tail;
      assert (st.rendered + head) + tail == st.rendered + (head + tail);
    }
  }

  /** `loadTasks`: replays the stored list without saving. It never writes
      storage, and when every stored entry is already a task text the
      rendered list grows by exactly the stored list. */
  function LoadTasks(st: State): (e: Effect)
    ensures e.state.slot == st.slot
    ensures AllTasks(st.Stored()) ==> e.state.rendered == st.rendered + st.Stored() && e.alerts == 0
  {
    var ts := st.Stored();
    TasksOfTasks(ts);
    ReplayRenders(st, ts);
    Replay(st, ts)
  }

  /** Entries that are already task texts render as themselves. */
  lemma {:induction false} TasksOfTasks(ts: seq<string>)
    ensures AllTasks(ts) ==> TasksOf(ts) == ts
  {
    if ts != [] && AllTasks(ts) {
      TrimOfTrimmed(ts[0]);
      assert AllTasks(ts[1..]) by {
        forall i | 0 <= i < |ts[1..]|
          ensures IsTask(ts[1..][i])
        {
          assert ts[1..][i] == ts[i + 1];
        }
      }
      TasksOfTasks(ts[1..]);
      assert ts == [ts[0]] + ts[1..];
    }
  }
}
