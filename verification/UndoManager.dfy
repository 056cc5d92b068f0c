/** The undo manager of the editor: a bounded history and a position in it. */
module UndoManagers {
  const MAX_HISTORY_ENTRIES := 40

  /** The history, the position in it, and what the editor holds at the moment. */
  datatype State = State(history: seq<string>, position: int, content: string)

  /** What holds between calls; neighbouring entries differ, so that every step is one the user can see. */
  predicate Inv(s: State) {
    && 1 <= s.position <= |s.history| <= MAX_HISTORY_ENTRIES + 1
    && forall i :: 0 < i < |s.history| ==> s.history[i - 1] != s.history[i]
  }

  function Initial(content: string): State {
    State([content], 1, content)
  }

  function Transacted(s: State): State
    requires 1 <= s.position <= |s.history|
  {
    if s.content == s.history[s.position - 1] then s
    else
      var kept := s.history[..s.position];
      if s.position > MAX_HISTORY_ENTRIES then State(kept[1..] + [s.content], s.position, s.content)
      else State(kept + [s.content], s.position + 1, s.content)
  }

  function Undone(s: State): State
    requires 1 <= s.position <= |s.history|
  {
    var t := Transacted(s);
    if t.position <= 1 then t else State(t.history, t.position - 1, t.history[t.position - 2])
  }

  function Redone(s: State): State
    requires 1 <= s.position <= |s.history|
  {
    if s.position >= |s.history| then s else State(s.history, s.position + 1, s.history[s.position])
  }

  // ----- two stacks -----

  /** What can be undone, what was last recorded, and what can be redone. */
  datatype Stacks = Stacks(undo: seq<string>, top: string, redo: seq<string>)

  function Abs(s: State): Stacks
    requires 1 <= s.position <= |s.history|
  {
    Stacks(s.history[..s.position - 1], s.history[s.position - 1], s.history[s.position..])
  }

  /** Recording an edit drops what could be redone, and the oldest entry when there are too many. */
  function Record(m: Stacks, content: string): Stacks {
    if content == m.top then m
    else
      var undo := m.undo + [m.top];
      Stacks(if |undo| > MAX_HISTORY_ENTRIES then undo[1..] else undo, content, [])
  }

  function Pop(m: Stacks): Stacks {
    if m.undo == [] then m else Stacks(m.undo[..|m.undo| - 1], m.undo[|m.undo| - 1], [m.top] + m.redo)
  }

  function Unpop(m: Stacks): Stacks {
    if m.redo == [] then m else Stacks(m.undo + [m.top], m.redo[0], m.redo[1..])
  }

  lemma PopUnpop(m: Stacks)
    ensures m.undo != [] ==> Unpop(Pop(m)) == m
    ensures m.redo != [] ==> Pop(Unpop(m)) == m
  {
    if m.undo != [] {
      assert Pop(m).undo + [Pop(m).top] == m.undo;
    }
    if m.redo != [] {
      assert [m.redo[0]] + m.redo[1..] == m.redo;
    }
  }

  /** Recording: nothing if the content is on top already, else a new top above at most the last 40 entries,
      with nothing to redo. */
  lemma RecordExactly(m: Stacks, content: string)
    ensures content == m.top ==> Record(m, content) == m
    ensures content != m.top && |m.undo| < 40 ==> Record(m, content) == Stacks(m.undo + [m.top], content, [])
    ensures content != m.top && |m.undo| >= 40 ==> Record(m, content) == Stacks(m.undo[1..] + [m.top], content, [])
  {
    if |m.undo| > 0 {
      assert (m.undo + [m.top])[1..] == m.undo[1..] + [m.top];
    }
  }

  /** The last entries of a sequence, 40 at most. */
  function LastForty(s: seq<string>): seq<string> {
    if |s| <= 40 then s else s[|s| - 40..]
  }

  lemma LastFortyGrows(s: seq<string>, x: string)
    ensures |s| < 40 ==> |LastForty(s)| < 40 && LastForty(s + [x]) == LastForty(s) + [x]
    ensures |s| >= 40 ==> |LastForty(s)| == 40 && LastForty(s + [x]) == LastForty(s)[1..] + [x]
  {
  }

  function RecordAll(m: Stacks, contents: seq<string>): Stacks {
    if contents == [] then m else Record(RecordAll(m, contents[..|contents| - 1]), contents[|contents| - 1])
  }

  /** After any number of edits, each different from the one before, exactly the last 40 can be undone. */
  lemma {:induction false} FortyUndos(first: string, contents: seq<string>)
    requires forall i :: 0 <= i < |contents| ==> contents[i] != ([first] + contents)[i]
    ensures RecordAll(Stacks([], first, []), contents)
      == Stacks(LastForty(([first] + contents)[..|contents|]), ([first] + contents)[|contents|], [])
    decreases |contents|
  {
    var all, n := [first] + contents, |contents|;
    if n > 0 {
      var front, before := contents[..n - 1], all[..n - 1];
      assert [first] + front == all[..n];
      assert all[..n][..n - 1] == before && all[..n] == before + [all[n - 1]];
      FortyUndos(first, front);
      var m := Stacks(LastForty(before), all[n - 1], []);
      assert RecordAll(Stacks([], first, []), contents) == Record(m, contents[n - 1]);
      hide RecordAll, LastForty, Record;
      RecordExactly(m, contents[n - 1]);
      LastFortyGrows(before, all[n - 1]);
    }
  }

  lemma TransactedRefines(s: State)
    requires Inv(s)
    ensures Inv(Transacted(s)) && Abs(Transacted(s)) == Record(Abs(s), s.content) && Abs(Transacted(s)).top == s.content
  {
    var t, m := Transacted(s), Record(Abs(s), s.content);
    if s.content != s.history[s.position - 1] {
      assert Abs(s).undo + [Abs(s).top] == s.history[..s.position];
      assert Abs(t).undo == m.undo;
    }
  }

  lemma UndoneRefines(s: State)
    requires Inv(s)
    ensures Inv(Undone(s)) && Abs(Undone(s)) == Pop(Record(Abs(s), s.content))
    ensures Undone(s).content == Abs(Undone(s)).top
    ensures Transacted(s).position > 1 ==> Unpop(Abs(Undone(s))) == Record(Abs(s), s.content)
  {
    TransactedRefines(s);
    var t := Transacted(s);
    PopUnpop(Abs(t));
    if t.position > 1 {
      assert Abs(Undone(s)).undo == Pop(Abs(t)).undo;
      assert Abs(Undone(s)).redo == [t.history[t.position - 1]] + t.history[t.position..];
    }
  }

  lemma RedoneRefines(s: State)
    requires Inv(s)
    ensures Inv(Redone(s)) && Abs(Redone(s)) == Unpop(Abs(s))
    ensures s.position < |s.history| ==> Redone(s).content == Abs(Redone(s)).top && Pop(Abs(Redone(s))) == Abs(s)
  {
    PopUnpop(Abs(s));
    if s.position < |s.history| {
      assert Abs(Redone(s)).undo == Abs(s).undo + [Abs(s).top];
    }
  }

  // ----- runs -----

  function UndoneTimes(s: State, k: nat): State
    requires Inv(s)
    ensures Inv(UndoneTimes(s, k))
    decreases k
  {
    if k == 0 then s
    else
      UndoneRefines(s);
      UndoneTimes(Undone(s), k - 1)
  }

  function RedoneTimes(s: State, k: nat): State
    requires Inv(s)
    ensures Inv(RedoneTimes(s, k))
  {
    if k == 0 then s
    else
      RedoneRefines(RedoneTimes(s, k - 1));
      Redone(RedoneTimes(s, k - 1))
  }

  /** As many redos as there were undos bring back the content and its place in the history, as long as
      there was something to undo each time. */
  lemma {:induction false} UndoThenRedo(s: State, k: nat)
    requires Inv(s) && 0 < k < Transacted(s).position
    ensures Inv(Transacted(s)) && RedoneTimes(UndoneTimes(s, k), k) == Transacted(s)
    ensures RedoneTimes(UndoneTimes(s, k), k).content == s.content
    decreases k
  {
    TransactedRefines(s);
    UndoneRefines(s);
    var u := Undone(s);
    RedoAfterUndo(s);
    hide Undone, Redone, Transacted, Inv;
    if k > 1 {
      UndoThenRedo(u, k - 1);
    }
  }

  lemma RedoAfterUndo(s: State)
    requires Inv(s) && Transacted(s).position > 1
    ensures Inv(Undone(s)) && Transacted(Undone(s)) == Undone(s) && Undone(s).position == Transacted(s).position - 1
    ensures Redone(Undone(s)) == Transacted(s) && Transacted(s).content == s.content
  {
    UndoneRefines(s);
    TransactedRefines(s);
  }

  /** Every undo and every redo that moves shows something else than before, if the last edit is recorded. */
  lemma MovesAreVisible(s: State)
    requires Inv(s)
    ensures Transacted(s).position > 1 ==> Undone(s).content != s.content
    ensures s.position < |s.history| && s.content == s.history[s.position - 1] ==> Redone(s).content != s.content
  {
    TransactedRefines(s);
  }

  /** A redo that moves does not look at the content: an edit that was not recorded is lost. */
  lemma RedoForgetsEdit(s: State, content: string)
    requires Inv(s) && s.position < |s.history|
    ensures Redone(s.(content := content)) == Redone(s)
  {
  }

  /** What can happen to the editor. */
  datatype Event = Edit(content: string) | Transact | Undo | Redo

  function After(s: State, e: Event): State
    requires Inv(s)
    ensures Inv(After(s, e))
  {
    match e
    case Edit(content) => s.(content := content)
    case Transact => TransactedRefines(s); Transacted(s)
    case Undo => UndoneRefines(s); Undone(s)
    case Redo => RedoneRefines(s); Redone(s)
  }

  function AfterAll(s: State, events: seq<Event>): State
    requires Inv(s)
    ensures Inv(AfterAll(s, events))
  {
    if events == [] then s else After(AfterAll(s, events[..|events| - 1]), events[|events| - 1])
  }

  /** The same on two stacks. */
  function StacksAfter(m: Stacks, content: string, events: seq<Event>): (Stacks, string) {
    if events == [] then (m, content)
    else
      var (n, c) := StacksAfter(m, content, events[..|events| - 1]);
      match events[|events| - 1]
      case Edit(x) => (n, x)
      case Transact => (Record(n, c), c)
      case Undo => var u := Pop(Record(n, c)); (u, u.top)
      case Redo => if n.redo == [] then (n, c) else (Unpop(n), Unpop(n).top)
  }

  /** Over every run the history and its position are the two stacks, and they stay within bounds. */
  lemma {:induction false} RunRefines(content: string, events: seq<Event>)
    ensures Inv(Initial(content))
    ensures var s, m := AfterAll(Initial(content), events), StacksAfter(Stacks([], content, []), content, events);
      && 1 <= s.position <= |s.history| <= 41
      && m == (Abs(s), s.content)
  {
    if events == [] {
      assert Abs(Initial(content)) == Stacks([], content, []);
    } else {
      RunRefines(content, events[..|events| - 1]);
      var s := AfterAll(Initial(content), events[..|events| - 1]);
      match events[|events| - 1]
      case Edit(x) => assert Abs(s.(content := x)) == Abs(s);
      case Transact => TransactedRefines(s);
      case Undo => UndoneRefines(s);
      case Redo => RedoneRefines(s);
    }
  }

  // ----- the object -----

  class UndoManager {
    var history: seq<string>
    var position: int
    /** What the composer holds. */
    var content: string

    ghost function Now(): State
      reads this
    {
      State(history, position, content)
    }

    constructor (content: string)
      ensures Now() == Initial(content) && Inv(Now())
    {
      this.history, this.position, this.content := [content], 1, content;
    }

    method Transact()
      requires Inv(Now())
      modifies this
      ensures Now() == Transacted(old(Now())) && Inv(Now())
      ensures content == old(content) == history[position - 1]
    {
      TransactedRefines(Now());
      var previousHtml := history[position - 1];
      if content == previousHtml {
        return;
      }
      history := history[..position];
      var length := position;
      if length > MAX_HISTORY_ENTRIES {
        history := history[1..];
        position := position - 1;
      }
      position := position + 1;
      history := history + [content];
    }

    method Undo()
      requires Inv(Now())
      modifies this
      ensures Now() == Undone(old(Now())) && Inv(Now())
    {
      UndoneRefines(Now());
      Transact();
      if position <= 1 {
        return;
      }
      position := position - 1;
      Set(history[position - 1]);
    }

    method Redo()
      requires Inv(Now())
      modifies this
      ensures Now() == Redone(old(Now())) && Inv(Now())
    {
      RedoneRefines(Now());
      if position >= |history| {
        return;
      }
      position := position + 1;
      Set(history[position - 1]);
    }

    method Set(html: string)
      modifies this`content
      ensures content == html
    {
      content := html;
    }
  }
}
