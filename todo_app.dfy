/**
 The task-list state of the to-do screen: an ordered, newest-first list of
 tasks and the draft text of the input box, and the three handlers that change
 them (add, toggle, delete).

 The list transitions are pure functions on `seq<Task>`, the way the screen
 computes each new list from the old one with a spread, a `map` and a
 `filter`; `TaskStore` holds the two pieces of state and its methods replace
 them, the way the screen's state setters do.

 Ids are NOT assumed unique: toggle and delete act on every entry whose id
 matches. `UniqueIds` and the lemmas about it state what changes when they are.
 */
module TodoApp {
  import opened JsString

  /** One to-do item. */
  datatype Task = Task(id: string, text: string, done: bool)

  /** Some entry of `ts` carries `id`. */
  predicate HasId(ts: seq<Task>, id: string)
  {
    exists k :: 0 <= k < |ts| && ts[k].id == id
  }

  /** No two entries of `ts` carry the same id. */
  predicate UniqueIds(ts: seq<Task>)
  {
    forall i, j :: 0 <= i < j < |ts| ==> ts[i].id != ts[j].id
  }

  /** The number of entries of `ts` that carry `id`. */
  function Count(ts: seq<Task>, id: string): (n: nat)
    ensures n <= |ts|
    ensures n == 0 <==> !HasId(ts, id)
  {
    if ts == [] then 0
    else (if ts[0].id == id then 1 else 0) + Count(ts[1..], id)
  }

  // ---------------------------------------------------------------------------
  // Add

  /** The list after adding the draft under `freshId`: unchanged when the
      trimmed draft is empty, otherwise a new undone task holding the
      UNTRIMMED draft in front of the old list. */
  function Added(ts: seq<Task>, draft: string, freshId: string): (r: seq<Task>)
    ensures AllWhitespace(draft) ==> r == ts
    ensures !AllWhitespace(draft) ==>
      |r| == |ts| + 1 && r[0] == Task(freshId, draft, false) && r[1..] == ts
  {
    if IsBlank(draft) then ts else [Task(freshId, draft, false)] + ts
  }

  /** Adding a task whose id the list does not already hold keeps ids unique. */
  lemma AddedKeepsUnique(ts: seq<Task>, draft: string, freshId: string)
    requires UniqueIds(ts) && !HasId(ts, freshId)
    ensures UniqueIds(Added(ts, draft, freshId))
  {
  }

  // ---------------------------------------------------------------------------
  // Toggle

  /** `t` with its completion flag negated; id and text are kept. */
  function Flipped(t: Task): Task
  {
    t.(done := !t.done)
  }

  /** The list after toggling `id`: the screen's `map` that flips `done` on
      every entry whose id matches and keeps every other entry as it is. */
  function Toggled(ts: seq<Task>, id: string): (r: seq<Task>)
    ensures |r| == |ts|
  {
    if ts == [] then []
    else [if ts[0].id == id then Flipped(ts[0]) else ts[0]] + Toggled(ts[1..], id)
  }

  /** Toggling keeps, at every index, the id and the text, so
      the order of the list is unchanged; it negates `done` exactly where the
      id matches and leaves every other entry identical. */
  lemma {:induction false} ToggledAt(ts: seq<Task>, id: string)
    ensures forall k :: 0 <= k < |ts| ==>
      Toggled(ts, id)[k].id == ts[k].id && Toggled(ts, id)[k].text == ts[k].text
    ensures forall k :: 0 <= k < |ts| && ts[k].id == id ==>
      Toggled(ts, id)[k].done == !ts[k].done
    ensures forall k :: 0 <= k < |ts| && ts[k].id != id ==>
      Toggled(ts, id)[k] == ts[k]
  {
    if ts != [] {
      ToggledAt(ts[1..], id);
      var r := Toggled(ts, id);
      assert forall k :: 1 <= k < |ts| ==> r[k] == Toggled(ts[1..], id)[k - 1];
    }
  }

  /** Toggling the same id twice gives back the original list. */
  lemma {:induction false} ToggledTwice(ts: seq<Task>, id: string)
    ensures Toggled(Toggled(ts, id), id) == ts
  {
    if ts != [] {
      ToggledTwice(ts[1..], id);
      assert Toggled(ts, id)[1..] == Toggled(ts[1..], id);
    }
  }

  /** Toggling an id that no entry carries changes nothing. */
  lemma {:induction false} ToggledAbsent(ts: seq<Task>, id: string)
    requires !HasId(ts, id)
    ensures Toggled(ts, id) == ts
  {
    if ts != [] {
      assert !HasId(ts[1..], id) by {
        forall k | 0 <= k < |ts[1..]| ensures ts[1..][k].id != id {
          assert ts[1..][k] == ts[k + 1];
        }
      }
      ToggledAbsent(ts[1..], id);
    }
  }

  /** Toggling never changes ids, so it keeps them unique. */
  lemma ToggledKeepsUnique(ts: seq<Task>, id: string)
    requires UniqueIds(ts)
    ensures UniqueIds(Toggled(ts, id))
  {
    ToggledAt(ts, id);
  }

  /** With unique ids and `id` present, toggling changes the `done` flag of
      exactly one entry. */
  lemma ToggledUniqueFlipsOne(ts: seq<Task>, id: string)
    requires UniqueIds(ts) && HasId(ts, id)
    ensures exists k ::
              && 0 <= k < |ts|
              && Toggled(ts, id)[k].done != ts[k].done
              && (forall j :: 0 <= j < |ts| && j != k ==> Toggled(ts, id)[j] == ts[j])
  {
    ToggledAt(ts, id);
    var k :| 0 <= k < |ts| && ts[k].id == id;
    assert forall j :: 0 <= j < |ts| && j != k ==> ts[j].id != id;
  }

  // ---------------------------------------------------------------------------
  // Delete

  /** The list after deleting `id`: the screen's `filter` that keeps exactly
      the entries whose id differs. No entry carrying `id` is left, and the
      list shrinks by the number of entries that carried it. */
  function Deleted(ts: seq<Task>, id: string): (r: seq<Task>)
    ensures |r| == |ts| - Count(ts, id)
    ensures !HasId(r, id)
  {
    if ts == [] then []
    else if ts[0].id == id then Deleted(ts[1..], id)
    else [ts[0]] + Deleted(ts[1..], id)
  }

  /** Each index of `idx` plus one. */
  ghost function Shifted(idx: seq<nat>): (r: seq<nat>)
    ensures |r| == |idx| && forall k :: 0 <= k < |idx| ==> r[k] == idx[k] + 1
  {
    seq(|idx|, k requires 0 <= k < |idx| => idx[k] + 1)
  }

  lemma ShiftedMembers(idx: seq<nat>, j: nat)
    ensures j in Shifted(idx) <==> 1 <= j && j - 1 in idx
  {
  }

  /** `r` is `ts` read at the strictly increasing indices `idx`. */
  ghost predicate Picks(r: seq<Task>, ts: seq<Task>, idx: seq<nat>)
  {
    && |idx| == |r|
    && (forall k :: 0 <= k < |idx| ==> idx[k] < |ts| && r[k] == ts[idx[k]])
    && (forall k, l :: 0 <= k < l < |idx| ==> idx[k] < idx[l])
  }

  /** Picks from the tail of `ts` are picks from `ts` one index further on. */
  lemma PicksShifted(r: seq<Task>, ts: seq<Task>, idx: seq<nat>)
    requires ts != [] && Picks(r, ts[1..], idx)
    ensures Picks(r, ts, Shifted(idx))
    ensures forall k :: 0 <= k < |idx| ==> 1 <= Shifted(idx)[k]
  {
  }

  /** Keeping the head in front of picks that skip index 0. */
  lemma PicksHead(r: seq<Task>, ts: seq<Task>, idx: seq<nat>)
    requires ts != [] && Picks(r, ts, idx)
    requires forall k :: 0 <= k < |idx| ==> 1 <= idx[k]
    ensures Picks([ts[0]] + r, ts, [0] + idx)
  {
  }

  /** Deleting keeps the surviving entries in their original relative order:
      the result is `ts` read at the strictly increasing indices `idx`, and
      those indices are exactly the positions whose id differs from `id`. */
  lemma {:induction false} DeletedKeepsOrder(ts: seq<Task>, id: string) returns (idx: seq<nat>)
    ensures |idx| == |Deleted(ts, id)|
    ensures forall k :: 0 <= k < |idx| ==> idx[k] < |ts| && Deleted(ts, id)[k] == ts[idx[k]]
    ensures forall k, l :: 0 <= k < l < |idx| ==> idx[k] < idx[l]
    ensures forall j :: 0 <= j < |ts| ==> (ts[j].id != id <==> j in idx)
  {
    if ts == [] {
      idx := [];
    } else {
      var rest := ts[1..];
      var tail := DeletedKeepsOrder(rest, id);
      var d := Deleted(rest, id);
      assert Picks(d, rest, tail);
      PicksShifted(d, ts, tail);
      var shifted := Shifted(tail);
      if ts[0].id == id {
        idx := shifted;
        assert Deleted(ts, id) == d;
      } else {
        idx := [0] + shifted;
        assert Deleted(ts, id) == [ts[0]] + d;
        PicksHead(d, ts, shifted);
      }
      assert Picks(Deleted(ts, id), ts, idx);
      forall j | 0 <= j < |ts| ensures ts[j].id != id <==> j in idx {
        ShiftedMembers(tail, j);
        if j > 0 {
          assert ts[j] == rest[j - 1];
        }
      }
    }
  }

  /** Deleting an id that no entry carries changes nothing. */
  lemma {:induction false} DeletedAbsent(ts: seq<Task>, id: string)
    requires !HasId(ts, id)
    ensures Deleted(ts, id) == ts
  {
    if ts != [] {
      assert !HasId(ts[1..], id) by {
        forall k | 0 <= k < |ts[1..]| ensures ts[1..][k].id != id {
          assert ts[1..][k] == ts[k + 1];
        }
      }
      DeletedAbsent(ts[1..], id);
    }
  }

  /** Deleting the same id twice is the same as deleting it once. */
  lemma {:induction false} DeletedIdempotent(ts: seq<Task>, id: string)
    ensures Deleted(Deleted(ts, id), id) == Deleted(ts, id)
  {
    DeletedAbsent(Deleted(ts, id), id);
  }

  /** Deleting keeps ids unique. */
  lemma DeletedKeepsUnique(ts: seq<Task>, id: string)
    requires UniqueIds(ts)
    ensures UniqueIds(Deleted(ts, id))
  {
    var idx := DeletedKeepsOrder(ts, id);
  }

  /** With unique ids the list holds `id` at most once, so a delete of a
      present id removes exactly one entry. */
  lemma {:induction false} UniqueCountAtMostOne(ts: seq<Task>, id: string)
    requires UniqueIds(ts)
    ensures Count(ts, id) <= 1
    ensures HasId(ts, id) ==> |Deleted(ts, id)| == |ts| - 1
  {
    if ts != [] {
      assert UniqueIds(ts[1..]) by {
        forall i, j | 0 <= i < j < |ts[1..]| ensures ts[1..][i].id != ts[1..][j].id {
          assert ts[1..][i] == ts[i + 1] && ts[1..][j] == ts[j + 1];
        }
      }
      UniqueCountAtMostOne(ts[1..], id);
      if ts[0].id == id {
        assert !HasId(ts[1..], id) by {
          forall k | 0 <= k < |ts[1..]| ensures ts[1..][k].id != id {
            assert ts[1..][k] == ts[k + 1];
          }
        }
      }
    }
  }

  /** A session from empty state: add "Buy milk", add "Call mom", toggle the
      first task, delete the second; one completed "Buy milk" task remains. */
  lemma SessionFromEmpty()
    ensures
      var l1 := Added([], "Buy milk", "1");
      var l2 := Added(l1, "Call mom", "2");
      var l3 := Toggled(l2, "1");
      l2 == [Task("2", "Call mom", false), Task("1", "Buy milk", false)] &&
      l3 == [Task("2", "Call mom", false), Task("1", "Buy milk", true)] &&
      Deleted(l3, "2") == [Task("1", "Buy milk", true)]
  {
    assert !IsWhitespace("Buy milk"[0]) && !IsWhitespace("Call mom"[0]);
  }

  // ---------------------------------------------------------------------------
  // The screen's state

  /** The two pieces of state the screen keeps: the task list and the text in
      the input box. */
  class TaskStore {
    var tasks: seq<Task>
    var draft: string

    /** Both start empty. */
    constructor ()
      ensures tasks == [] && draft == ""
    {
      tasks := [];
      draft := "";
    }

    /** Typing in the input box replaces the draft and nothing else. */
    method SetDraft(text: string)
      modifies this
      ensures draft == text && tasks == old(tasks)
    {
      draft := text;
    }

    /** Submitting the draft. A blank draft changes nothing, and in particular
        the draft is NOT cleared; otherwise the new task is prepended and the
        draft becomes empty. */
    method AddTask(freshId: string)
      modifies this
      ensures tasks == Added(old(tasks), old(draft), freshId)
      ensures AllWhitespace(old(draft)) ==> tasks == old(tasks) && draft == old(draft)
      ensures !AllWhitespace(old(draft)) ==>
        tasks == [Task(freshId, old(draft), false)] + old(tasks) && draft == ""
    {
      if IsBlank(draft) {
        return;
      }
      tasks := Added(tasks, draft, freshId);
      draft := "";
    }

    /** Tapping an entry toggles every entry with its id; the draft is kept. */
    method ToggleTask(id: string)
      modifies this
      ensures tasks == Toggled(old(tasks), id) && draft == old(draft)
    {
      tasks := Toggled(tasks, id);
    }

    /** Tapping the trash icon removes every entry with its id; the draft is
        kept. */
    method DeleteTask(id: string)
      modifies this
      ensures tasks == Deleted(old(tasks), id) && draft == old(draft)
    {
      tasks := Deleted(tasks, id);
    }
  }
}
