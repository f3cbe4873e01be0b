/** Updating several rows of a table, one after the other. */
module Tables {
  function UpdateAll<T>(rows: map<nat, T>, ids: seq<nat>, change: T -> T): (after: map<nat, T>)
    requires forall i | 0 <= i < |ids| :: ids[i] in rows
    ensures after.Keys == rows.Keys
    decreases |ids|
  {
    if ids == [] then rows else UpdateAll(rows[ids[0] := change(rows[ids[0]])], ids[1..], change)
  }

  /** Distinct rows are each changed once, and no other row is. */
  lemma {:induction false} UpdateAllEffect<T>(rows: map<nat, T>, ids: seq<nat>, change: T -> T)
    requires forall i | 0 <= i < |ids| :: ids[i] in rows
    requires forall i, j | 0 <= i < j < |ids| :: ids[i] != ids[j]
    ensures var after := UpdateAll(rows, ids, change);
            forall id | id in rows :: after[id] == if id in ids then change(rows[id]) else rows[id]
    decreases |ids|
  {
    if ids != [] {
      UpdateAllEffect(rows[ids[0] := change(rows[ids[0]])], ids[1..], change);
      assert forall id :: id in ids <==> id == ids[0] || id in ids[1..];
      assert ids[0] !in ids[1..];
    }
  }

  lemma {:induction false} CountDistinct(ids: seq<nat>, id: nat)
    requires forall i, j | 0 <= i < j < |ids| :: ids[i] != ids[j]
    ensures multiset(ids)[id] == if id in ids then 1 else 0
  {
    if ids != [] {
      CountDistinct(ids[1..], id);
      assert ids == [ids[0]] + ids[1..];
    }
  }
}
