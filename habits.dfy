/**
  The habit records and the list operations the tracker performs on them:
  finding a habit by id (Array.prototype.find), renaming the one found, and
  filtering a habit out of the list (Array.prototype.filter).
*/
module Habits {
  import opened Wrappers

  /** A habit as stored: its opaque id, its display name and its creation time stamp. */
  datatype Habit = Habit(id: string, name: string, createdAt: string)

  function HabitIds(hs: seq<Habit>): set<string> {
    set h | h in hs :: h.id
  }

  /** No two habits of the list share an id. */
  predicate UniqueIds(hs: seq<Habit>) {
    forall i, j :: 0 <= i < j < |hs| ==> hs[i].id != hs[j].id
  }

  /** habits.find(h => h.id === id): the position of the FIRST habit with that id. */
  function FindIndex(hs: seq<Habit>, id: string): (r: Option<nat>)
    ensures r.Some? ==> r.value < |hs| && hs[r.value].id == id
                         && forall j :: 0 <= j < r.value ==> hs[j].id != id
    ensures r.None? <==> id !in HabitIds(hs)
  {
    if hs == [] then None
    else if hs[0].id == id then Some(0)
    else
      match FindIndex(hs[1..], id)
      case None => assert hs == [hs[0]] + hs[1..]; None
      case Some(i) => Some(i + 1)
  }

  /**
    saveEdit's update: the name of the first habit with that id becomes
    newName; every id, every time stamp and every other name stays.
  */
  function Rename(hs: seq<Habit>, id: string, newName: string): (r: seq<Habit>)
    ensures |r| == |hs|
    ensures forall i :: 0 <= i < |hs| ==> r[i].id == hs[i].id && r[i].createdAt == hs[i].createdAt
    ensures forall i :: 0 <= i < |hs| ==>
              r[i].name == if Some(i) == FindIndex(hs, id) then newName else hs[i].name
    ensures id !in HabitIds(hs) ==> r == hs
  {
    match FindIndex(hs, id)
    case None => hs
    case Some(i) => hs[i := hs[i].(name := newName)]
  }

  /** Renaming keeps the set of ids. */
  lemma RenameKeepsIds(hs: seq<Habit>, id: string, newName: string)
    ensures HabitIds(Rename(hs, id, newName)) == HabitIds(hs)
  {
    var r := Rename(hs, id, newName);
    forall x | x in HabitIds(hs) ensures x in HabitIds(r) {
      var i :| 0 <= i < |hs| && hs[i].id == x;
      assert r[i].id == x;
    }
    forall x | x in HabitIds(r) ensures x in HabitIds(hs) {
      var i :| 0 <= i < |r| && r[i].id == x;
      assert hs[i].id == x;
    }
  }

  /** habits.filter(h => h.id !== id). */
  function WithoutId(hs: seq<Habit>, id: string): (r: seq<Habit>)
    ensures |r| <= |hs|
    ensures forall h :: h in r <==> h in hs && h.id != id
  {
    if hs == [] then []
    else (if hs[0].id == id then [] else [hs[0]]) + WithoutId(hs[1..], id)
  }

  /** Filtering distributes over concatenation, so the kept habits stay in their order. */
  lemma {:induction false} WithoutIdAppend(a: seq<Habit>, b: seq<Habit>, id: string)
    ensures WithoutId(a + b, id) == WithoutId(a, id) + WithoutId(b, id)
  {
    if a == [] {
      assert a + b == b;
    } else {
      assert (a + b)[0] == a[0];
      assert (a + b)[1..] == a[1..] + b;
      WithoutIdAppend(a[1..], b, id);
    }
  }

  /** A list without the id comes back unchanged. */
  lemma {:induction false} WithoutIdNoMatch(hs: seq<Habit>, id: string)
    requires id !in HabitIds(hs)
    ensures WithoutId(hs, id) == hs
  {
    if hs != [] {
      assert id !in HabitIds(hs[1..]) by {
        forall h | h in hs[1..] ensures h.id != id {
          assert h in hs;
        }
      }
      WithoutIdNoMatch(hs[1..], id);
    }
  }

  /** The ids left are exactly the old ids other than the removed one. */
  lemma WithoutIdIds(hs: seq<Habit>, id: string)
    ensures HabitIds(WithoutId(hs, id)) == HabitIds(hs) - {id}
  {
    var r := WithoutId(hs, id);
    forall x | x in HabitIds(hs) - {id} ensures x in HabitIds(r) {
      var h :| h in hs && h.id == x;
      assert h in r;
    }
  }

  /** Removing habits keeps the ids of the rest distinct. */
  lemma {:induction false} WithoutIdUnique(hs: seq<Habit>, id: string)
    requires UniqueIds(hs)
    ensures UniqueIds(WithoutId(hs, id))
  {
    if hs != [] {
      var t := hs[1..];
      assert UniqueIds(t) by {
        forall i, j | 0 <= i < j < |t| ensures t[i].id != t[j].id {
          assert t[i] == hs[i + 1] && t[j] == hs[j + 1];
        }
      }
      WithoutIdUnique(t, id);
      var rest := WithoutId(t, id);
      if hs[0].id != id {
        forall j | 0 <= j < |rest| ensures rest[j].id != hs[0].id {
          assert rest[j] in t;
          var k :| 0 <= k < |t| && t[k] == rest[j];
          assert hs[k + 1] == rest[j];
        }
        assert WithoutId(hs, id) == [hs[0]] + rest;
      }
    }
  }
}
