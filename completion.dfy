/**
  The completion log: for each habit id, the set of days marked done. The
  renderer stores `{ [dateKey]: true }` and deletes a key to unmark it, so it
  never holds an explicit `false`; a set of days says exactly that.
*/
module Completion {
  import opened Calendar

  type Completions = map<string, set<Date>>

  /** The days marked for a habit; a habit without an entry has none. */
  function Marks(c: Completions, id: string): set<Date> {
    if id in c then c[id] else {}
  }

  /** completions[id]?.[dateKey] is truthy. */
  predicate Marked(c: Completions, id: string, d: Date) {
    id in c && d in c[id]
  }

  /**
    toggleCompletion: creates the habit's entry when missing, then marks the
    day (on) or deletes its key (off). Every other day of this habit and every
    other habit's entry stay as they were.
  */
  function Toggle(c: Completions, id: string, d: Date, on: bool): (r: Completions)
    ensures r.Keys == c.Keys + {id}
    ensures Marked(r, id, d) == on
    ensures forall e :: e != d ==> (Marked(r, id, e) <==> Marked(c, id, e))
    ensures forall other :: other in c && other != id ==> r[other] == c[other]
  {
    var days := Marks(c, id);
    c[id := if on then days + {d} else days - {d}]
  }

  /**
    Marking a day and then unmarking it gives the old log back exactly when
    the habit already had an entry and the day was not yet marked.
  */
  lemma ToggleRoundTrip(c: Completions, id: string, d: Date)
    ensures Toggle(Toggle(c, id, d, true), id, d, false) == c
            <==> (id in c && d !in c[id])
  {
    var r := Toggle(Toggle(c, id, d, true), id, d, false);
    if id in c && d !in c[id] {
      assert r[id] == c[id];
      assert r == c;
    } else if id in c {
      assert d in c[id] && d !in r[id];
    } else {
      assert id in r;
    }
  }

  /** For a habit with no entry, the same round trip leaves an empty entry behind. */
  lemma ToggleRoundTripUntracked(c: Completions, id: string, d: Date)
    requires id !in c
    ensures Toggle(Toggle(c, id, d, true), id, d, false) == c[id := {}]
  {
  }

  /** Setting a day to the same value twice is setting it once. */
  lemma ToggleIdempotent(c: Completions, id: string, d: Date, on: bool)
    ensures Toggle(Toggle(c, id, d, on), id, d, on) == Toggle(c, id, d, on)
  {
    var once := Toggle(c, id, d, on);
    var twice := Toggle(once, id, d, on);
    assert twice[id] == once[id];
    assert twice == once;
  }
}
