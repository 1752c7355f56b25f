/** The visit ledger: a `map[string]int` from identity key to the number of
    times the key has been recorded in the current file's pass. */
module Ledger {

  type Visits = map<string, int>

  /** `visits[k]`: Go reads a missing key as zero. */
  function Count(visits: Visits, k: string): int {
    if k in visits then visits[k] else 0
  }

  /** `visits[k]++`. */
  function Record(visits: Visits, k: string): (r: Visits)
    ensures Count(r, k) == Count(visits, k) + 1
    ensures forall j :: j != k ==> Count(r, j) == Count(visits, j)
    ensures r.Keys == visits.Keys + {k}
  {
    visits[k := Count(visits, k) + 1]
  }

  /** Records every key of `ks`, first to last. */
  function RecordAll(visits: Visits, ks: seq<string>): (r: Visits)
    ensures forall k :: Count(r, k) == Count(visits, k) + multiset(ks)[k]
  {
    if ks == [] then visits
    else
      assert ks == ks[..|ks| - 1] + [ks[|ks| - 1]];
      Record(RecordAll(visits, ks[..|ks| - 1]), ks[|ks| - 1])
  }

  /** Recording two lists one after the other is recording their concatenation. */
  lemma {:induction false} RecordAllAppend(visits: Visits, a: seq<string>, b: seq<string>)
    ensures RecordAll(RecordAll(visits, a), b) == RecordAll(visits, a + b)
    decreases |b|
  {
    if b != [] {
      var b' := b[..|b| - 1];
      assert (a + b)[..|a + b| - 1] == a + b';
      RecordAllAppend(visits, a, b');
    } else {
      assert a + b == a;
    }
  }
}
