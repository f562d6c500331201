/** The reference lookup: a scan of the records in the order in which they were given. */
module LinearSearch {
  import opened Wrappers

  ghost function LinearFind<T>(recs: seq<T>, has: T -> bool): Option<T> {
    if recs == [] then None
    else if has(recs[0]) then Some(recs[0])
    else LinearFind(recs[1..], has)
  }

  lemma {:induction false} LinearFindNone<T>(recs: seq<T>, has: T -> bool)
    ensures LinearFind(recs, has).None? <==> forall rec <- recs :: !has(rec)
  {
    if recs != [] {
      LinearFindNone(recs[1..], has);
      assert recs == [recs[0]] + recs[1..];
    }
  }

  /** The only record that has what is looked for is found. */
  lemma {:induction false} LinearFindUnique<T>(recs: seq<T>, has: T -> bool, rec: T)
    requires rec in recs && has(rec)
    requires forall p, q | 0 <= p < q < |recs| :: !has(recs[p]) || !has(recs[q])
    ensures LinearFind(recs, has) == Some(rec)
  {
    var p :| 0 <= p < |recs| && recs[p] == rec;
    if !has(recs[0]) {
      LinearFindUnique(recs[1..], has, rec);
    }
  }
}
