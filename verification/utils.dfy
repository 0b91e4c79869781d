/** The name helpers the synchroniser borrows: a three-way comparison of two
    name lists. Membership in a name list (`StringsContain`) is Dafny's `in`. */
module Utils {

  /** Names present in both lists, only in the existing list, only in the
      desired list. Each part keeps the order of the list it is drawn from. */
  datatype Comparison = Comparison(kept: seq<string>, toDelete: seq<string>, toAdd: seq<string>)

  /** The elements of xs that are (keep == true) or are not (keep == false)
      in ys, in the order of xs. */
  function Select(xs: seq<string>, ys: seq<string>, keep: bool): (r: seq<string>)
    ensures |r| <= |xs|
    ensures forall x :: x in r <==> x in xs && (x in ys <==> keep)
  {
    if xs == [] then []
    else
      var rest := Select(xs[1..], ys, keep);
      if (xs[0] in ys) == keep then [xs[0]] + rest else rest
  }

  /** Splits the existing and desired names into kept, to-delete and to-add:
      existing ∩ desired, existing \ desired, desired \ existing. */
  function ThreeWaySliceCompare(existing: seq<string>, desired: seq<string>): (r: Comparison)
    ensures forall x :: x in r.kept <==> x in existing && x in desired
    ensures forall x :: x in r.toDelete <==> x in existing && x !in desired
    ensures forall x :: x in r.toAdd <==> x in desired && x !in existing
  {
    Comparison(Select(existing, desired, true), Select(existing, desired, false), Select(desired, existing, false))
  }

  /** The three parts are pairwise disjoint and together cover every name of
      either list. */
  lemma ComparisonPartitions(existing: seq<string>, desired: seq<string>, x: string)
    ensures var r := ThreeWaySliceCompare(existing, desired);
      && (x in existing || x in desired <==> x in r.kept || x in r.toDelete || x in r.toAdd)
      && !(x in r.kept && x in r.toDelete)
      && !(x in r.kept && x in r.toAdd)
      && !(x in r.toDelete && x in r.toAdd)
  {
  }

  /** The comparison of existing {a, b, c} with desired {b, c, d}. */
  lemma ComparisonExample()
    ensures ThreeWaySliceCompare(["a", "b", "c"], ["b", "c", "d"]) == Comparison(["b", "c"], ["a"], ["d"])
  {
  }
}
