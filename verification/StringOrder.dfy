/** `strcmp` orders strings totally, and only equal strings tie. */
module StringOrder {
  import opened CStrings
  import opened Sorting

  lemma StringOrderIsAntisymmetric()
    ensures TotalPreorder(StrLe) && Antisymmetric(StrLe)
  {
    forall a, b
      ensures StrLe(a, b) || StrLe(b, a)
      ensures StrLe(a, b) && StrLe(b, a) ==> a == b
    {
      StrcmpFlips(a, b);
      StrcmpZeroIsEquality(a, b);
    }
    forall a, b, c | StrLe(a, b) && StrLe(b, c)
      ensures StrLe(a, c)
    {
      StrLeTransitive(a, b, c);
    }
  }
}
