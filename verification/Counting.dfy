/** How often a value occurs in a list. */
module Counting {
  function Bit(b: bool): nat { if b then 1 else 0 }

  function Times<T(==)>(list: seq<T>, x: T): nat { multiset(list)[x] }

  lemma TimesNone<T>(x: T)
    ensures Times([], x) == 0
  {
  }

  lemma TimesFirst<T>(list: seq<T>, x: T)
    requires list != []
    ensures Times(list, x) == Bit(list[0] == x) + Times(list[1..], x)
  {
    assert list == [list[0]] + list[1..];
  }

  lemma TimesSnoc<T>(list: seq<T>, y: T, x: T)
    ensures Times(list + [y], x) == Times(list, x) + Bit(y == x)
  {
  }
}
