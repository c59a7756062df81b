/** The author listing, whose page key does not tell all authors apart. */
module AuthorListing {
  import opened Wrappers
  import opened Text
  import opened KeyOrder
  import Pagination

  datatype Author = Author(name: Option<string>, paperCount: nat)

  /** Most papers first, then by lower-cased name. How a count is turned into a sort key is left open. */
  function AuthorKey(descending: nat -> string, a: Author): Key {
    [descending(a.paperCount), Lower(if a.name.Some? then a.name.value else "")]
  }

  function NameOf(a: Author): string {
    if a.name.Some? then a.name.value else ""
  }

  /** Authors have one key exactly when their paper counts give one sort key and their names differ in case at most. */
  lemma SameKeyIff(descending: nat -> string, a: Author, b: Author)
    ensures AuthorKey(descending, a) == AuthorKey(descending, b) <==>
      descending(a.paperCount) == descending(b.paperCount) && Lower(NameOf(a)) == Lower(NameOf(b))
  {
    var k, l := AuthorKey(descending, a), AuthorKey(descending, b);
    assert k == l ==> k[0] == l[0] && k[1] == l[1];
  }

  /** More papers come first; with as many papers the smaller name in lower case does. */
  lemma AuthorOrder(descending: nat -> string, a: Author, b: Author)
    requires forall m, n :: m < n <==> Precedes(descending(n), descending(m))
    ensures KeyPrecedes(AuthorKey(descending, a), AuthorKey(descending, b)) <==>
      a.paperCount > b.paperCount || (a.paperCount == b.paperCount && Precedes(Lower(NameOf(a)), Lower(NameOf(b))))
  {
    var k, l := AuthorKey(descending, a), AuthorKey(descending, b);
    LessMeans(k, l);
    StringLessMeans(k[0], l[0]);
    StringLessMeans(k[1], l[1]);
    StringLessTotal(k[0], l[0]);
    StringLessMeans(l[0], k[0]);
    hide Precedes, KeyPrecedes, StringLess, Lower;
    PairLess(k, l);
  }

  lemma PairLess(k: Key, l: Key)
    requires |k| == 2 && |l| == 2
    ensures Less(k, l) <==> StringLess(k[0], l[0]) || (k[0] == l[0] && StringLess(k[1], l[1]))
  {
    hide StringLess;
    assert Less(k[1..], l[1..]) == StringLess(k[1], l[1]) by {
      assert k[1..][1..] == [] && l[1..][1..] == [];
    }
  }

  function Row(descending: nat -> string, a: Author, body: string): Pagination.Item {
    Pagination.Item(AuthorKey(descending, a), body)
  }

  lemma EqualKeysTie(x: Pagination.Item, y: Pagination.Item, order: Pagination.Order)
    requires x.key == y.key
    ensures !Pagination.NoTieAtPageEnds(Pagination.Sort([x, y], order), 1, order)
    ensures |Pagination.Sort([x, y], order)| == 2
  {
    Pagination.BeforeTotal(order, x.key, y.key);
    assert [x, y][..1] == [x] && [x][..0] == [];
    assert Pagination.Sort([x], order) == [x];
    assert [x][1..] == [] && Pagination.Insert([], y, order) == [y];
    assert Pagination.Insert([x], y, order) == [x] + [y];
    assert [x, y][1] == y;
  }

  /** Two authors with as many papers whose names differ only in case: with pages of one row, the listing never shows
      both, however often the client fetches. */
  lemma AuthorsCanTie(descending: nat -> string, count: nat, n: nat)
    requires n > 2
    ensures var rows := [Row(descending, Author(Some("Ada"), count), "1"), Row(descending, Author(Some("ADA"), count), "2")];
            && !Pagination.NoTieAtPageEnds(Pagination.Sort(rows, Pagination.Asc), 1, Pagination.Asc)
            && Pagination.Run(Pagination.Copies(rows, n), None, 1, Pagination.Asc).0 != Pagination.Sort(rows, Pagination.Asc)
  {
    var x := Row(descending, Author(Some("Ada"), count), "1");
    var y := Row(descending, Author(Some("ADA"), count), "2");
    assert Lower("Ada") == "ada" == Lower("ADA");
    EqualKeysTie(x, y, Pagination.Asc);
    Pagination.FixedCorpus([x, y], 1, Pagination.Asc, n);
  }
}
