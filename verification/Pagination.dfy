/** The order of sort keys: tuples of strings, compared lexicographically at both levels. */
module KeyOrder {
  type Key = seq<string>

  predicate StringLess(a: string, b: string) {
    b != "" && (a == "" || a[0] < b[0] || (a[0] == b[0] && StringLess(a[1..], b[1..])))
  }

  predicate Less(a: Key, b: Key) {
    b != [] && (a == [] || StringLess(a[0], b[0]) || (a[0] == b[0] && Less(a[1..], b[1..])))
  }

  /** The texts agree before place i, where a has the smaller character. */
  ghost predicate SmallerAt(a: string, b: string, i: nat) {
    i < |a| && i < |b| && a[..i] == b[..i] && a[i] < b[i]
  }

  /** a is a proper beginning of b, or has the smaller character at the first place where they differ. */
  ghost predicate Precedes(a: string, b: string) {
    (a != b && a <= b) || exists i: nat :: SmallerAt(a, b, i)
  }

  ghost predicate KeySmallerAt(a: Key, b: Key, i: nat) {
    i < |a| && i < |b| && a[..i] == b[..i] && Precedes(a[i], b[i])
  }

  /** The same for keys, by the texts at the first place where they differ. */
  ghost predicate KeyPrecedes(a: Key, b: Key) {
    (a != b && a <= b) || exists i: nat :: KeySmallerAt(a, b, i)
  }

  lemma BeginningNext<T>(a: seq<T>, b: seq<T>)
    requires a != [] && b != []
    ensures a != b && a <= b <==> a[0] == b[0] && a[1..] != b[1..] && a[1..] <= b[1..]
  {
    assert a == [a[0]] + a[1..] && b == [b[0]] + b[1..];
  }

  lemma SamePrefixNext<T>(a: seq<T>, b: seq<T>, i: nat)
    requires i + 1 <= |a| && i + 1 <= |b|
    ensures a[..i + 1] == b[..i + 1] <==> a[0] == b[0] && a[1..][..i] == b[1..][..i]
  {
    assert a[..i + 1] == [a[0]] + a[1..][..i] && b[..i + 1] == [b[0]] + b[1..][..i];
  }

  lemma SmallerAtNext(a: string, b: string, i: nat)
    requires a != "" && b != ""
    ensures SmallerAt(a, b, 0) <==> a[0] < b[0]
    ensures SmallerAt(a, b, i + 1) <==> a[0] == b[0] && SmallerAt(a[1..], b[1..], i)
  {
    if i + 1 < |a| && i + 1 < |b| {
      SamePrefixNext(a, b, i);
    }
  }

  lemma KeySmallerAtNext(a: Key, b: Key, i: nat)
    requires a != [] && b != []
    ensures KeySmallerAt(a, b, 0) <==> Precedes(a[0], b[0])
    ensures KeySmallerAt(a, b, i + 1) <==> a[0] == b[0] && KeySmallerAt(a[1..], b[1..], i)
  {
    hide Precedes;
    if i + 1 < |a| && i + 1 < |b| {
      SamePrefixNext(a, b, i);
    }
  }

  lemma {:induction false} StringLessMeans(a: string, b: string)
    ensures StringLess(a, b) <==> Precedes(a, b)
  {
    if a != "" && b != "" {
      StringLessMeans(a[1..], b[1..]);
      PrecedesNext(a, b);
      hide Precedes;
    }
  }

  lemma PrecedesNext(a: string, b: string)
    requires a != "" && b != ""
    ensures Precedes(a, b) <==> a[0] < b[0] || (a[0] == b[0] && Precedes(a[1..], b[1..]))
  {
    BeginningNext(a, b);
    SmallerAtNext(a, b, 0);
    hide SmallerAt;
    if i: nat :| SmallerAt(a, b, i) {
      if i > 0 {
        SmallerAtNext(a, b, i - 1);
      }
    }
    if i: nat :| SmallerAt(a[1..], b[1..], i) {
      SmallerAtNext(a, b, i);
    }
  }

  lemma {:induction false} LessMeans(a: Key, b: Key)
    ensures Less(a, b) <==> KeyPrecedes(a, b)
  {
    hide Precedes, StringLess;
    if a != [] && b != [] {
      LessMeans(a[1..], b[1..]);
      StringLessMeans(a[0], b[0]);
      KeyPrecedesNext(a, b);
      hide KeyPrecedes;
    }
  }

  lemma KeyPrecedesNext(a: Key, b: Key)
    requires a != [] && b != []
    ensures KeyPrecedes(a, b) <==> Precedes(a[0], b[0]) || (a[0] == b[0] && KeyPrecedes(a[1..], b[1..]))
  {
    BeginningNext(a, b);
    KeySmallerAtNext(a, b, 0);
    hide KeySmallerAt, Precedes;
    if i: nat :| KeySmallerAt(a, b, i) {
      if i > 0 {
        KeySmallerAtNext(a, b, i - 1);
      }
    }
    if i: nat :| KeySmallerAt(a[1..], b[1..], i) {
      KeySmallerAtNext(a, b, i);
    }
  }

  lemma {:induction false} StringLessTotal(a: string, b: string)
    ensures !(StringLess(a, b) && StringLess(b, a))
    ensures StringLess(a, b) || StringLess(b, a) || a == b
    ensures StringLess(a, b) ==> a != b
  {
    if a != "" && b != "" {
      StringLessTotal(a[1..], b[1..]);
      if a[0] == b[0] && a[1..] == b[1..] {
        assert a == [a[0]] + a[1..] == b;
      }
    }
  }

  lemma {:induction false} StringLessTransitive(a: string, b: string, c: string)
    requires StringLess(a, b) && StringLess(b, c)
    ensures StringLess(a, c)
  {
    if a != "" && a[0] == b[0] && b[0] == c[0] {
      StringLessTransitive(a[1..], b[1..], c[1..]);
    }
  }

  lemma {:induction false} LessTotal(a: Key, b: Key)
    ensures !(Less(a, b) && Less(b, a))
    ensures Less(a, b) || Less(b, a) || a == b
    ensures Less(a, b) ==> a != b
  {
    if a != [] && b != [] {
      StringLessTotal(a[0], b[0]);
      LessTotal(a[1..], b[1..]);
      if a[0] == b[0] && a[1..] == b[1..] {
        assert a == [a[0]] + a[1..] == b;
      }
    }
  }

  lemma {:induction false} LessTransitive(a: Key, b: Key, c: Key)
    requires Less(a, b) && Less(b, c)
    ensures Less(a, c)
  {
    if a != [] {
      StringLessTotal(a[0], b[0]);
      StringLessTotal(b[0], c[0]);
      if a[0] == b[0] && b[0] == c[0] {
        LessTransitive(a[1..], b[1..], c[1..]);
      } else if StringLess(a[0], b[0]) && StringLess(b[0], c[0]) {
        StringLessTransitive(a[0], b[0], c[0]);
      }
    }
  }
}

/** Keyset pagination on the server and the client loop that follows its cursors. */
module Pagination {
  import opened Wrappers
  import opened KeyOrder
  import Base64Url

  datatype Item = Item(key: Key, body: string)

  datatype Order = Asc | Desc

  datatype Error = InvalidLimit | InvalidCursor

  /** A decoded cursor: either not an object, or an object with or without the field "k". */
  datatype Payload = NotAnObject | Object(k: Option<Key>)

  /** The JSON layer, which this model does not look into. */
  datatype Json = Json(dump: Key -> seq<Base64Url.Byte>, load: seq<Base64Url.Byte> -> Option<Payload>)

  ghost predicate RoundTrips(json: Json) {
    forall k :: json.load(json.dump(k)) == Some(Object(Some(k))) && json.dump(k) != []
  }

  const DEFAULT_LIMIT: nat := 50
  const MAX_LIMIT: nat := 200

  /** Does a come strictly before b in the listing? */
  predicate Before(order: Order, a: Key, b: Key) {
    if order.Asc? then Less(a, b) else Less(b, a)
  }

  lemma BeforeTotal(order: Order, a: Key, b: Key)
    ensures !(Before(order, a, b) && Before(order, b, a))
    ensures Before(order, a, b) || Before(order, b, a) || a == b
    ensures Before(order, a, b) ==> a != b
  {
    LessTotal(a, b);
  }

  lemma BeforeTransitive(order: Order, a: Key, b: Key, c: Key)
    requires Before(order, a, b) && Before(order, b, c)
    ensures Before(order, a, c)
  {
    if order.Asc? {
      LessTransitive(a, b, c);
    } else {
      LessTransitive(c, b, a);
    }
  }

  /** Smaller keys come first in ascending listings and last in descending ones. */
  ghost predicate ComesBefore(order: Order, a: Key, b: Key) {
    if order.Asc? then KeyPrecedes(a, b) else KeyPrecedes(b, a)
  }

  lemma BeforeMeans(order: Order, a: Key, b: Key)
    ensures Before(order, a, b) <==> ComesBefore(order, a, b)
  {
    hide Less, KeyPrecedes;
    LessMeans(a, b);
    LessMeans(b, a);
  }

  ghost predicate InOrder(s: seq<Item>, order: Order) {
    forall i, j :: 0 <= i < j < |s| ==> !ComesBefore(order, s[j].key, s[i].key)
  }

  lemma SortedMeans(s: seq<Item>, order: Order)
    ensures Sorted(s, order) <==> InOrder(s, order)
  {
    hide Before, ComesBefore;
    forall i, j | 0 <= i < j < |s|
      ensures Before(order, s[j].key, s[i].key) <==> ComesBefore(order, s[j].key, s[i].key)
    {
      BeforeMeans(order, s[j].key, s[i].key);
    }
  }

  /** No item comes after one that is strictly behind it. */
  ghost predicate Sorted(s: seq<Item>, order: Order) {
    forall i, j :: 0 <= i < j < |s| ==> !Before(order, s[j].key, s[i].key)
  }

  /** x placed behind everything that does not have to follow it, so equal keys keep their order. */
  function Insert(s: seq<Item>, x: Item, order: Order): seq<Item> {
    if s == [] then [x]
    else if Before(order, x.key, s[0].key) then [x] + s
    else [s[0]] + Insert(s[1..], x, order)
  }

  /** The stable sort of the host language, as an insertion sort. */
  function Sort(items: seq<Item>, order: Order): seq<Item> {
    if items == [] then [] else Insert(Sort(items[..|items| - 1], order), items[|items| - 1], order)
  }

  lemma {:induction false} InsertMembers(s: seq<Item>, x: Item, order: Order)
    ensures multiset(Insert(s, x, order)) == multiset(s) + multiset{x}
  {
    if s != [] {
      assert s == [s[0]] + s[1..];
      InsertMembers(s[1..], x, order);
    }
  }

  lemma {:induction false} InsertSorted(s: seq<Item>, x: Item, order: Order)
    requires Sorted(s, order)
    ensures Sorted(Insert(s, x, order), order)
  {
    if s == [] {
    } else if Before(order, x.key, s[0].key) {
      forall j | 0 <= j < |s| ensures !Before(order, s[j].key, x.key) {
        if Before(order, s[j].key, x.key) {
          BeforeTransitive(order, s[j].key, x.key, s[0].key);
          BeforeTotal(order, s[0].key, s[0].key);
        }
      }
    } else {
      InsertSorted(s[1..], x, order);
      var t := Insert(s[1..], x, order);
      InsertMembers(s[1..], x, order);
      forall j | 0 <= j < |t| ensures !Before(order, t[j].key, s[0].key) {
        assert t[j] in multiset(t);
        if t[j] != x {
          assert t[j] in s[1..];
        }
      }
    }
  }

  /** The sort is an ordered permutation of its input. */
  lemma SortCorrect(items: seq<Item>, order: Order)
    ensures Sorted(Sort(items, order), order) && InOrder(Sort(items, order), order)
    ensures multiset(Sort(items, order)) == multiset(items)
  {
    hide Sort;
    SortIsSorted(items, order);
    SortedMeans(Sort(items, order), order);
  }

  /** The items with one key, in the order in which they stand. */
  function WithKey(s: seq<Item>, k: Key): seq<Item> {
    if s == [] then [] else (if s[0].key == k then [s[0]] else []) + WithKey(s[1..], k)
  }

  lemma {:induction false} WithKeySnoc(s: seq<Item>, x: Item, k: Key)
    ensures WithKey(s + [x], k) == WithKey(s, k) + if x.key == k then [x] else []
  {
    if s == [] {
      assert (s + [x])[1..] == [];
    } else {
      WithKeySnoc(s[1..], x, k);
      assert s + [x] == [s[0]] + (s[1..] + [x]);
      WithKeyCons(s[0], s[1..] + [x], k);
    }
  }

  lemma BehindStays(order: Order, a: Key, b: Key, c: Key)
    requires Before(order, a, b) && !Before(order, c, b)
    ensures Before(order, a, c)
  {
    BeforeTotal(order, b, c);
    if Before(order, b, c) {
      BeforeTransitive(order, a, b, c);
    }
  }

  lemma {:induction false} InsertIsStable(s: seq<Item>, x: Item, order: Order, k: Key)
    requires Sorted(s, order)
    ensures WithKey(Insert(s, x, order), k) == WithKey(s, k) + if x.key == k then [x] else []
  {
    hide Before;
    if s == [] {
    } else if Before(order, x.key, s[0].key) {
      if x.key == k {
        NoneAfter(s, order, k);
      }
      hide Sorted;
      WithKeyCons(x, s, k);
    } else {
      InsertIsStable(s[1..], x, order, k);
      hide Sorted;
      WithKeyCons(s[0], Insert(s[1..], x, order), k);
    }
  }

  lemma WithKeyCons(x: Item, s: seq<Item>, k: Key)
    ensures WithKey([x] + s, k) == (if x.key == k then [x] else []) + WithKey(s, k)
  {
    assert ([x] + s)[1..] == s;
  }

  lemma {:induction false} NoneAfter(s: seq<Item>, order: Order, k: Key)
    requires Sorted(s, order) && s != [] && Before(order, k, s[0].key)
    ensures WithKey(s, k) == []
  {
    BeforeTotal(order, k, s[0].key);
    hide Before;
    if |s| > 1 {
      BehindStays(order, k, s[0].key, s[1].key);
      NoneAfter(s[1..], order, k);
    }
  }

  /** Items with equal keys keep their order. */
  lemma {:induction false} SortIsStable(items: seq<Item>, order: Order, k: Key)
    ensures WithKey(Sort(items, order), k) == WithKey(items, k)
  {
    if items != [] {
      var front, x := items[..|items| - 1], items[|items| - 1];
      assert items == front + [x];
      SortIsStable(front, order, k);
      SortIsSorted(front, order);
      WithKeySnoc(front, x, k);
      InsertIsStable(Sort(front, order), x, order, k);
    }
  }

  lemma {:induction false} SortIsSorted(items: seq<Item>, order: Order)
    ensures Sorted(Sort(items, order), order)
    ensures multiset(Sort(items, order)) == multiset(items)
  {
    if items != [] {
      var front := items[..|items| - 1];
      assert items == front + [items[|items| - 1]];
      SortIsSorted(front, order);
      InsertSorted(Sort(front, order), items[|items| - 1], order);
      InsertMembers(Sort(front, order), items[|items| - 1], order);
    }
  }

  function ClampLimit(limit: Option<int>): (r: Result<nat, Error>)
    ensures limit.None? ==> r == Ok(50)
    ensures r.Err? <==> limit.Some? && limit.value < 1
    ensures limit.Some? && r.Ok? ==> 1 <= r.value <= 200 && r.value <= limit.value
    ensures limit.Some? && r.Ok? && r.value != limit.value ==> r.value == 200
  {
    match limit
    case None => Ok(DEFAULT_LIMIT)
    case Some(n) => if n < 1 then Err(InvalidLimit) else if n > MAX_LIMIT then Ok(MAX_LIMIT) else Ok(n)
  }

  function EncodeCursor(json: Json, k: Key): string {
    Base64Url.Encode(json.dump(k))
  }

  function DecodeCursor(json: Json, token: string): Result<Key, Error> {
    match Base64Url.Decode(token)
    case None => Err(InvalidCursor)
    case Some(bytes) =>
      match json.load(bytes)
      case None => Err(InvalidCursor)
      case Some(NotAnObject) => Err(InvalidCursor)
      case Some(Object(None)) => Err(InvalidCursor)
      case Some(Object(Some(k))) => Ok(k)
  }

  lemma CursorRoundTrip(json: Json, k: Key)
    requires RoundTrips(json)
    ensures DecodeCursor(json, EncodeCursor(json, k)) == Ok(k) && EncodeCursor(json, k) != ""
  {
    Base64Url.DecodeEncode(json.dump(k));
  }

  /** The anchor a request starts from: None for the first page; an empty cursor counts as none. */
  function Anchor(json: Json, cursor: Option<string>): Result<Option<Key>, Error> {
    if cursor.None? || cursor.value == "" then Ok(None)
    else match DecodeCursor(json, cursor.value)
      case Err(e) => Err(e)
      case Ok(k) => Ok(Some(k))
  }

  /** The listing from the first item strictly behind the anchor on. */
  function Rest(s: seq<Item>, anchor: Option<Key>, order: Order): seq<Item> {
    if anchor.None? || s == [] || Before(order, anchor.value, s[0].key) then s
    else Rest(s[1..], anchor, order)
  }

  function Take(s: seq<Item>, n: nat): seq<Item> {
    if |s| <= n then s else s[..n]
  }

  function NextAnchor(rest: seq<Item>, size: nat): Option<Key>
    requires size >= 1
  {
    if |rest| > size then Some(rest[size - 1].key) else None
  }

  ghost predicate CursorHolds(json: Json, token: string, k: Key) {
    exists bytes :: Base64Url.Decode(token) == Some(bytes) && json.load(bytes) == Some(Object(Some(k)))
  }

  lemma DecodeCursorMeans(json: Json, token: string)
    ensures DecodeCursor(json, token) == Err(InvalidCursor) <==> forall k :: !CursorHolds(json, token, k)
    ensures forall k :: DecodeCursor(json, token) == Ok(k) <==> CursorHolds(json, token, k)
  {
    if DecodeCursor(json, token).Ok? {
      assert CursorHolds(json, token, DecodeCursor(json, token).value) by {
        assert json.load(Base64Url.Decode(token).value).Some?;
      }
    }
  }

  /** The key comes strictly behind the one in the cursor, if there is a cursor. */
  ghost predicate IsBehind(json: Json, cursor: Option<string>, order: Order, key: Key) {
    cursor.None? || cursor.value == "" || exists k :: CursorHolds(json, cursor.value, k) && ComesBefore(order, k, key)
  }

  /** Exactly the items from index start on come behind the cursor. */
  ghost predicate BehindFrom(json: Json, cursor: Option<string>, order: Order, s: seq<Item>, start: nat) {
    start <= |s| && forall i :: 0 <= i < |s| ==> (start <= i <==> IsBehind(json, cursor, order, s[i].key))
  }

  /** The first items of the sorted list behind the cursor, and a cursor holding the key of the last one if there are
      more. */
  ghost predicate IsPage(json: Json, s: seq<Item>, cursor: Option<string>, size: nat, order: Order, page: seq<Item>,
                         next: Option<string>) {
    exists start: nat :: IsPageAt(json, s, cursor, size, order, start, page, next)
  }

  ghost predicate IsPageAt(json: Json, s: seq<Item>, cursor: Option<string>, size: nat, order: Order, start: nat,
                           page: seq<Item>, next: Option<string>) {
    && BehindFrom(json, cursor, order, s, start)
    && page == PageAt(s, start, size)
    && (if start + size < |s| && page != [] then next == Some(EncodeCursor(json, page[|page| - 1].key)) else next == None)
  }

  lemma BehindFromRest(json: Json, s: seq<Item>, cursor: Option<string>, order: Order)
    requires Sorted(s, order) && Anchor(json, cursor).Ok?
    ensures var rest := Rest(s, Anchor(json, cursor).value, order);
            |rest| <= |s| && rest == s[|s| - |rest|..] && BehindFrom(json, cursor, order, s, |s| - |rest|)
  {
    var anchor := Anchor(json, cursor).value;
    RestSplits(s, anchor, order);
    hide Before, ComesBefore, DecodeCursor, CursorHolds, Rest, Sorted;
    forall i | 0 <= i < |s|
      ensures IsBehind(json, cursor, order, s[i].key) <==> anchor.None? || Before(order, anchor.value, s[i].key)
    {
      BehindMeans(json, cursor, order, s[i].key);
    }
    hide Anchor, IsBehind;
  }

  lemma BehindMeans(json: Json, cursor: Option<string>, order: Order, key: Key)
    requires Anchor(json, cursor).Ok?
    ensures IsBehind(json, cursor, order, key) <==>
      Anchor(json, cursor).value.None? || Before(order, Anchor(json, cursor).value.value, key)
  {
    var anchor := Anchor(json, cursor).value;
    if anchor.Some? {
      DecodeCursorMeans(json, cursor.value);
      BeforeMeans(order, anchor.value, key);
    }
    hide Before, ComesBefore, DecodeCursor, CursorHolds;
  }

  lemma PageIsPage(json: Json, s: seq<Item>, cursor: Option<string>, size: nat, order: Order, page: seq<Item>)
    requires Sorted(s, order) && Anchor(json, cursor).Ok? && size >= 1
    requires page == Take(Rest(s, Anchor(json, cursor).value, order), size)
    ensures var next := match NextAnchor(Rest(s, Anchor(json, cursor).value, order), size)
                        case None => None
                        case Some(k) => Some(EncodeCursor(json, k));
            IsPage(json, s, cursor, size, order, page, next)
    ensures InOrder(page, order)
  {
    hide *;
    BehindFromRest(json, s, cursor, order);
    SortedMeans(s, order);
    PageBehind(json, s, cursor, size, order, |s| - |Rest(s, Anchor(json, cursor).value, order)|);
  }

  lemma PageBehind(json: Json, s: seq<Item>, cursor: Option<string>, size: nat, order: Order, start: nat)
    requires size >= 1 && start <= |s| && BehindFrom(json, cursor, order, s, start) && InOrder(s, order)
    ensures var next := match NextAnchor(s[start..], size) case None => None case Some(k) => Some(EncodeCursor(json, k));
            IsPage(json, s, cursor, size, order, Take(s[start..], size), next) && InOrder(Take(s[start..], size), order)
  {
    SliceInOrder(s, start, size, order);
    PageOfSuffix(s, start, size);
    hide BehindFrom, EncodeCursor, InOrder, Take, PageAt;
    var next := match NextAnchor(s[start..], size) case None => None case Some(k) => Some(EncodeCursor(json, k));
    assert IsPageAt(json, s, cursor, size, order, start, PageAt(s, start, size), next);
  }

  lemma PageOfSuffix(s: seq<Item>, start: nat, size: nat)
    requires start <= |s| && size >= 1
    ensures var rest, page := s[start..], PageAt(s, start, size);
            Take(rest, size) == page && (|rest| > size ==> page != [] && page[|page| - 1] == rest[size - 1])
  {
  }

  function PageAt(s: seq<Item>, start: nat, size: nat): seq<Item>
    requires start <= |s|
  {
    if start + size < |s| then s[start..start + size] else s[start..]
  }

  lemma SliceInOrder(s: seq<Item>, start: nat, size: nat, order: Order)
    requires InOrder(s, order) && start <= |s|
    ensures InOrder(PageAt(s, start, size), order)
  {
    hide ComesBefore;
  }

  lemma {:induction false} RestSplits(s: seq<Item>, anchor: Option<Key>, order: Order)
    requires Sorted(s, order)
    ensures var rest := Rest(s, anchor, order);
            && |rest| <= |s| && rest == s[|s| - |rest|..]
            && (anchor.None? ==> rest == s)
            && (anchor.Some? ==> forall i :: 0 <= i < |s| ==> (|s| - |rest| <= i <==> Before(order, anchor.value, s[i].key)))
  {
    hide Before;
    if anchor.Some? && s != [] {
      if Before(order, anchor.value, s[0].key) {
        forall i | 0 <= i < |s| ensures Before(order, anchor.value, s[i].key) {
          if i > 0 {
            BehindStays(order, anchor.value, s[0].key, s[i].key);
          }
        }
      } else {
        RestSplits(s[1..], anchor, order);
        forall i | 0 < i < |s| ensures s[i] == s[1..][i - 1] {}
      }
    }
  }

  method Paginate(json: Json, items: seq<Item>, cursor: Option<string>, limit: Option<int>, order: Order)
    returns (r: Result<(seq<Item>, Option<string>), Error>)
    ensures ClampLimit(limit).Err? ==> r == Err(InvalidLimit)
    ensures ClampLimit(limit).Ok? && Anchor(json, cursor).Err? ==> r == Err(InvalidCursor)
    ensures ClampLimit(limit).Ok? && Anchor(json, cursor).Ok? ==>
              var size, rest := ClampLimit(limit).value, Rest(Sort(items, order), Anchor(json, cursor).value, order);
              && r.Ok?
              && r.value.0 == Take(rest, size)
              && r.value.1 == match NextAnchor(rest, size) case None => None case Some(k) => Some(EncodeCursor(json, k))
    ensures r.Err? <==>
      || (limit.Some? && limit.value < 1)
      || (cursor.Some? && cursor.value != "" && forall k :: !CursorHolds(json, cursor.value, k))
    ensures r.Ok? ==> IsPage(json, Sort(items, order), cursor, ClampLimit(limit).value, order, r.value.0, r.value.1)
    ensures r.Ok? ==> InOrder(r.value.0, order)
  {
    hide Sort, Before, EncodeCursor, DecodeCursor, ClampLimit, Rest;
    var pageSize := 0;
    match ClampLimit(limit) {
      case Err(e) => return Err(InvalidLimit);
      case Ok(n) => pageSize := n;
    }
    var sortedItems := Sort(items, order);
    SortIsSorted(items, order);
    var start := 0;
    if cursor.Some? && cursor.value != "" {
      match DecodeCursor(json, cursor.value) {
        case Err(e) =>
          DecodeCursorMeans(json, cursor.value);
          return Err(InvalidCursor);
        case Ok(anchor) => start := FirstBehind(sortedItems, anchor, order);
      }
    }
    AnchoredRest(json, sortedItems, cursor, order, start);
    ghost var rest := sortedItems[start..];
    var end := start + pageSize;
    var page := if end <= |sortedItems| then sortedItems[start..end] else sortedItems[start..];
    assert page == Take(rest, pageSize);
    var nextCursor := None;
    if end < |sortedItems| && page != [] {
      assert page[|page| - 1] == rest[pageSize - 1];
      nextCursor := Some(EncodeCursor(json, page[|page| - 1].key));
    }
    PageIsPage(json, sortedItems, cursor, pageSize, order, page);
    if cursor.Some? {
      DecodeCursorMeans(json, cursor.value);
    }
    hide CursorHolds, IsPage, InOrder;
    r := Ok((page, nextCursor));
  }

  /** The index of the first item strictly behind the anchor, or the length of the list. */
  method FirstBehind(s: seq<Item>, anchor: Key, order: Order) returns (start: nat)
    ensures start <= |s| && s[start..] == Rest(s, Some(anchor), order)
  {
    hide Before;
    start := |s|;
    ghost var rest := Rest(s, Some(anchor), order);
    assert s[0..] == s;
    for i := 0 to |s|
      invariant start == |s| && rest == Rest(s[i..], Some(anchor), order)
    {
      assert s[i..][1..] == s[i + 1..];
      if Before(order, anchor, s[i].key) {
        start := i;
        break;
      }
    }
  }

  lemma AnchoredRest(json: Json, s: seq<Item>, cursor: Option<string>, order: Order, start: nat)
    requires Anchor(json, cursor).Ok? && start <= |s|
    requires cursor.None? || cursor.value == "" ==> start == 0
    requires cursor.Some? && cursor.value != "" ==>
      s[start..] == Rest(s, Some(DecodeCursor(json, cursor.value).value), order)
    ensures s[start..] == Rest(s, Anchor(json, cursor).value, order)
  {
    hide DecodeCursor, Before;
  }

  /** One client run over a changing corpus: page t is fetched from snapshot t. The result is what the
      loop yields, whether it came to its end within the snapshots, and how many pages it fetched. */
  ghost function Run(snaps: seq<seq<Item>>, anchor: Option<Key>, size: nat, order: Order): (seq<Item>, bool, nat)
    requires size >= 1
    decreases |snaps|
  {
    if snaps == [] then ([], false, 0)
    else
      var rest := Rest(Sort(snaps[0], order), anchor, order);
      match NextAnchor(rest, size)
      case None => (Take(rest, size), true, 1)
      case Some(k) =>
        var later := Run(snaps[1..], Some(k), size, order);
        (Take(rest, size) + later.0, later.1, later.2 + 1)
  }

  /** A run whose first pages have been fetched and yielded already. */
  ghost function Resumed(yielded: seq<Item>, fetched: nat, later: (seq<Item>, bool, nat)): (seq<Item>, bool, nat) {
    (yielded + later.0, later.1, fetched + later.2)
  }

  ghost function StepRun(snaps: seq<seq<Item>>, t: nat, yielded: seq<Item>, rest: seq<Item>, size: nat, order: Order)
    : (seq<Item>, bool, nat)
    requires size >= 1 && t < |snaps|
  {
    match NextAnchor(rest, size)
    case None => (yielded + Take(rest, size), true, t + 1)
    case Some(k) => Resumed(yielded + Take(rest, size), t + 1, Run(snaps[t + 1..], Some(k), size, order))
  }

  lemma RunStep(snaps: seq<seq<Item>>, t: nat, yielded: seq<Item>, anchor: Option<Key>, size: nat, order: Order)
    requires size >= 1 && t < |snaps|
    ensures Resumed(yielded, t, Run(snaps[t..], anchor, size, order))
         == StepRun(snaps, t, yielded, Rest(Sort(snaps[t], order), anchor, order), size, order)
  {
    assert snaps[t..][0] == snaps[t] && snaps[t..][1..] == snaps[t + 1..];
    var rest := Rest(Sort(snaps[t], order), anchor, order);
    var k := NextAnchor(rest, size);
    if k.Some? {
      var later := Run(snaps[t + 1..], k, size, order);
      assert yielded + (Take(rest, size) + later.0) == yielded + Take(rest, size) + later.0;
    }
  }

  lemma RunEdges(snaps: seq<seq<Item>>, yielded: seq<Item>, anchor: Option<Key>, size: nat, order: Order)
    requires size >= 1
    ensures Resumed([], 0, Run(snaps[0..], None, size, order)) == Run(snaps, None, size, order)
    ensures Resumed(yielded, |snaps|, Run(snaps[|snaps|..], anchor, size, order)) == (yielded, false, |snaps|)
  {
    assert snaps[0..] == snaps;
    var all := Run(snaps, None, size, order);
    assert [] + all.0 == all.0;
    assert yielded + [] == yielded;
  }

  /** The client's cursor loop, against snapshots of the corpus that may differ from fetch to fetch. */
  method IterItems(json: Json, snaps: seq<seq<Item>>, limit: Option<int>, order: Order)
    returns (yielded: seq<Item>, finished: bool, fetched: nat)
    requires RoundTrips(json) && ClampLimit(limit).Ok?
    ensures (yielded, finished, fetched) == Run(snaps, None, ClampLimit(limit).value, order)
  {
    hide RoundTrips, Resumed, Run, Rest, Sort, Take, EncodeCursor, NextAnchor;
    ghost var size := ClampLimit(limit).value;
    yielded, finished, fetched := [], false, 0;
    var cursor: Option<string> := None;
    ghost var anchor: Option<Key> := None;
    RunEdges(snaps, yielded, anchor, size, order);
    while fetched < |snaps|
      invariant fetched <= |snaps| && !finished
      invariant Anchor(json, cursor) == Ok(anchor)
      invariant Run(snaps, None, size, order) == Resumed(yielded, fetched, Run(snaps[fetched..], anchor, size, order))
    {
      ghost var rest := Rest(Sort(snaps[fetched], order), anchor, order);
      RunStep(snaps, fetched, yielded, anchor, size, order);
      var page := Paginate(json, snaps[fetched], cursor, limit, order);
      yielded := yielded + page.value.0;
      cursor := page.value.1;
      fetched := fetched + 1;
      anchor := NextAnchor(rest, size);
      if anchor.Some? {
        CursorRoundTrip(json, anchor.value);
      }
      if cursor == None || cursor.value == "" {
        finished := true;
        return;
      }
    }
    RunEdges(snaps, yielded, anchor, size, order);
  }

  /** How many items of a list carry the key k. */
  ghost function Occurrences(s: seq<Item>, k: Key): nat {
    if s == [] then 0 else (if s[0].key == k then 1 else 0) + Occurrences(s[1..], k)
  }

  lemma {:induction false} OccurrencesConcat(s: seq<Item>, t: seq<Item>, k: Key)
    ensures Occurrences(s + t, k) == Occurrences(s, k) + Occurrences(t, k)
  {
    if s == [] {
      assert s + t == t;
    } else {
      assert (s + t)[1..] == s[1..] + t;
      OccurrencesConcat(s[1..], t, k);
    }
  }

  lemma {:induction false} OccurrencesPositive(s: seq<Item>, k: Key)
    ensures Occurrences(s, k) > 0 <==> exists i :: 0 <= i < |s| && s[i].key == k
  {
    if s != [] {
      OccurrencesPositive(s[1..], k);
      if i :| 0 <= i < |s| && s[i].key == k && i > 0 {
        assert s[1..][i - 1].key == k;
      }
      if Occurrences(s[1..], k) > 0 {
        var i :| 0 <= i < |s[1..]| && s[1..][i].key == k;
        assert s[i + 1].key == k;
      }
    }
  }

  lemma {:induction false} OccurrencesInsert(s: seq<Item>, x: Item, order: Order, k: Key)
    ensures Occurrences(Insert(s, x, order), k) == Occurrences(s, k) + if x.key == k then 1 else 0
  {
    if s == [] {
    } else if Before(order, x.key, s[0].key) {
      assert ([x] + s)[1..] == s;
    } else {
      OccurrencesInsert(s[1..], x, order, k);
      assert Insert(s, x, order)[1..] == Insert(s[1..], x, order);
    }
  }

  lemma {:induction false} OccurrencesSort(items: seq<Item>, order: Order, k: Key)
    ensures Occurrences(Sort(items, order), k) == Occurrences(items, k)
  {
    if items != [] {
      var front, last := items[..|items| - 1], items[|items| - 1];
      assert items == front + [last];
      OccurrencesConcat(front, [last], k);
      OccurrencesSort(front, order, k);
      OccurrencesInsert(Sort(front, order), last, order, k);
    }
  }

  /** The rest is an ordered suffix in which everything lies strictly behind the anchor. */
  lemma RestIsBehind(s: seq<Item>, anchor: Option<Key>, order: Order)
    requires Sorted(s, order)
    ensures Sorted(Rest(s, anchor, order), order)
    ensures |Rest(s, anchor, order)| <= |s| && Rest(s, anchor, order) == s[|s| - |Rest(s, anchor, order)|..]
    ensures anchor.Some? ==> forall i :: 0 <= i < |Rest(s, anchor, order)| ==>
              Before(order, anchor.value, Rest(s, anchor, order)[i].key)
  {
    RestSplits(s, anchor, order);
  }

  lemma {:induction false} OccurrencesRest(s: seq<Item>, anchor: Option<Key>, order: Order, k: Key)
    requires Sorted(s, order)
    ensures Occurrences(Rest(s, anchor, order), k)
         == if anchor.None? || Before(order, anchor.value, k) then Occurrences(s, k) else 0
  {
    var rest := Rest(s, anchor, order);
    RestIsBehind(s, anchor, order);
    if anchor.Some? && !Before(order, anchor.value, k) {
      OccurrencesPositive(rest, k);
    } else if anchor.Some? && s != [] && !Before(order, anchor.value, s[0].key) {
      OccurrencesRest(s[1..], anchor, order, k);
    }
  }

  /** In an ordered list cut after `size` items, a key strictly behind the cut has no item in the page, and
      a key that occurs only once and is not behind the cut has none after it. */
  lemma PageCut(rest: seq<Item>, size: nat, order: Order, k: Key)
    requires Sorted(rest, order) && 1 <= size < |rest|
    ensures Occurrences(rest, k) == Occurrences(rest[..size], k) + Occurrences(rest[size..], k)
    ensures Before(order, rest[size - 1].key, k) ==> Occurrences(rest[..size], k) == 0
    ensures !Before(order, rest[size - 1].key, k) && Occurrences(rest, k) <= 1 ==> Occurrences(rest[size..], k) == 0
  {
    var page, tail := rest[..size], rest[size..];
    assert rest == page + tail;
    OccurrencesConcat(page, tail, k);
    OccurrencesPositive(page, k);
    OccurrencesPositive(tail, k);
    assert page[size - 1] == rest[size - 1];
    if Before(order, rest[size - 1].key, k) {
      forall i | 0 <= i < size ensures page[i].key != k {
        if i < size - 1 {
          assert !Before(order, rest[size - 1].key, rest[i].key);
        } else {
          BeforeTotal(order, k, k);
        }
      }
    } else if i :| 0 <= i < |tail| && tail[i].key == k {
      assert !Before(order, rest[size + i].key, rest[size - 1].key);
      BeforeTotal(order, k, rest[size - 1].key);
      assert page[size - 1].key == k;
    }
  }

  /** A key that is not strictly behind the anchor is never yielded again. */
  lemma {:induction false} NeverYieldedAgain(snaps: seq<seq<Item>>, anchor: Key, size: nat, order: Order, k: Key)
    requires size >= 1 && !Before(order, anchor, k)
    ensures Occurrences(Run(snaps, Some(anchor), size, order).0, k) == 0
    decreases |snaps|
  {
    if snaps != [] {
      var s := Sort(snaps[0], order);
      var rest := Rest(s, Some(anchor), order);
      SortIsSorted(snaps[0], order);
      LastIsBehind(s, anchor, size, order, k);
      OccurrencesRest(s, Some(anchor), order, k);
      hide Sorted, Before, Rest;
      if |rest| > size {
        PageCut(rest, size, order, k);
        var last := rest[size - 1].key;
        NeverYieldedAgain(snaps[1..], last, size, order, k);
        OccurrencesConcat(rest[..size], Run(snaps[1..], Some(last), size, order).0, k);
      }
    }
  }

  lemma LastIsBehind(s: seq<Item>, anchor: Key, size: nat, order: Order, k: Key)
    requires Sorted(s, order) && size >= 1 && !Before(order, anchor, k)
    ensures var rest := Rest(s, Some(anchor), order);
            Sorted(rest, order) && (|rest| > size ==> !Before(order, rest[size - 1].key, k))
  {
    RestIsBehind(s, Some(anchor), order);
    var rest := Rest(s, Some(anchor), order);
    hide Sorted, Before, Rest;
    if |rest| > size {
      var last := rest[size - 1].key;
      if Before(order, last, k) {
        BeforeTransitive(order, anchor, last, k);
      }
    }
  }

  /** While the corpus changes between fetches: a key that no fetched snapshot holds twice is yielded at
      most once, and a key that every fetched snapshot holds exactly once is yielded exactly once by the
      time the loop ends. */
  lemma {:induction false} YieldedExactlyOnce(snaps: seq<seq<Item>>, anchor: Option<Key>, size: nat, order: Order, k: Key)
    requires size >= 1
    requires forall t :: 0 <= t < |snaps| && t < Run(snaps, anchor, size, order).2 ==> Occurrences(snaps[t], k) <= 1
    ensures Run(snaps, anchor, size, order).2 <= |snaps|
    ensures Occurrences(Run(snaps, anchor, size, order).0, k) <= 1
    ensures (anchor.Some? ==> Before(order, anchor.value, k)) && Run(snaps, anchor, size, order).1
            && (forall t :: 0 <= t < Run(snaps, anchor, size, order).2 ==> Occurrences(snaps[t], k) == 1)
            ==> Occurrences(Run(snaps, anchor, size, order).0, k) == 1
    decreases |snaps|
  {
    if snaps != [] {
      var s := Sort(snaps[0], order);
      var rest := Rest(s, anchor, order);
      SortIsSorted(snaps[0], order);
      OccurrencesSort(snaps[0], order, k);
      RestIsBehind(s, anchor, order);
      OccurrencesRest(s, anchor, order, k);
      if |rest| > size {
        var last := rest[size - 1].key;
        var later := Run(snaps[1..], Some(last), size, order);
        PageCut(rest, size, order, k);
        OccurrencesConcat(rest[..size], later.0, k);
        forall t | 0 <= t < |snaps[1..]| && t < later.2 ensures Occurrences(snaps[1..][t], k) <= 1 {
          assert snaps[1..][t] == snaps[t + 1];
        }
        YieldedExactlyOnce(snaps[1..], Some(last), size, order, k);
        if Before(order, last, k) {
          assert forall t :: 0 <= t < later.2 ==> snaps[1..][t] == snaps[t + 1];
        } else {
          NeverYieldedAgain(snaps[1..], last, size, order, k);
        }
      }
    }
  }

  /** Whatever happens to the corpus, the items come out in listing order. */
  lemma {:induction false} YieldedInOrder(snaps: seq<seq<Item>>, anchor: Option<Key>, size: nat, order: Order)
    requires size >= 1
    ensures Sorted(Run(snaps, anchor, size, order).0, order)
    ensures anchor.Some? ==> forall i :: 0 <= i < |Run(snaps, anchor, size, order).0| ==>
              Before(order, anchor.value, Run(snaps, anchor, size, order).0[i].key)
    decreases |snaps|
  {
    hide *;
    if snaps != [] {
      var s := Sort(snaps[0], order);
      var rest := Rest(s, anchor, order);
      SortIsSorted(snaps[0], order);
      RestIsBehind(s, anchor, order);
      FirstPageOfRun(snaps, anchor, size, order);
      if |rest| > size {
        var last := rest[size - 1].key;
        var later := Run(snaps[1..], Some(last), size, order).0;
        YieldedInOrder(snaps[1..], Some(last), size, order);
        SortedConcat(rest, size, later, order);
        if anchor.Some? {
          forall j | 0 <= j < |later| ensures Before(order, anchor.value, later[j].key) {
            BeforeTransitive(order, anchor.value, last, later[j].key);
          }
        }
      }
    } else {
      NothingToFetch(anchor, size, order);
    }
  }

  lemma NothingToFetch(anchor: Option<Key>, size: nat, order: Order)
    requires size >= 1
    ensures Run([], anchor, size, order).0 == [] && Sorted([], order)
  {
  }

  lemma FirstPageOfRun(snaps: seq<seq<Item>>, anchor: Option<Key>, size: nat, order: Order)
    requires size >= 1 && snaps != []
    ensures var rest, yielded := Rest(Sort(snaps[0], order), anchor, order), Run(snaps, anchor, size, order).0;
            if |rest| > size then yielded == rest[..size] + Run(snaps[1..], Some(rest[size - 1].key), size, order).0
            else yielded == rest
  {
    hide Sort, Rest;
  }

  lemma SortedConcat(rest: seq<Item>, size: nat, later: seq<Item>, order: Order)
    requires 1 <= size < |rest| && Sorted(rest, order) && Sorted(later, order)
    requires forall j :: 0 <= j < |later| ==> Before(order, rest[size - 1].key, later[j].key)
    ensures Sorted(rest[..size] + later, order)
  {
    var last := rest[size - 1].key;
    forall i, j | 0 <= i < size && 0 <= j < |later| ensures !Before(order, later[j].key, rest[i].key) {
      if Before(order, later[j].key, rest[i].key) {
        BeforeTransitive(order, last, later[j].key, rest[i].key);
        NothingBehindItself(rest, size - 1, order);
        assert false;
      }
    }
  }

  ghost function Copies(items: seq<Item>, n: nat): seq<seq<Item>> {
    seq(n, _ => items)
  }

  /** Cutting the list into full pages never separates two equal keys. */
  predicate NoTieAtPageEnds(s: seq<Item>, size: nat, order: Order)
    requires size >= 1
  {
    |s| <= size || (Before(order, s[size - 1].key, s[size].key) && NoTieAtPageEnds(s[size..], size, order))
  }

  /** Continuing from the last key of a page drops the tie it ends in, and nothing else. */
  lemma {:induction false} RestOfSuffix(s: seq<Item>, i: nat, k: Key, order: Order)
    requires Sorted(s, order) && i <= |s|
    requires forall j :: 0 <= j < i ==> !Before(order, k, s[j].key)
    ensures Rest(s, Some(k), order) == Rest(s[i..], Some(k), order)
  {
    if i > 0 {
      RestOfSuffix(s[1..], i - 1, k, order);
      assert s[1..][i - 1..] == s[i..];
    } else {
      assert s[0..] == s;
    }
  }

  lemma {:induction false} FixedRun(items: seq<Item>, anchor: Option<Key>, size: nat, order: Order, n: nat)
    requires size >= 1 && n > |Rest(Sort(items, order), anchor, order)|
    ensures var rest, run := Rest(Sort(items, order), anchor, order), Run(Copies(items, n), anchor, size, order);
            && run.1
            && |run.0| <= |rest|
            && (run.0 == rest <==> NoTieAtPageEnds(rest, size, order))
    decreases n
  {
    hide Sorted, Sort, Rest, Before, NoTieAtPageEnds, Take;
    var s := Sort(items, order);
    var rest := Rest(s, anchor, order);
    SortIsSorted(items, order);
    assert Copies(items, n)[0] == items;
    if |rest| > size {
      var k := rest[size - 1].key;
      RestAfterPage(s, anchor, size, order);
      assert Copies(items, n)[1..] == Copies(items, n - 1);
      FixedRun(items, Some(k), size, order, n - 1);
      var later := Run(Copies(items, n - 1), Some(k), size, order).0;
      assert Take(rest, size) == rest[..size] by {
        TakeIsPrefix(rest, size);
      }
      assert Run(Copies(items, n), anchor, size, order).0 == rest[..size] + later;
      FixedStep(rest, size, order, later);
    } else {
      LastPage(rest, size, order);
    }
  }

  lemma TakeIsPrefix(rest: seq<Item>, size: nat)
    requires size < |rest|
    ensures Take(rest, size) == rest[..size]
  {
  }

  lemma LastPage(rest: seq<Item>, size: nat, order: Order)
    requires |rest| <= size && size >= 1
    ensures Take(rest, size) == rest && NoTieAtPageEnds(rest, size, order)
  {
  }

  /** What the next page starts from is what is left of the current rest after its first page. */
  lemma RestAfterPage(s: seq<Item>, anchor: Option<Key>, size: nat, order: Order)
    requires Sorted(s, order) && 1 <= size < |Rest(s, anchor, order)|
    ensures var rest := Rest(s, anchor, order);
            && Sorted(rest, order)
            && Rest(s, Some(rest[size - 1].key), order) == Rest(rest[size..], Some(rest[size - 1].key), order)
            && |Rest(rest[size..], Some(rest[size - 1].key), order)| < |rest|
  {
    hide Rest, Before;
    var rest := Rest(s, anchor, order);
    RestIsBehind(s, anchor, order);
    var k := rest[size - 1].key;
    var cut := |s| - |rest| + size;
    assert s[cut..] == rest[size..] && s[cut - 1] == rest[size - 1];
    NothingBehindItself(s, cut - 1, order);
    RestOfSuffix(s, cut, k, order);
    RestIsBehind(rest[size..], Some(k), order);
  }

  lemma NothingBehindItself(s: seq<Item>, i: nat, order: Order)
    requires Sorted(s, order) && i < |s|
    ensures forall j :: 0 <= j <= i ==> !Before(order, s[i].key, s[j].key)
  {
    BeforeTotal(order, s[i].key, s[i].key);
  }

  lemma FixedStep(rest: seq<Item>, size: nat, order: Order, later: seq<Item>)
    requires 1 <= size < |rest| && Sorted(rest, order)
    requires var after := Rest(rest[size..], Some(rest[size - 1].key), order);
             |later| <= |after| && (later == after <==> NoTieAtPageEnds(after, size, order))
    ensures |rest[..size] + later| <= |rest|
    ensures rest[..size] + later == rest <==> NoTieAtPageEnds(rest, size, order)
  {
    var tail, k := rest[size..], rest[size - 1].key;
    assert rest == rest[..size] + tail && (rest[..size] + later)[size..] == later;
    assert rest[..size] + later == rest <==> later == tail;
    assert tail[0] == rest[size];
    TailAfter(tail, k, order);
  }

  lemma TailAfter(tail: seq<Item>, k: Key, order: Order)
    requires tail != [] && Sorted(tail, order)
    ensures Before(order, k, tail[0].key) ==> Rest(tail, Some(k), order) == tail
    ensures !Before(order, k, tail[0].key) ==> |Rest(tail, Some(k), order)| < |tail|
  {
    if !Before(order, k, tail[0].key) {
      RestIsBehind(tail[1..], Some(k), order);
    }
  }

  /** On a corpus that does not change, the client always comes to an end, and the pages concatenate to the
      whole sorted listing if and only if no page ends between two equal keys. */
  lemma FixedCorpus(items: seq<Item>, size: nat, order: Order, n: nat)
    requires size >= 1 && n > |items|
    ensures Run(Copies(items, n), None, size, order).1
    ensures Run(Copies(items, n), None, size, order).0 == Sort(items, order)
       <==> NoTieAtPageEnds(Sort(items, order), size, order)
  {
    SortIsSorted(items, order);
    assert |Sort(items, order)| == |multiset(Sort(items, order))| == |multiset(items)| == |items|;
    FixedRun(items, None, size, order, n);
  }

  lemma {:induction false} DistinctKeysDoNotTie(s: seq<Item>, size: nat, order: Order)
    requires size >= 1 && Sorted(s, order)
    requires forall i, j :: 0 <= i < j < |s| ==> s[i].key != s[j].key
    ensures NoTieAtPageEnds(s, size, order)
  {
    if |s| > size {
      BeforeTotal(order, s[size - 1].key, s[size].key);
      DistinctKeysDoNotTie(s[size..], size, order);
    }
  }
}
