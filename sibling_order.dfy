/**
 * The order in which `buildTree` lists the entries of one folder
 * (app.js:133-138): `Object.entries(obj).sort(cmp)` where `cmp` puts an
 * entry named `readme` or `readme.md` (any letter case) after the other one,
 * and otherwise defers to `localeCompare` on the names.
 *
 * `localeCompare` depends on the user's locale, so it is a parameter `lc`;
 * `Array.prototype.sort` is a built-in, modelled as a stable insertion sort
 * driven by the same comparator.
 */
module SiblingOrder {
  import opened Text

  /** A name the comparator sorts last. */
  predicate IsReadme(name: string) {
    var l := LowerString(name);
    l == "readme" || l == "readme.md"
  }

  /** The comparator of app.js:134-138, on the entries' names. */
  function Compare(a: string, b: string, lc: (string, string) -> int): int {
    if IsReadme(a) then 1
    else if IsReadme(b) then -1
    else lc(a, b)
  }

  /** What the sort needs of `localeCompare`: a total preorder (`lc(a, b) <= 0` read as "a may precede b"). */
  ghost predicate TotalPreorder(lc: (string, string) -> int) {
    && (forall a, b :: lc(a, b) <= 0 || lc(b, a) <= 0)
    && (forall a, b, c :: lc(a, b) <= 0 && lc(b, c) <= 0 ==> lc(a, c) <= 0)
  }

  /** Inserts `e` before the first entry it may precede. */
  function Insert<V(!new)>(e: (string, V), s: seq<(string, V)>, lc: (string, string) -> int): (r: seq<(string, V)>)
    ensures multiset(r) == multiset(s) + multiset{e}
    ensures forall x :: x in r <==> x == e || x in s
  {
    if s == [] then [e]
    else if Compare(e.0, s[0].0, lc) <= 0 then [e] + s
    else
      assert s == [s[0]] + s[1..];
      [s[0]] + Insert(e, s[1..], lc)
  }

  /** `entries.sort(cmp)`. */
  function SortEntries<V(!new)>(es: seq<(string, V)>, lc: (string, string) -> int): (r: seq<(string, V)>)
    ensures multiset(r) == multiset(es)
    ensures forall x :: x in r <==> x in es
  {
    if es == [] then []
    else
      assert es == [es[0]] + es[1..];
      Insert(es[0], SortEntries(es[1..], lc), lc)
  }

  /** Every README entry comes after every other entry. */
  predicate ReadmeLast<V>(r: seq<(string, V)>) {
    forall i, j :: 0 <= i < j < |r| && IsReadme(r[i].0) ==> IsReadme(r[j].0)
  }

  /** The entries that are not README entries are in `localeCompare` order. */
  predicate LocaleSorted<V>(r: seq<(string, V)>, lc: (string, string) -> int) {
    forall i, j :: 0 <= i < j < |r| && !IsReadme(r[i].0) && !IsReadme(r[j].0) ==> lc(r[i].0, r[j].0) <= 0
  }

  lemma {:induction false} InsertSorted<V(!new)>(e: (string, V), s: seq<(string, V)>, lc: (string, string) -> int)
    requires TotalPreorder(lc)
    requires ReadmeLast(s) && LocaleSorted(s, lc)
    ensures ReadmeLast(Insert(e, s, lc)) && LocaleSorted(Insert(e, s, lc), lc)
  {
    if s == [] {
    } else if Compare(e.0, s[0].0, lc) <= 0 {
      InsertFront(e, s, lc);
    } else {
      InsertSorted(e, s[1..], lc);
      assert lc(s[0].0, e.0) <= 0 || lc(e.0, s[0].0) <= 0;
      InsertPast(e, s, lc);
    }
  }

  /** `e` may precede the first entry, hence every entry. */
  lemma InsertFront<V>(e: (string, V), s: seq<(string, V)>, lc: (string, string) -> int)
    requires TotalPreorder(lc)
    requires ReadmeLast(s) && LocaleSorted(s, lc)
    requires s != [] && Compare(e.0, s[0].0, lc) <= 0
    ensures ReadmeLast([e] + s) && LocaleSorted([e] + s, lc)
  {
    var r := [e] + s;
    assert !IsReadme(e.0);
    forall j | 0 < j < |r| && !IsReadme(r[j].0) ensures lc(e.0, r[j].0) <= 0 {
      assert r[j] == s[j - 1];
      assert !IsReadme(s[0].0);
      if j > 1 {
        assert lc(s[0].0, s[j - 1].0) <= 0;
      }
    }
  }

  /** The first entry may precede `e` and everything after it. */
  lemma InsertPast<V(!new)>(e: (string, V), s: seq<(string, V)>, lc: (string, string) -> int)
    requires s != [] ==> lc(s[0].0, e.0) <= 0 || lc(e.0, s[0].0) <= 0
    requires ReadmeLast(s) && LocaleSorted(s, lc)
    requires s != [] && Compare(e.0, s[0].0, lc) > 0
    requires ReadmeLast(Insert(e, s[1..], lc)) && LocaleSorted(Insert(e, s[1..], lc), lc)
    ensures ReadmeLast(Insert(e, s, lc)) && LocaleSorted(Insert(e, s, lc), lc)
  {
    var t := Insert(e, s[1..], lc);
    forall x | x in t
      ensures IsReadme(s[0].0) ==> IsReadme(x.0)
      ensures !IsReadme(s[0].0) && !IsReadme(x.0) ==> lc(s[0].0, x.0) <= 0
    {
      if x != e {
        var k :| 0 <= k < |s[1..]| && s[1..][k] == x;
        assert s[k + 1] == x;
      }
    }
    var r := [s[0]] + t;
    assert r == Insert(e, s, lc);
    assert forall j :: 0 < j < |r| ==> r[j] == t[j - 1] && r[j] in t;
  }

  /**
   * The sibling order: a permutation of the entries in which README entries
   * come last and the other entries are in `localeCompare` order.
   */
  lemma {:induction false} SortOrder<V(!new)>(es: seq<(string, V)>, lc: (string, string) -> int)
    requires TotalPreorder(lc)
    ensures multiset(SortEntries(es, lc)) == multiset(es)
    ensures ReadmeLast(SortEntries(es, lc))
    ensures LocaleSorted(SortEntries(es, lc), lc)
  {
    if es != [] {
      SortOrder(es[1..], lc);
      InsertSorted(es[0], SortEntries(es[1..], lc), lc);
    }
  }

  /** Two README entries compare as "after" each other, so their relative order is not fixed by the comparator. */
  lemma ReadmesAreUnordered(a: string, b: string, lc: (string, string) -> int)
    requires IsReadme(a) && IsReadme(b)
    ensures Compare(a, b, lc) > 0 && Compare(b, a, lc) > 0
  {
  }
}
