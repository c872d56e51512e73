/**
 * The pure part of the product-selection controller: the catalog record, the
 * array operations the handlers apply to their lists (`filter`, `find`, `push`)
 * and the lists `search`, `addProduct` and `removeProduct` compute.
 */
module Selection {
  import opened Wrappers
  import Text

  /**
   * A catalog entry as the search endpoint returns it. Identity is by `name`;
   * the other properties of the record are carried along and never read.
   */
  datatype Product = Product(name: string, details: map<string, string>)

  // ---------------------------------------------------------------------------
  // Array.prototype.filter and order-preserving subsequences.

  /** Array filtering: the elements satisfying `keep`, in their original order. */
  function Filter<T>(s: seq<T>, keep: T -> bool): seq<T> {
    if s == [] then [] else (if keep(s[0]) then [s[0]] else []) + Filter(s[1..], keep)
  }

  /** `a` can be obtained from `b` by deleting elements, keeping the order of the rest. */
  predicate IsSubsequence<T(==)>(a: seq<T>, b: seq<T>)
    decreases |b|
  {
    a == [] || (b != [] && ((a[0] == b[0] && IsSubsequence(a[1..], b[1..])) || IsSubsequence(a, b[1..])))
  }

  /** filter keeps the order of what it keeps. */
  lemma {:induction false} FilterIsSubsequence<T>(s: seq<T>, keep: T -> bool)
    ensures IsSubsequence(Filter(s, keep), s)
  {
    if s != [] {
      var r := Filter(s, keep);
      FilterIsSubsequence(s[1..], keep);
      if keep(s[0]) {
        assert r[0] == s[0] && r[1..] == Filter(s[1..], keep);
      } else {
        assert r == Filter(s[1..], keep);
      }
    }
  }

  /** filter keeps every copy of a value that passes the test, and no copy of one that fails it. */
  lemma {:induction false} FilterCount<T>(s: seq<T>, keep: T -> bool, x: T)
    ensures multiset(Filter(s, keep))[x] == if keep(x) then multiset(s)[x] else 0
  {
    if s != [] {
      var head := if keep(s[0]) then [s[0]] else [];
      FilterCount(s[1..], keep, x);
      assert s == [s[0]] + s[1..];
      assert multiset(Filter(s, keep)) == multiset(head) + multiset(Filter(s[1..], keep));
      assert multiset(s) == multiset([s[0]]) + multiset(s[1..]);
    }
  }

  /** The elements of a filtered sequence are the elements of its input that pass the test. */
  lemma FilterMembers<T>(s: seq<T>, keep: T -> bool)
    ensures forall x :: x in Filter(s, keep) <==> x in s && keep(x)
  {
    forall x
      ensures x in Filter(s, keep) <==> x in s && keep(x)
    {
      FilterCount(s, keep, x);
      assert x in Filter(s, keep) <==> multiset(Filter(s, keep))[x] > 0;
      assert x in s <==> multiset(s)[x] > 0;
    }
  }

  /** filter with a test every element passes returns its input. */
  lemma {:induction false} FilterKeepsAll<T>(s: seq<T>, keep: T -> bool)
    requires forall i :: 0 <= i < |s| ==> keep(s[i])
    ensures Filter(s, keep) == s
  {
    if s != [] {
      FilterKeepsAll(s[1..], keep);
      assert [s[0]] + s[1..] == s;
    }
  }

  // ---------------------------------------------------------------------------
  // Names.

  predicate HasName(list: seq<Product>, name: string) {
    exists i :: 0 <= i < |list| && list[i].name == name
  }

  /** No two entries of `list` share a name. */
  predicate NoDuplicateNames(list: seq<Product>) {
    forall i, j :: 0 <= i < j < |list| ==> list[i].name != list[j].name
  }

  /** No entry of `a` has the name of an entry of `b`. */
  predicate NoSharedName(a: seq<Product>, b: seq<Product>) {
    forall i :: 0 <= i < |a| ==> !HasName(b, a[i].name)
  }

  /** Array search by exact name: the first entry with that name, or undefined. */
  function FindByName(list: seq<Product>, name: string): (r: Option<Product>)
    ensures r.None? <==> !HasName(list, name)
    ensures r.Some? ==> exists i :: 0 <= i < |list| && list[i] == r.value && r.value.name == name
                                   && forall j :: 0 <= j < i ==> list[j].name != name
  {
    if list == [] then None
    else if list[0].name == name then Some(list[0])
    else
      FindByName(list[1..], name)
  }

  // ---------------------------------------------------------------------------
  // search: the options offered for the current input.

  /** The lower-cased option name contains the lower-cased input as a substring. */
  predicate Matches(userInput: string, option: Product) {
    Text.Contains(Text.Lower(option.name), Text.Lower(userInput))
  }

  /** An option is offered when it matches the input and `productList.find` finds no entry with its name. */
  predicate IsOffered(userInput: string, productList: seq<Product>, option: Product) {
    Matches(userInput, option) && FindByName(productList, option.name).None?
  }

  /** The `filteredOptions` computed by `search`. */
  function SearchFilter(userInput: string, productOptions: seq<Product>, productList: seq<Product>): seq<Product> {
    Filter(productOptions, option => IsOffered(userInput, productList, option))
  }

  /**
   * The options offered are an order-preserving subsequence of `productOptions`:
   * an option is kept, with all its copies, exactly when its lower-cased name contains
   * the lower-cased input and no entry of `productList` has its name.
   */
  lemma SearchFilterSpec(userInput: string, productOptions: seq<Product>, productList: seq<Product>)
    ensures IsSubsequence(SearchFilter(userInput, productOptions, productList), productOptions)
    ensures forall o :: multiset(SearchFilter(userInput, productOptions, productList))[o]
                        == if Matches(userInput, o) && !HasName(productList, o.name)
                           then multiset(productOptions)[o] else 0
    ensures forall o :: o in SearchFilter(userInput, productOptions, productList)
                        <==> o in productOptions && Matches(userInput, o) && !HasName(productList, o.name)
  {
    var keep := option => IsOffered(userInput, productList, option);
    FilterIsSubsequence(productOptions, keep);
    FilterMembers(productOptions, keep);
    forall o: Product
      ensures multiset(SearchFilter(userInput, productOptions, productList))[o]
              == if Matches(userInput, o) && !HasName(productList, o.name) then multiset(productOptions)[o] else 0
    {
      FilterCount(productOptions, keep, o);
    }
  }

  /** No option offered by `search` shares a name with an entry of `productList`. */
  lemma SearchFilterExcludesSelected(userInput: string, productOptions: seq<Product>, productList: seq<Product>)
    ensures NoSharedName(SearchFilter(userInput, productOptions, productList), productList)
    ensures forall i :: 0 <= i < |SearchFilter(userInput, productOptions, productList)| ==>
              Matches(userInput, SearchFilter(userInput, productOptions, productList)[i])
  {
    var r := SearchFilter(userInput, productOptions, productList);
    SearchFilterSpec(userInput, productOptions, productList);
    forall i | 0 <= i < |r|
      ensures !HasName(productList, r[i].name) && Matches(userInput, r[i])
    {
      assert r[i] in r;
    }
  }

  /** An empty input matches every name (`indexOf('')` is 0), so `search` offers every unselected option. */
  lemma EmptyInputOffersAllUnselected(productOptions: seq<Product>, productList: seq<Product>)
    ensures SearchFilter("", productOptions, productList)
            == Filter(productOptions, (o: Product) => !HasName(productList, o.name))
  {
    FilterSameTest(productOptions, option => IsOffered("", productList, option),
                   (o: Product) => !HasName(productList, o.name));
  }

  lemma {:induction false} FilterSameTest<T>(s: seq<T>, keep: T -> bool, keep': T -> bool)
    requires forall i :: 0 <= i < |s| ==> keep(s[i]) == keep'(s[i])
    ensures Filter(s, keep) == Filter(s, keep')
  {
    if s != [] {
      FilterSameTest(s[1..], keep, keep');
    }
  }

  // ---------------------------------------------------------------------------
  // removeProduct: the list without any entry of the given name.

  /** The list without any entry of the given name. */
  function RemoveByName(productList: seq<Product>, productName: string): seq<Product> {
    Filter(productList, (item: Product) => item.name != productName)
  }

  /**
   * Removal drops every entry with the name and keeps every other one, in order;
   * removing an absent name changes nothing, and removing twice is removing once.
   */
  lemma RemoveByNameSpec(productList: seq<Product>, productName: string)
    ensures IsSubsequence(RemoveByName(productList, productName), productList)
    ensures !HasName(RemoveByName(productList, productName), productName)
    ensures forall p :: multiset(RemoveByName(productList, productName))[p]
                        == if p.name == productName then 0 else multiset(productList)[p]
    ensures !HasName(productList, productName) ==> RemoveByName(productList, productName) == productList
    ensures RemoveByName(RemoveByName(productList, productName), productName)
            == RemoveByName(productList, productName)
  {
    var keep := (item: Product) => item.name != productName;
    var r := RemoveByName(productList, productName);
    FilterIsSubsequence(productList, keep);
    FilterMembers(productList, keep);
    forall p: Product
      ensures multiset(r)[p] == if p.name == productName then 0 else multiset(productList)[p]
    {
      FilterCount(productList, keep, p);
    }
    forall i | 0 <= i < |r| ensures r[i].name != productName {
      assert r[i] in r;
    }
    FilterKeepsAll(r, keep);
    if !HasName(productList, productName) {
      FilterKeepsAll(productList, keep);
    }
  }

  /** Removal only drops entries, so a list sharing no name with `a` still shares none after it. */
  lemma RemoveKeepsNoSharedName(a: seq<Product>, productList: seq<Product>, productName: string)
    requires NoSharedName(a, productList)
    ensures NoSharedName(a, RemoveByName(productList, productName))
  {
    var r := RemoveByName(productList, productName);
    FilterMembers(productList, (item: Product) => item.name != productName);
    forall i, k | 0 <= i < |a| && 0 <= k < |r| ensures r[k].name != a[i].name {
      assert r[k] in r;
      var m :| 0 <= m < |productList| && productList[m] == r[k];
    }
  }

  /** Removal keeps a list free of duplicate names. */
  lemma {:induction false} RemoveKeepsNamesUnique(productList: seq<Product>, productName: string)
    requires NoDuplicateNames(productList)
    ensures NoDuplicateNames(RemoveByName(productList, productName))
  {
    if productList != [] {
      var rest := productList[1..];
      var keep := (item: Product) => item.name != productName;
      assert NoDuplicateNames(rest) by {
        forall i, j | 0 <= i < j < |rest| ensures rest[i].name != rest[j].name {
          assert rest[i] == productList[i + 1] && rest[j] == productList[j + 1];
        }
      }
      RemoveKeepsNamesUnique(rest, productName);
      var tail := RemoveByName(rest, productName);
      FilterMembers(rest, keep);
      if keep(productList[0]) {
        var r := [productList[0]] + tail;
        assert RemoveByName(productList, productName) == r;
        forall j | 1 <= j < |r| ensures r[0].name != r[j].name {
          assert r[j] == tail[j - 1] && tail[j - 1] in rest;
          var k :| 0 <= k < |rest| && rest[k] == r[j];
          assert productList[k + 1] == rest[k];
        }
      } else {
        assert RemoveByName(productList, productName) == tail;
      }
    }
  }

  // ---------------------------------------------------------------------------
  // addProduct: the list after the chosen option is pushed onto it.

  /** `productList` after `addProduct`: the first option with that name pushed onto it, if there is one. */
  function AddByName(productList: seq<Product>, productOptions: seq<Product>, productName: string): seq<Product> {
    match FindByName(productOptions, productName)
    case None => productList
    case Some(p) => productList + [p]
  }

  /**
   * Adding appends exactly the first option with the name to the end of the list and
   * leaves the earlier entries alone; with no such option the list is unchanged.
   */
  lemma AddByNameSpec(productList: seq<Product>, productOptions: seq<Product>, productName: string)
    ensures productList <= AddByName(productList, productOptions, productName)
    ensures !HasName(productOptions, productName) ==> AddByName(productList, productOptions, productName) == productList
    ensures HasName(productOptions, productName) ==>
              var r := AddByName(productList, productOptions, productName);
              && |r| == |productList| + 1
              && exists i :: 0 <= i < |productOptions| && r[|productList|] == productOptions[i]
                             && productOptions[i].name == productName
                             && forall j :: 0 <= j < i ==> productOptions[j].name != productName
  {
  }

  /**
   * The list stays free of duplicate names when the chosen name is one of the options
   * offered: the offered options share no name with the list. `addProduct` itself
   * does not check.
   */
  lemma AddKeepsNamesUnique(productList: seq<Product>, productOptions: seq<Product>,
                            filteredOptions: seq<Product>, productName: string)
    requires NoDuplicateNames(productList)
    requires NoSharedName(filteredOptions, productList)
    requires HasName(filteredOptions, productName)
    ensures NoDuplicateNames(AddByName(productList, productOptions, productName))
  {
    var k :| 0 <= k < |filteredOptions| && filteredOptions[k].name == productName;
    assert !HasName(productList, productName);
    match FindByName(productOptions, productName)
    case None =>
    case Some(p) =>
      AppendFreshName(productList, p);
  }

  /**
   * The options offered before an add still hold an option with the chosen name,
   * so they share that name with the new list when an option had it.
   */
  lemma AddLeavesChosenNameOffered(productList: seq<Product>, productOptions: seq<Product>,
                                   filteredOptions: seq<Product>, productName: string)
    requires HasName(filteredOptions, productName) && HasName(productOptions, productName)
    ensures !NoSharedName(filteredOptions, AddByName(productList, productOptions, productName))
  {
    var r := AddByName(productList, productOptions, productName);
    var k :| 0 <= k < |filteredOptions| && filteredOptions[k].name == productName;
    assert r[|r| - 1].name == productName;
    assert HasName(r, filteredOptions[k].name);
  }

  /** `addProduct` does not deduplicate: choosing the same name twice pushes two equal entries. */
  lemma AddTwiceAddsTwice(productList: seq<Product>, productOptions: seq<Product>, productName: string)
    requires HasName(productOptions, productName)
    ensures var r := AddByName(AddByName(productList, productOptions, productName), productOptions, productName);
            |r| == |productList| + 2 && r[|productList|] == r[|productList| + 1]
            && r[|productList|].name == productName
  {
  }

  /**
   * Removing a name and then choosing it again leaves exactly one entry of that
   * name, at the end of the list, when the options hold it, and none otherwise.
   */
  lemma RemoveThenAdd(productList: seq<Product>, productOptions: seq<Product>, productName: string)
    ensures var r := AddByName(RemoveByName(productList, productName), productOptions, productName);
            && (HasName(productOptions, productName) ==>
                  r != [] && r[|r| - 1].name == productName
                  && forall i :: 0 <= i < |r| - 1 ==> r[i].name != productName)
            && (!HasName(productOptions, productName) ==> !HasName(r, productName))
            && (NoDuplicateNames(productList) ==> NoDuplicateNames(r))
  {
    var removed := RemoveByName(productList, productName);
    var r := AddByName(removed, productOptions, productName);
    RemoveByNameSpec(productList, productName);
    if NoDuplicateNames(productList) {
      RemoveKeepsNamesUnique(productList, productName);
    }
    match FindByName(productOptions, productName)
    case None =>
      assert r == removed;
    case Some(p) =>
      assert r == removed + [p] && p.name == productName;
      forall i | 0 <= i < |r| - 1 ensures r[i].name != productName {
        assert r[i] == removed[i];
      }
      if NoDuplicateNames(productList) {
        AppendFreshName(removed, p);
      }
  }

  /** Pushing an entry whose name the list does not hold keeps the list free of duplicate names. */
  lemma AppendFreshName(list: seq<Product>, p: Product)
    requires NoDuplicateNames(list) && !HasName(list, p.name)
    ensures NoDuplicateNames(list + [p])
  {
    var r := list + [p];
    forall i, j | 0 <= i < j < |r| ensures r[i].name != r[j].name {
      assert r[i] == list[i];
      if j < |list| {
        assert r[j] == list[j];
      }
    }
  }
}
