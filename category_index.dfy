/** The category filter of the search panel (app.py, lines 261-265): the list
    of distinct raw categories, the sorted list of their cleaned names offered
    in the filter box, and the map from a cleaned name back to the raw
    categories it stands for. The functions take the naming function as a
    parameter `nameOf`; the front end passes `CategoryName`, that is
    `clean_category`, and nothing here depends on more than that it is a
    function. */
module CategoryIndex {
  import opened Options
  import opened Text
  import opened Cleaning

  /** The cleaned name app.py gives a raw category at lines 262 and 265. */
  function CategoryName(raw: string): string {
    CleanCategory(Some(raw))
  }

  /** No element occurs twice. */
  predicate Distinct<T(==)>(s: seq<T>) {
    forall i, j :: 0 <= i < j < |s| ==> s[i] != s[j]
  }

  /** `df['category'].dropna().unique().tolist()`: every category that is
      present, once each, in order of first appearance. `None` stands for a
      missing cell. */
  function RawCategories(column: seq<Option<string>>): (r: seq<string>)
    ensures Distinct(r)
    ensures forall c :: c in r <==> Some(c) in column
  {
    if column == [] then []
    else
      var earlier := RawCategories(column[..|column| - 1]);
      assert column == column[..|column| - 1] + [column[|column| - 1]];
      match column[|column| - 1]
      case None => earlier
      case Some(c) => if c in earlier then earlier else earlier + [c]
  }

  /** The position of the first occurrence of `x` in `s`. */
  function FirstIndex<T(==)>(s: seq<T>, x: T): (k: nat)
    requires x in s
    ensures k < |s| && s[k] == x && x !in s[..k]
  {
    if s[0] == x then 0 else 1 + FirstIndex(s[1..], x)
  }

  /** Appending to a list does not move the first occurrence of an element
      already in it, and an element new to the list first occurs at the end. */
  lemma FirstIndexAppend<T>(s: seq<T>, y: T, x: T)
    requires x in s + [y]
    ensures x in s ==> FirstIndex(s + [y], x) == FirstIndex(s, x)
    ensures x !in s ==> FirstIndex(s + [y], x) == |s|
  {
    var k := FirstIndex(s + [y], x);
    assert forall i :: 0 <= i < k ==> (s + [y])[i] != x;
    if x in s {
      var j := FirstIndex(s, x);
      assert forall i :: 0 <= i < j ==> s[i] != x;
      assert (s + [y])[j] == x;
    }
  }

  /** One more cell adds its category at the end when it is present and new,
      and otherwise leaves the list as it was. */
  lemma RawCategoriesStep(before: seq<Option<string>>, last: Option<string>)
    ensures var r := RawCategories(before + [last]);
            var earlier := RawCategories(before);
            r == earlier || (last.Some? && last !in before && r == earlier + [last.value])
  {
    assert (before + [last])[..|before|] == before;
  }

  /** `unique()` keeps the order of first appearance: of two listed
      categories, the earlier one first occurs earlier in the column. */
  lemma {:induction false} RawCategoriesInOrder(column: seq<Option<string>>)
    ensures var r := RawCategories(column);
            forall i, j :: 0 <= i < j < |r| ==>
              FirstIndex(column, Some(r[i])) < FirstIndex(column, Some(r[j]))
  {
    if column != [] {
      var before := column[..|column| - 1];
      var last := column[|column| - 1];
      assert column == before + [last];
      RawCategoriesInOrder(before);
      RawCategoriesStep(before, last);
      var earlier := RawCategories(before);
      var r := RawCategories(column);
      forall i, j | 0 <= i < j < |r|
        ensures FirstIndex(column, Some(r[i])) < FirstIndex(column, Some(r[j]))
      {
        assert r[i] == earlier[i];
        FirstIndexAppend(before, last, Some(r[i]));
        FirstIndexAppend(before, last, Some(r[j]));
        if j < |earlier| {
          assert r[j] == earlier[j];
        }
      }
    }
  }

  /** Strictly increasing in Python's string order. */
  predicate StrictlySorted(s: seq<string>) {
    forall i, j :: 0 <= i < j < |s| ==> LexLess(s[i], s[j])
  }

  /** Puts `x` into its place in a strictly sorted list, unless it is there. */
  function InsertSorted(x: string, s: seq<string>): (r: seq<string>)
    requires StrictlySorted(s)
    ensures StrictlySorted(r)
    ensures forall y :: y in r <==> y == x || y in s
  {
    if s == [] then [x]
    else if x == s[0] then s
    else if LexLess(x, s[0]) then
      InsertedFirst(x, s);
      [x] + s
    else
      LexTotal(x, s[0]);
      var rest := InsertSorted(x, s[1..]);
      assert forall y :: y in rest ==> LexLess(s[0], y);
      [s[0]] + rest
  }

  /** A name smaller than the head of a strictly sorted list can go in front. */
  lemma InsertedFirst(x: string, s: seq<string>)
    requires StrictlySorted(s) && s != [] && LexLess(x, s[0])
    ensures StrictlySorted([x] + s)
  {
    forall j | 0 < j < |s| ensures LexLess(x, s[j]) {
      LexTransitive(x, s[0], s[j]);
    }
  }

  lemma SortedIsDistinct(s: seq<string>)
    requires StrictlySorted(s)
    ensures Distinct(s)
  {
    forall i, j | 0 <= i < j < |s| ensures s[i] != s[j] {
      if s[i] == s[j] {
        LexIrreflexive(s[i]);
      }
    }
  }

  /** `sorted(set(clean_category(c) for c in raw_cats if clean_category(c) != "—"))`:
      the cleaned names other than the dash, each once, in ascending order. */
  function CleanedCats(raw: seq<string>, nameOf: string -> string): (r: seq<string>)
    ensures StrictlySorted(r) && Distinct(r)
    ensures forall k :: k in r <==> k != Dash && RawsNamed(raw, k, nameOf) != []
  {
    if raw == [] then []
    else
      var earlier := CleanedCats(raw[..|raw| - 1], nameOf);
      var name := nameOf(raw[|raw| - 1]);
      assert raw == raw[..|raw| - 1] + [raw[|raw| - 1]];
      var r := if name == Dash then earlier else InsertSorted(name, earlier);
      SortedIsDistinct(r);
      r
  }

  /** A strictly sorted list is fixed by its elements: `cleaned_cats` is the
      only ascending, duplicate-free list of those names. */
  lemma {:induction false} SortedListUnique(s: seq<string>, t: seq<string>)
    requires StrictlySorted(s) && StrictlySorted(t)
    requires forall x :: x in s <==> x in t
    ensures s == t
  {
    if s != [] && t != [] {
      assert s[0] in s && t[0] in t;
      if s[0] != t[0] {
        var i :| 0 <= i < |t| && t[i] == s[0];
        var j :| 0 <= j < |s| && s[j] == t[0];
        assert LexLess(t[0], t[i]) && LexLess(s[0], s[j]);
        LexAsymmetric(s[0], t[0]);
        assert false;
      }
      forall x ensures x in s[1..] <==> x in t[1..] {
        LexIrreflexive(s[0]);
        if x in s[1..] {
          var i :| 1 <= i < |s| && s[i] == x;
          assert LexLess(s[0], s[i]);
          assert x in t;
        }
        if x in t[1..] {
          var i :| 1 <= i < |t| && t[i] == x;
          assert LexLess(t[0], t[i]);
          assert x in s;
        }
      }
      SortedListUnique(s[1..], t[1..]);
      assert s == [s[0]] + s[1..] && t == [t[0]] + t[1..];
    } else if s != [] {
      HeadIsElement(s);
      assert false;
    } else if t != [] {
      HeadIsElement(t);
      assert false;
    }
  }

  lemma HeadIsElement<T>(s: seq<T>)
    requires s != []
    ensures s[0] in s
  {
  }

  /** The raw categories, in input order, whose cleaned name is `name`. */
  function RawsNamed(raw: seq<string>, name: string, nameOf: string -> string): (r: seq<string>)
    ensures forall c :: c in r <==> c in raw && nameOf(c) == name
    ensures |r| <= |raw|
  {
    if raw == [] then []
    else
      var last := raw[|raw| - 1];
      assert raw == raw[..|raw| - 1] + [last];
      RawsNamed(raw[..|raw| - 1], name, nameOf) + if nameOf(last) == name then [last] else []
  }

  lemma RawsNamedAppend(raw: seq<string>, x: string, name: string, nameOf: string -> string)
    ensures RawsNamed(raw + [x], name, nameOf)
            == RawsNamed(raw, name, nameOf) + if nameOf(x) == name then [x] else []
  {
    assert (raw + [x])[..|raw|] == raw;
  }

  /** `cat_to_raw.get(name, [])`. */
  function Lookup(m: map<string, seq<string>>, name: string): (r: seq<string>)
    ensures name !in m ==> r == []
  {
    if name in m then m[name] else []
  }

  /** `m` is `cat_to_raw` for the raw categories `raw`: every name looks up
      its raw categories in input order, and no key holds an empty list. */
  ghost predicate GroupsOf(m: map<string, seq<string>>, raw: seq<string>, nameOf: string -> string) {
    forall name :: Lookup(m, name) == RawsNamed(raw, name, nameOf) && (name in m ==> m[name] != [])
  }

  /** One `setdefault(...).append(raw[i])` turns the map for the first `i`
      raw categories into the map for the first `i + 1`. */
  lemma GroupsStep(m: map<string, seq<string>>, raw: seq<string>, i: nat, nameOf: string -> string)
    requires i < |raw| && GroupsOf(m, raw[..i], nameOf)
    ensures GroupsOf(m[nameOf(raw[i]) := Lookup(m, nameOf(raw[i])) + [raw[i]]], raw[..i + 1], nameOf)
  {
    var x := raw[i];
    var before := raw[..i];
    assert raw[..i + 1] == before + [x];
    var name := nameOf(x);
    var m' := m[name := Lookup(m, name) + [x]];
    forall other
      ensures Lookup(m', other) == RawsNamed(before + [x], other, nameOf)
      ensures other in m' ==> m'[other] != []
    {
      RawsNamedAppend(before, x, other, nameOf);
      if other != name {
        assert Lookup(m', other) == Lookup(m, other);
      }
    }
  }

  /** The loop that fills `cat_to_raw` with `setdefault(...).append(raw)`: a
      key for exactly the cleaned names that occur (the dash included),
      holding the raw categories with that name in input order. */
  method CatToRaw(raw: seq<string>, nameOf: string -> string) returns (m: map<string, seq<string>>)
    ensures forall name :: name in m <==> RawsNamed(raw, name, nameOf) != []
    ensures forall name :: name in m ==> m[name] == RawsNamed(raw, name, nameOf)
  {
    m := map[];
    for i := 0 to |raw|
      invariant GroupsOf(m, raw[..i], nameOf)
    {
      GroupsStep(m, raw, i, nameOf);
      var name := nameOf(raw[i]);
      m := m[name := Lookup(m, name) + [raw[i]]];
    }
    assert raw[..|raw|] == raw;
    forall name ensures name in m <==> RawsNamed(raw, name, nameOf) != [] {
      assert Lookup(m, name) == RawsNamed(raw, name, nameOf);
    }
  }

  /** Every raw category whose cleaned name is not the dash has its name
      offered in the filter box, and every offered name has a non-empty entry
      in `cat_to_raw`, so filtering on a chosen name finds its raw categories
      (app.py line 276). */
  lemma FilterNamesHaveRaws(raw: seq<string>)
    ensures forall c :: c in raw && CategoryName(c) != Dash ==> CategoryName(c) in CleanedCats(raw, CategoryName)
    ensures forall k :: k in CleanedCats(raw, CategoryName) ==> RawsNamed(raw, k, CategoryName) != []
  {
    forall c | c in raw && CategoryName(c) != Dash
      ensures CategoryName(c) in CleanedCats(raw, CategoryName)
    {
      assert c in RawsNamed(raw, CategoryName(c), CategoryName);
    }
  }
}
