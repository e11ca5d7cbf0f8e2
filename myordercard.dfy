/**
 The order card's summary of an order: how many of each pizza it holds.

 The card walks the order's pizzas once, counting them per name in a
 JavaScript `Map`, and then lists the map's entries. A `Map` iterates its keys
 in insertion order, and setting an existing key keeps its place, so each
 name is listed where it first occurs in the order. Pizzas are modelled by
 their names, the only field the summary reads.
 */
module MyOrderCard {
  import opened Sequences

  /** One line of the card: a pizza name and how many pizzas of that name the order holds. */
  datatype PizzaCount = PizzaCount(name: string, count: nat)

  /** The names of the lines, in order. */
  function Names(r: seq<PizzaCount>): (names: seq<string>)
    ensures |names| == |r|
    ensures forall i :: 0 <= i < |r| ==> names[i] == r[i].name
  {
    seq(|r|, i requires 0 <= i < |r| => r[i].name)
  }

  /** The distinct names of `s`, each once, in the order they first occur in `s`. */
  function Distinct(s: seq<string>): (d: seq<string>)
    ensures forall x :: x in d <==> x in s
    ensures forall i :: 0 <= i < |d| ==> d[i] in s
    ensures forall i, j :: 0 <= i < j < |d| ==> d[i] != d[j]
    ensures |d| <= |s|
  {
    if s == [] then []
    else
      var p := s[..|s| - 1];
      var y := s[|s| - 1];
      assert s == p + [y];
      var d := Distinct(p);
      if y in d then d else d + [y]
  }

  /** What the card shows for an order with pizzas `s`: each distinct name with its multiplicity. */
  function Aggregate(s: seq<string>): (r: seq<PizzaCount>)
    ensures r == [] <==> s == []
    ensures forall i, j :: 0 <= i < j < |r| ==> r[i].name != r[j].name
    ensures forall i :: 0 <= i < |r| ==> r[i].name in s && r[i].count >= 1
  {
    var d := Distinct(s);
    assert s != [] ==> s[0] in d;
    assert forall i :: 0 <= i < |d| ==> multiset(s)[d[i]] > 0;
    seq(|d|, i requires 0 <= i < |d| => PizzaCount(d[i], multiset(s)[d[i]]))
  }

  /**
   What a correct summary of `s` is, stated without reference to how it is
   built: every name of `s` and no other is listed, each with its
   multiplicity, in the order of first occurrence.
   */
  ghost predicate IsCountSummary(s: seq<string>, r: seq<PizzaCount>)
  {
    && (forall x :: x in s <==> x in Names(r))
    && (forall i :: 0 <= i < |r| ==> r[i].count == multiset(s)[r[i].name])
    && InFirstOccurrenceOrder(s, Names(r))
  }

  /** The names `n` are listed strictly in the order of their first occurrence in `s`. */
  ghost predicate InFirstOccurrenceOrder(s: seq<string>, n: seq<string>)
  {
    forall i, j :: 0 <= i < j < |n| ==> IndexOf(s, n[i]) < IndexOf(s, n[j])
  }

  /** The sum of the counts on the card. */
  function TotalCount(r: seq<PizzaCount>): nat
  {
    if r == [] then 0 else TotalCount(r[..|r| - 1]) + r[|r| - 1].count
  }

  /**
   The state of the card's `Map` after counting the pizzas `p`: its keys in
   insertion order are the distinct names of `p`, and each maps to its multiplicity.
   */
  ghost predicate Tallies(keys: seq<string>, counts: map<string, nat>, p: seq<string>)
  {
    && keys == Distinct(p)
    && (forall k :: k in counts <==> k in keys)
    && CountsMatch(counts, p)
  }

  /** The counts of the map agree with the multiplicities in `p`. */
  ghost predicate CountsMatch(counts: map<string, nat>, p: seq<string>)
  {
    forall k :: k in counts ==> counts[k] == multiset(p)[k]
  }

  /** Raising the count of `name` by one keeps the counts in step with one more `name` pizza. */
  lemma CountsMatchAppend(counts: map<string, nat>, p: seq<string>, name: string)
    requires CountsMatch(counts, p)
    requires name in counts || name !in p
    ensures CountsMatch(counts[name := multiset(p)[name] + 1], p + [name])
  {
    assert multiset(p + [name]) == multiset(p) + multiset{name};
  }

  /** Counting a pizza whose name the map already holds: `set` bumps its count in place. */
  lemma TallyKnownName(keys: seq<string>, counts: map<string, nat>, p: seq<string>, name: string)
    requires Tallies(keys, counts, p)
    requires name in counts
    ensures counts[name] >= 1
    ensures Tallies(keys, counts[name := counts[name] + 1], p + [name])
  {
    assert name in p;
    assert keys == Distinct(p + [name]) by {
      DistinctAppend(p, name);
    }
    assert CountsMatch(counts[name := counts[name] + 1], p + [name]) by {
      assert CountsMatch(counts, p);
      CountsMatchAppend(counts, p, name);
    }
  }

  /** Counting a pizza with a new name: `set` appends the key with count 1. */
  lemma TallyNewName(keys: seq<string>, counts: map<string, nat>, p: seq<string>, name: string)
    requires Tallies(keys, counts, p)
    requires name !in counts
    ensures Tallies(keys + [name], counts[name := 1], p + [name])
  {
    assert name !in p;
    assert keys + [name] == Distinct(p + [name]) by {
      DistinctAppend(p, name);
    }
    assert CountsMatch(counts[name := 1], p + [name]) by {
      assert CountsMatch(counts, p);
      CountsMatchAppend(counts, p, name);
    }
  }

  /** Listing the entries of a tally of `p` in key order gives the summary of `p`. */
  lemma TallyEntries(keys: seq<string>, counts: map<string, nat>, p: seq<string>)
    requires Tallies(keys, counts, p)
    ensures forall j :: 0 <= j < |keys| ==> keys[j] in counts
    ensures seq(|keys|, j requires 0 <= j < |keys| => PizzaCount(keys[j], counts[keys[j]])) == Aggregate(p)
  {
    forall j | 0 <= j < |keys|
      ensures keys[j] in counts && counts[keys[j]] == multiset(p)[keys[j]]
    {
      assert keys[j] in keys;
    }
  }

  /**
   The `useEffect` callback of the card: counts the pizzas per name in an
   insertion-ordered map (`keys` in insertion order, `counts` the values) and
   lists its entries.
   */
  method CountPizzas(pizzas: seq<string>) returns (pizzaList: seq<PizzaCount>)
    ensures pizzaList == Aggregate(pizzas)
  {
    var keys: seq<string> := [];
    var counts: map<string, nat> := map[];
    var i := 0;
    while i < |pizzas|
      invariant 0 <= i <= |pizzas|
      invariant Tallies(keys, counts, pizzas[..i])
    {
      var name := pizzas[i];
      assert pizzas[..i + 1] == pizzas[..i] + [name];
      if name in counts {
        TallyKnownName(keys, counts, pizzas[..i], name);
      } else {
        TallyNewName(keys, counts, pizzas[..i], name);
      }
      // `pizzaMap.get(name) || 0`: a missing key (and a zero, which never occurs) reads as 0
      var count := if name in counts && counts[name] != 0 then counts[name] else 0;
      // `pizzaMap.set(name, count + 1)`: a new key goes last, an existing one keeps its place
      if name !in counts {
        keys := keys + [name];
      }
      counts := counts[name := count + 1];
      i := i + 1;
    }
    assert pizzas[..i] == pizzas;
    TallyEntries(keys, counts, pizzas);
    // `Array.from(pizzaMap.entries()).map(([name, count]) => ({name, count}))`
    pizzaList := seq(|keys|, j requires 0 <= j < |keys| => PizzaCount(keys[j], counts[keys[j]]));
  }

  /** One more pizza appends its name to the distinct names exactly when the name is new. */
  lemma DistinctAppend(p: seq<string>, y: string)
    ensures Distinct(p + [y]) == if y in Distinct(p) then Distinct(p) else Distinct(p) + [y]
  {
    assert (p + [y])[..|p|] == p;
  }

  /** `Distinct` lists names in the order of their first occurrence. */
  lemma {:induction false} DistinctFirstOccurrenceOrder(s: seq<string>)
    ensures InFirstOccurrenceOrder(s, Distinct(s))
  {
    if s != [] {
      var p := s[..|s| - 1];
      var y := s[|s| - 1];
      assert s == p + [y];
      DistinctFirstOccurrenceOrder(p);
      var d := Distinct(p);
      forall x | x in p
        ensures IndexOf(s, x) == IndexOf(p, x) < |p|
      {
        IndexOfAppend(p, y, x);
      }
      if y !in d {
        IndexOfAppend(p, y, y);
      }
    }
  }

  /** The card's summary meets the characterization. */
  lemma AggregateIsCountSummary(s: seq<string>)
    ensures IsCountSummary(s, Aggregate(s))
  {
    DistinctFirstOccurrenceOrder(s);
    var r := Aggregate(s);
    assert Names(r) == Distinct(s);
  }

  /** Two name lists strictly ordered by first occurrence in `s` that hold the same names are equal. */
  lemma {:induction false} OrderedNamesUnique(s: seq<string>, n1: seq<string>, n2: seq<string>)
    requires InFirstOccurrenceOrder(s, n1)
    requires InFirstOccurrenceOrder(s, n2)
    requires forall x :: x in n1 <==> x in n2
    ensures n1 == n2
    decreases |n1|
  {
    if n1 != [] {
      assert n1[0] in n2;
    }
    if n2 != [] {
      assert n2[0] in n1;
    }
    if n1 != [] {
      var k :| 0 <= k < |n2| && n2[k] == n1[0];
      var m :| 0 <= m < |n1| && n1[m] == n2[0];
      // both heads come first in the order of first occurrence, so they coincide
      var first1, first2 := IndexOf(s, n1[0]), IndexOf(s, n2[0]);
      assert k == 0 || first2 < first1;
      assert m == 0 || first1 < first2;
      assert n1[0] == n2[0];
      OrderedTail(s, n1);
      OrderedTail(s, n2);
      OrderedNamesUnique(s, n1[1..], n2[1..]);
      assert n1 == [n1[0]] + n1[1..];
      assert n2 == [n2[0]] + n2[1..];
    }
  }

  /** In a list strictly ordered by first occurrence, the head does not recur in the tail. */
  lemma OrderedTail(s: seq<string>, n: seq<string>)
    requires n != []
    requires InFirstOccurrenceOrder(s, n)
    ensures InFirstOccurrenceOrder(s, n[1..])
    ensures forall x :: x in n[1..] <==> x in n && x != n[0]
  {
    forall x | x in n[1..]
      ensures x != n[0]
    {
      var a :| 1 <= a < |n| && n[a] == x;
      assert IndexOf(s, n[0]) < IndexOf(s, n[a]);
    }
    assert n == [n[0]] + n[1..];
  }

  /** The characterization admits exactly one summary: the one the card builds. */
  lemma CountSummaryUnique(s: seq<string>, r: seq<PizzaCount>)
    requires IsCountSummary(s, r)
    ensures r == Aggregate(s)
  {
    var a := Aggregate(s);
    AggregateIsCountSummary(s);
    OrderedNamesUnique(s, Names(r), Names(a));
    assert |r| == |a|;
    forall i | 0 <= i < |r|
      ensures r[i] == a[i]
    {
      assert Names(r)[i] == Names(a)[i];
    }
  }

  /** The sum of the multiplicities of the names `n` in `s`. */
  function SumMultiplicities(n: seq<string>, s: seq<string>): nat
  {
    if n == [] then 0 else SumMultiplicities(n[..|n| - 1], s) + multiset(s)[n[|n| - 1]]
  }

  /** One more pizza adds one to the sum over distinct names exactly when its name is among them. */
  lemma {:induction false} SumMultiplicitiesAppend(n: seq<string>, p: seq<string>, y: string)
    requires forall i, j :: 0 <= i < j < |n| ==> n[i] != n[j]
    ensures SumMultiplicities(n, p + [y]) == SumMultiplicities(n, p) + (if y in n then 1 else 0)
  {
    if n != [] {
      var m := n[..|n| - 1];
      assert n == m + [n[|n| - 1]];
      SumMultiplicitiesAppend(m, p, y);
      assert multiset(p + [y]) == multiset(p) + multiset{y};
    }
  }

  /** Over the distinct names of `s`, the multiplicities add up to the length of `s`. */
  lemma {:induction false} SumMultiplicitiesDistinct(s: seq<string>)
    ensures SumMultiplicities(Distinct(s), s) == |s|
  {
    if s != [] {
      var p := s[..|s| - 1];
      var y := s[|s| - 1];
      assert s == p + [y];
      SumMultiplicitiesDistinct(p);
      var d := Distinct(p);
      SumMultiplicitiesAppend(d, p, y);
      if y !in d {
        var e := d + [y];
        assert e[..|e| - 1] == d;
        assert multiset(s)[y] == multiset(p)[y] + 1;
      }
    }
  }

  /** Listing names with their multiplicities keeps the sum. */
  lemma {:induction false} TotalCountOfListing(n: seq<string>, s: seq<string>)
    ensures TotalCount(seq(|n|, i requires 0 <= i < |n| => PizzaCount(n[i], multiset(s)[n[i]])))
         == SumMultiplicities(n, s)
  {
    var r := seq(|n|, i requires 0 <= i < |n| => PizzaCount(n[i], multiset(s)[n[i]]));
    if n != [] {
      var m := n[..|n| - 1];
      TotalCountOfListing(m, s);
      assert r[..|r| - 1] == seq(|m|, i requires 0 <= i < |m| => PizzaCount(m[i], multiset(s)[m[i]]));
    }
  }

  /** The counts on the card add up to the number of pizzas in the order. */
  lemma AggregateTotalCount(s: seq<string>)
    ensures TotalCount(Aggregate(s)) == |s|
  {
    TotalCountOfListing(Distinct(s), s);
    SumMultiplicitiesDistinct(s);
  }

  /** The card lists exactly the names of the order, no name lost and none invented. */
  lemma AggregateNames(s: seq<string>)
    ensures forall x :: x in s <==> x in Names(Aggregate(s))
  {
    AggregateIsCountSummary(s);
  }

  /** Pizzas with the same name collapse into one line whose count is their number. */
  lemma AggregateCountsMultiplicity(s: seq<string>, x: string)
    requires x in s
    ensures exists i :: 0 <= i < |Aggregate(s)| && Aggregate(s)[i] == PizzaCount(x, multiset(s)[x])
  {
    AggregateIsCountSummary(s);
    var r := Aggregate(s);
    assert x in Names(r);
    var i :| 0 <= i < |r| && Names(r)[i] == x;
    assert r[i] == PizzaCount(x, multiset(s)[x]);
  }

  /** The example order A, B, A is shown as A x2 then B x1. */
  lemma AggregateExample()
    ensures Aggregate(["A", "B", "A"]) == [PizzaCount("A", 2), PizzaCount("B", 1)]
  {
    var s := ["A", "B", "A"];
    assert s[..2][..1] == ["A"];
    assert s[..2] == ["A", "B"];
    assert s[..|s| - 1] == ["A", "B"];
    assert Distinct(["A"]) == ["A"];
    assert Distinct(["A", "B"]) == ["A", "B"];
    assert Distinct(s) == ["A", "B"];
    assert multiset(s)["A"] == 2;
  }
}
