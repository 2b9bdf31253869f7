/**
 * `sorted { $0.age < $1.age }` on an employee list, as a stable insertion
 * sort keyed on age, and what makes it THE stable sort: the result is
 * ordered by age, a permutation of the input, and keeps, for every age, the
 * employees of that age in their input order.
 */
module AgeSort {
  import opened Employees

  /** Non-decreasing in age. */
  predicate SortedByAge(s: seq<Employee>) {
    forall i, j :: 0 <= i < j < |s| ==> s[i].age <= s[j].age
  }

  /** The employees of `s` whose age is `a`, in the order they appear in `s`. */
  function WithAge(s: seq<Employee>, a: int): seq<Employee>
  {
    if s == [] then [] else (if s[0].age == a then [s[0]] else []) + WithAge(s[1..], a)
  }

  /** `out` keeps, for every age, the relative order that `xs` has among the employees of that age. */
  ghost predicate SameOrderPerAge(out: seq<Employee>, xs: seq<Employee>) {
    forall a :: WithAge(out, a) == WithAge(xs, a)
  }

  lemma {:induction false} WithAgeConcat(s: seq<Employee>, t: seq<Employee>, a: int)
    ensures WithAge(s + t, a) == WithAge(s, a) + WithAge(t, a)
  {
    if s != [] {
      WithAgeConcat(s[1..], t, a);
      assert (s + t)[0] == s[0] && (s + t)[1..] == s[1..] + t;
    } else {
      assert s + t == t;
    }
  }

  /** Moving `x` past a strictly younger employee changes no age's order. */
  lemma InsertPastYounger(x: Employee, s: seq<Employee>, rest: seq<Employee>)
    requires s != [] && s[0].age < x.age
    requires SameOrderPerAge(rest, [x] + s[1..])
    ensures SameOrderPerAge([s[0]] + rest, [x] + s)
  {
    forall a ensures WithAge([s[0]] + rest, a) == WithAge([x] + s, a) {
      WithAgeConcat([s[0]], rest, a);
      WithAgeConcat([x], s, a);
      assert s == [s[0]] + s[1..];
      WithAgeConcat([s[0]], s[1..], a);
      WithAgeConcat([x], s[1..], a);
    }
  }

  /** Putting an employee no older than the head of a sorted list in front of it keeps it sorted. */
  lemma SortedCons(y: Employee, rest: seq<Employee>)
    requires SortedByAge(rest) && (rest != [] ==> y.age <= rest[0].age)
    ensures SortedByAge([y] + rest)
  {
    var t := [y] + rest;
    forall i, j | 0 <= i < j < |t| ensures t[i].age <= t[j].age {
      if i == 0 {
        assert t[j] == rest[j - 1];
        assert rest[0].age <= rest[j - 1].age;
      } else {
        assert t[i] == rest[i - 1] && t[j] == rest[j - 1];
      }
    }
  }

  /** Places `x` in front of the first employee of `s` that is not younger than `x`. */
  function Insert(x: Employee, s: seq<Employee>): (r: seq<Employee>)
    requires SortedByAge(s)
    ensures SortedByAge(r)
    ensures SameOrderPerAge(r, [x] + s)
    ensures r != [] && (r[0] == x || (s != [] && r[0] == s[0]))
  {
    if s == [] || x.age <= s[0].age then
      [x] + s
    else
      var rest := Insert(x, s[1..]);
      assert s == [s[0]] + s[1..];
      assert |s| > 1 ==> s[0].age <= s[1].age;
      SortedCons(s[0], rest);
      InsertPastYounger(x, s, rest);
      [s[0]] + rest
  }

  /** Insertion adds exactly the one employee. */
  lemma {:induction false} InsertPermutes(x: Employee, s: seq<Employee>)
    requires SortedByAge(s)
    ensures multiset(Insert(x, s)) == multiset(s) + multiset{x}
  {
    if s != [] && s[0].age < x.age {
      InsertPermutes(x, s[1..]);
      assert s == [s[0]] + s[1..];
    }
  }

  /** The stable ascending sort of the fetched employees by age. */
  function SortByAge(xs: seq<Employee>): (r: seq<Employee>)
    ensures SortedByAge(r)
    ensures |r| == |xs| && multiset(r) == multiset(xs)
    ensures SameOrderPerAge(r, xs)
  {
    if xs == [] then
      []
    else
      var r := Insert(xs[0], SortByAge(xs[1..]));
      InsertPermutes(xs[0], SortByAge(xs[1..]));
      assert xs == [xs[0]] + xs[1..];
      assert multiset(r) == multiset(xs);
      r
  }

  lemma {:induction false} WithAgeMembers(s: seq<Employee>, a: int, e: Employee)
    ensures e in WithAge(s, a) <==> e in s && e.age == a
  {
    if s != [] {
      WithAgeMembers(s[1..], a, e);
      assert s == [s[0]] + s[1..];
    }
  }

  lemma HeadIsYoungest(t: seq<Employee>, e: Employee)
    requires SortedByAge(t) && e in t
    ensures t[0].age <= e.age
  {
    var k :| 0 <= k < |t| && t[k] == e;
    assert k == 0 || t[0].age <= t[k].age;
  }

  /** Two age-sorted lists that agree on every age's order agree on their youngest employee's age. */
  lemma SameYoungestAge(s: seq<Employee>, t: seq<Employee>)
    requires SortedByAge(s) && SortedByAge(t) && SameOrderPerAge(s, t) && s != []
    ensures t != [] && s[0].age == t[0].age
  {
    var a := s[0].age;
    WithAgeMembers(s, a, s[0]);
    assert WithAge(s, a) == WithAge(t, a);
    WithAgeMembers(t, a, s[0]);
    HeadIsYoungest(t, s[0]);
    var b := t[0].age;
    WithAgeMembers(t, b, t[0]);
    assert WithAge(s, b) == WithAge(t, b);
    WithAgeMembers(s, b, t[0]);
    HeadIsYoungest(s, t[0]);
  }

  /** A non-empty list has its head among the employees of the head's age. */
  lemma HeadAgePresent(t: seq<Employee>)
    ensures t == [] || WithAge(t, t[0].age) != []
  {
    assert t == [] || WithAge(t, t[0].age) == [t[0]] + WithAge(t[1..], t[0].age);
  }

  /**
   * Ordered by age and keeping every age's order determine the list: there
   * is exactly one stable arrangement of a list by age.
   */
  lemma {:induction false} StableSortUnique(s: seq<Employee>, t: seq<Employee>)
    requires SortedByAge(s) && SortedByAge(t) && SameOrderPerAge(s, t)
    ensures s == t
  {
    if s == [] {
      // the age of t's head would have a non-empty sub-sequence in t and an empty one in s
      HeadAgePresent(t);
    } else {
      SameYoungestAge(s, t);
      var a := s[0].age;
      var ws, wt := WithAge(s[1..], a), WithAge(t[1..], a);
      assert WithAge(s, a) == [s[0]] + ws && WithAge(t, a) == [t[0]] + wt;
      assert WithAge(s, a) == WithAge(t, a);
      assert s[0] == ([s[0]] + ws)[0] == ([t[0]] + wt)[0] == t[0];
      assert ws == ([s[0]] + ws)[1..] == ([t[0]] + wt)[1..] == wt;
      forall c ensures WithAge(s[1..], c) == WithAge(t[1..], c) {
        if c == a {
          assert WithAge(s[1..], c) == ws;
        } else {
          assert WithAge(s, c) == WithAge(t, c);
          assert WithAge(s, c) == WithAge(s[1..], c);
          assert WithAge(t, c) == WithAge(t[1..], c);
        }
      }
      StableSortUnique(s[1..], t[1..]);
      assert s == [s[0]] + s[1..] && t == [t[0]] + t[1..];
    }
  }

  /** `SortByAge(xs)` is the only list that is ordered by age and keeps the order of every age in `xs`. */
  lemma SortByAgeCharacterized(xs: seq<Employee>, out: seq<Employee>)
    ensures out == SortByAge(xs) <==> SortedByAge(out) && SameOrderPerAge(out, xs)
  {
    var r := SortByAge(xs);
    if SortedByAge(out) && SameOrderPerAge(out, xs) {
      StableSortUnique(out, r);
    }
  }

  /** A list that is already ordered by age comes back unchanged. */
  lemma SortByAgeOfSorted(xs: seq<Employee>)
    requires SortedByAge(xs)
    ensures SortByAge(xs) == xs
  {
    SortByAgeCharacterized(xs, xs);
  }
}
