/** The singles list view: a chain of filters followed by an optional sort
    by age. It is written once over any record type, through a `view` that
    reads off the fields the filters and the sort look at; the dashboard and
    the early single-page app differ only in the name they search. */
module Query {
  import opened Wrappers
  import opened Text
  import opened Seqs

  /** The fields the list view reads from a record. */
  datatype Listing = Listing(displayName: string, notes: string, gender: string, age: int)

  /** `sortOrder: 'asc' | 'desc' | ''` */
  datatype SortOrder = Unsorted | Ascending | Descending

  /** The filter and sort settings of the list view; an absent age bound
      is the empty string of the `number | ''` input. */
  datatype Criteria = Criteria(
    searchTerm: string,
    filterGender: string,
    minAge: Option<int>,
    maxAge: Option<int>,
    sortOrder: SortOrder)

  /** One `.filter` call of the chain. */
  datatype Stage = Search(term: string) | Gender(gender: string) | MinAge(bound: Option<int>) | MaxAge(bound: Option<int>)

  /** The predicate each stage applies. The search looks in the name or the
      notes, ignoring letter case; the gender test runs only for a non-empty
      gender; an age bound runs whenever it is set, 0 included. */
  predicate Passes(st: Stage, l: Listing) {
    match st
    case Search(term) =>
      Includes(Lower(l.displayName), Lower(term)) || Includes(Lower(l.notes), Lower(term))
    case Gender(g) => if g != "" then l.gender == g else true
    case MinAge(b) => if b.Some? then l.age >= b.value else true
    case MaxAge(b) => if b.Some? then l.age <= b.value else true
  }

  /** A stage whose setting is empty. */
  predicate Inactive(st: Stage) {
    match st
    case Search(term) => term == ""
    case Gender(g) => g == ""
    case MinAge(b) => b.None?
    case MaxAge(b) => b.None?
  }

  /** All four filters of the chain accept the record. */
  predicate Keep(c: Criteria, l: Listing) {
    && Passes(Search(c.searchTerm), l)
    && Passes(Gender(c.filterGender), l)
    && Passes(MinAge(c.minAge), l)
    && Passes(MaxAge(c.maxAge), l)
  }

  /** `xs.filter(...)` for one stage: the records the stage accepts, each as
      often as in `xs`, in their original order. */
  function Apply<T(!new)>(xs: seq<T>, view: T -> Listing, st: Stage): (r: seq<T>)
    ensures SubseqOf(r, xs)
    decreases |xs|
  {
    if |xs| == 0 then []
    else
      var rest := Apply(xs[1..], view, st);
      if Passes(st, view(xs[0])) then [xs[0]] + rest else rest
  }

  /** A stage keeps every accepted record as often as it occurs, and no
      other record. */
  lemma {:induction false} ApplyCounts<T(!new)>(xs: seq<T>, view: T -> Listing, st: Stage)
    ensures forall x :: multiset(Apply(xs, view, st))[x] == if Passes(st, view(x)) then multiset(xs)[x] else 0
    decreases |xs|
  {
    if |xs| > 0 {
      ApplyCounts(xs[1..], view, st);
      assert xs == [xs[0]] + xs[1..];
    }
  }

  /** A stage with an empty setting removes nothing. */
  lemma {:induction false} InactiveStageKeepsAll<T(!new)>(xs: seq<T>, view: T -> Listing, st: Stage)
    requires Inactive(st)
    ensures Apply(xs, view, st) == xs
    decreases |xs|
  {
    if |xs| > 0 {
      if st.Search? {
        IncludesEmpty(Lower(view(xs[0]).displayName));
      }
      InactiveStageKeepsAll(xs[1..], view, st);
    }
  }

  /** The four filters of the chain, in the source's order. */
  function Filtered<T(!new)>(xs: seq<T>, view: T -> Listing, c: Criteria): (r: seq<T>)
    ensures SubseqOf(r, xs)
    ensures forall x :: multiset(r)[x] == if Keep(c, view(x)) then multiset(xs)[x] else 0
  {
    var a := Apply(xs, view, Search(c.searchTerm));
    var b := Apply(a, view, Gender(c.filterGender));
    var d := Apply(b, view, MinAge(c.minAge));
    var r := Apply(d, view, MaxAge(c.maxAge));
    ApplyCounts(xs, view, Search(c.searchTerm));
    ApplyCounts(a, view, Gender(c.filterGender));
    ApplyCounts(b, view, MinAge(c.minAge));
    ApplyCounts(d, view, MaxAge(c.maxAge));
    SubseqTrans(b, a, xs);
    SubseqTrans(d, b, xs);
    SubseqTrans(r, d, xs);
    r
  }

  /** A stage that accepts every record of `xs` returns `xs` itself. */
  lemma {:induction false} AllPassKeepsAll<T(!new)>(xs: seq<T>, view: T -> Listing, st: Stage)
    requires forall i :: 0 <= i < |xs| ==> Passes(st, view(xs[i]))
    ensures Apply(xs, view, st) == xs
    decreases |xs|
  {
    if |xs| > 0 {
      AllPassKeepsAll(xs[1..], view, st);
      assert xs == [xs[0]] + xs[1..];
    }
  }

  /** With every setting empty, the filters remove nothing. */
  lemma InactiveCriteriaKeepAll<T(!new)>(xs: seq<T>, view: T -> Listing, c: Criteria)
    requires c.searchTerm == "" && c.filterGender == "" && c.minAge.None? && c.maxAge.None?
    ensures Filtered(xs, view, c) == xs
  {
    InactiveStageKeepsAll(xs, view, Search(c.searchTerm));
    InactiveStageKeepsAll(xs, view, Gender(c.filterGender));
    InactiveStageKeepsAll(xs, view, MinAge(c.minAge));
    InactiveStageKeepsAll(xs, view, MaxAge(c.maxAge));
  }

  /** Filtering a concatenation filters each part. */
  lemma {:induction false} ApplyAppend<T(!new)>(a: seq<T>, b: seq<T>, view: T -> Listing, st: Stage)
    ensures Apply(a + b, view, st) == Apply(a, view, st) + Apply(b, view, st)
    decreases |a|
  {
    if |a| > 0 {
      var ab := a + b;
      assert ab[0] == a[0];
      assert ab[1..] == a[1..] + b;
      var ra, rb, rt := Apply(a[1..], view, st), Apply(b, view, st), Apply(a[1..] + b, view, st);
      ApplyAppend(a[1..], b, view, st);
      assert rt == ra + rb;
      if Passes(st, view(a[0])) {
        assert Apply(ab, view, st) == [a[0]] + rt;
        assert Apply(a, view, st) == [a[0]] + ra;
      } else {
        assert Apply(ab, view, st) == rt;
        assert Apply(a, view, st) == ra;
      }
    } else {
      assert a + b == b;
    }
  }

  lemma ApplyOne<T(!new)>(x: T, view: T -> Listing, st: Stage)
    ensures Apply([x], view, st) == if Passes(st, view(x)) then [x] else []
  {
    assert [x][1..] == [];
  }

  lemma ApplyEmpty<T(!new)>(view: T -> Listing, st: Stage)
    ensures Apply([], view, st) == []
  {
  }

  /** One stage applied to `a` followed by at most one more record `x`. */
  lemma ApplyWithTail<T(!new)>(a: seq<T>, x: T, present: bool, view: T -> Listing, st: Stage)
    ensures Apply(a + (if present then [x] else []), view, st)
         == Apply(a, view, st) + (if present && Passes(st, view(x)) then [x] else [])
  {
    var o: seq<T> := if present then [x] else [];
    ApplyAppend(a, o, view, st);
    if present {
      ApplyOne(x, view, st);
    } else {
      ApplyEmpty(view, st);
    }
  }

  /** A record appended to the collection appears at the end of the
      filtered sequence when the filters accept it, and otherwise leaves it
      unchanged. */
  lemma FilteredAppendOne<T(!new)>(xs: seq<T>, x: T, view: T -> Listing, c: Criteria)
    ensures Filtered(xs + [x], view, c)
         == Filtered(xs, view, c) + (if Keep(c, view(x)) then [x] else [])
  {
    var l := view(x);
    var p1 := Passes(Search(c.searchTerm), l);
    var p2 := p1 && Passes(Gender(c.filterGender), l);
    var p3 := p2 && Passes(MinAge(c.minAge), l);
    ApplyWithTail(xs, x, true, view, Search(c.searchTerm));
    var a1 := Apply(xs, view, Search(c.searchTerm));
    ApplyWithTail(a1, x, p1, view, Gender(c.filterGender));
    var a2 := Apply(a1, view, Gender(c.filterGender));
    ApplyWithTail(a2, x, p2, view, MinAge(c.minAge));
    var a3 := Apply(a2, view, MinAge(c.minAge));
    ApplyWithTail(a3, x, p3, view, MaxAge(c.maxAge));
  }

  // ---------------------------------------------------------------------
  // Sorting

  /** The comparator passed to `.sort`: `a.age - b.age` ascending,
      `b.age - a.age` descending, 0 without a sort order. */
  function Compare(o: SortOrder, a: int, b: int): int {
    match o
    case Ascending => a - b
    case Descending => b - a
    case Unsorted => 0
  }

  /** The value the comparator actually distinguishes records by: the age,
      or nothing at all when unsorted. */
  function SortKey(o: SortOrder, age: int): int {
    if o.Unsorted? then 0 else age
  }

  /** Two ages compare as 0 exactly when their keys agree, and compare at
      most equal both ways only then. */
  lemma KeyAgreesWithComparator(o: SortOrder, a: int, b: int)
    ensures Compare(o, a, b) == 0 <==> SortKey(o, a) == SortKey(o, b)
    ensures Compare(o, a, b) <= 0 && Compare(o, b, a) <= 0 <==> SortKey(o, a) == SortKey(o, b)
  {
  }

  ghost predicate Sorted<T>(o: SortOrder, s: seq<T>, view: T -> Listing) {
    forall i, j :: 0 <= i < j < |s| ==> Compare(o, view(s[i]).age, view(s[j]).age) <= 0
  }

  /** The records of `s` whose sort key is `k`, in order. */
  function WithKey<T>(o: SortOrder, s: seq<T>, view: T -> Listing, k: int): seq<T>
    decreases |s|
  {
    if |s| == 0 then []
    else (if SortKey(o, view(s[0]).age) == k then [s[0]] else []) + WithKey(o, s[1..], view, k)
  }

  /** Records that compare equal keep their relative order. */
  ghost predicate StableFrom<T>(o: SortOrder, r: seq<T>, s: seq<T>, view: T -> Listing) {
    forall k :: WithKey(o, r, view, k) == WithKey(o, s, view, k)
  }

  /** Put `x` in front of the first record of `t` that it does not compare
      greater than. */
  function Insert<T>(o: SortOrder, x: T, t: seq<T>, view: T -> Listing): (r: seq<T>)
    ensures multiset(r) == multiset(t) + multiset{x}
    ensures |r| == |t| + 1
    decreases |t|
  {
    if |t| == 0 then [x]
    else if Compare(o, view(x).age, view(t[0]).age) > 0 then
      assert t == [t[0]] + t[1..];
      [t[0]] + Insert(o, x, t[1..], view)
    else [x] + t
  }

  /** `.sort(comparator)`: the stable sort that ECMAScript requires, as an
      insertion sort that places each record before the ones it ties with. */
  function Sort<T>(o: SortOrder, s: seq<T>, view: T -> Listing): (r: seq<T>)
    ensures multiset(r) == multiset(s)
    ensures |r| == |s|
    ensures Sorted(o, r, view)
    decreases |s|
  {
    if |s| == 0 then []
    else
      var t := Sort(o, s[1..], view);
      InsertKeepsSorted(o, s[0], t, view);
      assert s == [s[0]] + s[1..];
      Insert(o, s[0], t, view)
  }

  lemma {:induction false} InsertKeepsSorted<T>(o: SortOrder, x: T, t: seq<T>, view: T -> Listing)
    requires Sorted(o, t, view)
    ensures Sorted(o, Insert(o, x, t, view), view)
    decreases |t|
  {
    if |t| > 0 && Compare(o, view(x).age, view(t[0]).age) > 0 {
      var rest := Insert(o, x, t[1..], view);
      InsertKeepsSorted(o, x, t[1..], view);
      forall j | 0 <= j < |rest|
        ensures Compare(o, view(t[0]).age, view(rest[j]).age) <= 0
      {
        assert rest[j] in multiset(rest);
        if rest[j] != x {
          assert rest[j] in multiset(t[1..]);
          var m :| 0 <= m < |t[1..]| && t[1..][m] == rest[j];
          assert t[m + 1] == rest[j];
        }
      }
      var r := [t[0]] + rest;
      assert forall i :: 0 < i < |r| ==> r[i] == rest[i - 1];
    }
  }

  lemma {:induction false} InsertKeepsTies<T>(o: SortOrder, x: T, t: seq<T>, view: T -> Listing, k: int)
    ensures WithKey(o, Insert(o, x, t, view), view, k)
         == (if SortKey(o, view(x).age) == k then [x] else []) + WithKey(o, t, view, k)
    decreases |t|
  {
    var xs: seq<T> := if SortKey(o, view(x).age) == k then [x] else [];
    if |t| == 0 {
      assert WithKey(o, [x], view, k) == xs + WithKey(o, [x][1..], view, k);
    } else if Compare(o, view(x).age, view(t[0]).age) > 0 {
      var t0: seq<T> := if SortKey(o, view(t[0]).age) == k then [t[0]] else [];
      var r := [t[0]] + Insert(o, x, t[1..], view);
      InsertKeepsTies(o, x, t[1..], view, k);
      assert r[1..] == Insert(o, x, t[1..], view);
      assert |xs| == 0 || |t0| == 0;
      assert r[0] == t[0];
      calc {
        WithKey(o, r, view, k);
        t0 + WithKey(o, Insert(o, x, t[1..], view), view, k);
        t0 + (xs + WithKey(o, t[1..], view, k));
        { assert t0 + xs == xs + t0; }
        xs + (t0 + WithKey(o, t[1..], view, k));
      }
    } else {
      assert ([x] + t)[1..] == t;
    }
  }

  /** The sort is stable: for every key, the records with that key appear
      in the output in the same order as in the input. */
  lemma {:induction false} SortIsStable<T>(o: SortOrder, s: seq<T>, view: T -> Listing)
    ensures StableFrom(o, Sort(o, s, view), s, view)
    decreases |s|
  {
    if |s| > 0 {
      SortIsStable(o, s[1..], view);
      forall k ensures WithKey(o, Sort(o, s, view), view, k) == WithKey(o, s, view, k) {
        InsertKeepsTies(o, s[0], Sort(o, s[1..], view), view, k);
      }
    }
  }

  /** Without a sort order the comparator always answers 0 and the input
      order is kept exactly. */
  lemma {:induction false} UnsortedKeepsOrder<T>(s: seq<T>, view: T -> Listing)
    ensures Sort(Unsorted, s, view) == s
    decreases |s|
  {
    if |s| > 0 {
      UnsortedKeepsOrder(s[1..], view);
      assert s == [s[0]] + s[1..];
    }
  }

  /** Sorting what is already in order changes nothing. */
  lemma {:induction false} SortedIsUnchanged<T>(o: SortOrder, s: seq<T>, view: T -> Listing)
    requires Sorted(o, s, view)
    ensures Sort(o, s, view) == s
    decreases |s|
  {
    if |s| > 0 {
      SortedIsUnchanged(o, s[1..], view);
      assert s == [s[0]] + s[1..];
    }
  }

  /** Sorting twice with the same order is sorting once. */
  lemma SortIsIdempotent<T>(o: SortOrder, s: seq<T>, view: T -> Listing)
    ensures Sort(o, Sort(o, s, view), view) == Sort(o, s, view)
  {
    SortedIsUnchanged(o, Sort(o, s, view), view);
  }

  lemma {:induction false} WithKeyMembers<T>(o: SortOrder, s: seq<T>, view: T -> Listing, k: int, i: int)
    requires 0 <= i < |WithKey(o, s, view, k)|
    ensures exists m :: 0 <= m < |s| && s[m] == WithKey(o, s, view, k)[i] && SortKey(o, view(s[m]).age) == k
    decreases |s|
  {
    var head: seq<T> := if SortKey(o, view(s[0]).age) == k then [s[0]] else [];
    if i < |head| {
      assert s[0] == WithKey(o, s, view, k)[i];
    } else {
      WithKeyMembers(o, s[1..], view, k, i - |head|);
      var m :| 0 <= m < |s[1..]| && s[1..][m] == WithKey(o, s[1..], view, k)[i - |head|]
        && SortKey(o, view(s[1..][m]).age) == k;
      assert s[m + 1] == WithKey(o, s, view, k)[i];
    }
  }

  /** The first record of a non-empty sequence belongs to its own group of ties. */
  lemma HeadHasGroup<T>(o: SortOrder, s: seq<T>, view: T -> Listing)
    requires |s| > 0
    ensures |WithKey(o, s, view, SortKey(o, view(s[0]).age))| > 0
  {
  }

  /** The first record of a sorted sequence compares at most equal to every
      record that has key `k`. */
  lemma HeadComparesFirst<T>(o: SortOrder, s: seq<T>, view: T -> Listing, k: int)
    requires Sorted(o, s, view) && |s| > 0 && |WithKey(o, s, view, k)| > 0
    ensures Compare(o, view(s[0]).age, view(WithKey(o, s, view, k)[0]).age) <= 0
  {
    WithKeyMembers(o, s, view, k, 0);
  }

  /** Two sorted sequences that agree on the order of every group of ties
      are the same sequence. */
  lemma {:induction false} SortedTiesDetermine<T>(o: SortOrder, u: seq<T>, v: seq<T>, view: T -> Listing)
    requires Sorted(o, u, view) && Sorted(o, v, view)
    requires StableFrom(o, u, v, view)
    ensures u == v
    decreases |u|
  {
    if |u| == 0 || |v| == 0 {
      if |u| != |v| {
        var w := if |u| > 0 then u else v;
        HeadHasGroup(o, w, view);
        assert false;
      }
    } else {
      var a := SortKey(o, view(u[0]).age);
      var b := SortKey(o, view(v[0]).age);
      assert WithKey(o, u, view, a)[0] == u[0];
      assert WithKey(o, v, view, b)[0] == v[0];
      HeadComparesFirst(o, v, view, a);
      HeadComparesFirst(o, u, view, b);
      assert a == b;
      assert u[0] == v[0];
      forall k ensures WithKey(o, u[1..], view, k) == WithKey(o, v[1..], view, k) {
        var head: seq<T> := if a == k then [u[0]] else [];
        assert WithKey(o, u, view, k) == head + WithKey(o, u[1..], view, k);
        assert WithKey(o, v, view, k) == head + WithKey(o, v[1..], view, k);
        assert WithKey(o, u[1..], view, k) == WithKey(o, u, view, k)[|head|..];
      }
      SortedTiesDetermine(o, u[1..], v[1..], view);
      assert u == [u[0]] + u[1..];
      assert v == [v[0]] + v[1..];
    }
  }

  /** Any sorted rearrangement that keeps ties in input order is what this
      sort returns; so every stable sorting algorithm, whatever its inner
      workings, produces exactly this output. */
  lemma StableSortIsUnique<T>(o: SortOrder, s: seq<T>, t: seq<T>, view: T -> Listing)
    requires Sorted(o, t, view) && StableFrom(o, t, s, view)
    ensures t == Sort(o, s, view)
  {
    SortIsStable(o, s, view);
    SortedTiesDetermine(o, t, Sort(o, s, view), view);
  }

  // ---------------------------------------------------------------------
  // The whole pipeline

  /** `filteredSingles`: the four filters, then the sort. A record is shown
      exactly when every active filter accepts it, as often as it occurs in
      the input, and the shown records are in the requested age order. */
  function Run<T(!new)>(xs: seq<T>, view: T -> Listing, c: Criteria): (r: seq<T>)
    ensures forall x :: multiset(r)[x] == if Keep(c, view(x)) then multiset(xs)[x] else 0
    ensures forall x :: x in r <==> x in xs && Keep(c, view(x))
    ensures forall i :: 0 <= i < |r| ==> Keep(c, view(r[i]))
    ensures multiset(r) <= multiset(xs) && |r| <= |xs|
    ensures Sorted(c.sortOrder, r, view)
  {
    var f := Filtered(xs, view, c);
    SubseqDrawsFrom(f, xs);
    var r := Sort(c.sortOrder, f, view);
    ShownAreAccepted(f, r, view, c);
    r
  }

  lemma ShownAreAccepted<T(!new)>(f: seq<T>, r: seq<T>, view: T -> Listing, c: Criteria)
    requires forall x :: multiset(f)[x] > 0 ==> Keep(c, view(x))
    requires multiset(r) == multiset(f)
    ensures forall i :: 0 <= i < |r| ==> Keep(c, view(r[i]))
  {
    forall i | 0 <= i < |r| ensures Keep(c, view(r[i])) {
      assert r[i] in multiset(r);
    }
  }

  /** Records the comparator treats as equal keep the relative order the
      filters left them in; in particular, records of equal age. */
  lemma RunIsStable<T(!new)>(xs: seq<T>, view: T -> Listing, c: Criteria)
    ensures StableFrom(c.sortOrder, Run(xs, view, c), Filtered(xs, view, c), view)
  {
    SortIsStable(c.sortOrder, Filtered(xs, view, c), view);
  }

  /** Without a sort order the view is the filtered subsequence itself, in
      input order. */
  lemma UnsortedRunIsSubsequence<T(!new)>(xs: seq<T>, view: T -> Listing, c: Criteria)
    requires c.sortOrder == Unsorted
    ensures Run(xs, view, c) == Filtered(xs, view, c)
    ensures SubseqOf(Run(xs, view, c), xs)
  {
    UnsortedKeepsOrder(Filtered(xs, view, c), view);
  }

  /** Applying the same settings to the view again changes nothing. */
  lemma RunIsIdempotent<T(!new)>(xs: seq<T>, view: T -> Listing, c: Criteria)
    ensures Run(Run(xs, view, c), view, c) == Run(xs, view, c)
  {
    var r := Run(xs, view, c);
    assert forall i :: 0 <= i < |r| ==> r[i] in r;
    AllPassKeepsAll(r, view, Search(c.searchTerm));
    AllPassKeepsAll(r, view, Gender(c.filterGender));
    AllPassKeepsAll(r, view, MinAge(c.minAge));
    AllPassKeepsAll(r, view, MaxAge(c.maxAge));
    assert Filtered(r, view, c) == r;
    SortedIsUnchanged(c.sortOrder, r, view);
  }
}
