/** The store of one user's substitutions and news (src/substitution_manager.py). */
module SubstitutionManagers {
  import opened Dates
  import opened Models

  // ---------------------------------------------------------------------
  // Deduplication (`list(set(...))`)
  // ---------------------------------------------------------------------

  /** No two positions hold equal records; equality is over all seven
      fields, as the record's hash and equality are. */
  predicate Distinct(s: seq<Substitution>) {
    forall i, j :: 0 <= i < j < |s| ==> s[i] != s[j]
  }

  function Elements(s: seq<Substitution>): set<Substitution> {
    set x | x in s
  }

  /** `list(set(s))`: the same records, each once. The order of a Python
      set is not specified, so the contract says nothing about order. */
  method Deduplicated(s: seq<Substitution>) returns (r: seq<Substitution>)
    ensures Distinct(r)
    ensures forall x :: x in r <==> x in s
  {
    r := [];
    var i := 0;
    while i < |s|
      invariant 0 <= i <= |s|
      invariant Distinct(r)
      invariant forall x :: x in r <==> x in s[..i]
    {
      assert s[..i + 1] == s[..i] + [s[i]];
      if s[i] !in r {
        r := r + [s[i]];
      }
      i := i + 1;
    }
    assert s[..i] == s;
  }

  /** A list without repetitions is as long as the set of its elements. */
  lemma {:induction false} DistinctCardinality(s: seq<Substitution>)
    requires Distinct(s)
    ensures |Elements(s)| == |s|
    decreases |s|
  {
    if s != [] {
      var init := s[..|s| - 1];
      var last := s[|s| - 1];
      assert Distinct(init);
      DistinctCardinality(init);
      assert Elements(s) == Elements(init) + {last};
      assert last !in Elements(init);
    }
  }

  /** Two repetition-free lists with the same elements have the same length:
      deduplicating an already deduplicated list keeps its length. */
  lemma SameElementsSameLength(a: seq<Substitution>, b: seq<Substitution>)
    requires Distinct(a) && Distinct(b)
    requires forall x :: x in a <==> x in b
    ensures |a| == |b|
  {
    DistinctCardinality(a);
    DistinctCardinality(b);
    assert Elements(a) == Elements(b);
  }

  // ---------------------------------------------------------------------
  // Filters
  // ---------------------------------------------------------------------

  /** The records whose field `f` equals `v`, in their stored order: each
      such record as often as it is stored, every other record never. */
  function WithProperty(subs: seq<Substitution>, f: Field, v: string): (r: seq<Substitution>)
    ensures forall x :: x in r <==> x in subs && FieldValue(x, f) == v
  {
    if subs == [] then []
    else
      assert subs == [subs[0]] + subs[1..];
      (if FieldValue(subs[0], f) == v then [subs[0]] else []) + WithProperty(subs[1..], f, v)
  }

  /** Each matching record is kept as often as it is stored. */
  lemma {:induction false} WithPropertyCount(subs: seq<Substitution>, f: Field, v: string, x: Substitution)
    ensures multiset(WithProperty(subs, f, v))[x] == if FieldValue(x, f) == v then multiset(subs)[x] else 0
  {
    if subs != [] {
      assert subs == [subs[0]] + subs[1..];
      WithPropertyCount(subs[1..], f, v, x);
    }
  }

  /** Filtering keeps the stored order: it distributes over concatenation. */
  lemma {:induction false} WithPropertyAppend(a: seq<Substitution>, b: seq<Substitution>, f: Field, v: string)
    ensures WithProperty(a + b, f, v) == WithProperty(a, f, v) + WithProperty(b, f, v)
  {
    if a != [] {
      HeadTail(a, b);
      WithPropertyCons(a[0], a[1..] + b, f, v);
      WithPropertyCons(a[0], a[1..], f, v);
      WithPropertyAppend(a[1..], b, f, v);
      var head := if FieldValue(a[0], f) == v then [a[0]] else [];
      AppendAssoc(head, WithProperty(a[1..], f, v), WithProperty(b, f, v));
    } else {
      assert a + b == b;
    }
  }

  lemma HeadTail<T>(a: seq<T>, b: seq<T>)
    requires a != []
    ensures a == [a[0]] + a[1..] && a + b == [a[0]] + (a[1..] + b)
  {
  }

  lemma AppendAssoc<T>(x: seq<T>, y: seq<T>, z: seq<T>)
    ensures x + (y + z) == (x + y) + z
  {
  }

  /** Filtering a list with a given first element. */
  lemma WithPropertyCons(x: Substitution, rest: seq<Substitution>, f: Field, v: string)
    ensures WithProperty([x] + rest, f, v) == (if FieldValue(x, f) == v then [x] else []) + WithProperty(rest, f, v)
  {
    assert ([x] + rest)[1..] == rest;
  }

  /** The news messages dated `d`: each as often as it is stored, in their
      stored order. */
  function OnDate(news: seq<NewsMessage>, d: Date): (r: seq<NewsMessage>)
    ensures forall m :: m in r <==> m in news && m.date == d
  {
    if news == [] then []
    else
      assert news == [news[0]] + news[1..];
      (if news[0].date == d then [news[0]] else []) + OnDate(news[1..], d)
  }

  /** Each message of that date is kept as often as it is stored. */
  lemma {:induction false} OnDateCount(news: seq<NewsMessage>, d: Date, m: NewsMessage)
    ensures multiset(OnDate(news, d))[m] == if m.date == d then multiset(news)[m] else 0
  {
    if news != [] {
      assert news == [news[0]] + news[1..];
      OnDateCount(news[1..], d, m);
    }
  }

  // ---------------------------------------------------------------------
  // Stable sort by date (`list.sort(key=lambda news: news.date)`)
  // ---------------------------------------------------------------------

  predicate SortedByDate(news: seq<NewsMessage>) {
    forall i, j :: 0 <= i < j < |news| ==> DateLe(news[i].date, news[j].date)
  }

  /** Puts `m` in front of the first message not strictly earlier than it,
      so that it stays ahead of the messages of its own date. */
  function InsertByDate(m: NewsMessage, sorted: seq<NewsMessage>): (r: seq<NewsMessage>)
    ensures multiset(r) == multiset(sorted) + multiset{m}
  {
    if sorted == [] then [m]
    else if DateLe(m.date, sorted[0].date) then [m] + sorted
    else
      assert sorted == [sorted[0]] + sorted[1..];
      [sorted[0]] + InsertByDate(m, sorted[1..])
  }

  /** Insertion into an ascending list gives an ascending list. */
  lemma {:induction false} InsertSorted(m: NewsMessage, sorted: seq<NewsMessage>)
    requires SortedByDate(sorted)
    ensures SortedByDate(InsertByDate(m, sorted))
  {
    if sorted != [] && !DateLe(m.date, sorted[0].date) {
      DateLeTotal(m.date, sorted[0].date);
      var rest := InsertByDate(m, sorted[1..]);
      InsertSorted(m, sorted[1..]);
      forall x | x in rest ensures DateLe(sorted[0].date, x.date) {
        assert x in multiset(rest);
        assert x in sorted[1..] || x == m;
      }
    }
  }

  /** The library's stable sort, as an insertion sort from the back: an
      ascending permutation of its input. */
  function SortByDate(news: seq<NewsMessage>): (r: seq<NewsMessage>)
    ensures SortedByDate(r)
    ensures multiset(r) == multiset(news)
  {
    if news == [] then []
    else
      assert news == [news[0]] + news[1..];
      InsertSorted(news[0], SortByDate(news[1..]));
      InsertByDate(news[0], SortByDate(news[1..]))
  }

  /** Filtering a list with a given first element. */
  lemma OnDateCons(x: NewsMessage, rest: seq<NewsMessage>, d: Date)
    ensures OnDate([x] + rest, d) == (if x.date == d then [x] else []) + OnDate(rest, d)
  {
    assert ([x] + rest)[1..] == rest;
  }

  /** Inserting `m` leaves the messages of every date in their order, with
      `m` ahead of those of its own date. */
  lemma {:induction false} InsertKeepsDateOrder(m: NewsMessage, sorted: seq<NewsMessage>, d: Date)
    ensures OnDate(InsertByDate(m, sorted), d) == (if m.date == d then [m] else []) + OnDate(sorted, d)
  {
    if sorted == [] {
      OnDateCons(m, [], d);
    } else if DateLe(m.date, sorted[0].date) {
      OnDateCons(m, sorted, d);
    } else {
      InsertKeepsDateOrder(m, sorted[1..], d);
      InsertBehind(m, sorted[0], sorted[1..], InsertByDate(m, sorted[1..]), d);
      assert sorted == [sorted[0]] + sorted[1..];
    }
  }

  /** The step of `InsertKeepsDateOrder` where `m` goes behind `head`. */
  lemma InsertBehind(m: NewsMessage, head: NewsMessage, tail: seq<NewsMessage>,
                     rest: seq<NewsMessage>, d: Date)
    requires !DateLe(m.date, head.date)
    requires OnDate(rest, d) == (if m.date == d then [m] else []) + OnDate(tail, d)
    ensures OnDate([head] + rest, d) == (if m.date == d then [m] else []) + OnDate([head] + tail, d)
  {
    OnDateCons(head, rest, d);
    OnDateCons(head, tail, d);
    if head.date == d {
      // `m` is strictly later than `head`, so it is not of date `d`
      assert m.date != d;
    }
  }

  /** Stability: among the messages of any one date, sorting keeps the
      stored order. */
  lemma {:induction false} SortIsStable(news: seq<NewsMessage>, d: Date)
    ensures OnDate(SortByDate(news), d) == OnDate(news, d)
  {
    if news != [] {
      SortIsStable(news[1..], d);
      InsertKeepsDateOrder(news[0], SortByDate(news[1..]), d);
    }
  }

  /** A list whose messages all carry one date is returned unchanged. */
  lemma SortSameDate(news: seq<NewsMessage>, d: Date)
    requires forall m :: m in news ==> m.date == d
    ensures SortByDate(news) == news
  {
    forall i, j | 0 <= i < j < |news| ensures DateLe(news[i].date, news[j].date) {
      assert news[i] in news && news[j] in news;
    }
    SortSortedIdentity(news);
  }

  /** Filtering by a date and sorting the result gives the filter alone. */
  lemma SortOnDate(news: seq<NewsMessage>, d: Date)
    ensures SortByDate(OnDate(news, d)) == OnDate(news, d)
  {
    SortSameDate(OnDate(news, d), d);
  }

  /** Sorting an already sorted list changes nothing. */
  lemma {:induction false} SortSortedIdentity(news: seq<NewsMessage>)
    requires SortedByDate(news)
    ensures SortByDate(news) == news
  {
    if news != [] {
      SortSortedIdentity(news[1..]);
      assert news[1..] != [] ==> DateLe(news[0].date, news[1].date);
    }
  }

  // ---------------------------------------------------------------------
  // The manager object
  // ---------------------------------------------------------------------

  /** What a manager is built from. */
  datatype Records = Records(substitutions: seq<Substitution>, news: seq<NewsMessage>)

  class SubstitutionManager {
    /** The account the manager belongs to; empty for the two-argument
        constructor, which carries none. */
    const loginUsername: string
    var substitutions: seq<Substitution>
    var news: seq<NewsMessage>
    /** How many times the cache asked this manager to refresh itself. */
    ghost var updateCount: nat

    ghost predicate Valid()
      reads this
    {
      Distinct(substitutions)
    }

    /** `SubstitutionManager(substitutions, news)`: stores both and removes
        duplicate substitutions. */
    constructor (substitutions: seq<Substitution>, news: seq<NewsMessage>)
      ensures Valid()
      ensures forall x :: x in this.substitutions <==> x in substitutions
      ensures this.news == news && loginUsername == [] && updateCount == 0
    {
      loginUsername := [];
      this.substitutions := substitutions;
      this.news := news;
      updateCount := 0;
      new;
      RemoveDuplicates();
    }

    /** The constructor the cache uses, which also records the account. */
    constructor WithLogin(loginUsername: string, substitutions: seq<Substitution>, news: seq<NewsMessage>)
      ensures Valid()
      ensures forall x :: x in this.substitutions <==> x in substitutions
      ensures this.news == news && this.loginUsername == loginUsername && updateCount == 0
    {
      this.loginUsername := loginUsername;
      this.substitutions := substitutions;
      this.news := news;
      updateCount := 0;
      new;
      RemoveDuplicates();
    }

    /** `remove_duplicates`: the same records, each once; on a list that is
        already free of duplicates the length does not change. */
    method RemoveDuplicates()
      modifies this
      ensures Valid()
      ensures forall x :: x in substitutions <==> x in old(substitutions)
      ensures Distinct(old(substitutions)) ==> |substitutions| == |old(substitutions)|
      ensures news == old(news) && updateCount == old(updateCount)
    {
      substitutions := Deduplicated(substitutions);
      if Distinct(old(substitutions)) {
        SameElementsSameLength(substitutions, old(substitutions));
      }
    }

    /** `get_substitutions_with_property`. */
    function GetSubstitutionsWithProperty(f: Field, v: string): (r: seq<Substitution>)
      reads this
      ensures forall x :: x in r <==> x in substitutions && FieldValue(x, f) == v
    {
      WithProperty(substitutions, f, v)
    }

    /** `get_substitutions_for_class`: the property filter on the class. */
    function GetSubstitutionsForClass(className: string): (r: seq<Substitution>)
      reads this
      ensures forall x :: x in r <==> x in substitutions && x.className == className
    {
      GetSubstitutionsWithProperty(ClassName, className)
    }

    /** `get_all_substitutions`: the stored list itself. */
    function GetAllSubstitutions(): (r: seq<Substitution>)
      reads this
      ensures r == substitutions
    {
      substitutions
    }

    /** `get_all_news_messages`: sorts the stored news in place and returns
        it; the stored news is now a date-ascending permutation of what it
        was, with each date's messages in their former order. */
    method GetAllNewsMessages() returns (r: seq<NewsMessage>)
      modifies this
      ensures news == SortByDate(old(news)) && r == news
      ensures SortedByDate(news) && multiset(news) == multiset(old(news))
      ensures forall d :: OnDate(news, d) == OnDate(old(news), d)
      ensures substitutions == old(substitutions) && updateCount == old(updateCount)
    {
      news := SortByDate(news);
      forall d ensures OnDate(news, d) == OnDate(old(news), d) {
        SortIsStable(old(news), d);
      }
      r := news;
    }

    /** `get_news_messages_for_date`: the sort applied to the filtered copy
        leaves it as it is, so the result is the stored messages of that
        date in stored order; the stored news is not touched. */
    function GetNewsMessagesForDate(d: Date): (r: seq<NewsMessage>)
      reads this
      ensures r == OnDate(news, d)
    {
      SortOnDate(news, d);
      SortByDate(OnDate(news, d))
    }

    /** `get_news_messages_for_today`, with today's date as a parameter. */
    function GetNewsMessagesForToday(today: Date): (r: seq<NewsMessage>)
      reads this
      ensures r == GetNewsMessagesForDate(today)
      ensures forall m :: m in r <==> m in news && m.date == today
    {
      SortOnDate(news, today);
      SortByDate(GetNewsMessagesForDate(today))
    }

    /** `update_data`, whose body is not part of this model. It re-fetches the
        manager's data, so the contract leaves the stored records and news
        open and records only that the call happened. */
    method UpdateData()
      modifies this
      ensures updateCount == old(updateCount) + 1
    {
      updateCount := updateCount + 1;
    }
  }
}
