/**
 * The arithmetic and grouping of library-books/pdf.rb: which checkouts are
 * overdue, the overdue checkouts grouped by user in first-seen order, the
 * per-book hash with days late and fine, and `pluralize` for the count line.
 * Dates are day numbers; `today` is a parameter.
 */
module OverdueNotices {
  import opened Wrappers
  import opened Text
  import opened Seqs

  /** `FINE_PER_DAY`, in cents. */
  const FinePerDay: int := 20

  /** A row of checkouts.csv, its due date converted to a day number. */
  datatype Checkout = Checkout(userId: string, bookId: string, due: int)

  /** A row of books.csv or users.csv: column name to text. */
  type CsvRow = map<string, string>

  // ---------------------------------------------------------------------------
  // `pluralize`

  /** `pluralize`: the quantity, a space, and the noun with an "s" unless the quantity is 1. */
  function Pluralize(noun: string, quantity: int): string {
    var word := if quantity != 1 then noun + "s" else noun;
    FormatInt(quantity) + " " + word
  }

  /** The count line reads back as the quantity, followed by the noun, plural unless the quantity is 1. */
  lemma PluralizeReadsBack(noun: string, quantity: nat)
    ensures var r := Pluralize(noun, quantity);
            var n := |Decimal(quantity)|;
            n < |r| && r[n] == ' ' && AllDigits(r[..n]) && DecimalValue(r[..n]) == quantity
            && r[n + 1..] == (if quantity == 1 then noun else noun + "s")
  {
    var r := Pluralize(noun, quantity);
    var n := |Decimal(quantity)|;
    assert r[..n] == Decimal(quantity);
    DecimalRoundTrip(quantity);
  }

  /** One of something has no "s"; any other quantity has one. */
  lemma PluralizeSuffix(noun: string, quantity: int)
    ensures quantity == 1 ==> Pluralize(noun, quantity) == "1 " + noun
    ensures quantity != 1 ==> Pluralize(noun, quantity)[|Pluralize(noun, quantity)| - 1] == 's'
  {
    if quantity == 1 {
      assert Decimal(1) == "1";
    }
  }

  // ---------------------------------------------------------------------------
  // Overdue selection

  /** The `select` test: due no later than yesterday. */
  predicate IsOverdue(c: Checkout, today: int) {
    c.due <= today - 1
  }

  /** A checkout is selected exactly when it occurs and is due strictly before today. */
  lemma OverdueSelection(cs: seq<Checkout>, today: int, c: Checkout)
    ensures c in Overdue(cs, today) <==> c in cs && c.due < today
  {
    var r := Overdue(cs, today);
    if c in r {
      var i :| 0 <= i < |r| && r[i] == c;
      assert IsOverdue(r[i], today);
    }
    if c in cs && c.due < today {
      var i :| 0 <= i < |cs| && cs[i] == c;
      assert IsOverdue(cs[i], today);
    }
  }

  function OverdueOn(today: int): Checkout -> bool {
    c => IsOverdue(c, today)
  }

  function OfUser(u: string): Checkout -> bool {
    (c: Checkout) => c.userId == u
  }

  function OverdueOf(today: int, u: string): Checkout -> bool {
    (c: Checkout) => IsOverdue(c, today) && c.userId == u
  }

  /** `overdue_checkouts`. */
  function Overdue(cs: seq<Checkout>, today: int): (r: seq<Checkout>)
    ensures forall i :: 0 <= i < |r| ==> IsOverdue(r[i], today) && r[i] in cs
    ensures forall i :: 0 <= i < |cs| && IsOverdue(cs[i], today) ==> cs[i] in r
  {
    Filter(cs, OverdueOn(today))
  }

  /** Overdue checkouts keep their order and multiplicity, and nothing else is kept. */
  lemma OverdueIsSubsequence(cs: seq<Checkout>, today: int, c: Checkout)
    ensures IsSubsequence(Overdue(cs, today), cs)
    ensures multiset(Overdue(cs, today))[c] == if IsOverdue(c, today) then multiset(cs)[c] else 0
  {
    FilterIsSubsequence(cs, OverdueOn(today));
    FilterCounts(cs, OverdueOn(today), c);
  }

  /** The `user_id` of each checkout, in order, duplicates kept. */
  function UserIds(cs: seq<Checkout>): (r: seq<string>)
    ensures |r| == |cs| && forall i :: 0 <= i < |cs| ==> r[i] == cs[i].userId
  {
    seq(|cs|, i requires 0 <= i < |cs| => cs[i].userId)
  }

  /** `users_with_overdue_checkouts`: one user id per overdue checkout. */
  function UsersWithOverdue(cs: seq<Checkout>, today: int): seq<string> {
    UserIds(Overdue(cs, today))
  }

  /** A user id is listed exactly as often as that user has overdue checkouts. */
  lemma {:induction false} UsersWithOverdueCount(cs: seq<Checkout>, today: int, u: string)
    ensures multiset(UsersWithOverdue(cs, today))[u] == |Filter(cs, OverdueOf(today, u))|
  {
    CountUsers(Overdue(cs, today), u);
    FilterFilter(cs, today, u);
  }

  lemma {:induction false} CountUsers(cs: seq<Checkout>, u: string)
    ensures multiset(UserIds(cs))[u] == |Filter(cs, OfUser(u))|
    decreases |cs|
  {
    if cs != [] {
      var init := cs[..|cs| - 1];
      CountUsers(init, u);
      UserIdsSnoc(cs);
    }
  }

  lemma {:induction false} FilterFilter(cs: seq<Checkout>, today: int, u: string)
    ensures Filter(Filter(cs, OverdueOn(today)), OfUser(u))
         == Filter(cs, OverdueOf(today, u))
    decreases |cs|
  {
    if cs != [] {
      var init := cs[..|cs| - 1];
      var x := cs[|cs| - 1];
      FilterFilter(init, today, u);
      var f := Filter(init, OverdueOn(today));
      assert Filter(cs, OverdueOn(today)) == f + (if IsOverdue(x, today) then [x] else []);
      assert Filter(cs, OverdueOf(today, u)) == Filter(init, OverdueOf(today, u))
                                               + (if IsOverdue(x, today) && x.userId == u then [x] else []);
      if IsOverdue(x, today) {
        FilterAppend(f, OfUser(u), x);
      } else {
        assert f + [] == f;
      }
    }
  }

  // ---------------------------------------------------------------------------
  // `group_by { |row| row['user_id'] }.to_a`

  type Groups = seq<(string, seq<Checkout>)>

  /** `c` joins its user's group, or opens a new group at the end. */
  function AddToGroup(gs: Groups, c: Checkout): (r: Groups)
    requires Distinct(Keys(gs))
    ensures Keys(r) == if c.userId in Keys(gs) then Keys(gs) else Keys(gs) + [c.userId]
    ensures forall i :: 0 <= i < |gs| ==> r[i].1 == gs[i].1 + (if gs[i].0 == c.userId then [c] else [])
    ensures c.userId !in Keys(gs) ==> r[|gs|] == (c.userId, [c])
  {
    var keys := Keys(gs);
    if c.userId in keys then
      var k := FirstIndex(keys, c.userId);
      var r := gs[k := (c.userId, gs[k].1 + [c])];
      assert Keys(r) == keys;
      r
    else
      var r := gs + [(c.userId, [c])];
      assert Keys(r) == keys + [c.userId];
      r
  }

  /** `group_by(&:user_id).to_a`. */
  function GroupByUser(cs: seq<Checkout>): (gs: Groups)
    ensures Distinct(Keys(gs))
    decreases |cs|
  {
    if cs == [] then []
    else
      var gs := GroupByUser(cs[..|cs| - 1]);
      var x := cs[|cs| - 1];
      AddToGroup(gs, x)
  }

  /** Index of the first occurrence of `u` in `us`. */
  function FirstIndex(us: seq<string>, u: string): (i: nat)
    requires u in us
    ensures i < |us| && us[i] == u && forall j :: 0 <= j < i ==> us[j] != u
  {
    if us[0] == u then 0 else 1 + FirstIndex(us[1..], u)
  }

  lemma {:induction false} FirstIndexAppend(us: seq<string>, x: string, u: string)
    requires u in us
    ensures FirstIndex(us + [x], u) == FirstIndex(us, u)
    decreases |us|
  {
    if us[0] != u {
      assert (us + [x])[1..] == us[1..] + [x];
      FirstIndexAppend(us[1..], x, u);
    }
  }

  lemma FirstIndexNew(us: seq<string>, x: string)
    requires x !in us
    ensures FirstIndex(us + [x], x) == |us|
  {
    assert forall j :: 0 <= j < |us| ==> (us + [x])[j] != x;
  }

  /** Each group holds exactly its user's checkouts, in their original order. */
  predicate GroupsHold(gs: Groups, cs: seq<Checkout>) {
    forall i :: 0 <= i < |gs| ==> gs[i].1 == Filter(cs, OfUser(gs[i].0))
  }

  lemma {:induction false} GroupContents(cs: seq<Checkout>)
    ensures GroupsHold(GroupByUser(cs), cs)
    decreases |cs|
  {
    if cs != [] {
      var init := cs[..|cs| - 1];
      var x := cs[|cs| - 1];
      assert cs == init + [x];
      var old_gs := GroupByUser(init);
      GroupContents(init);
      GroupKeysAreUsers(init);
      var gs := GroupByUser(cs);
      assert gs == AddToGroup(old_gs, x);
      forall i | 0 <= i < |gs| ensures gs[i].1 == Filter(cs, OfUser(gs[i].0)) {
        GroupStep(init, x, old_gs, gs, i);
      }
    }
  }

  lemma GroupStep(init: seq<Checkout>, x: Checkout, old_gs: Groups, gs: Groups, i: nat)
    requires Distinct(Keys(old_gs))
    requires gs == AddToGroup(old_gs, x) && i < |gs|
    requires GroupsHold(old_gs, init)
    requires forall u :: u in Keys(old_gs) <==> u in UserIds(init)
    ensures gs[i].1 == Filter(init + [x], OfUser(gs[i].0))
  {
    FilterAppend(init, OfUser(gs[i].0), x);
    assert Keys(gs)[i] == gs[i].0;
    if i < |old_gs| {
      assert Keys(old_gs)[i] == old_gs[i].0;
    } else {
      FilterNone(init, x.userId);
    }
  }

  /** The group keys are exactly the user ids that occur. */
  lemma {:induction false} GroupKeysAreUsers(cs: seq<Checkout>)
    ensures forall u :: u in Keys(GroupByUser(cs)) <==> u in UserIds(cs)
    decreases |cs|
  {
    if cs != [] {
      var init := cs[..|cs| - 1];
      GroupKeysAreUsers(init);
      UserIdsSnoc(cs);
    }
  }

  /** The keys all occur in `us` and come in the order of their first occurrence there. */
  predicate FirstSeenOrder(keys: seq<string>, us: seq<string>) {
    forall i, j :: 0 <= i < j < |keys| ==>
      keys[i] in us && keys[j] in us && FirstIndex(us, keys[i]) < FirstIndex(us, keys[j])
  }

  lemma OrderStep(keys: seq<string>, us: seq<string>, x: string)
    requires FirstSeenOrder(keys, us)
    requires forall u :: u in keys <==> u in us
    ensures FirstSeenOrder(if x in keys then keys else keys + [x], us + [x])
  {
    var ks := if x in keys then keys else keys + [x];
    forall i, j | 0 <= i < j < |ks|
      ensures ks[i] in us + [x] && ks[j] in us + [x]
              && FirstIndex(us + [x], ks[i]) < FirstIndex(us + [x], ks[j])
    {
      FirstIndexAppend(us, x, ks[i]);
      if j < |keys| {
        FirstIndexAppend(us, x, ks[j]);
      } else {
        FirstIndexNew(us, x);
      }
    }
  }

  /** The groups come in the order their users first appear. */
  lemma {:induction false} GroupOrder(cs: seq<Checkout>)
    ensures FirstSeenOrder(Keys(GroupByUser(cs)), UserIds(cs))
    decreases |cs|
  {
    if cs != [] {
      var init := cs[..|cs| - 1];
      var x := cs[|cs| - 1];
      var keys := Keys(GroupByUser(init));
      GroupOrder(init);
      GroupKeysAreUsers(init);
      UserIdsSnoc(cs);
      assert Keys(GroupByUser(cs)) == if x.userId in keys then keys else keys + [x.userId];
      OrderStep(keys, UserIds(init), x.userId);
    }
  }

  lemma UserIdsSnoc(cs: seq<Checkout>)
    requires cs != []
    ensures UserIds(cs) == UserIds(cs[..|cs| - 1]) + [cs[|cs| - 1].userId]
  {
  }

  lemma {:induction false} FilterNone(cs: seq<Checkout>, u: string)
    requires u !in UserIds(cs)
    ensures Filter(cs, OfUser(u)) == []
    decreases |cs|
  {
    if cs != [] {
      var init := cs[..|cs| - 1];
      UserIdsSnoc(cs);
      FilterNone(init, u);
    }
  }

  // ---------------------------------------------------------------------------
  // The per-book hash

  /** A value of `book_hash`: CSV text, a date, or an integer. */
  datatype Cell = Text(s: string) | Date(day: int) | Int(n: int)

  /** The `find` test: the row's "id" column is `id`. */
  predicate HasId(row: CsvRow, id: string) {
    "id" in row && row["id"] == id
  }

  /**
   * `rows.find { |b| b['id'] == id }.to_h`: the first row with that id, or
   * `{}` (`nil.to_h`) when there is none.
   */
  function FindRow(rows: seq<CsvRow>, id: string): (b: CsvRow)
    ensures b == map[] <==> forall i :: 0 <= i < |rows| ==> !HasId(rows[i], id)
    ensures b != map[] ==> exists i :: 0 <= i < |rows| && rows[i] == b && HasId(b, id)
                                       && forall j :: 0 <= j < i ==> !HasId(rows[j], id)
  {
    if rows == [] then map[]
    else if HasId(rows[0], id) then rows[0]
    else
      var b := FindRow(rows[1..], id);
      assert forall i :: 1 <= i < |rows| ==> rows[i] == rows[1..][i - 1];
      b
  }

  /** The entries the loop body adds to a book's row. */
  const Added: set<string> := {"due", "days_late", "total_fine"}

  /** `book_hash` after the loop body: the book's columns, then due date, days late and fine. */
  predicate IsBookHash(h: map<string, Cell>, books: seq<CsvRow>, c: Checkout, today: int) {
    var book := FindRow(books, c.bookId);
    h.Keys == book.Keys + Added
    && h["due"] == Date(c.due)
    && h["days_late"] == Int(today - c.due)
    && h["total_fine"] == Int((today - c.due) * FinePerDay)
    && forall k :: k in book && k !in Added ==> h[k] == Text(book[k])
  }

  /** The body of the `user_checkouts.map` block: look the book up and add to its hash in place. */
  method BookHash(books: seq<CsvRow>, c: Checkout, today: int) returns (h: map<string, Cell>)
    ensures IsBookHash(h, books, c, today)
  {
    var book := FindRow(books, c.bookId);
    h := map k | k in book :: Text(book[k]);
    h := h["due" := Date(c.due)];
    h := h["days_late" := Int(today - c.due)];
    h := h["total_fine" := Int(h["days_late"].n * FinePerDay)];
  }

  /** For an overdue book the days late are at least one and the fine is a positive multiple of the daily fine. */
  lemma OverdueFine(h: map<string, Cell>, books: seq<CsvRow>, c: Checkout, today: int)
    requires IsBookHash(h, books, c, today) && IsOverdue(c, today)
    ensures h["days_late"].n >= 1
    ensures h["total_fine"].n >= FinePerDay && h["total_fine"].n % FinePerDay == 0
    ensures h["total_fine"].n == h["days_late"].n * FinePerDay
  {
  }

  /** One book hash per checkout, in order. */
  predicate BookHashes(hs: seq<map<string, Cell>>, books: seq<CsvRow>, cs: seq<Checkout>, today: int) {
    |hs| == |cs| && forall i :: 0 <= i < |hs| ==> IsBookHash(hs[i], books, cs[i], today)
  }

  /** `user_books`: one hash per checkout of the user, in order. */
  method UserBooks(books: seq<CsvRow>, userCheckouts: seq<Checkout>, today: int) returns (r: seq<map<string, Cell>>)
    ensures BookHashes(r, books, userCheckouts, today)
  {
    r := [];
    var i := 0;
    while i < |userCheckouts|
      invariant 0 <= i <= |userCheckouts| && |r| == i
      invariant forall j :: 0 <= j < i ==> IsBookHash(r[j], books, userCheckouts[j], today)
    {
      var h := BookHash(books, userCheckouts[i], today);
      r := r + [h];
      i := i + 1;
    }
  }

  /** The part of the template context the model computes for one user. */
  datatype Notice = Notice(user: CsvRow, books: seq<map<string, Cell>>, overdueBooksCount: string)

  /** The notice for the user and checkouts of one group. */
  predicate IsNotice(n: Notice, users: seq<CsvRow>, books: seq<CsvRow>, g: (string, seq<Checkout>), today: int) {
    n.user == FindRow(users, g.0)
    && BookHashes(n.books, books, g.1, today)
    && n.overdueBooksCount == Pluralize("overdue book", |n.books|)
  }

  /** The `checkouts_by_user.each` loop, up to the template context: one notice per group, in group order. */
  method Notices(checkouts: seq<Checkout>, books: seq<CsvRow>, users: seq<CsvRow>, today: int) returns (r: seq<Notice>)
    ensures var gs := GroupByUser(Overdue(checkouts, today));
            |r| == |gs| && forall i :: 0 <= i < |r| ==> IsNotice(r[i], users, books, gs[i], today)
  {
    var overdue := Overdue(checkouts, today);
    var gs := GroupByUser(overdue);
    r := [];
    var i := 0;
    while i < |gs|
      invariant 0 <= i <= |gs| && |r| == i
      invariant forall k :: 0 <= k < i ==> IsNotice(r[k], users, books, gs[k], today)
    {
      var n := UserNotice(users, books, gs[i], today);
      r := r + [n];
      i := i + 1;
    }
  }

  /** The body of the `each` block for one user and that user's checkouts. */
  method UserNotice(users: seq<CsvRow>, books: seq<CsvRow>, g: (string, seq<Checkout>), today: int) returns (n: Notice)
    ensures IsNotice(n, users, books, g, today)
  {
    var (userId, userCheckouts) := g;
    var user := FindRow(users, userId);
    var userBooks := UserBooks(books, userCheckouts, today);
    n := Notice(user, userBooks, Pluralize("overdue book", |userBooks|));
  }

  /**
   * A notice is about overdue checkouts only, lists every overdue checkout
   * of its user, and its `overdue_books_count` reads back as their number.
   */
  lemma NoticeCount(n: Notice, checkouts: seq<Checkout>, books: seq<CsvRow>, users: seq<CsvRow>, today: int, i: nat)
    requires i < |GroupByUser(Overdue(checkouts, today))|
    requires IsNotice(n, users, books, GroupByUser(Overdue(checkouts, today))[i], today)
    ensures forall j :: 0 <= j < |n.books| ==> n.books[j]["days_late"].n >= 1
    ensures var g := GroupByUser(Overdue(checkouts, today))[i];
            var k := |Decimal(|n.books|)|;
            k < |n.overdueBooksCount|
            && DecimalValue(n.overdueBooksCount[..k]) == |Filter(checkouts, OverdueOf(today, g.0))|
  {
    var overdue := Overdue(checkouts, today);
    var g := GroupByUser(overdue)[i];
    GroupContents(overdue);
    assert g.1 == Filter(overdue, OfUser(g.0));
    FilterFilter(checkouts, today, g.0);
    forall j | 0 <= j < |n.books| ensures n.books[j]["days_late"].n >= 1 {
      assert g.1[j] in overdue;
      OverdueFine(n.books[j], books, g.1[j], today);
    }
    PluralizeReadsBack("overdue book", |n.books|);
  }
}
