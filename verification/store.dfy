/** The `Entry` table: journal records, the listing that `view_entries` walks
    (newest first, optionally narrowed by a content search) and removal of one
    record by its identity. The database file behind it is not modelled: the
    table is an in-memory sequence in insertion order with an id counter. */
module Store {
  import opened Text

  datatype Option<T> = None | Some(value: T)

  /** One journal record: its identity, the text the operator saved and the
      clock reading taken when it was created. */
  datatype Entry = Entry(id: nat, content: string, timestamp: int)

  /** The table's value: its rows in insertion order and the id the next
      created row receives. */
  datatype Table = Table(rows: seq<Entry>, nextId: nat)

  /** How `Entry.content.contains(query)` decides whether a content matches a
      query; the database's own rule is a parameter of the model. */
  type Matcher = (string, string) -> bool

  /** The first id the table hands out. */
  const FirstId: nat := 1

  /** Content as `add_entry` stores it: non-empty, no surrounding whitespace. */
  predicate Stored(content: string) {
    content != [] && !IsSpace(content[0]) && !IsSpace(content[|content| - 1])
  }

  predicate IdsIncreasing(rows: seq<Entry>) {
    forall i, j :: 0 <= i < j < |rows| ==> rows[i].id < rows[j].id
  }

  /** The table invariant: ids are unique (increasing in insertion order),
      taken from below the counter, and every content is stored text. */
  predicate Valid(t: Table) {
    FirstId <= t.nextId
    && IdsIncreasing(t.rows)
    && (forall i :: 0 <= i < |t.rows| ==> FirstId <= t.rows[i].id < t.nextId)
    && (forall i :: 0 <= i < |t.rows| ==> Stored(t.rows[i].content))
  }

  /** `Entry.create`: the table with one new row appended. */
  function Created(t: Table, content: string, at: int): (r: Table)
    ensures Valid(t) && Stored(content) ==> Valid(r)
  {
    Table(t.rows + [Entry(t.nextId, content, at)], t.nextId + 1)
  }

  /** `entry.delete_instance()`: the table without the rows that carry `id`. */
  function Removed(t: Table, id: nat): (r: Table)
    ensures IsSubseq(r.rows, t.rows) && r.nextId == t.nextId
    ensures forall e :: e in r.rows <==> e in t.rows && e.id != id
  {
    FilterIsSubseq(t.rows, OtherId(id));
    Table(Filter(t.rows, OtherId(id)), t.nextId)
  }

  function OtherId(id: nat): Entry -> bool {
    (e: Entry) => e.id != id
  }

  function MatchesQuery(matches: Matcher, query: string): Entry -> bool {
    (e: Entry) => matches(e.content, query)
  }

  /** The rows of `s` that `keep` accepts, in their order in `s`. */
  function Filter(s: seq<Entry>, keep: Entry -> bool): (r: seq<Entry>)
    ensures |r| <= |s|
    ensures forall e :: e in r <==> e in s && keep(e)
  {
    if s == [] then []
    else if keep(s[0]) then [s[0]] + Filter(s[1..], keep)
    else Filter(s[1..], keep)
  }

  /** `a` is `b` with some elements left out and the rest in their order. */
  predicate IsSubseq(a: seq<Entry>, b: seq<Entry>)
    decreases |b|
  {
    if a == [] then true
    else if b == [] then false
    else if a[0] == b[0] then IsSubseq(a[1..], b[1..])
    else IsSubseq(a, b[1..])
  }

  /** Newest first: non-increasing timestamps. */
  predicate NewestFirst(s: seq<Entry>) {
    forall i, j :: 0 <= i < j < |s| ==> s[i].timestamp >= s[j].timestamp
  }

  /** Puts `e` into a newest-first sequence before the first row that is
      strictly older than it. */
  function InsertByTime(e: Entry, s: seq<Entry>): (r: seq<Entry>)
    requires NewestFirst(s)
    ensures NewestFirst(r)
    ensures multiset(r) == multiset(s) + multiset{e}
  {
    if s == [] || e.timestamp >= s[0].timestamp then
      PrependNewest(e, s);
      [e] + s
    else
      var tail := InsertByTime(e, s[1..]);
      forall x | x in tail ensures s[0].timestamp >= x.timestamp {
        assert x in multiset(tail);
      }
      PrependNewest(s[0], tail);
      assert s == [s[0]] + s[1..];
      [s[0]] + tail
  }

  /** A row no older than any row of a newest-first sequence can go in front. */
  lemma PrependNewest(x: Entry, s: seq<Entry>)
    requires NewestFirst(s)
    requires forall y :: y in s ==> x.timestamp >= y.timestamp
    ensures NewestFirst([x] + s)
  {
    forall i, j | 0 <= i < j < |[x] + s| ensures ([x] + s)[i].timestamp >= ([x] + s)[j].timestamp {
      if i == 0 { assert ([x] + s)[j] in s; }
    }
  }

  /** `Entry.select().order_by(Entry.timestamp.desc())`: all rows, newest
      first. Rows with equal timestamps keep their insertion order. */
  function ByNewest(rows: seq<Entry>): (r: seq<Entry>)
    ensures NewestFirst(r)
    ensures multiset(r) == multiset(rows)
  {
    if rows == [] then []
    else
      assert rows == [rows[0]] + rows[1..];
      InsertByTime(rows[0], ByNewest(rows[1..]))
  }

  /** The entries `view_entries(query)` walks: all rows newest first, narrowed
      to the matching contents when the query is a non-empty string (Python
      treats `None` and `""` alike as false). */
  function Listing(rows: seq<Entry>, query: Option<string>, matches: Matcher): (r: seq<Entry>)
    ensures NewestFirst(r)
  {
    var all := ByNewest(rows);
    if query.Some? && query.value != "" then
      FilterNewestFirst(all, MatchesQuery(matches, query.value));
      Filter(all, MatchesQuery(matches, query.value))
    else all
  }

  lemma {:induction false} FilterIsSubseq(s: seq<Entry>, keep: Entry -> bool)
    ensures IsSubseq(Filter(s, keep), s)
  {
    if s != [] {
      FilterIsSubseq(s[1..], keep);
      if !keep(s[0]) {
        SubseqOfTail(Filter(s[1..], keep), s);
      }
    }
  }

  /** A subsequence of the tail of `b` is a subsequence of `b`. */
  lemma {:induction false} SubseqOfTail(a: seq<Entry>, b: seq<Entry>)
    requires b != [] && IsSubseq(a, b[1..])
    ensures IsSubseq(a, b)
    decreases |b|, 0
  {
    if a != [] && a[0] == b[0] {
      DropHead(a, b[1..]);
    }
  }

  /** Leaving out the first element of a subsequence keeps it a subsequence. */
  lemma {:induction false} DropHead(a: seq<Entry>, b: seq<Entry>)
    requires a != [] && IsSubseq(a, b)
    ensures IsSubseq(a[1..], b)
    decreases |b|, 1
  {
    if a[0] == b[0] {
      if a[1..] != [] {
        SubseqOfTail(a[1..], b);
      }
    } else {
      DropHead(a, b[1..]);
      SubseqOfTail(a[1..], b);
    }
  }

  lemma {:induction false} FilterNewestFirst(s: seq<Entry>, keep: Entry -> bool)
    requires NewestFirst(s)
    ensures NewestFirst(Filter(s, keep))
  {
    if s != [] {
      FilterNewestFirst(s[1..], keep);
      var r := Filter(s[1..], keep);
      forall x | x in r ensures s[0].timestamp >= x.timestamp {
        var k :| 0 <= k < |s[1..]| && s[1..][k] == x;
        assert s[k + 1] == x;
      }
    }
  }

  lemma {:induction false} FilterIdsIncreasing(s: seq<Entry>, keep: Entry -> bool)
    requires IdsIncreasing(s)
    ensures IdsIncreasing(Filter(s, keep))
  {
    if s != [] {
      FilterIdsIncreasing(s[1..], keep);
      var r := Filter(s[1..], keep);
      forall x | x in r ensures s[0].id < x.id {
        var k :| 0 <= k < |s[1..]| && s[1..][k] == x;
        assert s[k + 1] == x;
      }
    }
  }

  /** The listing is newest first, holds only rows of the table, and is
      narrowed only by a non-empty query: then it is an order-preserving
      subsequence of the unfiltered listing that keeps exactly the matching
      rows. Without a query it is a permutation of the table. */
  lemma ListingProperties(rows: seq<Entry>, query: Option<string>, matches: Matcher)
    ensures NewestFirst(Listing(rows, query, matches))
    ensures IsSubseq(Listing(rows, query, matches), ByNewest(rows))
    ensures query.None? || query.value == "" ==>
              multiset(Listing(rows, query, matches)) == multiset(rows)
    ensures query.Some? && query.value != "" ==>
              forall e :: e in Listing(rows, query, matches) <==> e in rows && matches(e.content, query.value)
  {
    var all := ByNewest(rows);
    if query.Some? && query.value != "" {
      FilterNewestFirst(all, MatchesQuery(matches, query.value));
      FilterIsSubseq(all, MatchesQuery(matches, query.value));
      forall e ensures e in all <==> e in rows {
        assert e in multiset(all) <==> e in multiset(rows);
      }
    } else {
      SubseqRefl(all);
    }
  }

  /** Timestamps strictly increase in insertion order: every row was created
      after the ones before it by a clock that moved on. */
  predicate ClockTicked(rows: seq<Entry>) {
    forall i, j :: 0 <= i < j < |rows| ==> rows[i].timestamp < rows[j].timestamp
  }

  function Reverse(s: seq<Entry>): (r: seq<Entry>)
    ensures |r| == |s|
  {
    if s == [] then [] else Reverse(s[1..]) + [s[0]]
  }

  /** A row older than every row of a newest-first sequence goes last. */
  lemma {:induction false} InsertOldest(e: Entry, s: seq<Entry>)
    requires NewestFirst(s)
    requires forall x :: x in s ==> e.timestamp < x.timestamp
    ensures InsertByTime(e, s) == s + [e]
  {
    if s != [] {
      InsertOldest(e, s[1..]);
      assert s == [s[0]] + s[1..];
    }
  }

  /** When the clock moved on between creations, newest first is exactly the
      reverse of the insertion order. */
  lemma {:induction false} ByNewestReverses(rows: seq<Entry>)
    requires ClockTicked(rows)
    ensures ByNewest(rows) == Reverse(rows)
  {
    if rows != [] {
      var rest := ByNewest(rows[1..]);
      ByNewestReverses(rows[1..]);
      forall x | x in rest ensures rows[0].timestamp < x.timestamp {
        assert x in multiset(rows[1..]);
      }
      InsertOldest(rows[0], rest);
    }
  }

  lemma {:induction false} SubseqTrans(a: seq<Entry>, b: seq<Entry>, c: seq<Entry>)
    requires IsSubseq(a, b) && IsSubseq(b, c)
    ensures IsSubseq(a, c)
    decreases |c|
  {
    if a != [] {
      if b[0] == c[0] {
        if a[0] == b[0] {
          SubseqTrans(a[1..], b[1..], c[1..]);
        } else {
          SubseqTrans(a, b[1..], c[1..]);
          SubseqOfTail(a, c);
        }
      } else {
        SubseqTrans(a, b, c[1..]);
        SubseqOfTail(a, c);
      }
    }
  }

  lemma {:induction false} SubseqRefl(s: seq<Entry>)
    ensures IsSubseq(s, s)
  {
    if s != [] {
      SubseqRefl(s[1..]);
    }
  }

  /** Creating a row with stored content keeps the invariant, and the new
      row's id is used by no row already in the table. */
  lemma CreatedValid(t: Table, content: string, at: int)
    requires Valid(t) && Stored(content)
    ensures Valid(Created(t, content, at))
    ensures forall e :: e in t.rows ==> e.id != t.nextId
  {
  }

  /** A created row shows up in the next unfiltered listing, carrying the
      saved content under an id no earlier row has. */
  lemma CreatedIsListed(t: Table, content: string, at: int, matches: Matcher)
    requires Valid(t)
    ensures var e := Entry(t.nextId, content, at);
            e in Listing(Created(t, content, at).rows, None, matches)
            && forall x :: x in t.rows ==> x.id != e.id
  {
    var rows := Created(t, content, at).rows;
    ListingProperties(rows, None, matches);
    assert rows[|rows| - 1] == Entry(t.nextId, content, at);
    assert Entry(t.nextId, content, at) in multiset(rows);
  }

  /** Removing by id keeps the invariant, leaves no row with that id and keeps
      every other row, in order. Removing an id no row has changes nothing. */
  lemma RemovedEffect(t: Table, id: nat)
    requires Valid(t)
    ensures Valid(Removed(t, id))
    ensures forall e :: e in Removed(t, id).rows <==> e in t.rows && e.id != id
    ensures IsSubseq(Removed(t, id).rows, t.rows)
    ensures (forall e :: e in t.rows ==> e.id != id) ==> Removed(t, id) == t
  {
    var r := Filter(t.rows, OtherId(id));
    FilterIdsIncreasing(t.rows, OtherId(id));
    FilterIsSubseq(t.rows, OtherId(id));
    forall i | 0 <= i < |r| ensures FirstId <= r[i].id < t.nextId && Stored(r[i].content) {
      assert r[i] in t.rows;
    }
    if forall e :: e in t.rows ==> e.id != id {
      FilterKeepsAll(t.rows, OtherId(id));
    }
  }

  lemma {:induction false} FilterKeepsAll(s: seq<Entry>, keep: Entry -> bool)
    requires forall e :: e in s ==> keep(e)
    ensures Filter(s, keep) == s
  {
    if s != [] {
      FilterKeepsAll(s[1..], keep);
    }
  }

  /** The entry table that `add_entry` and `delete_entry` change in place. */
  class EntryTable {
    var rows: seq<Entry>
    var nextId: nat

    function Value(): Table
      reads this
    {
      Table(rows, nextId)
    }

    /** `initialize()` on a fresh database file: an empty table. */
    constructor ()
      ensures Value() == Table([], FirstId) && Valid(Value())
    {
      rows := [];
      nextId := FirstId;
    }

    /** `Entry.create(content=...)`, stamped `at`. */
    method Create(content: string, at: int) returns (e: Entry)
      modifies this
      ensures Value() == Created(old(Value()), content, at)
      ensures e == Entry(old(nextId), content, at)
    {
      e := Entry(nextId, content, at);
      rows := rows + [e];
      nextId := nextId + 1;
    }

    /** `entry.delete_instance()`. */
    method DeleteInstance(id: nat)
      modifies this
      ensures Value() == Removed(old(Value()), id)
    {
      rows := Filter(rows, OtherId(id));
    }

    /** `Entry.select()...` as `view_entries` builds it, materialised once. */
    method Select(query: Option<string>, matches: Matcher) returns (listing: seq<Entry>)
      ensures listing == Listing(rows, query, matches)
      ensures NewestFirst(listing) && IsSubseq(listing, ByNewest(rows))
      ensures query.None? || query.value == "" ==> multiset(listing) == multiset(rows)
      ensures query.Some? && query.value != "" ==>
                forall e :: e in listing <==> e in rows && matches(e.content, query.value)
    {
      listing := Listing(rows, query, matches);
      ListingProperties(rows, query, matches);
    }
  }
}
