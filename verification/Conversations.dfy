/** The conversation stores of `src/api/conversations.py`: the in-memory store,
    the append transactions of the Postgres store, and the pages both list. */
module Conversations {
  import opened Wrappers
  import opened Text

  datatype Job = Job(id: string, ordinal: nat, query: string, report: string)

  datatype Conversation = Conversation(
    id: string,
    title: string,
    createdAt: real,
    updatedAt: real,
    jobs: seq<Job>,
    owner: Option<string>)

  type Table = map<string, Conversation>

  // ---- What the operations do ---------------------------------------------

  function MaxOrdinal(jobs: seq<Job>): nat {
    if jobs == [] then 0
    else
      var m := MaxOrdinal(jobs[..|jobs| - 1]);
      if jobs[|jobs| - 1].ordinal > m then jobs[|jobs| - 1].ordinal else m
  }

  /** One more job at the end, with the next ordinal. */
  function Appended(c: Conversation, id: string, query: string, report: string, now: real): Conversation {
    c.(jobs := c.jobs + [Job(id, MaxOrdinal(c.jobs) + 1, query, report)], updatedAt := now)
  }

  /** May this principal act on the row? Without one there is no scoping, and a
      row without an owner belongs to nobody in particular. */
  predicate Visible(c: Conversation, principal: Option<string>) {
    principal.None? || c.owner == principal
  }

  /** Jobs are numbered 1, 2, 3 and so on. */
  ghost predicate Numbered(jobs: seq<Job>) {
    forall i :: 0 <= i < |jobs| ==> jobs[i].ordinal == i + 1
  }

  ghost predicate AllNumbered(t: Table) {
    forall k :: k in t ==> t[k].id == k && Numbered(t[k].jobs)
  }

  lemma {:induction false} NumberedMax(jobs: seq<Job>)
    requires Numbered(jobs)
    ensures MaxOrdinal(jobs) == |jobs|
  {
    if jobs != [] { NumberedMax(jobs[..|jobs| - 1]); }
  }

  lemma {:induction false} MaxOrdinalIsMax(jobs: seq<Job>)
    ensures forall j :: j in jobs ==> j.ordinal <= MaxOrdinal(jobs)
    ensures MaxOrdinal(jobs) > 0 ==> exists j :: j in jobs && j.ordinal == MaxOrdinal(jobs)
  {
    if jobs != [] { MaxOrdinalIsMax(jobs[..|jobs| - 1]); }
  }

  /** The one job more has the next ordinal, whatever the others are numbered. */
  lemma NextOrdinal(jobs: seq<Job>)
    ensures forall j :: j in jobs ==> j.ordinal < MaxOrdinal(jobs) + 1
    ensures MaxOrdinal(jobs) > 0 ==> exists j :: j in jobs && j.ordinal + 1 == MaxOrdinal(jobs) + 1
  {
    MaxOrdinalIsMax(jobs);
  }

  lemma AppendKeepsNumbered(c: Conversation, id: string, query: string, report: string, now: real)
    requires Numbered(c.jobs)
    ensures Numbered(Appended(c, id, query, report, now).jobs)
  {
    NumberedMax(c.jobs);
  }

  class InMemoryConversationStore {
    var conversations: Table

    constructor ()
      ensures conversations == map[]
    {
      conversations := map[];
    }

    method Create(c: Conversation)
      modifies this
      ensures conversations == old(conversations)[c.id := c]
    {
      conversations := conversations[c.id := c];
    }

    method Get(id: string) returns (c: Option<Conversation>)
      ensures c == if id in conversations then Some(conversations[id]) else None
    {
      c := if id in conversations then Some(conversations[id]) else None;
    }

    /** The job that was added, or none when the conversation is gone. Numbered
        jobs stay numbered, and the new one is the last. */
    method AppendJob(id: string, jobId: string, query: string, report: string, now: real) returns (job: Option<Job>)
      modifies this
      ensures job.Some? <==> id in old(conversations)
      ensures job.None? ==> conversations == old(conversations)
      ensures job.Some? ==>
                && conversations
                   == old(conversations)[id := Appended(old(conversations)[id], jobId, query, report, now)]
                && job.value in conversations[id].jobs
      ensures job.Some? ==>
                var was, grown, added := old(conversations)[id], conversations[id], job.value;
                && grown == was.(jobs := was.jobs + [added], updatedAt := now)
                && added.id == jobId && added.query == query && added.report == report
                && (forall j :: j in was.jobs ==> j.ordinal < added.ordinal)
                && added.ordinal >= 1
                && (added.ordinal > 1 ==> exists j :: j in was.jobs && j.ordinal + 1 == added.ordinal)
      ensures old(AllNumbered(conversations)) ==> AllNumbered(conversations)
      ensures old(AllNumbered(conversations)) && job.Some? ==> job.value.ordinal == |conversations[id].jobs|
    {
      if id !in conversations {
        return None;
      }
      var c := conversations[id];
      if Numbered(c.jobs) {
        NumberedMax(c.jobs);
      }
      var max := 0;
      for i := 0 to |c.jobs|
        invariant max == MaxOrdinal(c.jobs[..i])
      {
        assert c.jobs[..i + 1][..i] == c.jobs[..i];
        if c.jobs[i].ordinal > max { max := c.jobs[i].ordinal; }
      }
      assert c.jobs[..|c.jobs|] == c.jobs;
      NextOrdinal(c.jobs);
      hide MaxOrdinal;
      var added := Job(jobId, max + 1, query, report);
      conversations := conversations[id := c.(jobs := c.jobs + [added], updatedAt := now)];
      return Some(added);
    }

    method UpdateTitle(id: string, title: string) returns (renamed: bool)
      modifies this
      ensures renamed <==> id in old(conversations)
      ensures conversations == if renamed then old(conversations)[id := old(conversations)[id].(title := title)]
                               else old(conversations)
    {
      if id !in conversations {
        return false;
      }
      conversations := conversations[id := conversations[id].(title := title)];
      return true;
    }

    /** A row of somebody else is told apart from a missing one by nothing. */
    method Delete(id: string, principal: Option<string>) returns (deleted: bool)
      modifies this
      ensures deleted <==>
                id in old(conversations) && (principal == None || old(conversations)[id].owner == principal)
      ensures conversations == if deleted then old(conversations) - {id} else old(conversations)
    {
      if id !in conversations || !Visible(conversations[id], principal) {
        return false;
      }
      conversations := conversations - {id};
      return true;
    }

    /** One page of the rows the principal sees. */
    method List(principal: Option<string>, limit: nat, offset: nat) returns (page: seq<Row>)
      requires forall k :: k in conversations ==> conversations[k].id == k
      ensures exists all :: Listing(all, conversations, principal) && page == Page(all, limit, offset)
      ensures forall r :: r in page ==>
                r.id in conversations && (principal == None || conversations[r.id].owner == principal)
    {
      var ordered: seq<Row> := [];
      var todo := conversations.Keys;
      while todo != {}
        invariant todo <= conversations.Keys && Sorted(ordered)
        invariant forall r :: r in ordered <==>
                    r.id in conversations && r.id !in todo && Visible(conversations[r.id], principal)
                    && r == RowOf(conversations[r.id])
        decreases todo
      {
        var k :| k in todo;
        if Visible(conversations[k], principal) {
          ordered := InsertRow(ordered, RowOf(conversations[k]));
        }
        todo := todo - {k};
      }
      assert Listing(ordered, conversations, principal);
      page := Page(ordered, limit, offset);
    }
  }

  // ---- Pages ------------------------------------------------------------------

  /** A conversation as the sidebar sees it: without its jobs. */
  datatype Row = Row(id: string, title: string, createdAt: real, updatedAt: real, owner: Option<string>)

  function RowOf(c: Conversation): Row {
    Row(c.id, c.title, c.createdAt, c.updatedAt, c.owner)
  }

  /** The order of `(-updated_at, conversation_id)`. */
  predicate Before(a: Row, b: Row) {
    a.updatedAt > b.updatedAt || (a.updatedAt == b.updatedAt && a.id != b.id && LexLe(a.id, b.id))
  }

  ghost predicate Sorted(rows: seq<Row>) {
    forall i, j :: 0 <= i < j < |rows| ==> Before(rows[i], rows[j])
  }

  /** All the rows the principal sees, each once, in order. */
  ghost predicate Listing(rows: seq<Row>, t: Table, principal: Option<string>) {
    && Sorted(rows)
    && forall r :: r in rows <==> r.id in t && Visible(t[r.id], principal) && r == RowOf(t[r.id])
  }

  /** The listing on the fields of the rows: with a principal exactly the rows that have
      it as their owner, so none without an owner; latest update first, and of equal
      ones by id. */
  lemma ListingFields(rows: seq<Row>, t: Table, principal: Option<string>)
    requires Listing(rows, t, principal) && forall k :: k in t ==> t[k].id == k
    ensures forall k :: k in t ==>
              (Row(k, t[k].title, t[k].createdAt, t[k].updatedAt, t[k].owner) in rows
               <==> principal == None || t[k].owner == principal)
    ensures forall r :: r in rows ==>
              r.id in t && r == Row(r.id, t[r.id].title, t[r.id].createdAt, t[r.id].updatedAt, t[r.id].owner)
    ensures forall i, j :: 0 <= i < j < |rows| ==>
              && rows[i].updatedAt >= rows[j].updatedAt && rows[i].id != rows[j].id
              && (rows[i].updatedAt == rows[j].updatedAt ==> LexLe(rows[i].id, rows[j].id))
  {
    forall k | k in t
      ensures Row(k, t[k].title, t[k].createdAt, t[k].updatedAt, t[k].owner) in rows
              <==> principal == None || t[k].owner == principal
    {
      assert RowOf(t[k]) in rows <==> Visible(t[k], principal);
    }
    forall i, j | 0 <= i < j < |rows| ensures Before(rows[i], rows[j]) && rows[i].id != rows[j].id {
      BeforeIsStrict(rows[i], rows[i]);
      assert rows[i] in rows && rows[j] in rows;
    }
  }

  lemma BeforeIsStrict(a: Row, b: Row)
    ensures !(Before(a, b) && Before(b, a)) && !Before(a, a)
    ensures a.id != b.id ==> Before(a, b) || Before(b, a)
  {
    LexTotal(a.id, b.id);
  }

  lemma BeforeIsTransitive(a: Row, b: Row, c: Row)
    requires Before(a, b) && Before(b, c)
    ensures Before(a, c)
  {
    if a.updatedAt == c.updatedAt {
      LexTransitive(a.id, b.id, c.id);
      LexTotal(a.id, b.id);
    }
  }

  method InsertRow(rows: seq<Row>, r: Row) returns (more: seq<Row>)
    requires Sorted(rows) && forall i :: 0 <= i < |rows| ==> rows[i].id != r.id
    ensures Sorted(more) && forall x :: x in more <==> x in rows || x == r
  {
    var i := 0;
    while i < |rows| && Before(rows[i], r)
      invariant 0 <= i <= |rows|
      invariant forall j :: 0 <= j < i ==> Before(rows[j], r)
    {
      i := i + 1;
    }
    forall j | i <= j < |rows| ensures Before(r, rows[j]) {
      BeforeIsStrict(rows[i], r);
      if i < j { BeforeIsTransitive(r, rows[i], rows[j]); }
    }
    more := rows[..i] + [r] + rows[i..];
    assert forall x :: x in rows <==> x in rows[..i] || x in rows[i..] by {
      assert rows == rows[..i] + rows[i..];
    }
  }

  /** There is one listing: two requests on the same store sort the same way. */
  lemma {:induction false} SortedIsUnique(p: seq<Row>, q: seq<Row>)
    requires Sorted(p) && Sorted(q) && forall r :: r in p <==> r in q
    ensures p == q
  {
    assert q != [] ==> q[0] in p;
    if p != [] {
      assert p[0] in q;
      BeforeIsStrict(p[0], q[0]);
      assert p[0] == q[0];
      BeforeIsStrict(p[0], p[0]);
      forall r ensures r in p[1..] <==> r in q[1..] {
        assert r in p && r != p[0] <==> r in p[1..];
        assert r in q && r != q[0] <==> r in q[1..];
      }
      SortedIsUnique(p[1..], q[1..]);
      assert p == [p[0]] + p[1..] && q == [q[0]] + q[1..];
    }
  }

  function Min(a: nat, b: nat): nat {
    if a <= b then a else b
  }

  /** `rows[offset : offset + limit]`, which Python and SQL both cut to size. */
  function Page(rows: seq<Row>, limit: nat, offset: nat): seq<Row> {
    rows[Min(offset, |rows|)..Min(offset + limit, |rows|)]
  }

  /** The pages of `n` requests with offsets 0, limit, 2 * limit and so on. */
  function Pages(rows: seq<Row>, limit: nat, n: nat): seq<Row> {
    if n == 0 then [] else Pages(rows, limit, n - 1) + Page(rows, limit, (n - 1) * limit)
  }

  lemma {:induction false} PagesArePrefix(rows: seq<Row>, limit: nat, n: nat)
    ensures Pages(rows, limit, n) == rows[..Min(n * limit, |rows|)]
  {
    if n > 0 {
      PagesArePrefix(rows, limit, n - 1);
      assert n * limit == (n - 1) * limit + limit;
    }
  }

  /** Each page computed by a request of its own, on a store that does not change. */
  ghost predicate Requested(pages: seq<seq<Row>>, t: Table, principal: Option<string>, limit: nat) {
    forall k :: 0 <= k < |pages| ==>
      exists all :: Listing(all, t, principal) && pages[k] == Page(all, limit, k * limit)
  }

  function Concat(pages: seq<seq<Row>>): seq<Row> {
    if pages == [] then [] else Concat(pages[..|pages| - 1]) + pages[|pages| - 1]
  }

  lemma {:induction false} RequestedPages(pages: seq<seq<Row>>, t: Table, principal: Option<string>, limit: nat,
                                          all: seq<Row>)
    requires Requested(pages, t, principal, limit) && Listing(all, t, principal)
    ensures Concat(pages) == Pages(all, limit, |pages|)
  {
    if pages != [] {
      var n := |pages| - 1;
      RequestedPages(pages[..n], t, principal, limit, all);
      var other :| Listing(other, t, principal) && pages[n] == Page(other, limit, n * limit);
      SortedIsUnique(other, all);
    }
  }

  /** Consecutive pages tile what the principal sees: put together they are the
      whole listing, every visible row exactly once and in order. */
  lemma PagesTile(pages: seq<seq<Row>>, t: Table, principal: Option<string>, limit: nat, all: seq<Row>)
    requires Requested(pages, t, principal, limit) && Listing(all, t, principal)
    requires |pages| * limit >= |all|
    ensures Concat(pages) == all
    ensures forall i, j :: 0 <= i < j < |Concat(pages)| ==> Concat(pages)[i].id != Concat(pages)[j].id
    ensures forall k :: k in t && Visible(t[k], principal) && t[k].id == k ==> RowOf(t[k]) in Concat(pages)
  {
    RequestedPages(pages, t, principal, limit, all);
    PagesArePrefix(all, limit, |pages|);
    forall i, j | 0 <= i < j < |all| ensures all[i].id != all[j].id {
      BeforeIsStrict(all[i], all[j]);
      assert all[i] in all && all[j] in all;
      assert Before(all[i], all[j]);
    }
  }
}
