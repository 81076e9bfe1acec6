/**
 * The `#__easyblog_post` table as the plugin sees it: rows of
 * `{id, title, created, published, state}`, with time in seconds, and the two
 * writes the plugin issues against it — the direct `UPDATE ... SET state = 2
 * WHERE id = ...` and EasyBlog's `unpublish`, abstracted to `published := 0`.
 *
 * Every write is attempted in turn; `failing` names the positions, in that
 * sequence of attempts, at which the database or EasyBlog raises an error. A
 * failed write changes no row.
 */
module Store {

  const SecondsPerDay := 86400

  /** The value of `state` that marks a post archived. */
  const ArchivedState := 2

  datatype Post = Post(id: int, title: string, created: int, published: int, state: int)

  /** The two kinds of write, in the order they are attempted. */
  datatype Write =
    | SetStateArchived(id: int)
    | UnpublishPost(id: int, isScheduleProcess: bool)

  /** The table rows in the order the database returns them, the writes attempted
      so far, and the attempt positions that fail. */
  datatype Table = Table(rows: seq<Post>, log: seq<Write>, failing: set<nat>)

  /** `Factory::getDate('-N days')`: `now` minus `days` whole days. */
  function Cutoff(now: int, days: int): int {
    now - days * SecondsPerDay
  }

  /** `UPDATE #__easyblog_post SET state = 2 WHERE id = id`. */
  function ArchiveRows(rows: seq<Post>, id: int): (r: seq<Post>)
    ensures |r| == |rows|
    ensures forall k :: 0 <= k < |rows| && rows[k].id != id ==> r[k] == rows[k]
    ensures forall k :: 0 <= k < |rows| && rows[k].id == id ==> r[k] == rows[k].(state := ArchivedState)
    decreases |rows|
  {
    if rows == [] then []
    else
      [if rows[0].id == id then rows[0].(state := ArchivedState) else rows[0]] + ArchiveRows(rows[1..], id)
  }

  /** The effect of EasyBlog's `unpublish` on the post with this id. */
  function UnpublishRows(rows: seq<Post>, id: int): (r: seq<Post>)
    ensures |r| == |rows|
    ensures forall k :: 0 <= k < |rows| && rows[k].id != id ==> r[k] == rows[k]
    ensures forall k :: 0 <= k < |rows| && rows[k].id == id ==> r[k] == rows[k].(published := 0)
    decreases |rows|
  {
    if rows == [] then []
    else
      [if rows[0].id == id then rows[0].(published := 0) else rows[0]] + UnpublishRows(rows[1..], id)
  }

  /** `r` is `rows` with some rows left out, the rest in their table order. */
  predicate SubsequenceOf(r: seq<Post>, rows: seq<Post>)
    decreases |rows|
  {
    if r == [] then true
    else if rows == [] then false
    else (r[0] == rows[0] && SubsequenceOf(r[1..], rows[1..])) || SubsequenceOf(r, rows[1..])
  }

  /** The rows a query returns: those that meet its `WHERE` clause, in table
      order. */
  function Where(rows: seq<Post>, matches: Post -> bool): (r: seq<Post>)
    ensures |r| <= |rows|
    ensures SubsequenceOf(r, rows)
    ensures forall p :: p in r <==> p in rows && matches(p)
    decreases |rows|
  {
    if rows == [] then []
    else
      var rest := Where(rows[1..], matches);
      if matches(rows[0]) then
        assert ([rows[0]] + rest)[1..] == rest;
        [rows[0]] + rest
      else rest
  }

  /** The next write attempt succeeds. */
  predicate Succeeds(t: Table) {
    |t.log| !in t.failing
  }

  function ApplyWrite(rows: seq<Post>, w: Write): seq<Post> {
    match w
    case SetStateArchived(id) => ArchiveRows(rows, id)
    case UnpublishPost(id, _) => UnpublishRows(rows, id)
  }

  /** Attempting one write: it is logged either way and changes the rows only
      when it succeeds. */
  function Attempt(t: Table, w: Write): Table {
    Table(if Succeeds(t) then ApplyWrite(t.rows, w) else t.rows, t.log + [w], t.failing)
  }

  /** `EB::post(id)` yields a post with a non-zero id: some row has this id. */
  predicate HasPost(rows: seq<Post>, id: int) {
    id != 0 && exists k :: 0 <= k < |rows| && rows[k].id == id
  }

  /** How a row may change during a run: id, title and creation time stay, the
      post may become unpublished and may become archived, nothing else. */
  predicate RowEvolves(a: Post, b: Post) {
    && b.id == a.id && b.title == a.title && b.created == a.created
    && (b.published == a.published || b.published == 0)
    && (b.state == a.state || b.state == ArchivedState)
  }

  predicate RowsEvolve(rows: seq<Post>, rows': seq<Post>) {
    |rows'| == |rows| && forall k :: 0 <= k < |rows| ==> RowEvolves(rows[k], rows'[k])
  }

  /** How the table may change during a run: rows evolve, writes are only added,
      every unpublish added is flagged as a scheduled process, and the failing
      positions stay what they are. */
  predicate TableEvolves(t: Table, t': Table) {
    && RowsEvolve(t.rows, t'.rows)
    && t'.failing == t.failing
    && |t.log| <= |t'.log| && t'.log[..|t.log|] == t.log
    && forall k :: |t.log| <= k < |t'.log| && t'.log[k].UnpublishPost? ==> t'.log[k].isScheduleProcess
  }

  lemma RowsEvolveTransitive(a: seq<Post>, b: seq<Post>, c: seq<Post>)
    requires RowsEvolve(a, b) && RowsEvolve(b, c)
    ensures RowsEvolve(a, c)
  {
  }

  lemma TableEvolvesTransitive(a: Table, b: Table, c: Table)
    requires TableEvolves(a, b) && TableEvolves(b, c)
    ensures TableEvolves(a, c)
  {
    RowsEvolveTransitive(a.rows, b.rows, c.rows);
    assert c.log[..|b.log|][..|a.log|] == c.log[..|a.log|];
    forall k | |a.log| <= k < |b.log| && c.log[k].UnpublishPost?
      ensures c.log[k].isScheduleProcess
    {
      assert c.log[k] == b.log[k];
    }
  }

  lemma TableEvolvesReflexive(t: Table)
    ensures TableEvolves(t, t)
  {
    assert t.log[..|t.log|] == t.log;
  }

  /** A row was unpublished or archived. */
  predicate RowChanged(a: Post, b: Post) {
    a.published != b.published || a.state != b.state
  }

  /** Only rows with id `id` differ between `rows` and `rows'`. */
  predicate OnlyIdChanged(rows: seq<Post>, rows': seq<Post>, id: int) {
    |rows'| == |rows| && forall k :: 0 <= k < |rows| && rows[k].id != id ==> rows'[k] == rows[k]
  }

  /** Every write is `WHERE id = …`: an attempt changes no row with another id. */
  lemma AttemptChangesOnlyId(t: Table, w: Write)
    ensures OnlyIdChanged(t.rows, Attempt(t, w).rows, w.id)
  {
  }

  lemma OnlyIdChangedTransitive(a: seq<Post>, b: seq<Post>, c: seq<Post>, id: int)
    requires OnlyIdChanged(a, b, id) && OnlyIdChanged(b, c, id)
    ensures OnlyIdChanged(a, c, id)
  {
  }

  /** Since `rows0`, rows have only evolved, and every row that was unpublished
      or archived has an id that `allowed` admits. */
  predicate ChangesWithin(rows0: seq<Post>, rows: seq<Post>, allowed: int -> bool) {
    && RowsEvolve(rows0, rows)
    && forall k :: 0 <= k < |rows0| && RowChanged(rows0[k], rows[k]) ==> allowed(rows0[k].id)
  }

  lemma ChangesWithinStart(rows0: seq<Post>, allowed: int -> bool)
    ensures ChangesWithin(rows0, rows0, allowed)
  {
  }

  /** A step that only touches rows with an admitted id keeps the changes within
      what is admitted. */
  lemma ChangesWithinStep(rows0: seq<Post>, rows: seq<Post>, rows': seq<Post>, id: int, allowed: int -> bool)
    requires ChangesWithin(rows0, rows, allowed)
    requires RowsEvolve(rows, rows') && OnlyIdChanged(rows, rows', id) && allowed(id)
    ensures ChangesWithin(rows0, rows', allowed)
  {
    RowsEvolveTransitive(rows0, rows, rows');
    forall k | 0 <= k < |rows0| && RowChanged(rows0[k], rows'[k])
      ensures allowed(rows0[k].id)
    {
      if rows'[k] != rows[k] {
        assert rows[k].id == id && rows0[k].id == id;
      }
    }
  }

  /** A published row found in a table that evolved from `rows0` was already
      there, published, with the same id, title and creation time. */
  lemma PublishedRowWasThere(rows0: seq<Post>, rows: seq<Post>, p: Post) returns (j: nat)
    requires RowsEvolve(rows0, rows) && p in rows && p.published == 1
    ensures j < |rows0| && rows0[j].published == 1
    ensures rows0[j].id == p.id && rows0[j].title == p.title && rows0[j].created == p.created
  {
    var k :| 0 <= k < |rows| && rows[k] == p;
    assert RowEvolves(rows0[k], rows[k]);
    j := k;
  }

  /** An archive attempt, and an unpublish attempt flagged as a scheduled process,
      keep the table within how it may evolve. */
  lemma AttemptEvolves(t: Table, w: Write)
    requires w.UnpublishPost? ==> w.isScheduleProcess
    ensures TableEvolves(t, Attempt(t, w))
  {
    var t' := Attempt(t, w);
    assert t'.log[..|t.log|] == t.log;
  }

  /** A row that evolved is still there under the same id. */
  lemma HasPostEvolves(rows: seq<Post>, rows': seq<Post>, id: int)
    requires RowsEvolve(rows, rows')
    ensures HasPost(rows, id) <==> HasPost(rows', id)
  {
    if HasPost(rows, id) {
      var k :| 0 <= k < |rows| && rows[k].id == id;
      assert rows'[k].id == id;
    }
    if HasPost(rows', id) {
      var k :| 0 <= k < |rows'| && rows'[k].id == id;
      assert rows[k].id == id;
    }
  }

  /** The database table, changed in place by the plugin's writes. */
  class PostTable {
    var rows: seq<Post>
    var log: seq<Write>
    const failing: set<nat>

    constructor (rows: seq<Post>, failing: set<nat>)
      ensures Snapshot() == Table(rows, [], failing)
    {
      this.rows := rows;
      this.log := [];
      this.failing := failing;
    }

    function Snapshot(): Table
      reads this
    {
      Table(rows, log, failing)
    }

    /** `UPDATE #__easyblog_post SET state = 2 WHERE id = id`; `ok` is false when
        the statement raises. */
    method SetArchived(id: int) returns (ok: bool)
      modifies this
      ensures ok == Succeeds(old(Snapshot()))
      ensures Snapshot() == Attempt(old(Snapshot()), SetStateArchived(id))
    {
      ok := |log| !in failing;
      if ok {
        rows := ArchiveRows(rows, id);
      }
      log := log + [SetStateArchived(id)];
    }

    /** `EB::post(id)->unpublish(['isScheduleProcess' => ...])`; `ok` is false
        when it raises. */
    method Unpublish(id: int, isScheduleProcess: bool) returns (ok: bool)
      modifies this
      ensures ok == Succeeds(old(Snapshot()))
      ensures Snapshot() == Attempt(old(Snapshot()), UnpublishPost(id, isScheduleProcess))
    {
      ok := |log| !in failing;
      if ok {
        rows := UnpublishRows(rows, id);
      }
      log := log + [UnpublishPost(id, isScheduleProcess)];
    }
  }
}
