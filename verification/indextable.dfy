/** The index_entries table of the SQLite database. */
module IndexTable {
  import opened Text
  import opened Tokenizer
  import Recency

  type Digest = s: string | |s| == 64 witness seq(64, _ => '0')

  /** hex(sha256(content)). Only its length is known: collisions are not ruled out. */
  const hashContent: string -> Digest

  /** What a row says about a file, apart from when it was written. */
  datatype Doc = Doc(content: string, tokens: string, hash: string)

  datatype Row = Row(doc: Doc, updatedAt: string)

  /** The row content that indexing a file from scratch produces. */
  function Indexed(content: string): Doc {
    Doc(content, TokenColumn(content), hashContent(content))
  }

  ghost predicate SoundDoc(doc: Doc) {
    doc == Indexed(doc.content)
  }

  /** A collision: doc was made from other content, with the same hash. */
  predicate Collides(doc: Doc, content: string) {
    doc.hash == hashContent(content) && doc.content != content
  }

  /** p is a row of pool that no other row of pool was written after. */
  predicate IsLatest(rows: map<string, Row>, pool: set<string>, p: string)
    requires pool <= rows.Keys
  {
    p in pool && forall q | q in pool :: !TextLess(rows[p].updatedAt, rows[q].updatedAt)
  }

  lemma {:induction false} LatestExists(rows: map<string, Row>, pool: set<string>) returns (p: string)
    requires pool <= rows.Keys && pool != {}
    ensures IsLatest(rows, pool, p)
  {
    var x :| x in pool;
    TextOrderIsTotal(rows[x].updatedAt, rows[x].updatedAt);
    if pool == {x} {
      p := x;
    } else {
      var y := LatestExists(rows, pool - {x});
      TextOrderIsTotal(rows[x].updatedAt, rows[y].updatedAt);
      p := if TextLess(rows[y].updatedAt, rows[x].updatedAt) then x else y;
      forall q | q in pool ensures !TextLess(rows[p].updatedAt, rows[q].updatedAt) {
        if p == x && q != x && TextLess(rows[x].updatedAt, rows[q].updatedAt) {
          TextOrderIsTransitive(rows[y].updatedAt, rows[x].updatedAt, rows[q].updatedAt);
        }
      }
    }
  }

  /** Some rows, latest first, none of them written before a row left out. Equal stamps come in any order. */
  ghost predicate LatestFirst(rows: map<string, Row>, listed: seq<string>) {
    && NoDuplicates(listed)
    && Elements(listed) <= rows.Keys
    && (forall i, j | 0 <= i < j < |listed| :: !TextLess(rows[listed[i]].updatedAt, rows[listed[j]].updatedAt))
    && (forall i, q | 0 <= i < |listed| && q in rows.Keys - Elements(listed) ::
          !TextLess(rows[listed[i]].updatedAt, rows[q].updatedAt))
  }

  /** ORDER BY updated_at DESC LIMIT limit. */
  ghost predicate IsListing(rows: map<string, Row>, limit: nat, listed: seq<string>) {
    LatestFirst(rows, listed) && |listed| == if |rows| <= limit then |rows| else limit
  }

  lemma NothingListed(rows: map<string, Row>)
    ensures LatestFirst(rows, []) && rows.Keys == rows.Keys - Elements([])
  {
  }

  lemma ListOneMore(rows: map<string, Row>, listed: seq<string>, p: string)
    requires LatestFirst(rows, listed)
    requires IsLatest(rows, rows.Keys - Elements(listed), p)
    ensures LatestFirst(rows, listed + [p])
    ensures Elements(listed + [p]) == Elements(listed) + {p}
  {
    var more := listed + [p];
    assert Elements(more) == Elements(listed) + {p};
    forall i | 0 <= i < |listed| ensures listed[i] in Elements(listed) {}
    forall i, q | 0 <= i < |more| && q in rows.Keys - Elements(more)
      ensures !TextLess(rows[more[i]].updatedAt, rows[q].updatedAt)
    {
      assert q in rows.Keys - Elements(listed);
    }
  }

  /** Each row carries the stamp of the time it was written at. */
  ghost predicate StampedAt(rows: map<string, Row>, times: map<string, int>) {
    times.Keys == rows.Keys
    && forall p | p in rows :: Recency.InRange(times[p]) && rows[p].updatedAt == Recency.Stamp(times[p])
  }

  /** Of two rows, the one written later is listed first, and is not the one left out, unless their times are misordered. */
  lemma ListingIsNewestFirst(rows: map<string, Row>, times: map<string, int>, limit: nat, listed: seq<string>)
    requires IsListing(rows, limit, listed) && StampedAt(rows, times)
    ensures Elements(listed) <= times.Keys
    ensures forall i, j | 0 <= i < |listed| && 0 <= j < |listed| && times[listed[i]] < times[listed[j]] ::
              j < i <==> !Recency.Misordered(times[listed[i]], times[listed[j]])
    ensures forall i, q | 0 <= i < |listed| && q in rows.Keys - Elements(listed) ::
              && (times[listed[i]] < times[q] ==> Recency.Misordered(times[listed[i]], times[q]))
              && (times[q] < times[listed[i]] ==> !Recency.Misordered(times[q], times[listed[i]]))
  {
    hide TextLess, Recency.Misordered, Recency.Stamp, Recency.InRange;
    assert forall i | 0 <= i < |listed| :: listed[i] in Elements(listed);
    forall p, q | p in rows && q in rows && times[p] < times[q]
      ensures TextLess(rows[p].updatedAt, rows[q].updatedAt) <==> !Recency.Misordered(times[p], times[q])
      ensures TextLess(rows[q].updatedAt, rows[p].updatedAt) <==> Recency.Misordered(times[p], times[q])
    {
      Recency.StampsOrderLikeTime(times[p], times[q]);
    }
  }

  /** When the limit is not reached, every row is listed. */
  lemma ShortListingIsComplete(rows: map<string, Row>, limit: nat, listed: seq<string>)
    requires IsListing(rows, limit, listed) && |rows| <= limit
    ensures Elements(listed) == rows.Keys
  {
    SizeOfDistinct(listed);
    assert rows.Keys == Elements(listed) + (rows.Keys - Elements(listed));
  }

  /** The table. Any statement may fail; then it has no effect, and faults counts it. */
  class Table {
    var rows: map<string, Row>
    ghost var faults: nat

    constructor (rows: map<string, Row>)
      ensures this.rows == rows && faults == 0
    {
      this.rows := rows;
      faults := 0;
    }

    method Statement() returns (ok: bool)
      modifies this`faults
      ensures faults == old(faults) + if ok then 0 else 1
    {
      ok := *;
      if !ok { faults := faults + 1; }
    }

    /** The hash stored for path, "" when there is no row. */
    method GetIndexHash(path: string) returns (ok: bool, hash: string)
      modifies this`faults
      ensures faults >= old(faults) && (ok <==> !Blank(path) && faults == old(faults))
      ensures ok ==> hash == if path in rows then rows[path].doc.hash else ""
    {
      if Blank(path) { return false, ""; }
      ok := Statement();
      return ok, if path in rows then rows[path].doc.hash else "";
    }

    method UpsertIndexEntry(path: string, content: string, tokens: string, hash: string) returns (ok: bool, ghost now: int)
      modifies this
      ensures Recency.InRange(now)
      ensures faults >= old(faults) && (ok <==> !Blank(path) && faults == old(faults))
      ensures !ok ==> rows == old(rows)
      ensures ok ==> rows == old(rows)[path := Row(Doc(content, tokens, hash), Recency.Stamp(now))]
    {
      hide Recency.InRange, Recency.Stamp;
      var reading := Recency.ReadClock();
      now := reading;
      if Blank(path) { return false, now; }
      ok := Statement();
      if ok {
        rows := rows[path := Row(Doc(content, tokens, hash), Recency.Stamp(reading))];
      }
    }

    method ListIndexEntries(limit: int) returns (ok: bool, listed: seq<string>)
      modifies this`faults
      ensures faults >= old(faults) && (ok <==> faults == old(faults))
      ensures ok ==> IsListing(rows, if limit <= 0 then 200 else limit, listed)
    {
      hide LatestFirst, IsLatest, TextLess;
      listed := [];
      NothingListed(rows);
      ok := Statement();
      if !ok { return; }
      var most: nat := if limit <= 0 then 200 else limit;
      var rest := rows.Keys;
      while |listed| < most && rest != {}
        invariant |listed| <= most && |listed| + |rest| == |rows.Keys|
        invariant rest == rows.Keys - Elements(listed)
        invariant LatestFirst(rows, listed) && faults == old(faults)
        decreases rest
      {
        ghost var _ := LatestExists(rows, rest);
        var p :| p in rest && IsLatest(rows, rest, p);
        ListOneMore(rows, listed, p);
        listed := listed + [p];
        rest := rest - {p};
      }
    }

    method ListIndexPaths() returns (ok: bool, paths: set<string>)
      modifies this`faults
      ensures faults >= old(faults) && (ok <==> faults == old(faults))
      ensures ok ==> paths == rows.Keys
    {
      ok := Statement();
      return ok, rows.Keys;
    }

    method DeleteIndexEntry(path: string) returns (ok: bool)
      modifies this
      ensures faults >= old(faults) && (ok <==> !Blank(path) && faults == old(faults))
      ensures rows == if ok then old(rows) - {path} else old(rows)
    {
      if Blank(path) { return false; }
      ok := Statement();
      if ok { rows := rows - {path}; }
    }
  }
}
