/**
 * The SFNT table directory: after the offset table come `numTables` records
 * of 16 bytes (tag, checksum, offset, length). Only five tables are tracked,
 * and the walk stops as soon as `name`, `ltag` and `OS/2` have all been seen.
 */
module Directory {
  import opened Bytes
  import opened Stream

  /** The tables the parser looks for, in the order it compares tags against them. */
  datatype Table = Name | Ltag | OS2 | Head | Post

  const Tracked: seq<Table> := [Name, Ltag, OS2, Head, Post]

  /** The position of `t` in `Tracked`. */
  function Rank(t: Table): (k: nat)
    ensures k < |Tracked| && Tracked[k] == t
  {
    match t
    case Name => 0
    case Ltag => 1
    case OS2 => 2
    case Head => 3
    case Post => 4
  }

  /** The four-byte tag of a tracked table. */
  function TagOf(t: Table): (tag: seq<byte>)
    ensures |tag| == 4
  {
    match t
    case Name => [0x6E, 0x61, 0x6D, 0x65]  // "name"
    case Ltag => [0x6C, 0x74, 0x61, 0x67]  // "ltag"
    case OS2 => [0x4F, 0x53, 0x2F, 0x32]   // "OS/2"
    case Head => [0x68, 0x65, 0x61, 0x64]  // "head"
    case Post => [0x70, 0x6F, 0x73, 0x74]  // "post"
  }

  /**
   * The tracked table whose tag `tag` equals, compared byte by byte in the
   * order of `Tracked`; at most one can match. The tags of `TagOf` are spelled
   * out again here as byte comparisons so that the walk's proofs need not
   * reason about sequence equality; TableOfTagNames proves the two agree.
   */
  function TableOfTag(tag: seq<byte>): Option<Table> {
    if |tag| != 4 then None
    else if tag[0] == 0x6E && tag[1] == 0x61 && tag[2] == 0x6D && tag[3] == 0x65 then Some(Name)
    else if tag[0] == 0x6C && tag[1] == 0x74 && tag[2] == 0x61 && tag[3] == 0x67 then Some(Ltag)
    else if tag[0] == 0x4F && tag[1] == 0x53 && tag[2] == 0x2F && tag[3] == 0x32 then Some(OS2)
    else if tag[0] == 0x68 && tag[1] == 0x65 && tag[2] == 0x61 && tag[3] == 0x64 then Some(Head)
    else if tag[0] == 0x70 && tag[1] == 0x6F && tag[2] == 0x73 && tag[3] == 0x74 then Some(Post)
    else None
  }

  /** No two tracked tables share a tag. */
  lemma TagsDistinct(a: Table, b: Table)
    ensures TagOf(a) == TagOf(b) ==> a == b
  {
    if a != b {
      assert TagOf(a)[0] != TagOf(b)[0];
    }
  }

  /** A tag names table `t` exactly when it is `t`'s tag. */
  lemma TableOfTagNames(tag: seq<byte>, t: Table)
    ensures TableOfTag(tag) == Some(t) <==> tag == TagOf(t)
  {
  }

  /** Where a tracked table lies in the file. */
  datatype Entry = Entry(table: Table, offset: nat, length: nat)

  /**
   * The tables found so far, in the order in which each was first found
   * (the key order of the JavaScript object the source fills).
   */
  type TableMeta = seq<Entry>

  /**
   * The entry recorded for `t`. `Lookup` and `LookupFirst` are one function
   * split in two only to limit how far the verifier unfolds it.
   */
  function Lookup(meta: TableMeta, t: Table): Option<Entry>
    decreases |meta|, 1
  {
    if meta == [] then None else LookupFirst(meta, t)
  }

  /** The first entry of `meta` if it is `t`'s, otherwise the lookup in the others. */
  function LookupFirst(meta: TableMeta, t: Table): Option<Entry>
    requires meta != []
    decreases |meta|, 0
  {
    if meta[0].table == t then Some(meta[0]) else Lookup(meta[1..], t)
  }

  /** `Lookup` finds an entry of `t` that is in `meta`, and finds none only when there is none. */
  lemma {:induction false} LookupFinds(meta: TableMeta, t: Table)
    ensures Lookup(meta, t).Some? ==> Lookup(meta, t).value in meta && Lookup(meta, t).value.table == t
    ensures Lookup(meta, t).None? <==> forall e :: e in meta ==> e.table != t
  {
    if meta != [] && meta[0].table != t {
      LookupFinds(meta[1..], t);
      assert forall e :: e in meta ==> e == meta[0] || e in meta[1..];
    }
  }

  /** Assigns `e` to its table: an existing entry is overwritten in place, a new one goes last. */
  function Put(meta: TableMeta, e: Entry): TableMeta {
    if meta == [] then [e]
    else if meta[0].table == e.table then [e] + meta[1..]
    else [meta[0]] + Put(meta[1..], e)
  }

  /** After `Put`, `e.table` maps to `e` and every other table to what it mapped to before. */
  lemma {:induction false} PutLookup(meta: TableMeta, e: Entry, t: Table)
    ensures Lookup(Put(meta, e), t) == if t == e.table then Some(e) else Lookup(meta, t)
  {
    var put := Put(meta, e);
    assert Lookup(put, t) == LookupFirst(put, t);
    if meta != [] {
      assert Lookup(meta, t) == LookupFirst(meta, t);
      if meta[0].table != e.table {
        assert put[1..] == Put(meta[1..], e);
        PutLookup(meta[1..], e, t);
      } else {
        assert put[1..] == meta[1..];
      }
    } else {
      assert put[1..] == [];
      assert Lookup(put[1..], t) == None;
    }
  }

  /** `Put` adds no entry but `e` and keeps the tables distinct. */
  lemma {:induction false} PutKeepsDistinct(meta: TableMeta, e: Entry)
    ensures forall x :: x in Put(meta, e) ==> x in meta || x == e
    ensures Pairwise(meta, DifferentTables) ==> Pairwise(Put(meta, e), DifferentTables)
  {
    if meta != [] {
      assert forall x :: x in meta[1..] ==> x in meta;
      if meta[0].table != e.table {
        PutKeepsDistinct(meta[1..], e);
        assert Put(meta, e)[1..] == Put(meta[1..], e);
      } else {
        assert Put(meta, e)[1..] == meta[1..];
      }
    }
  }

  function DifferentTables(a: Entry, b: Entry): bool {
    a.table != b.table
  }

  /** Every entry stands in relation `rel` to every entry after it. */
  predicate Pairwise(s: seq<Entry>, rel: (Entry, Entry) -> bool) {
    s == [] || ((forall x :: x in s[1..] ==> rel(s[0], x)) && Pairwise(s[1..], rel))
  }

  /** The condition for the early exit: `name`, `ltag` and `OS/2` have all been located. */
  predicate Complete(meta: TableMeta) {
    Lookup(meta, Name).Some? && Lookup(meta, Ltag).Some? && Lookup(meta, OS2).Some?
  }

  /** What the parser keeps of one 16-byte directory record: the checksum is not kept. */
  datatype DirRecord = DirRecord(tag: seq<byte>, offset: nat, length: nat)

  function RecordAt(data: seq<byte>, p: nat): DirRecord
    requires p + 16 <= |data|
  {
    DirRecord(data[p..p + 4], U32At(data, p + 8), U32At(data, p + 12))
  }

  /** The 16 bytes of a directory record. */
  function EncodeRecord(tag: seq<byte>, checksum: nat, offset: nat, length: nat): (b: seq<byte>)
    requires |tag| == 4 && checksum < Two32 && offset < Two32 && length < Two32
    ensures |b| == 16
  {
    tag + EncodeU32(checksum) + EncodeU32(offset) + EncodeU32(length)
  }

  /** A record yields its tag, offset and length whatever its checksum. */
  lemma RecordRoundTrip(tag: seq<byte>, checksum: nat, offset: nat, length: nat)
    requires |tag| == 4 && checksum < Two32 && offset < Two32 && length < Two32
    ensures RecordAt(EncodeRecord(tag, checksum, offset, length), 0) == DirRecord(tag, offset, length)
  {
    var b := EncodeRecord(tag, checksum, offset, length);
    U32RoundTrip(offset);
    U32RoundTrip(length);
    assert b[8..12] == EncodeU32(offset);
    assert b[12..16] == EncodeU32(length);
    U32AtSlice(b, 8, 0);
    U32AtSlice(b, 12, 0);
    assert b[0..4] == tag;
  }

  /** The effect of one record on the tables found so far. */
  function Note(meta: TableMeta, rec: DirRecord): TableMeta {
    match TableOfTag(rec.tag)
    case None => meta
    case Some(t) => Put(meta, Entry(t, rec.offset, rec.length))
  }

  /** A record sets the entry of the table its tag names and leaves every other entry alone. */
  lemma NoteLookup(meta: TableMeta, rec: DirRecord, t: Table)
    ensures Lookup(Note(meta, rec), t) ==
      if rec.tag == TagOf(t) then Some(Entry(t, rec.offset, rec.length)) else Lookup(meta, t)
  {
    TableOfTagNames(rec.tag, t);
    match TableOfTag(rec.tag)
    case None =>
    case Some(u) =>
      TableOfTagNames(rec.tag, u);
      PutLookup(meta, Entry(u, rec.offset, rec.length), t);
  }

  lemma NoteKeepsDistinct(meta: TableMeta, rec: DirRecord)
    requires Pairwise(meta, DifferentTables)
    ensures Pairwise(Note(meta, rec), DifferentTables)
  {
    match TableOfTag(rec.tag)
    case None =>
    case Some(t) => PutKeepsDistinct(meta, Entry(t, rec.offset, rec.length));
  }

  /**
   * The walk of `n` records from `pos`, on top of the tables found so far.
   * Yields the tables found and the position after the last record read.
   * `Walk` and `WalkRecordAt` are one function split in two only to limit how
   * far the verifier unfolds it.
   */
  ghost function Walk(data: seq<byte>, pos: nat, n: nat, meta: TableMeta): Result<(TableMeta, nat)>
    decreases n, 1
  {
    if n == 0 then Ok((meta, pos))
    else if pos + 16 > |data| then Err(EndOfStream)
    else WalkRecordAt(data, pos, n, meta)
  }

  ghost function WalkRecordAt(data: seq<byte>, pos: nat, n: nat, meta: TableMeta): Result<(TableMeta, nat)>
    requires 0 < n && pos + 16 <= |data|
    decreases n, 0
  {
    var rec := RecordAt(data, pos);
    var found := Note(meta, rec);
    if TableOfTag(rec.tag).Some? && Complete(found) then Ok((found, pos + 16))
    else Walk(data, pos + 16, n - 1, found)
  }

  /** One step of the walk: read a record, note it, and stop if it completed the set. */
  lemma WalkStep(data: seq<byte>, pos: nat, n: nat, meta: TableMeta)
    requires n > 0 && pos + 16 <= |data|
    ensures var rec := RecordAt(data, pos);
      var found := Note(meta, rec);
      Walk(data, pos, n, meta) ==
        if TableOfTag(rec.tag).Some? && Complete(found) then Ok((found, pos + 16))
        else Walk(data, pos + 16, n - 1, found)
  {
    assert Walk(data, pos, n, meta) == WalkRecordAt(data, pos, n, meta);
  }

  /** The same step, in terms of the record's tag and the 12 bytes after it. */
  lemma WalkRecord(data: seq<byte>, pos: nat, n: nat, meta: TableMeta, tag: seq<byte>, rest: seq<byte>)
    requires n > 0 && pos + 16 <= |data|
    requires tag == data[pos..pos + 4] && rest == data[pos + 4..pos + 16]
    ensures var found := Note(meta, DirRecord(tag, U32At(rest, 4), U32At(rest, 8)));
      Walk(data, pos, n, meta) ==
        if TableOfTag(tag).Some? && Complete(found) then Ok((found, pos + 16))
        else Walk(data, pos + 16, n - 1, found)
  {
    assert RecordAt(data, pos) == DirRecord(tag, U32At(rest, 4), U32At(rest, 8));
    WalkStep(data, pos, n, meta);
  }

  /** The walk of a directory of `n` records starting at `pos`. */
  ghost function ReadDirectory(data: seq<byte>, pos: nat, n: nat): Result<(TableMeta, nat)> {
    Walk(data, pos, n, [])
  }

  // ---------------------------------------------------------------------------
  // A reference description of the result: the last record of each tracked tag
  // among the records read, where the records read are all `n` of them or the
  // shortest prefix that completes the early-exit set.
  // ---------------------------------------------------------------------------

  /** The first `k` records of the directory at `pos`. */
  function Records(data: seq<byte>, pos: nat, k: nat): (recs: seq<DirRecord>)
    requires pos + 16 * k <= |data|
    ensures |recs| == k
    decreases k
  {
    if k == 0 then [] else [RecordAt(data, pos)] + Records(data, pos + 16, k - 1)
  }

  /** Record `i` of the directory at `pos` is the 16 bytes at `pos + 16 * i`. */
  lemma {:induction false} RecordsAt(data: seq<byte>, pos: nat, k: nat, i: nat)
    requires pos + 16 * k <= |data| && i < k
    ensures Records(data, pos, k)[i] == RecordAt(data, pos + 16 * i)
    decreases k
  {
    if i > 0 {
      RecordsAt(data, pos + 16, k - 1, i - 1);
    }
  }

  /**
   * The tables found by reading `recs` in order on top of `meta`.
   * `CollectFrom` and `CollectFirst` are one function split in two only to
   * limit how far the verifier unfolds it.
   */
  function CollectFrom(meta: TableMeta, recs: seq<DirRecord>): TableMeta
    decreases |recs|, 1
  {
    if recs == [] then meta else CollectFirst(meta, recs)
  }

  /** Notes the first of `recs`, then collects the others. */
  function CollectFirst(meta: TableMeta, recs: seq<DirRecord>): TableMeta
    requires recs != []
    decreases |recs|, 0
  {
    CollectFrom(Note(meta, recs[0]), recs[1..])
  }

  /** The tables found by reading `recs` in order. */
  function Collect(recs: seq<DirRecord>): TableMeta {
    CollectFrom([], recs)
  }

  /** The last record of `recs` that carries the tag of `t`: no later record carries it. */
  function LastRecord(recs: seq<DirRecord>, t: Table): (r: Option<DirRecord>)
    ensures r.None? <==> forall i :: 0 <= i < |recs| ==> recs[i].tag != TagOf(t)
  {
    if recs == [] then None
    else match LastRecord(recs[1..], t)
      case Some(rec) => Some(rec)
      case None => if recs[0].tag == TagOf(t) then Some(recs[0]) else None
  }

  /** `LastRecord` finds a record with that tag after which no record carries it. */
  lemma {:induction false} LastRecordIsLast(recs: seq<DirRecord>, t: Table) returns (i: nat)
    requires LastRecord(recs, t).Some?
    ensures i < |recs| && recs[i] == LastRecord(recs, t).value && recs[i].tag == TagOf(t)
    ensures forall j :: i < j < |recs| ==> recs[j].tag != TagOf(t)
  {
    match LastRecord(recs[1..], t)
    case Some(rec) =>
      var i' := LastRecordIsLast(recs[1..], t);
      i := i' + 1;
      assert forall j :: i < j < |recs| ==> recs[j] == recs[1..][j - 1];
    case None =>
      i := 0;
      assert forall j :: 0 < j < |recs| ==> recs[j] == recs[1..][j - 1];
  }

  /**
   * A tracked table is found exactly when a record carries its tag, and then
   * from the last such record: a later duplicate overwrites an earlier one.
   */
  lemma {:induction false} CollectIsLastRecord(meta: TableMeta, recs: seq<DirRecord>, t: Table)
    ensures Lookup(CollectFrom(meta, recs), t) ==
      match LastRecord(recs, t)
      case None => Lookup(meta, t)
      case Some(rec) => Some(Entry(t, rec.offset, rec.length))
    decreases |recs|
  {
    if recs != [] {
      NoteLookup(meta, recs[0], t);
      CollectIsLastRecord(Note(meta, recs[0]), recs[1..], t);
    }
  }

  /**
   * The walk over records already decoded: `n` records are wanted and `recs`
   * are those the file holds. The result is the tables found and the number
   * of records of `recs` left unread. `WalkOver` and `WalkOverFirst` are one
   * function split in two only to limit how far the verifier unfolds it.
   */
  ghost function WalkOver(recs: seq<DirRecord>, n: nat, meta: TableMeta): Result<(TableMeta, nat)>
    decreases n, 1
  {
    if n == 0 then Ok((meta, |recs|))
    else if recs == [] then Err(EndOfStream)
    else WalkOverFirst(recs, n, meta)
  }

  /** One step of `WalkOver`: the first record is noted and the walk stops or goes on. */
  ghost function WalkOverFirst(recs: seq<DirRecord>, n: nat, meta: TableMeta): Result<(TableMeta, nat)>
    requires 0 < n && recs != []
    decreases n, 0
  {
    var found := Note(meta, recs[0]);
    if TableOfTag(recs[0].tag).Some? && Complete(found) then Ok((found, |recs| - 1))
    else WalkOver(recs[1..], n - 1, found)
  }

  /** The first of `k` records is the one at `pos`, and the others start 16 bytes later. */
  lemma RecordsCons(data: seq<byte>, pos: nat, k: nat)
    requires 0 < k && pos + 16 * k <= |data|
    ensures Records(data, pos, k)[0] == RecordAt(data, pos)
    ensures Records(data, pos, k)[1..] == Records(data, pos + 16, k - 1)
  {
  }

  lemma WalkOverStep(data: seq<byte>, pos: nat, n: nat, meta: TableMeta, k: nat)
    requires 0 < n && 0 < k && pos + 16 * k <= |data|
    ensures var rec := RecordAt(data, pos);
      var found := Note(meta, rec);
      WalkOver(Records(data, pos, k), n, meta) ==
        if TableOfTag(rec.tag).Some? && Complete(found) then Ok((found, k - 1))
        else WalkOver(Records(data, pos + 16, k - 1), n - 1, found)
  {
    var recs := Records(data, pos, k);
    RecordsCons(data, pos, k);
    assert WalkOver(recs, n, meta) == WalkOverFirst(recs, n, meta);
  }

  /**
   * The walk over the file is the walk over its decoded records, where `k`
   * is the number of whole records the file holds from `pos` on, at most `n`.
   */
  lemma {:induction false} WalkIsWalkOver(data: seq<byte>, pos: nat, n: nat, meta: TableMeta, k: nat)
    requires k <= n && pos + 16 * k <= |data|
    requires k == n || pos + 16 * (k + 1) > |data|
    ensures Walk(data, pos, n, meta).Ok? == WalkOver(Records(data, pos, k), n, meta).Ok?
    ensures Walk(data, pos, n, meta).Ok? ==>
      var (tables, left) := WalkOver(Records(data, pos, k), n, meta).value;
      left <= k && Walk(data, pos, n, meta).value == (tables, pos + 16 * (k - left))
    decreases n
  {
    if n > 0 && k > 0 {
      WalkStep(data, pos, n, meta);
      WalkOverStep(data, pos, n, meta, k);
      var rec := RecordAt(data, pos);
      var found := Note(meta, rec);
      if !(TableOfTag(rec.tag).Some? && Complete(found)) {
        WalkIsWalkOver(data, pos + 16, n - 1, found, k - 1);
        var rest := WalkOver(Records(data, pos + 16, k - 1), n - 1, found);
        if rest.Ok? {
          assert pos + 16 * (k - rest.value.1) == pos + 16 + 16 * (k - 1 - rest.value.1);
        }
      }
    } else if n > 0 {
      assert Records(data, pos, k) == [];
    }
  }

  lemma CollectPrefix(meta: TableMeta, recs: seq<DirRecord>, j: nat)
    requires 0 < j <= |recs|
    ensures CollectFrom(meta, recs[..j]) == CollectFrom(Note(meta, recs[0]), recs[1..][..j - 1])
  {
    assert CollectFrom(meta, recs[..j]) == CollectFirst(meta, recs[..j]);
    assert recs[..j][0] == recs[0] && recs[..j][1..] == recs[1..][..j - 1];
  }

  /**
   * A walk over records that succeeds reads `c` of them: all `n`, unless the
   * set `name`, `ltag`, `OS/2` was completed earlier, in which case it stops
   * right after the record that completed it. Its tables are those the
   * records read yield.
   */
  lemma {:induction false} WalkOverStops(recs: seq<DirRecord>, n: nat, meta: TableMeta)
    requires !Complete(meta)
    requires WalkOver(recs, n, meta).Ok?
    ensures var (tables, left) := WalkOver(recs, n, meta).value;
      var c := |recs| - left;
      && left <= |recs| && c <= n
      && tables == CollectFrom(meta, recs[..c])
      && (c < n ==> Complete(tables))
      && (c > 0 ==> !Complete(CollectFrom(meta, recs[..c - 1])))
    decreases n
  {
    assert recs[..0] == [];
    if n > 0 {
      var found := Note(meta, recs[0]);
      CollectPrefix(meta, recs, 1);
      assert recs[1..][..0] == [];
      if !(TableOfTag(recs[0].tag).Some? && Complete(found)) {
        WalkOverStops(recs[1..], n - 1, found);
        var c' := |recs[1..]| - WalkOver(recs[1..], n - 1, found).value.1;
        CollectPrefix(meta, recs, c' + 1);
        if c' > 0 {
          CollectPrefix(meta, recs, c');
        }
      }
    }
  }

  /** The first `j` of the first `k` records are the first `j` records. */
  lemma RecordsPrefix(data: seq<byte>, pos: nat, k: nat, j: nat)
    requires j <= k && pos + 16 * k <= |data|
    ensures Records(data, pos, k)[..j] == Records(data, pos, j)
  {
    forall i | 0 <= i < j
      ensures Records(data, pos, k)[i] == Records(data, pos, j)[i]
    {
      RecordsAt(data, pos, k, i);
      RecordsAt(data, pos, j, i);
    }
  }

  /**
   * A successful directory walk reads `c` records and stops 16 * `c` bytes on:
   * all `n` records, unless the set `name`, `ltag`, `OS/2` was completed
   * earlier, in which case it stops right after the record that completed it.
   * The tables found are those the records read yield (see CollectIsLastRecord).
   */
  lemma DirectoryReads(data: seq<byte>, pos: nat, n: nat) returns (c: nat)
    requires pos <= |data|
    requires ReadDirectory(data, pos, n).Ok?
    ensures c <= n && pos + 16 * c <= |data|
    ensures ReadDirectory(data, pos, n).value == (Collect(Records(data, pos, c)), pos + 16 * c)
    ensures c < n ==> Complete(Collect(Records(data, pos, c)))
    ensures c > 0 ==> !Complete(Collect(Records(data, pos, c - 1)))
  {
    var k := if pos + 16 * n <= |data| then n else (|data| - pos) / 16;
    WalkIsWalkOver(data, pos, n, [], k);
    var recs := Records(data, pos, k);
    WalkOverStops(recs, n, []);
    c := k - WalkOver(recs, n, []).value.1;
    RecordsPrefix(data, pos, k, c);
    if c > 0 {
      RecordsPrefix(data, pos, k, c - 1);
    }
  }

  /**
   * The directory locates table `t` exactly when one of the records read
   * carries its tag, and then with the offset and length of the last such
   * record.
   */
  lemma DirectoryLocates(data: seq<byte>, pos: nat, n: nat, t: Table) returns (c: nat)
    requires pos <= |data|
    requires ReadDirectory(data, pos, n).Ok?
    ensures c <= n && pos + 16 * c <= |data|
    ensures ReadDirectory(data, pos, n).value.1 == pos + 16 * c
    ensures Lookup(ReadDirectory(data, pos, n).value.0, t) ==
      match LastRecord(Records(data, pos, c), t)
      case None => None
      case Some(rec) => Some(Entry(t, rec.offset, rec.length))
  {
    c := DirectoryReads(data, pos, n);
    CollectIsLastRecord([], Records(data, pos, c), t);
  }

  /** The walk fails only when the directory runs past the end of the file. */
  lemma {:induction false} WalkFailsAtEnd(data: seq<byte>, pos: nat, n: nat, meta: TableMeta)
    requires Walk(data, pos, n, meta).Err?
    ensures Walk(data, pos, n, meta).error == EndOfStream
    ensures pos + 16 * n > |data|
    decreases n
  {
    if n > 0 && pos + 16 <= |data| {
      WalkStep(data, pos, n, meta);
      var rec := RecordAt(data, pos);
      var found := Note(meta, rec);
      if !(TableOfTag(rec.tag).Some? && Complete(found)) {
        assert Walk(data, pos, n, meta) == Walk(data, pos + 16, n - 1, found);
        WalkFailsAtEnd(data, pos + 16, n - 1, found);
        assert pos + 16 * n == pos + 16 + 16 * (n - 1);
      }
    }
  }

  /** No table is listed twice in the walk's result. */
  lemma {:induction false} WalkKeepsTablesDistinct(data: seq<byte>, pos: nat, n: nat, meta: TableMeta)
    requires Pairwise(meta, DifferentTables)
    requires Walk(data, pos, n, meta).Ok?
    ensures Pairwise(Walk(data, pos, n, meta).value.0, DifferentTables)
    decreases n
  {
    if n > 0 {
      var rec := RecordAt(data, pos);
      NoteKeepsDistinct(meta, rec);
      if !(TableOfTag(rec.tag).Some? && Complete(Note(meta, rec))) {
        WalkKeepsTablesDistinct(data, pos + 16, n - 1, Note(meta, rec));
      }
    }
  }

  /**
   * Matches one directory record against the tracked tables in their fixed
   * order; `stop` reports that the record named a tracked table and that the
   * name, ltag and OS/2 tables have now all been seen.
   */
  method MatchRecord(meta: TableMeta, tag: seq<byte>, offset: nat, length: nat)
    returns (found: TableMeta, stop: bool)
    ensures found == Note(meta, DirRecord(tag, offset, length))
    ensures stop <==> TableOfTag(tag).Some? && Complete(found)
  {
    ghost var owner := TableOfTag(tag);
    found := meta;
    stop := false;
    for j := 0 to |Tracked|
      invariant found == if owner.Some? && Rank(owner.value) < j then Note(meta, DirRecord(tag, offset, length)) else meta
      invariant !stop
      invariant owner.Some? && Rank(owner.value) < j ==> !Complete(found)
    {
      var t := Tracked[j];
      if tag == TagOf(t) {
        TableOfTagNames(tag, t);
        assert Rank(t) == j;
        found := Put(found, Entry(t, offset, length));
        if Complete(found) {
          return found, true;
        }
      }
    }
    assert found == Note(meta, DirRecord(tag, offset, length));
  }

  /**
   * One iteration of the directory loop: reads the next record and notes it.
   * `done` reports that the walk ends here.
   */
  method NextRecord(c: Cursor, meta: TableMeta, ghost n: nat) returns (r: Result<(TableMeta, bool)>)
    requires n > 0
    modifies c
    ensures r.Err? ==> Walk(c.data, old(c.pos), n, meta) == Err(r.error)
    ensures r.Ok? && r.value.1 ==> Walk(c.data, old(c.pos), n, meta) == Ok((r.value.0, c.pos))
    ensures r.Ok? && !r.value.1 ==>
      Walk(c.data, old(c.pos), n, meta) == Walk(c.data, c.pos, n - 1, r.value.0)
  {
    ghost var p := c.pos;
    var tag :- c.Read(4);
    var rest :- c.Read(12);
    WalkRecord(c.data, p, n, meta, tag, rest);
    var found, stop := MatchRecord(meta, tag, U32At(rest, 4), U32At(rest, 8));
    return Ok((found, stop));
  }

  /**
   * Reads the table directory: `numTables` records of a 4-byte tag and 12
   * further bytes, keeping offset and length of the tracked tables and
   * returning as soon as `name`, `ltag` and `OS/2` are all known.
   */
  method FindTableRecords(c: Cursor, numTables: nat) returns (r: Result<TableMeta>)
    modifies c
    ensures r.Ok? ==> ReadDirectory(c.data, old(c.pos), numTables) == Ok((r.value, c.pos))
    ensures r.Err? ==> ReadDirectory(c.data, old(c.pos), numTables) == Err(r.error)
  {
    ghost var walk := ReadDirectory(c.data, c.pos, numTables);
    ghost var left := numTables;
    var meta: TableMeta := [];
    var i := 0;
    while i < numTables
      invariant 0 <= i <= numTables && left == numTables - i
      invariant walk == Walk(c.data, c.pos, left, meta)
    {
      var next :- NextRecord(c, meta, left);
      meta := next.0;
      if next.1 {
        return Ok(meta);
      }
      i, left := i + 1, left - 1;
    }
    r := Ok(meta);
  }
}
