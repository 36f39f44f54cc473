/**
 * One SFNT font: the offset table, the table directory, the fetch of the
 * tracked tables in file order, and the assembly of the font's metadata from
 * the table decoders.
 */
module Font {
  import opened Bytes
  import opened Stream
  import opened Directory

  // ---------------------------------------------------------------------------
  // The table decoders. Their bodies are not part of this model: each is an
  // arbitrary (total) function from the table's bytes to its decoded form.
  // ---------------------------------------------------------------------------

  type NameTable
  type OS2Table
  type HeadTable
  type PostTable

  /** The language tags an `ltag` table lists. */
  type LanguageTags = seq<string>

  datatype Decoders = Decoders(
    name: (seq<byte>, LanguageTags) -> NameTable,
    ltag: seq<byte> -> LanguageTags,
    os2: seq<byte> -> OS2Table,
    head: seq<byte> -> HeadTable,
    post: seq<byte> -> PostTable)

  /** The metadata of one font: `names` always, the others when their table was fetched. */
  datatype FontData = FontData(
    names: NameTable,
    os2: Option<OS2Table>,
    head: Option<HeadTable>,
    post: Option<PostTable>)

  // ---------------------------------------------------------------------------
  // Ordering the directory entries by file offset. The source sorts with a
  // comparator on the offset; the sort is stable, so entries that share an
  // offset keep the order in which the directory walk first found them.
  // ---------------------------------------------------------------------------

  predicate SortedByOffset(s: seq<Entry>) {
    forall i, j | 0 <= i < j < |s| :: s[i].offset <= s[j].offset
  }

  /** Puts `e` in front of the first entry that does not lie before it. */
  function InsertByOffset(s: seq<Entry>, e: Entry): seq<Entry>
    decreases |s|
  {
    if s == [] || e.offset <= s[0].offset then [e] + s
    else [s[0]] + InsertByOffset(s[1..], e)
  }

  /** Insertion sort by offset. */
  function SortByOffset(s: seq<Entry>): seq<Entry>
    decreases |s|
  {
    if s == [] then [] else InsertByOffset(SortByOffset(s[1..]), s[0])
  }

  /** Inserting adds exactly `e` to the entries. */
  lemma {:induction false} InsertCounts(s: seq<Entry>, e: Entry)
    ensures multiset(InsertByOffset(s, e)) == multiset(s) + multiset{e}
    decreases |s|
  {
    if s == [] || e.offset <= s[0].offset {
    } else {
      InsertCounts(s[1..], e);
      assert s == [s[0]] + s[1..];
    }
  }

  lemma InsertMembers(s: seq<Entry>, e: Entry)
    ensures forall x :: x in InsertByOffset(s, e) <==> x == e || x in s
  {
    InsertCounts(s, e);
  }

  lemma {:induction false} InsertKeepsSorted(s: seq<Entry>, e: Entry)
    requires SortedByOffset(s)
    ensures SortedByOffset(InsertByOffset(s, e))
    decreases |s|
  {
    if s == [] || e.offset <= s[0].offset {
    } else {
      var rest := InsertByOffset(s[1..], e);
      InsertKeepsSorted(s[1..], e);
      InsertMembers(s[1..], e);
      forall j | 0 <= j < |rest|
        ensures s[0].offset <= rest[j].offset
      {
        assert rest[j] in rest;
      }
    }
  }

  /** The sort yields the same entries, ordered by offset. */
  lemma {:induction false} SortSorts(s: seq<Entry>)
    ensures SortedByOffset(SortByOffset(s))
    ensures multiset(SortByOffset(s)) == multiset(s)
    decreases |s|
  {
    if s != [] {
      SortSorts(s[1..]);
      InsertKeepsSorted(SortByOffset(s[1..]), s[0]);
      InsertCounts(SortByOffset(s[1..]), s[0]);
      assert s == [s[0]] + s[1..];
    }
  }

  /** The entries of `s` that start at `offset`, in their order in `s`. */
  function AtOffset(s: seq<Entry>, offset: nat): seq<Entry>
    decreases |s|
  {
    if s == [] then []
    else (if s[0].offset == offset then [s[0]] else []) + AtOffset(s[1..], offset)
  }

  lemma AtOffsetCons(x: Entry, s: seq<Entry>, offset: nat)
    ensures AtOffset([x] + s, offset) == (if x.offset == offset then [x] else []) + AtOffset(s, offset)
  {
    assert ([x] + s)[1..] == s;
  }

  lemma {:induction false} InsertAtOffset(s: seq<Entry>, e: Entry, offset: nat)
    ensures AtOffset(InsertByOffset(s, e), offset)
      == (if e.offset == offset then [e] else []) + AtOffset(s, offset)
    decreases |s|
  {
    if s == [] || e.offset <= s[0].offset {
      AtOffsetCons(e, s, offset);
    } else {
      InsertAtOffset(s[1..], e, offset);
      AtOffsetCons(s[0], InsertByOffset(s[1..], e), offset);
      AtOffsetCons(s[0], s[1..], offset);
      assert [s[0]] + s[1..] == s;
    }
  }

  /** The sort is stable: entries sharing an offset keep their relative order. */
  lemma {:induction false} SortIsStable(s: seq<Entry>, offset: nat)
    ensures AtOffset(SortByOffset(s), offset) == AtOffset(s, offset)
    decreases |s|
  {
    if s != [] {
      SortIsStable(s[1..], offset);
      InsertAtOffset(SortByOffset(s[1..]), s[0], offset);
    }
  }

  ghost predicate Symmetric(rel: (Entry, Entry) -> bool) {
    forall a, b :: rel(a, b) ==> rel(b, a)
  }

  lemma {:induction false} InsertKeepsPairwise(s: seq<Entry>, e: Entry, rel: (Entry, Entry) -> bool)
    requires Symmetric(rel)
    requires Pairwise(s, rel)
    requires forall x | x in s :: rel(e, x)
    ensures Pairwise(InsertByOffset(s, e), rel)
    decreases |s|
  {
    if s == [] || e.offset <= s[0].offset {
      assert ([e] + s)[1..] == s;
    } else {
      var rest := InsertByOffset(s[1..], e);
      InsertKeepsPairwise(s[1..], e, rel);
      InsertMembers(s[1..], e);
      assert ([s[0]] + rest)[1..] == rest;
    }
  }

  /** Sorting keeps a symmetric relation that holds between every two entries. */
  lemma {:induction false} SortKeepsPairwise(s: seq<Entry>, rel: (Entry, Entry) -> bool)
    requires Symmetric(rel)
    requires Pairwise(s, rel)
    ensures Pairwise(SortByOffset(s), rel)
    decreases |s|
  {
    if s != [] {
      SortKeepsPairwise(s[1..], rel);
      SortSorts(s[1..]);
      forall x | x in SortByOffset(s[1..])
        ensures rel(s[0], x)
      {
        assert x in multiset(SortByOffset(s[1..]));
      }
      InsertKeepsPairwise(SortByOffset(s[1..]), s[0], rel);
    }
  }

  /** Every two entries, the earlier first, stand in relation `rel`. */
  lemma {:induction false} PairwiseAt(s: seq<Entry>, rel: (Entry, Entry) -> bool, i: nat, j: nat)
    requires Pairwise(s, rel) && i < j < |s|
    ensures rel(s[i], s[j])
    decreases i
  {
    if i == 0 {
      assert s[j] in s[1..];
    } else {
      assert s[1..][i - 1] == s[i] && s[1..][j - 1] == s[j];
      PairwiseAt(s[1..], rel, i - 1, j - 1);
    }
  }

  // ---------------------------------------------------------------------------
  // Fetching the tables. The cursor moves forward over the file: for each
  // entry in offset order it skips to the entry's offset and reads its
  // `length` bytes. An entry that starts before the cursor would need a
  // negative skip, which this model reports as `BackwardSkip`.
  // ---------------------------------------------------------------------------

  /** The bytes of the table that `e` locates. */
  function Located(data: seq<byte>, e: Entry): (b: seq<byte>)
    requires e.offset + e.length <= |data|
    ensures |b| == e.length
  {
    data[e.offset..e.offset + e.length]
  }

  /** The fetch of the entries `ordered` with the cursor at `pos`, on top of the buffers `fetched`. */
  ghost function Fetch(data: seq<byte>, pos: nat, ordered: seq<Entry>, fetched: map<Table, seq<byte>>)
    : Result<(map<Table, seq<byte>>, nat)>
    decreases |ordered|
  {
    if ordered == [] then Ok((fetched, pos))
    else
      var e := ordered[0];
      if e.offset < pos then Err(BackwardSkip)
      else if e.offset + e.length > |data| then Err(EndOfStream)
      else Fetch(data, e.offset + e.length, ordered[1..], fetched[e.table := Located(data, e)])
  }

  /**
   * The entries lie inside the file, the first at or after `pos`, and each
   * ends at or before the start of every later one.
   */
  predicate Chained(data: seq<byte>, pos: nat, s: seq<Entry>) {
    && (forall i | 0 <= i < |s| :: pos <= s[i].offset && s[i].offset + s[i].length <= |data|)
    && (forall i, j | 0 <= i < j < |s| :: s[i].offset + s[i].length <= s[j].offset)
  }

  lemma ChainedCons(data: seq<byte>, pos: nat, s: seq<Entry>)
    requires s != []
    ensures Chained(data, pos, s) <==>
      && pos <= s[0].offset && s[0].offset + s[0].length <= |data|
      && Chained(data, s[0].offset + s[0].length, s[1..])
  {
    var rest := s[1..];
    if pos <= s[0].offset && s[0].offset + s[0].length <= |data| && Chained(data, s[0].offset + s[0].length, rest) {
      forall i, j | 0 <= i < j < |s|
        ensures s[i].offset + s[i].length <= s[j].offset
      {
        assert s[j] == rest[j - 1];
        if i > 0 {
          assert s[i] == rest[i - 1];
        }
      }
      forall i | 0 <= i < |s|
        ensures pos <= s[i].offset && s[i].offset + s[i].length <= |data|
      {
        if i > 0 {
          assert s[i] == rest[i - 1];
        }
      }
    }
    if Chained(data, pos, s) {
      forall i | 0 <= i < |rest|
        ensures s[0].offset + s[0].length <= rest[i].offset
      {
        assert rest[i] == s[i + 1];
      }
      forall i, j | 0 <= i < j < |rest|
        ensures rest[i].offset + rest[i].length <= rest[j].offset
      {
        assert rest[i] == s[i + 1] && rest[j] == s[j + 1];
      }
    }
  }

  /** The fetch succeeds exactly when the entries are chained from the cursor on. */
  lemma {:induction false} FetchSucceeds(data: seq<byte>, pos: nat, s: seq<Entry>, fetched: map<Table, seq<byte>>)
    ensures Fetch(data, pos, s, fetched).Ok? <==> Chained(data, pos, s)
    decreases |s|
  {
    if s != [] {
      var e := s[0];
      ChainedCons(data, pos, s);
      if pos <= e.offset && e.offset + e.length <= |data| {
        FetchSucceeds(data, e.offset + e.length, s[1..], fetched[e.table := Located(data, e)]);
      }
    }
  }

  /**
   * A failed fetch reports a backward skip or the end of the file; a backward
   * skip when every entry lies inside the file, the end of the file when no
   * entry starts before the cursor or an earlier entry's end.
   */
  lemma {:induction false} FetchFails(data: seq<byte>, pos: nat, s: seq<Entry>, fetched: map<Table, seq<byte>>)
    requires Fetch(data, pos, s, fetched).Err?
    ensures Fetch(data, pos, s, fetched).error in {BackwardSkip, EndOfStream}
    ensures (forall i | 0 <= i < |s| :: s[i].offset + s[i].length <= |data|)
      ==> Fetch(data, pos, s, fetched).error == BackwardSkip
    ensures (forall i | 0 <= i < |s| :: pos <= s[i].offset)
      && (forall i, j | 0 <= i < j < |s| :: s[i].offset + s[i].length <= s[j].offset)
      ==> Fetch(data, pos, s, fetched).error == EndOfStream
    decreases |s|
  {
    var e := s[0];
    if pos <= e.offset && e.offset + e.length <= |data| {
      var rest := s[1..];
      FetchFails(data, e.offset + e.length, rest, fetched[e.table := Located(data, e)]);
      assert forall i | 0 <= i < |rest| :: rest[i] == s[i + 1];
    }
  }

  /** The tables of the entries in `s`. */
  function TablesOf(s: seq<Entry>): set<Table> {
    set e | e in s :: e.table
  }

  /** Where the cursor stands after fetching `s` from `pos`: the end of the last entry. */
  function FetchEnd(pos: nat, s: seq<Entry>): nat {
    if s == [] then pos else s[|s| - 1].offset + s[|s| - 1].length
  }

  /** The fetch adds a key for each table it reads and ends where the last of them ends. */
  lemma {:induction false} FetchKeys(data: seq<byte>, pos: nat, s: seq<Entry>, fetched: map<Table, seq<byte>>)
    requires Fetch(data, pos, s, fetched).Ok?
    ensures var (m, q) := Fetch(data, pos, s, fetched).value;
      m.Keys == fetched.Keys + TablesOf(s) && q == FetchEnd(pos, s)
    decreases |s|
  {
    if s != [] {
      var e, rest := s[0], s[1..];
      FetchKeys(data, e.offset + e.length, rest, fetched[e.table := Located(data, e)]);
      assert forall x | x in s :: x == e || x in rest;
      assert TablesOf(s) == {e.table} + TablesOf(rest);
      if rest != [] {
        assert rest[|rest| - 1] == s[|s| - 1];
      }
    }
  }

  /** Each table read holds the bytes its entry locates, as no later entry is for the same table. */
  lemma {:induction false} FetchLocates(data: seq<byte>, pos: nat, s: seq<Entry>, fetched: map<Table, seq<byte>>)
    requires Pairwise(s, DifferentTables)
    requires Fetch(data, pos, s, fetched).Ok?
    ensures var m := Fetch(data, pos, s, fetched).value.0;
      forall e | e in s :: e.offset + e.length <= |data| && e.table in m && m[e.table] == Located(data, e)
    decreases |s|
  {
    if s != [] {
      var e, rest := s[0], s[1..];
      var f' := fetched[e.table := Located(data, e)];
      FetchLocates(data, e.offset + e.length, rest, f');
      FetchKeys(data, e.offset + e.length, rest, f');
      FetchKeepsOthers(data, e.offset + e.length, rest, f');
      assert forall x | x in s :: x == e || x in rest;
      assert e.table !in TablesOf(rest);
    }
  }

  /** A table the fetch does not read keeps the bytes it had. */
  lemma {:induction false} FetchKeepsOthers(data: seq<byte>, pos: nat, s: seq<Entry>, fetched: map<Table, seq<byte>>)
    requires Fetch(data, pos, s, fetched).Ok?
    ensures var m := Fetch(data, pos, s, fetched).value.0;
      forall t | t in fetched && t !in TablesOf(s) :: t in m && m[t] == fetched[t]
    decreases |s|
  {
    if s != [] {
      var e, rest := s[0], s[1..];
      FetchKeepsOthers(data, e.offset + e.length, rest, fetched[e.table := Located(data, e)]);
      FetchKeys(data, e.offset + e.length, rest, fetched[e.table := Located(data, e)]);
      assert forall x | x in rest :: x in s;
    }
  }

  /**
   * When no table is listed twice, a successful fetch stores for each entry
   * exactly the bytes it locates, keeps every other buffer, and leaves the
   * cursor just past the last entry.
   */
  lemma FetchContents(data: seq<byte>, pos: nat, s: seq<Entry>, fetched: map<Table, seq<byte>>)
    requires Pairwise(s, DifferentTables)
    requires Fetch(data, pos, s, fetched).Ok?
    ensures var (m, q) := Fetch(data, pos, s, fetched).value;
      && m.Keys == fetched.Keys + TablesOf(s)
      && (forall e | e in s :: e.offset + e.length <= |data| && m[e.table] == Located(data, e))
      && (forall t | t in fetched && t !in TablesOf(s) :: m[t] == fetched[t])
      && q == FetchEnd(pos, s)
  {
    FetchKeys(data, pos, s, fetched);
    FetchLocates(data, pos, s, fetched);
    FetchKeepsOthers(data, pos, s, fetched);
  }

  /** Two entries whose tables start at different offsets and do not overlap. */
  function Separate(a: Entry, b: Entry): bool {
    a.offset != b.offset && (a.offset + a.length <= b.offset || b.offset + b.length <= a.offset)
  }

  /**
   * Tables that start at distinct offsets, do not overlap, lie inside the file
   * and after the directory are chained once sorted by offset, so their fetch
   * succeeds.
   */
  lemma SeparateIsChained(data: seq<byte>, pos: nat, s: seq<Entry>)
    requires SortedByOffset(s) && Pairwise(s, Separate)
    requires forall e | e in s :: pos <= e.offset && e.offset + e.length <= |data|
    ensures Chained(data, pos, s)
  {
    forall i, j | 0 <= i < j < |s|
      ensures s[i].offset + s[i].length <= s[j].offset
    {
      PairwiseAt(s, Separate, i, j);
    }
    assert forall i | 0 <= i < |s| :: s[i] in s;
  }

  /**
   * Fetches the entries in the given order: skips from the cursor to each
   * entry's offset and reads its bytes into the buffer of its table.
   */
  method FetchTables(c: Cursor, ordered: seq<Entry>) returns (r: Result<map<Table, seq<byte>>>)
    modifies c
    ensures r.Ok? <==> Fetch(c.data, old(c.pos), ordered, map[]).Ok?
    ensures r.Ok? ==> Fetch(c.data, old(c.pos), ordered, map[]).value == (r.value, c.pos)
    ensures r.Err? ==> Fetch(c.data, old(c.pos), ordered, map[]).error == r.error
  {
    ghost var fetch := Fetch(c.data, c.pos, ordered, map[]);
    var tables: map<Table, seq<byte>> := map[];
    var k := 0;
    while k < |ordered|
      invariant k <= |ordered|
      invariant fetch == Fetch(c.data, c.pos, ordered[k..], tables)
    {
      var e := ordered[k];
      assert ordered[k..][0] == e && ordered[k..][1..] == ordered[k + 1..];
      if e.offset < c.pos {
        return Err(BackwardSkip);
      }
      :- c.Skip(e.offset - c.pos);
      var bytes :- c.Read(e.length);
      assert c.pos == e.offset + e.length;
      tables := tables[e.table := bytes];
      k := k + 1;
    }
    assert ordered[k..] == [];
    r := Ok(tables);
  }

  // ---------------------------------------------------------------------------
  // One font. `p` is where its offset table continues after the 4-byte
  // signature: a 2-byte table count and 6 further bytes (search range, entry
  // selector, range shift) precede the directory, which therefore starts 12
  // bytes after the start of the font.
  // ---------------------------------------------------------------------------

  /** The table buffers of the font at `p` and the cursor position after the fetch. */
  ghost function FontTables(data: seq<byte>, p: nat): Result<(map<Table, seq<byte>>, nat)> {
    if p + 2 > |data| then Err(EndOfStream)
    else if p + 8 > |data| then Err(EndOfStream)
    else
      var dir :- ReadDirectory(data, p + 8, U16At(data, p));
      Fetch(data, dir.1, SortByOffset(dir.0), map[])
  }

  /**
   * Builds the font's metadata from its table buffers: the `ltag` list (empty
   * without an `ltag` table) goes to the name decoder, a missing `name` table
   * is an error, and `OS/2`, `head` and `post` are decoded when present.
   */
  function Assemble(tables: map<Table, seq<byte>>, dec: Decoders): (r: Result<FontData>)
    ensures r.Ok? <==> Name in tables
    ensures r.Err? ==> r.error == MissingNameTable
    ensures r.Ok? ==>
      && r.value.os2.Some? == (OS2 in tables)
      && r.value.head.Some? == (Head in tables)
      && r.value.post.Some? == (Post in tables)
  {
    var ltag := if Ltag in tables then dec.ltag(tables[Ltag]) else [];
    if Name !in tables then Err(MissingNameTable)
    else Ok(FontData(
      dec.name(tables[Name], ltag),
      if OS2 in tables then Some(dec.os2(tables[OS2])) else None,
      if Head in tables then Some(dec.head(tables[Head])) else None,
      if Post in tables then Some(dec.post(tables[Post])) else None))
  }

  /** The metadata of the font whose offset table continues at `p`. */
  ghost function TrueTypeFont(data: seq<byte>, p: nat, dec: Decoders): Result<FontData> {
    var tables :- FontTables(data, p);
    Assemble(tables.0, dec)
  }

  /**
   * Reads the table count and skips the rest of the offset table, walks the
   * directory, fetches the found tables in offset order and assembles them.
   */
  method ParseTrueTypeFont(c: Cursor, dec: Decoders) returns (r: Result<FontData>)
    modifies c
    ensures r == TrueTypeFont(c.data, old(c.pos), dec)
    ensures r.Ok? ==> c.pos == FontTables(c.data, old(c.pos)).value.1
  {
    ghost var p := c.pos;
    var count :- c.Read(2);
    var numTables := U16At(count, 0);
    assert numTables == U16At(c.data, p);
    :- c.Skip(6);
    assert c.pos == p + 8;
    var meta :- FindTableRecords(c, numTables);
    var tables :- FetchTables(c, SortByOffset(meta));
    r := Assemble(tables, dec);
  }

  // ---------------------------------------------------------------------------
  // From the directory to the metadata.
  // ---------------------------------------------------------------------------

  /** In a list without repeated tables, the entry of `t` is the one `Lookup` finds. */
  lemma {:induction false} LookupUnique(meta: TableMeta, e: Entry)
    requires Pairwise(meta, DifferentTables) && e in meta
    ensures Lookup(meta, e.table) == Some(e)
  {
    if meta[0] != e {
      assert e in meta[1..];
      LookupUnique(meta[1..], e);
    }
  }

  /**
   * The directory's result, when the offset table and the directory can be
   * read: the directory begins 8 bytes after `p`, with `U16At(data, p)` records.
   */
  ghost function DirectoryOf(data: seq<byte>, p: nat): Result<(TableMeta, nat)> {
    if p + 8 > |data| then Err(EndOfStream) else ReadDirectory(data, p + 8, U16At(data, p))
  }

  /**
   * A font's buffers are those of the tables its directory located: `t` has a
   * buffer exactly when the directory found an entry for it, and that buffer
   * holds the bytes the entry locates. Entries are fetched in offset order,
   * so the cursor ends past the entry with the greatest offset.
   */
  lemma FontTablesLocated(data: seq<byte>, p: nat, t: Table)
    requires FontTables(data, p).Ok?
    ensures DirectoryOf(data, p).Ok?
    ensures var meta := DirectoryOf(data, p).value.0;
      var tables := FontTables(data, p).value.0;
      && (t in tables <==> Lookup(meta, t).Some?)
      && (t in tables ==>
            && Lookup(meta, t).value.offset + Lookup(meta, t).value.length <= |data|
            && tables[t] == Located(data, Lookup(meta, t).value))
    ensures var dir := DirectoryOf(data, p).value;
      var sorted := SortByOffset(dir.0);
      SortedByOffset(sorted) && FontTables(data, p).value.1 == FetchEnd(dir.1, sorted)
  {
    var dir := DirectoryOf(data, p).value;
    var meta := dir.0;
    var sorted := SortByOffset(meta);
    WalkKeepsTablesDistinct(data, p + 8, U16At(data, p), []);
    SortSorts(meta);
    SortKeepsPairwise(meta, DifferentTables);
    FetchContents(data, dir.1, sorted, map[]);
    LookupFinds(meta, t);
    if Lookup(meta, t).Some? {
      var e := Lookup(meta, t).value;
      assert e in multiset(sorted);
    }
    if t in TablesOf(sorted) {
      var e :| e in sorted && e.table == t;
      assert e in multiset(meta);
      LookupUnique(meta, e);
    }
  }

  /**
   * The metadata in terms of the directory: the parse succeeds exactly when the
   * tables can be fetched and the directory located a `name` table; the name
   * decoder gets that table's bytes and the decoded `ltag` table if one was
   * located (the empty list otherwise); `OS/2`, `head` and `post` are decoded
   * from their bytes exactly when the directory located them.
   */
  lemma TrueTypeFontFromDirectory(data: seq<byte>, p: nat, dec: Decoders)
    requires FontTables(data, p).Ok?
    ensures DirectoryOf(data, p).Ok?
    ensures var meta := DirectoryOf(data, p).value.0;
      var r := TrueTypeFont(data, p, dec);
      && (r.Ok? <==> Lookup(meta, Name).Some?)
      && (r.Err? ==> r.error == MissingNameTable)
      && (r.Ok? ==>
            && r.value.names == dec.name(TableBytes(data, meta, Name), LanguageTagsOf(data, meta, dec))
            && r.value.os2 == (if Lookup(meta, OS2).Some? then Some(dec.os2(TableBytes(data, meta, OS2))) else None)
            && r.value.head == (if Lookup(meta, Head).Some? then Some(dec.head(TableBytes(data, meta, Head))) else None)
            && r.value.post == (if Lookup(meta, Post).Some? then Some(dec.post(TableBytes(data, meta, Post))) else None))
  {
    FontTablesLocated(data, p, Name);
    FontTablesLocated(data, p, Ltag);
    FontTablesLocated(data, p, OS2);
    FontTablesLocated(data, p, Head);
    FontTablesLocated(data, p, Post);
  }

  /** The bytes of the table `t` the directory `meta` located, or none. */
  function TableBytes(data: seq<byte>, meta: TableMeta, t: Table): seq<byte> {
    match Lookup(meta, t)
    case Some(e) => if e.offset + e.length <= |data| then Located(data, e) else []
    case None => []
  }

  /** The language tags handed to the name decoder: the decoded `ltag` table, if located. */
  function LanguageTagsOf(data: seq<byte>, meta: TableMeta, dec: Decoders): LanguageTags {
    if Lookup(meta, Ltag).Some? then dec.ltag(TableBytes(data, meta, Ltag)) else []
  }

  /**
   * When the located tables start at distinct offsets, do not overlap, and lie
   * inside the file after the directory, every one of them is fetched.
   */
  lemma FontTablesSucceed(data: seq<byte>, p: nat)
    requires DirectoryOf(data, p).Ok?
    requires var dir := DirectoryOf(data, p).value;
      && Pairwise(dir.0, Separate)
      && forall e | e in dir.0 :: dir.1 <= e.offset && e.offset + e.length <= |data|
    ensures FontTables(data, p).Ok?
  {
    var dir := DirectoryOf(data, p).value;
    var sorted := SortByOffset(dir.0);
    SortSorts(dir.0);
    SortKeepsPairwise(dir.0, Separate);
    forall e | e in sorted
      ensures dir.1 <= e.offset && e.offset + e.length <= |data|
    {
      assert e in multiset(dir.0);
    }
    SeparateIsChained(data, dir.1, sorted);
    FetchSucceeds(data, dir.1, sorted, map[]);
  }
}
