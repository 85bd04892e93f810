/**
 * toDB and the table it works on. The MySQL table is a map from filePath to
 * its row; the answers of QueryRow/Scan and Exec that do not follow from the
 * table (connection faults) are inputs, one DbReply per received record.
 */
module Store {
  import opened Wrappers
  import opened HashInfo

  /** A row of the table. oldHash and oldTime are None until the first update
      writes them (the insert statement does not name those columns). */
  datatype Row = Row(
    filePath: string,
    extension: string,
    permissions: string,
    hash: string,
    hashTime: string,
    lastModified: string,
    oldHash: Option<string>,
    oldTime: Option<string>)

  type Table = map<string, Row>

  /** Each row sits under its own filePath. */
  ghost predicate Keyed(table: Table) {
    forall p :: p in table ==> table[p].filePath == p
  }

  /** What the select on filePath followed by Scan reports. */
  datatype Lookup = NoRows | Found(row: Row) | OtherErr(cause: string)

  /** The database's faults during one iteration of the consumer loop: a
      failing select, a failing update, and whether a batch insert issued in
      that iteration takes effect. */
  datatype DbReply = DbReply(queryFault: Option<string>, updateFault: Option<string>, insertOk: bool)

  function QueryRow(table: Table, path: string, fault: Option<string>): (l: Lookup)
    ensures l.NoRows? <==> fault.None? && path !in table
    ensures l.Found? <==> fault.None? && path in table
    ensures l.Found? ==> l.row == table[path]
    ensures fault.Some? ==> l == OtherErr(fault.value)
  {
    match fault
    case Some(cause) => OtherErr(cause)
    case None => if path in table then Found(table[path]) else NoRows
  }

  // ---------------------------------------------------------------------------
  // The insert fragment

  /** The six values of a NEW row, in the order of the insert column list
      (filePath, extension, permissions, hash, hashTime, lastModified). */
  function Fields(f: FileHashInfo): seq<string> {
    [f.path, f.extension, f.permissions, f.hash, f.hashTime, f.modifiedDate]
  }

  /** fmt.Sprintf for a format whose only verbs are %s: pieces holds the
      format's text around the verbs, args the values put in their place. */
  function Sprintf(pieces: seq<string>, args: seq<string>): string
    requires |pieces| == |args| + 1
  {
    if args == [] then pieces[0] else pieces[0] + args[0] + Sprintf(pieces[1..], args[1..])
  }

  /** The format "('%s', '%s', '%s', '%s', '%s', '%s')" cut at its verbs. */
  const FragmentFormat: seq<string> := ["('", "', '", "', '", "', '", "', '", "', '", "')"]

  /** The tuple toDB returns for a NEW file; nothing is escaped. */
  function Fragment(f: FileHashInfo): (r: string)
    ensures |r| >= 24 && r[..2] == "('" && r[|r| - 2..] == "')"
  {
    SprintfShape(Fields(f));
    Sprintf(FragmentFormat, Fields(f))
  }

  /** The format pieces after the first verb: a separator before each further
      value and the closing text. */
  function Closing(n: nat): (pieces: seq<string>)
    ensures |pieces| == n + 1 && pieces[n] == "')"
    ensures forall i :: 0 <= i < n ==> pieces[i] == "', '"
  {
    if n == 0 then ["')"] else ["', '"] + Closing(n - 1)
  }

  /** What follows the first opening quote: "v0', 'v1', ..., 'vn')". */
  function Quoted(vs: seq<string>): string
    requires |vs| >= 1
  {
    vs[0] + Sprintf(Closing(|vs| - 1), vs[1..])
  }

  lemma {:induction false} QuotedShape(vs: seq<string>)
    requires |vs| >= 1
    ensures |Quoted(vs)| >= 2 + 4 * (|vs| - 1) && Quoted(vs)[|Quoted(vs)| - 2..] == "')"
  {
    var c := Closing(|vs| - 1);
    if |vs| > 1 {
      QuotedShape(vs[1..]);
      assert c[1..] == Closing(|vs| - 2);
      assert Quoted(vs) == vs[0] + c[0] + Quoted(vs[1..]);
    }
  }

  lemma SprintfShape(vs: seq<string>)
    requires |vs| == 6
    ensures var r := Sprintf(FragmentFormat, vs);
            |r| >= 24 && r[..2] == "('" && r[|r| - 2..] == "')"
  {
    assert FragmentFormat[1..] == Closing(5);
    assert Sprintf(FragmentFormat, vs) == "('" + Quoted(vs);
    QuotedShape(vs);
  }

  /** The pieces a correctly split fragment yields after "(": each value
      followed by the text up to the next opening quote. */
  function Interleave(vs: seq<string>): (ps: seq<string>)
    requires |vs| >= 1
    ensures |ps| == 2 * |vs| && ps[0] == vs[0] && ps[|ps| - 1] == ")"
  {
    if |vs| == 1 then [vs[0], ")"] else [vs[0], ", "] + Interleave(vs[1..])
  }

  /** s cut at every occurrence of c. */
  function Split(s: string, c: char): (parts: seq<string>)
    ensures |parts| >= 1
  {
    if s == [] then [[]]
    else
      var rest := Split(s[1..], c);
      if s[0] == c then [[]] + rest else [[s[0]] + rest[0]] + rest[1..]
  }

  /** Reads a fragment back: the six values between the quotes, provided the
      punctuation between them is the fragment's. */
  function ParseFragment(s: string): Option<seq<string>> {
    var ps := Split(s, '\'');
    if |ps| == 13 && ps[0] == "(" && ps[12] == ")" &&
       ps[2] == ", " && ps[4] == ", " && ps[6] == ", " && ps[8] == ", " && ps[10] == ", "
    then Some([ps[1], ps[3], ps[5], ps[7], ps[9], ps[11]])
    else None
  }

  lemma {:induction false} SplitNoSeparator(p: string, c: char)
    requires c !in p
    ensures Split(p, c) == [p]
  {
    if p != [] {
      SplitNoSeparator(p[1..], c);
      assert [p[0]] + p[1..] == p;
    }
  }

  lemma {:induction false} SplitAfter(p: string, c: char, t: string)
    requires c !in p
    ensures Split(p + [c] + t, c) == [p] + Split(t, c)
  {
    if p == [] {
      assert p + [c] + t == [c] + t;
      assert ([c] + t)[1..] == t;
    } else {
      var s := p + [c] + t;
      assert s[0] == p[0] && s[1..] == p[1..] + [c] + t;
      SplitAfter(p[1..], c, t);
      assert [p[0]] + p[1..] == p;
    }
  }

  /** Splitting what follows an opening quote at the quotes gives back every
      value, each followed by its punctuation, when no value holds a quote. */
  lemma {:induction false} SplitQuoted(vs: seq<string>)
    requires |vs| >= 1
    requires forall i :: 0 <= i < |vs| ==> '\'' !in vs[i]
    ensures Split(Quoted(vs), '\'') == Interleave(vs)
  {
    var q := '\'';
    var c := Closing(|vs| - 1);
    if |vs| == 1 {
      assert Quoted(vs) == vs[0] + [q] + ")";
      SplitAfter(vs[0], q, ")");
      SplitNoSeparator(")", q);
    } else {
      var rest := Quoted(vs[1..]);
      assert c[1..] == Closing(|vs| - 2);
      assert Quoted(vs) == vs[0] + [q] + (", " + [q] + rest);
      SplitAfter(vs[0], q, ", " + [q] + rest);
      SplitAfter(", ", q, rest);
      SplitQuoted(vs[1..]);
    }
  }

  /** The fragment carries the six values in column order and can be read back
      unambiguously, as long as no value holds a single quote (the code does
      not escape them). */
  lemma FragmentRoundTrip(f: FileHashInfo)
    requires forall i :: 0 <= i < 6 ==> '\'' !in Fields(f)[i]
    ensures ParseFragment(Fragment(f)) == Some(Fields(f))
  {
    var q := '\'';
    var vs := Fields(f);
    assert FragmentFormat[1..] == Closing(5);
    assert Fragment(f) == "(" + [q] + Quoted(vs);
    SplitAfter("(", q, Quoted(vs));
    SplitQuoted(vs);
    assert Interleave(vs[5..]) == [f.modifiedDate, ")"];
    assert Interleave(vs[4..]) == [f.hashTime, ", ", f.modifiedDate, ")"] by { assert vs[4..][1..] == vs[5..]; }
    assert Interleave(vs[3..]) == [f.hash, ", "] + Interleave(vs[4..]) by { assert vs[3..][1..] == vs[4..]; }
    assert Interleave(vs[2..]) == [f.permissions, ", "] + Interleave(vs[3..]) by { assert vs[2..][1..] == vs[3..]; }
    assert Interleave(vs[1..]) == [f.extension, ", "] + Interleave(vs[2..]) by { assert vs[1..][1..] == vs[2..]; }
    assert Interleave(vs) == [f.path, ", "] + Interleave(vs[1..]);
  }

  // ---------------------------------------------------------------------------
  // toDB

  /** The row a batch insert of f's fragment creates. */
  function NewRow(f: FileHashInfo): (r: Row)
    ensures r.filePath == f.path && r.oldHash == None && r.oldTime == None
  {
    Row(f.path, f.extension, f.permissions, f.hash, f.hashTime, f.modifiedDate, None, None)
  }

  /** The update statement of toDB on the row keyed by f.path, where dbHash and
      dbTime are what Scan left in its destination variables. A path with no
      row matches nothing. */
  function Update(table: Table, f: FileHashInfo, dbHash: string, dbTime: string): (t: Table)
    ensures t.Keys == table.Keys
    ensures t - {f.path} == table - {f.path}
    ensures f.path in t ==>
              && t[f.path].filePath == table[f.path].filePath
              && t[f.path].oldHash == Some(dbHash) && t[f.path].oldTime == Some(dbTime)
              && t[f.path].hash == f.hash && t[f.path].hashTime == f.hashTime
              && t[f.path].lastModified == f.modifiedDate
              && t[f.path].extension == f.extension && t[f.path].permissions == f.permissions
  {
    if f.path in table then
      table[f.path := table[f.path].(oldHash := Some(dbHash), oldTime := Some(dbTime),
                                     hash := f.hash, hashTime := f.hashTime,
                                     lastModified := f.modifiedDate,
                                     extension := f.extension, permissions := f.permissions)]
    else table
  }

  function UpdateError(cause: string): string {
    "DB Update error:::: " + cause + " \n"
  }

  /** What one call of toDB returns, the table after it, and what it sends on
      the error channel. */
  datatype Persisted = Persisted(response: string, table: Table, reported: seq<string>)

  /** toDB: a fragment to queue for a NEW path; otherwise an immediate update
      that rotates hash/hashTime into oldHash/oldTime, and "". A lookup error
      other than "no rows" takes the update branch with the empty strings Scan
      left behind. */
  function ToDBResult(table: Table, f: FileHashInfo, reply: DbReply): (p: Persisted)
    // NEW: a non-empty fragment, and nothing written or reported
    ensures p.response != "" <==> QueryRow(table, f.path, reply.queryFault).NoRows?
    ensures p.response != "" ==> p.response == Fragment(f) && p.table == table && p.reported == []
  {
    var lookup := QueryRow(table, f.path, reply.queryFault);
    if lookup.NoRows? then Persisted(Fragment(f), table, [])
    else
      var dbHash := if lookup.Found? then lookup.row.hash else "";
      var dbTime := if lookup.Found? then lookup.row.hashTime else "";
      match reply.updateFault
      case Some(cause) => Persisted("", table, [UpdateError(cause)])
      case None => Persisted("", Update(table, f, dbHash, dbTime), [])
  }

  /** The update branch of toDB: only the row of the path may change; a stored
      row is rotated; a failed update leaves the table alone and is reported
      once; a failed lookup still updates, writing empty previous values. */
  lemma UpdateBranch(table: Table, f: FileHashInfo, reply: DbReply)
    requires !QueryRow(table, f.path, reply.queryFault).NoRows?
    ensures var p := ToDBResult(table, f, reply);
            && p.response == ""
            && p.table.Keys == table.Keys && p.table - {f.path} == table - {f.path}
            && p.reported == (if reply.updateFault.Some? then [UpdateError(reply.updateFault.value)] else [])
            && (reply.updateFault.Some? ==> p.table == table)
    // a successful update of a stored row writes the record into it; the
    // previous values are the stored ones, or "" after a failed lookup
    ensures var p := ToDBResult(table, f, reply);
            reply.updateFault.None? && f.path in table ==>
              var before := table[f.path];
              var after := p.table[f.path];
              && after.filePath == before.filePath
              && after.oldHash == Some(if reply.queryFault.None? then before.hash else "")
              && after.oldTime == Some(if reply.queryFault.None? then before.hashTime else "")
              && after.hash == f.hash && after.hashTime == f.hashTime
              && after.lastModified == f.modifiedDate
              && after.extension == f.extension && after.permissions == f.permissions
  {
  }

  // ---------------------------------------------------------------------------
  // The batch insert

  function PathsOf(ps: seq<FileHashInfo>): (paths: set<string>)
    ensures forall i :: 0 <= i < |ps| ==> ps[i].path in paths
  {
    if ps == [] then {} else PathsOf(ps[..|ps| - 1]) + {ps[|ps| - 1].path}
  }

  /** The effect of executing a multi-row insert of the fragments of ps: a NEW
      row per record, later records winning. */
  function InsertAll(table: Table, ps: seq<FileHashInfo>): (t: Table)
    ensures t.Keys == table.Keys + PathsOf(ps)
    ensures forall p :: p in table && p !in PathsOf(ps) ==> t[p] == table[p]
  {
    if ps == [] then table
    else InsertAll(table, ps[..|ps| - 1])[ps[|ps| - 1].path := NewRow(ps[|ps| - 1])]
  }

  /** A batched record whose path no later record repeats gets a NEW row, with
      no previous hash. */
  lemma {:induction false} InsertedRowIsNew(table: Table, ps: seq<FileHashInfo>, i: nat)
    requires i < |ps|
    requires forall j :: i < j < |ps| ==> ps[j].path != ps[i].path
    ensures InsertAll(table, ps)[ps[i].path] == NewRow(ps[i])
  {
    if i < |ps| - 1 {
      InsertedRowIsNew(table, ps[..|ps| - 1], i);
    }
  }

  /** toDB and the batch insert keep every row under its own filePath. */
  lemma KeyedPreserved(table: Table, f: FileHashInfo, reply: DbReply, ps: seq<FileHashInfo>)
    requires Keyed(table)
    ensures Keyed(ToDBResult(table, f, reply).table)
    ensures Keyed(InsertAll(table, ps))
  {
    if !QueryRow(table, f.path, reply.queryFault).NoRows? {
      UpdateBranch(table, f, reply);
    }
    InsertAllKeyed(table, ps);
  }

  lemma {:induction false} InsertAllKeyed(table: Table, ps: seq<FileHashInfo>)
    requires Keyed(table)
    ensures Keyed(InsertAll(table, ps))
  {
    if ps != [] {
      InsertAllKeyed(table, ps[..|ps| - 1]);
    }
  }

  /** Scanning a file twice: the first scan queues a fragment whose insert
      makes a NEW row with no previous hash; the second rotates, so the row's
      oldHash is the first scan's hash and its hash the second's. */
  lemma SecondScanRotates(table: Table, first: FileHashInfo, second: FileHashInfo, r1: DbReply, r2: DbReply)
    requires first.path == second.path && first.path !in table
    requires r1.queryFault.None? && r2.queryFault.None? && r2.updateFault.None?
    ensures var p1 := ToDBResult(table, first, r1);
            var stored := InsertAll(p1.table, [first]);
            var p2 := ToDBResult(stored, second, r2);
            && p1.response == Fragment(first)
            && stored[first.path].oldHash == None
            && p2.response == "" && p2.reported == []
            && p2.table[first.path].oldHash == Some(first.hash)
            && p2.table[first.path].oldTime == Some(first.hashTime)
            && p2.table[first.path].hash == second.hash
            && p2.table[first.path].hashTime == second.hashTime
  {
    var p1 := ToDBResult(table, first, r1);
    var stored := InsertAll(p1.table, [first]);
    assert [first][..0] == [];
    assert stored[first.path] == NewRow(first);
    UpdateBranch(stored, second, r2);
  }
}
