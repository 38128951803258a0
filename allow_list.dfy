/** The allow-list of target stations, built once at start-up from a CSV file
    with an `evse_uid` column (load_target_stations in producer.py).

    The model starts after the file has been tokenised: a CSV source is either
    missing, or a header record plus the data records (each a list of cells),
    together with the index of the record at which reading raised, if it did. */
module AllowList {
  import opened Wrappers

  /** The column that holds the station identifiers. */
  const UID_COLUMN: string := "evse_uid"

  datatype CsvSource =
    | Missing
    | Present(header: seq<string>, records: seq<seq<string>>, failsAt: Option<nat>)

  // ---------------------------------------------------------------------------
  // Python's str.strip() with no argument

  /** The characters for which Python's str.isspace() holds: tab to carriage
      return, the four separators U+001C to U+001F, space, and the Unicode
      space and line/paragraph separators. */
  predicate IsSpace(c: char) {
    || ('\t' <= c <= '\r') || ('\U{001C}' <= c <= ' ') || c == '\U{0085}' || c == '\U{00A0}'
    || c == '\U{1680}' || ('\U{2000}' <= c <= '\U{200A}') || c == '\U{2028}' || c == '\U{2029}'
    || c == '\U{202F}' || c == '\U{205F}' || c == '\U{3000}'
  }

  predicate AllSpace(s: string) {
    forall i :: 0 <= i < |s| ==> IsSpace(s[i])
  }

  /** Neither end of `s` is whitespace. */
  predicate Trimmed(s: string) {
    s == [] || (!IsSpace(s[0]) && !IsSpace(s[|s| - 1]))
  }

  /** Drops the leading whitespace. */
  function TrimLeft(s: string): string {
    if |s| > 0 && IsSpace(s[0]) then TrimLeft(s[1..]) else s
  }

  /** Drops the trailing whitespace. */
  function TrimRight(s: string): string {
    if |s| > 0 && IsSpace(s[|s| - 1]) then TrimRight(s[..|s| - 1]) else s
  }

  function Strip(s: string): string {
    TrimRight(TrimLeft(s))
  }

  /** TrimLeft gives the longest suffix of `s` that does not start with
      whitespace. */
  lemma {:induction false} TrimLeftSpec(s: string)
    ensures |TrimLeft(s)| <= |s| && TrimLeft(s) == s[|s| - |TrimLeft(s)|..]
    ensures AllSpace(s[..|s| - |TrimLeft(s)|])
    ensures TrimLeft(s) == [] || !IsSpace(TrimLeft(s)[0])
  {
    if |s| > 0 && IsSpace(s[0]) {
      var r := TrimLeft(s[1..]);
      TrimLeftSpec(s[1..]);
      assert s[1..][|s| - 1 - |r|..] == s[|s| - |r|..];
      forall k | 0 < k < |s| - |r| ensures IsSpace(s[k]) {
        assert s[k] == s[1..][..|s| - 1 - |r|][k - 1];
      }
    }
  }

  /** TrimRight gives the longest prefix of `s` that does not end with
      whitespace. */
  lemma {:induction false} TrimRightSpec(s: string)
    ensures |TrimRight(s)| <= |s| && TrimRight(s) == s[..|TrimRight(s)|]
    ensures AllSpace(s[|TrimRight(s)|..])
    ensures TrimRight(s) == [] || !IsSpace(TrimRight(s)[|TrimRight(s)| - 1])
  {
    if |s| > 0 && IsSpace(s[|s| - 1]) {
      var r := TrimRight(s[..|s| - 1]);
      TrimRightSpec(s[..|s| - 1]);
      assert s[..|s| - 1][..|r|] == s[..|r|];
      forall k | |r| <= k < |s| - 1 ensures IsSpace(s[k]) {
        assert s[k] == s[..|s| - 1][|r|..][k - |r|];
      }
    }
  }

  /** Strip keeps one contiguous slice of its input, removes only whitespace,
      and leaves neither end as whitespace: no other normalisation is applied. */
  lemma StripIsTrimmedSlice(s: string)
    ensures exists i, j :: 0 <= i <= j <= |s| && Strip(s) == s[i..j]
                           && AllSpace(s[..i]) && AllSpace(s[j..])
    ensures Trimmed(Strip(s))
  {
    var l := TrimLeft(s);
    var i := |s| - |l|;
    var r := TrimRight(l);
    var j := i + |r|;
    TrimLeftSpec(s);
    TrimRightSpec(l);
    SliceOfSlice(s, i, |r|);
    assert Strip(s) == s[i..j] by {
      assert l == s[i..];
    }
    assert AllSpace(s[..i]);
    assert AllSpace(s[j..]) by {
      assert l == s[i..];
      assert AllSpace(l[|r|..]);
    }
    assert Trimmed(r) by {
      if r != [] {
        assert r[0] == l[0];
      }
    }
  }

  /** The first `n` characters of `s[i..]` are `s[i..i + n]`, and what follows
      them is `s[i + n..]`. */
  lemma SliceOfSlice(s: string, i: nat, n: nat)
    requires i + n <= |s|
    ensures s[i..][..n] == s[i..i + n]
    ensures s[i..][n..] == s[i + n..]
  {
  }

  /** A string with no whitespace at either end is left unchanged. */
  lemma StripOfTrimmed(s: string)
    requires Trimmed(s)
    ensures Strip(s) == s
  {
    assert TrimLeft(s) == s;
    if s != [] {
      assert TrimRight(s) == s;
    }
  }

  /** Stripping twice is stripping once. */
  lemma StripIdempotent(s: string)
    ensures Strip(Strip(s)) == Strip(s)
  {
    StripIsTrimmedSlice(s);
    StripOfTrimmed(Strip(s));
  }

  /** A string made only of whitespace strips to the empty string. */
  lemma {:induction false} StripAllSpace(s: string)
    requires AllSpace(s)
    ensures Strip(s) == ""
  {
    if |s| > 0 {
      assert AllSpace(s[1..]);
      StripAllSpace(s[1..]);
    }
  }

  // ---------------------------------------------------------------------------
  // Rows as csv.DictReader builds them

  /** Header names with surrounding whitespace removed. */
  function StripAll(names: seq<string>): (r: seq<string>)
    ensures |r| == |names|
    ensures forall i :: 0 <= i < |names| ==> r[i] == Strip(names[i])
  {
    seq(|names|, i requires 0 <= i < |names| => Strip(names[i]))
  }

  /** The value DictReader gives to column `j`: the cell, or None (its
      default restval) when the record is shorter than the header. */
  function Cell(cells: seq<string>, j: nat): Option<string> {
    if j < |cells| then Some(cells[j]) else None
  }

  /** Column `j` is the last one carrying its name. */
  predicate LastOfName(names: seq<string>, j: nat)
    requires j < |names|
  {
    forall k :: j < k < |names| ==> names[k] != names[j]
  }

  /** The dictionary DictReader yields for one record: the header names zipped
      with the cells, then every name beyond the record's end set to None.
      Keys are written in column order, so when two columns share a name the
      later column wins. Cells beyond the header go under DictReader's restkey
      None, which is not a string and so never equals a column name. */
  function RowDict(names: seq<string>, cells: seq<string>): map<string, Option<string>> {
    if |names| == 0 then map[]
    else RowDict(names[..|names| - 1], cells)[names[|names| - 1] := Cell(cells, |names| - 1)]
  }

  /** A row has a key for every header name and for nothing else. */
  lemma {:induction false} RowDictKeys(names: seq<string>, cells: seq<string>)
    ensures forall key :: key in RowDict(names, cells) <==> key in names
  {
    if |names| > 0 {
      var last := |names| - 1;
      RowDictKeys(names[..last], cells);
      assert names == names[..last] + [names[last]];
    }
  }

  /** Each header name maps to the cell under the last column of that name. */
  lemma {:induction false} RowDictValues(names: seq<string>, cells: seq<string>, j: nat)
    requires j < |names| && LastOfName(names, j)
    ensures names[j] in RowDict(names, cells)
    ensures RowDict(names, cells)[names[j]] == Cell(cells, j)
  {
    var last := |names| - 1;
    if j < last {
      assert names[..last][j] == names[j];
      assert LastOfName(names[..last], j);
      RowDictValues(names[..last], cells, j);
    }
  }

  /** dict.get: None when the key is absent. */
  function Get(row: map<string, Option<string>>, key: string): Option<string> {
    if key in row then row[key] else None
  }

  /** `row.get('evse_uid')` for one record under the given header. */
  function Uid(names: seq<string>, cells: seq<string>): Option<string> {
    Get(RowDict(names, cells), UID_COLUMN)
  }

  // ---------------------------------------------------------------------------
  // The allow-list

  /** Record `i` is read and contributes `x`: its `evse_uid` value is truthy
      and strips to `x`. */
  predicate Contributes(names: seq<string>, records: seq<seq<string>>, i: int, x: string) {
    0 <= i < |records| && x in Contribution(names, records[i])
  }

  /** What one record adds: its stripped `evse_uid` value when that value is
      truthy, nothing otherwise. */
  function Contribution(names: seq<string>, cells: seq<string>): set<string> {
    var uid := Uid(names, cells);
    if Truthy(uid) then {Strip(uid.value)} else {}
  }

  /** The identifiers a run of records contributes, record after record. */
  function Gathered(names: seq<string>, records: seq<seq<string>>): set<string> {
    if records == [] then {}
    else Gathered(names, records[..|records| - 1]) + Contribution(names, records[|records| - 1])
  }

  /** How many records are read before the failure, if there is one. */
  function ReadCount(records: seq<seq<string>>, failsAt: Option<nat>): (n: nat)
    ensures n <= |records|
    ensures failsAt.None? ==> n == |records|
  {
    if failsAt.Some? && failsAt.value < |records| then failsAt.value else |records|
  }

  /** The allow-list a source yields: empty for a missing file, otherwise what
      the records read before any failure contribute under the stripped header. */
  function Load(src: CsvSource): set<string> {
    match src
    case Missing => {}
    case Present(header, records, failsAt) =>
      Gathered(StripAll(header), records[..ReadCount(records, failsAt)])
  }

  /** The gathered set is exactly the set of values some record contributes. */
  lemma {:induction false} GatheredMembers(names: seq<string>, records: seq<seq<string>>, x: string)
    ensures x in Gathered(names, records) <==> exists i :: Contributes(names, records, i, x)
  {
    if records != [] {
      var last := |records| - 1;
      var prefix := records[..last];
      GatheredMembers(names, prefix, x);
      if x in Gathered(names, prefix) {
        var i :| Contributes(names, prefix, i, x);
        assert prefix[i] == records[i];
        assert Contributes(names, records, i, x);
      } else if x in Contribution(names, records[last]) {
        assert Contributes(names, records, last, x);
      }
      if exists i :: Contributes(names, records, i, x) {
        var i :| Contributes(names, records, i, x);
        if i < last {
          assert prefix[i] == records[i];
          assert Contributes(names, prefix, i, x);
        }
      }
    }
  }

  /** Reading record `i` adds exactly its contribution to what the first `i`
      records gave: its stripped value when that value is truthy, and nothing
      when it is missing, None or empty. */
  lemma GatheredStep(names: seq<string>, records: seq<seq<string>>, i: nat)
    requires i < |records|
    ensures Gathered(names, records[..i + 1])
         == Gathered(names, records[..i])
            + (if Truthy(Uid(names, records[i])) then {Strip(Uid(names, records[i]).value)} else {})
  {
    assert records[..i + 1][..i] == records[..i];
  }

  /** The loader: builds the set of target identifiers record by record.
      It never fails: a missing file gives the empty set, and a failure part-way
      keeps what was gathered before it. */
  method LoadTargetStations(src: CsvSource) returns (targetIds: set<string>)
    ensures targetIds == Load(src)
    ensures src.Missing? ==> targetIds == {}
  {
    targetIds := {};
    if src.Missing? {
      return;
    }
    var records := src.records;
    var fieldnames := src.header;
    if |fieldnames| > 0 {
      fieldnames := StripAll(fieldnames);
    }
    assert fieldnames == StripAll(src.header);
    var n := ReadCount(records, src.failsAt);
    var i := 0;
    while i < n
      invariant 0 <= i <= n
      invariant targetIds == Gathered(fieldnames, records[..i])
    {
      var row := RowDict(fieldnames, records[i]);
      var uid := Get(row, UID_COLUMN);
      GatheredStep(fieldnames, records, i);
      if uid.Some? && uid.value != "" {
        targetIds := targetIds + {Strip(uid.value)};
      }
      i := i + 1;
    }
  }

  // ---------------------------------------------------------------------------
  // Properties of the allow-list

  /** A record of a prefix contributes what it contributes in the whole list. */
  lemma PrefixContributes(names: seq<string>, records: seq<seq<string>>, n: nat, i: int, x: string)
    requires n <= |records|
    ensures Contributes(names, records[..n], i, x) <==> i < n && Contributes(names, records, i, x)
  {
    if 0 <= i < n {
      assert records[..n][i] == records[i];
    }
  }

  /** Loaded identifiers are exactly the values the records read before any
      failure contribute; a missing file gives none. */
  lemma LoadMembers(src: CsvSource, x: string)
    ensures x in Load(src) <==>
              src.Present? && exists i :: i < ReadCount(src.records, src.failsAt)
                                          && Contributes(StripAll(src.header), src.records, i, x)
  {
    if src.Present? {
      var names := StripAll(src.header);
      var n := ReadCount(src.records, src.failsAt);
      GatheredMembers(names, src.records[..n], x);
      forall i ensures Contributes(names, src.records[..n], i, x) <==> i < n && Contributes(names, src.records, i, x) {
        PrefixContributes(names, src.records, n, i, x);
      }
    }
  }

  /** Every record with a present non-empty `evse_uid` value contributes that
      value, stripped. */
  lemma LoadedRecord(header: seq<string>, records: seq<seq<string>>, i: nat, v: string)
    requires i < |records|
    requires Uid(StripAll(header), records[i]) == Some(v) && v != ""
    ensures Strip(v) in Load(Present(header, records, None))
  {
    assert Contributes(StripAll(header), records, i, Strip(v));
    LoadMembers(Present(header, records, None), Strip(v));
  }

  /** Conversely, every loaded identifier is the stripped, truthy `evse_uid`
      value of some record of a file that exists. */
  lemma LoadedComesFromRecord(src: CsvSource, x: string)
    requires x in Load(src)
    ensures src.Present?
    ensures exists i :: 0 <= i < |src.records| && Truthy(Uid(StripAll(src.header), src.records[i]))
                        && x == Strip(Uid(StripAll(src.header), src.records[i]).value)
  {
    LoadMembers(src, x);
  }

  /** Header names are stripped before the lookup, so a padded header such as
      " evse_uid " still names the identifier column. */
  lemma PaddedHeaderFound(header: seq<string>, records: seq<seq<string>>, i: nat, j: nat)
    requires i < |records| && j < |header| && j < |records[i]|
    requires Strip(header[j]) == UID_COLUMN
    requires forall k :: j < k < |header| ==> Strip(header[k]) != UID_COLUMN
    requires records[i][j] != ""
    ensures Strip(records[i][j]) in Load(Present(header, records, None))
  {
    var names := StripAll(header);
    assert LastOfName(names, j);
    RowDictValues(names, records[i], j);
    LoadedRecord(header, records, i, records[i][j]);
  }

  /** A value made only of whitespace is truthy, so it adds the empty string. */
  lemma BlankValueAddsEmpty(header: seq<string>, records: seq<seq<string>>, i: nat, v: string)
    requires i < |records|
    requires Uid(StripAll(header), records[i]) == Some(v) && v != "" && AllSpace(v)
    ensures "" in Load(Present(header, records, None))
  {
    StripAllSpace(v);
    LoadedRecord(header, records, i, v);
  }

  /** Every loaded identifier has no whitespace at either end, and stripping it
      again changes nothing. */
  lemma LoadedAreTrimmed(src: CsvSource, x: string)
    requires x in Load(src)
    ensures Trimmed(x) && Strip(x) == x
  {
    LoadMembers(src, x);
    var names := StripAll(src.header);
    var i :| i < ReadCount(src.records, src.failsAt) && Contributes(names, src.records, i, x);
    StripIsTrimmedSlice(Uid(names, src.records[i]).value);
    StripIdempotent(Uid(names, src.records[i]).value);
  }

  /** A failure part-way returns exactly what the records before it contribute,
      which is never more than the whole file would give. */
  lemma FailureKeepsPrefix(header: seq<string>, records: seq<seq<string>>, k: nat)
    requires k <= |records|
    ensures Load(Present(header, records, Some(k))) == Load(Present(header, records[..k], None))
    ensures Load(Present(header, records, Some(k))) <= Load(Present(header, records, None))
  {
    var names := StripAll(header);
    var prefix := records[..k];
    assert ReadCount(records, Some(k)) == k;
    assert ReadCount(prefix, None) == k;
    assert prefix[..k] == prefix;
    forall x | x in Load(Present(header, records, Some(k)))
      ensures x in Load(Present(header, records, None))
    {
      LoadMembers(Present(header, records, Some(k)), x);
      LoadMembers(Present(header, records, None), x);
    }
  }

  /** The result is a set: the order of the records and repeated records do
      not matter, only which records occur. */
  lemma RecordOrderIrrelevant(names: seq<string>, rs1: seq<seq<string>>, rs2: seq<seq<string>>)
    requires forall r :: r in rs1 <==> r in rs2
    ensures Gathered(names, rs1) == Gathered(names, rs2)
  {
    forall x | x in Gathered(names, rs1) ensures x in Gathered(names, rs2) {
      GatheredMembers(names, rs1, x);
      GatheredMembers(names, rs2, x);
      var i :| Contributes(names, rs1, i, x);
      assert rs1[i] in rs2;
      var j :| 0 <= j < |rs2| && rs2[j] == rs1[i];
      assert Contributes(names, rs2, j, x);
    }
    forall x | x in Gathered(names, rs2) ensures x in Gathered(names, rs1) {
      GatheredMembers(names, rs1, x);
      GatheredMembers(names, rs2, x);
      var i :| Contributes(names, rs2, i, x);
      assert rs2[i] in rs1;
      var j :| 0 <= j < |rs1| && rs1[j] == rs2[i];
      assert Contributes(names, rs1, j, x);
    }
  }
}
