/** The airodump-ng CSV export, already split into rows of fields, read into
    the dictionary from client MAC address to its "Last time seen" field. */
module ClientScan {
  import opened Wrappers
  import opened PyStr
  import opened PyDict

  type Row = seq<string>

  /** First field of the row that opens the client section of the export. */
  const StationHeader: string := "Station MAC"

  /** `row[2]` on a client row with fewer than three fields raises IndexError. */
  datatype ParseError = IndexError

  predicate IsHeader(row: Row)
  {
    |row| > 0 && row[0] == StationHeader
  }

  /** A row that, inside the client section, makes `row[2]` fail. */
  predicate IsShort(row: Row)
  {
    0 < |row| < 3 && !IsHeader(row)
  }

  /** A row that, inside the client section, becomes a dictionary entry. */
  predicate IsClientRow(row: Row)
  {
    |row| >= 3 && !IsHeader(row)
  }

  /** The entry a client row contributes: trimmed MAC to trimmed last-seen time. */
  function EntryOf(row: Row): (string, string)
    requires |row| >= 3
  {
    (Strip(row[0]), Strip(row[2]))
  }

  /** The index of the first header row, if any. */
  function FirstHeader(rows: seq<Row>): (r: Option<nat>)
    ensures r.Some? ==> r.value < |rows| && IsHeader(rows[r.value])
    ensures r.Some? ==> forall j :: 0 <= j < r.value ==> !IsHeader(rows[j])
    ensures r.None? ==> forall j :: 0 <= j < |rows| ==> !IsHeader(rows[j])
  {
    if rows == [] then None
    else if IsHeader(rows[0]) then Some(0)
    else match FirstHeader(rows[1..])
      case None => None
      case Some(h) => Some(h + 1)
  }

  /** The rows after the first header; empty when there is no header. */
  function ClientSection(rows: seq<Row>): seq<Row>
  {
    match FirstHeader(rows)
    case None => []
    case Some(h) => rows[h + 1..]
  }

  /** Row `j` lies after the first header. */
  predicate InClientSection(rows: seq<Row>, j: int)
  {
    FirstHeader(rows).Some? && FirstHeader(rows).value < j < |rows|
  }

  /** The entries of the client rows of `section`, in row order. */
  function Entries(section: seq<Row>): seq<(string, string)>
  {
    if section == [] then []
    else
      var row := section[|section| - 1];
      Entries(section[..|section| - 1]) + (if IsClientRow(row) then [EntryOf(row)] else [])
  }

  predicate HasShortRow(section: seq<Row>)
  {
    exists j :: 0 <= j < |section| && IsShort(section[j])
  }

  /** What reading the export yields: IndexError if the client section holds a
      short row, otherwise the dictionary built from its client rows in order. */
  function Parse(rows: seq<Row>): Result<Dict, ParseError>
  {
    var section := ClientSection(rows);
    if HasShortRow(section) then Err(IndexError) else Ok(FromPairs(Entries(section)))
  }

  /** The row loop: skip blank rows, switch to the client section at a header
      row, and record every later row as `row[0].strip() -> row[2].strip()`. */
  method GetAllClients(rows: seq<Row>) returns (r: Result<Dict, ParseError>)
    ensures r == Parse(rows)
  {
    var clientLine := false;
    var allClients := Empty();
    var i := 0;
    while i < |rows|
      invariant i <= |rows|
      invariant clientLine == FirstHeader(rows[..i]).Some?
      invariant !HasShortRow(ClientSection(rows[..i]))
      invariant allClients == FromPairs(Entries(ClientSection(rows[..i])))
    {
      var row := rows[i];
      ReadRow(rows, i);
      ghost var next := FromPairs(Entries(ClientSection(rows[..i + 1])));
      if |row| == 0 {
      } else if row[0] == StationHeader {
        clientLine := true;
      } else if clientLine {
        if |row| < 3 {
          return Err(IndexError);
        }
        var entry := EntryOf(row);
        allClients := Put(allClients, entry.0, entry.1);
      }
      assert allClients == next;
      i := i + 1;
    }
    assert rows[..i] == rows;
    return Ok(allClients);
  }

  /** The effect of reading row `i`, for a prefix free of short client rows:
      a short client row makes the whole parse fail, a client row adds its
      entry, and any other row changes no entry. */
  lemma ReadRow(rows: seq<Row>, i: nat)
    requires i < |rows|
    requires !HasShortRow(ClientSection(rows[..i]))
    ensures FirstHeader(rows[..i + 1]).Some? == (FirstHeader(rows[..i]).Some? || IsHeader(rows[i]))
    ensures FirstHeader(rows[..i]).Some? && IsShort(rows[i]) ==> Parse(rows).Err?
    ensures !(FirstHeader(rows[..i]).Some? && IsShort(rows[i])) ==>
      && !HasShortRow(ClientSection(rows[..i + 1]))
      && FromPairs(Entries(ClientSection(rows[..i + 1])))
         == if FirstHeader(rows[..i]).Some? && IsClientRow(rows[i])
            then Put(FromPairs(Entries(ClientSection(rows[..i]))), EntryOf(rows[i]).0, EntryOf(rows[i]).1)
            else FromPairs(Entries(ClientSection(rows[..i])))
  {
    SectionGrows(rows, i);
    var sec := ClientSection(rows[..i]);
    if FirstHeader(rows[..i]).Some? {
      EntriesSnoc(sec, rows[i]);
      if IsShort(rows[i]) {
        assert IsShort(ClientSection(rows[..i + 1])[|sec|]);
        SectionExtends(rows, i + 1);
      } else {
        assert !HasShortRow(sec + [rows[i]]) by {
          forall j | 0 <= j < |sec| + 1 ensures !IsShort((sec + [rows[i]])[j]) {
            if j < |sec| {
              assert (sec + [rows[i]])[j] == sec[j];
            }
          }
        }
        assert ClientSection(rows[..i + 1]) == sec + [rows[i]];
        if !IsClientRow(rows[i]) {
          assert Entries(sec + [rows[i]]) == Entries(sec);
        }
      }
    }
  }

  /** A successful read yields a well-formed dictionary. */
  lemma ParseValid(rows: seq<Row>)
    requires Parse(rows).Ok?
    ensures Valid(Parse(rows).value)
  {
    FromPairsValid(Entries(ClientSection(rows)));
  }

  /** How the first header and the client section change when one more row is read. */
  lemma SectionGrows(rows: seq<Row>, i: nat)
    requires i < |rows|
    ensures FirstHeader(rows[..i + 1]).Some? == (FirstHeader(rows[..i]).Some? || IsHeader(rows[i]))
    ensures ClientSection(rows[..i + 1])
      == if FirstHeader(rows[..i]).Some? then ClientSection(rows[..i]) + [rows[i]] else []
  {
    var pre, ext := rows[..i], rows[..i + 1];
    assert pre == ext[..i];
    match FirstHeader(pre)
    case Some(h) =>
      FirstHeaderOfExtension(ext, i);
      assert ext[h + 1..] == pre[h + 1..] + [rows[i]];
    case None =>
      if IsHeader(rows[i]) {
        assert FirstHeader(ext) == Some(i);
      } else {
        assert FirstHeader(ext) == None;
      }
  }

  /** Once a prefix holds a header, the whole sequence has the same first header. */
  lemma FirstHeaderOfExtension(rows: seq<Row>, n: nat)
    requires n <= |rows| && FirstHeader(rows[..n]).Some?
    ensures FirstHeader(rows) == FirstHeader(rows[..n])
  {
    var h := FirstHeader(rows[..n]).value;
    assert rows[..n][h] == rows[h];
    assert forall j :: 0 <= j < h ==> rows[..n][j] == rows[j];
  }

  /** Once a prefix holds a header, the rest of the rows extend its client section. */
  lemma SectionExtends(rows: seq<Row>, n: nat)
    requires n <= |rows| && FirstHeader(rows[..n]).Some?
    ensures ClientSection(rows) == ClientSection(rows[..n]) + rows[n..]
    ensures HasShortRow(ClientSection(rows[..n])) ==> HasShortRow(ClientSection(rows))
  {
    FirstHeaderOfExtension(rows, n);
    var h := FirstHeader(rows).value;
    assert rows[h + 1..] == rows[..n][h + 1..] + rows[n..];
    if HasShortRow(ClientSection(rows[..n])) {
      var j :| 0 <= j < |ClientSection(rows[..n])| && IsShort(ClientSection(rows[..n])[j]);
      assert ClientSection(rows)[j] == ClientSection(rows[..n])[j];
    }
  }

  /** Reading one more section row appends at most its own entry. */
  lemma EntriesSnoc(section: seq<Row>, row: Row)
    ensures Entries(section + [row])
      == Entries(section) + (if IsClientRow(row) then [EntryOf(row)] else [])
    ensures IsClientRow(row) ==>
      FromPairs(Entries(section + [row])) == Put(FromPairs(Entries(section)), EntryOf(row).0, EntryOf(row).1)
  {
    assert (section + [row])[..|section|] == section;
    if IsClientRow(row) {
      var es := Entries(section) + [EntryOf(row)];
      FromPairsUnfold(es);
      assert es[..|es| - 1] == Entries(section);
    }
  }

  /** The entries of two consecutive stretches of rows are those of each, in order. */
  lemma {:induction false} EntriesAppend(a: seq<Row>, b: seq<Row>)
    ensures Entries(a + b) == Entries(a) + Entries(b)
  {
    if b == [] {
      assert a + b == a;
    } else {
      var init := b[..|b| - 1];
      assert (a + b)[..|a + b| - 1] == a + init;
      EntriesAppend(a, init);
    }
  }

  /** Some client row of `section` has trimmed MAC `k` exactly when some entry assigns `k`. */
  lemma {:induction false} EntriesAssign(section: seq<Row>, k: string)
    ensures Assigns(Entries(section), k)
      <==> exists j :: 0 <= j < |section| && IsClientRow(section[j]) && Strip(section[j][0]) == k
  {
    if section != [] {
      var init, row := section[..|section| - 1], section[|section| - 1];
      var es := Entries(section);
      EntriesAssign(init, k);
      if Assigns(es, k) {
        var p :| 0 <= p < |es| && es[p].0 == k;
        if p < |Entries(init)| {
          assert es[p] == Entries(init)[p];
          var j :| 0 <= j < |init| && IsClientRow(init[j]) && Strip(init[j][0]) == k;
          assert section[j] == init[j];
        } else {
          assert IsClientRow(row) && Strip(row[0]) == k;
        }
      }
      if j :| 0 <= j < |section| && IsClientRow(section[j]) && Strip(section[j][0]) == k {
        if j < |init| {
          assert init[j] == section[j];
          var p :| 0 <= p < |Entries(init)| && Entries(init)[p].0 == k;
          assert es[p] == Entries(init)[p];
        } else {
          assert es[|es| - 1] == EntryOf(row);
        }
      }
    }
  }

  /** A client row not followed by another with the same trimmed MAC gives an
      entry that no later entry reassigns. */
  lemma {:induction false} EntriesLast(section: seq<Row>, j: nat)
    requires j < |section| && IsClientRow(section[j])
    requires forall j' :: j < j' < |section| && IsClientRow(section[j']) ==>
      Strip(section[j'][0]) != Strip(section[j][0])
    ensures exists p ::
              && 0 <= p < |Entries(section)| && Entries(section)[p] == EntryOf(section[j])
              && forall q :: p < q < |Entries(section)| ==> Entries(section)[q].0 != EntryOf(section[j]).0
  {
    var init, row := section[..|section| - 1], section[|section| - 1];
    var es := Entries(section);
    if j == |section| - 1 {
      var p := |es| - 1;
      assert es[p] == EntryOf(row);
    } else {
      assert init[j] == section[j];
      forall j' | j < j' < |init| && IsClientRow(init[j'])
        ensures Strip(init[j'][0]) != Strip(init[j][0])
      {
        assert init[j'] == section[j'];
      }
      EntriesLast(init, j);
      var p :| 0 <= p < |Entries(init)| && Entries(init)[p] == EntryOf(init[j])
        && forall q :: p < q < |Entries(init)| ==> Entries(init)[q].0 != EntryOf(init[j]).0;
      assert es[p] == Entries(init)[p];
      forall q | p < q < |es| ensures es[q].0 != EntryOf(section[j]).0 {
        if q < |Entries(init)| {
          assert es[q] == Entries(init)[q];
        } else {
          assert IsClientRow(row) && es[q] == EntryOf(row);
        }
      }
    }
  }

  /** Where the first header is, when rows `h` is a header and none before it is. */
  lemma FirstHeaderAt(rows: seq<Row>, h: nat)
    requires h < |rows| && IsHeader(rows[h])
    requires forall j :: 0 <= j < h ==> !IsHeader(rows[j])
    ensures FirstHeader(rows) == Some(h)
  {
  }

  /** Rows before the first "Station MAC" row never matter: placing any
      header-free preamble in front of the export leaves the result unchanged,
      and an export with no header row at all yields `{}`. */
  lemma PreambleIgnored(pre: seq<Row>, rows: seq<Row>)
    requires forall j :: 0 <= j < |pre| ==> !IsHeader(pre[j])
    ensures Parse(pre + rows) == Parse(rows)
    ensures (forall j :: 0 <= j < |rows| ==> !IsHeader(rows[j])) ==> Parse(pre + rows) == Ok(Empty())
  {
    PreambleSection(pre, rows);
  }

  /** A header-free preamble leaves the client section as it is. */
  lemma PreambleSection(pre: seq<Row>, rows: seq<Row>)
    requires forall j :: 0 <= j < |pre| ==> !IsHeader(pre[j])
    ensures ClientSection(pre + rows) == ClientSection(rows)
  {
    var all := pre + rows;
    match FirstHeader(rows)
    case None =>
      assert forall j :: 0 <= j < |all| ==> !IsHeader(all[j]) by {
        forall j | 0 <= j < |all| ensures !IsHeader(all[j]) {
          if j >= |pre| {
            assert all[j] == rows[j - |pre|];
          }
        }
      }
      assert FirstHeader(all) == None;
    case Some(h) =>
      assert all[|pre| + h] == rows[h];
      forall j | 0 <= j < |pre| + h ensures !IsHeader(all[j]) {
        if j >= |pre| {
          assert all[j] == rows[j - |pre|];
        }
      }
      FirstHeaderAt(all, |pre| + h);
      assert all[|pre| + h + 1..] == rows[h + 1..];
  }

  /** Removing one row that is not short from a stretch of rows does not change whether a short row occurs. */
  lemma ShortRowsWithout(a: seq<Row>, row: Row, b: seq<Row>)
    requires !IsShort(row)
    ensures HasShortRow(a + [row] + b) == HasShortRow(a + b)
  {
    var withRow, without := a + [row] + b, a + b;
    if HasShortRow(withRow) {
      var j :| 0 <= j < |withRow| && IsShort(withRow[j]);
      if j < |a| {
        assert without[j] == withRow[j];
      } else {
        assert j > |a| && without[j - 1] == withRow[j];
      }
    }
    if HasShortRow(without) {
      var j :| 0 <= j < |without| && IsShort(without[j]);
      if j < |a| {
        assert withRow[j] == without[j];
      } else {
        assert withRow[j + 1] == without[j];
      }
    }
  }

  /** Blank rows are skipped wherever they occur, and a repeated header row
      inside the client section is skipped too: inserting either at position
      `j` leaves the result unchanged. */
  lemma SkippedRowIgnored(rows: seq<Row>, j: nat, row: Row)
    requires j <= |rows|
    requires row == [] || (IsHeader(row) && FirstHeader(rows[..j]).Some?)
    ensures Parse(rows[..j] + [row] + rows[j..]) == Parse(rows)
  {
    var ins := rows[..j] + [row] + rows[j..];
    assert ins[..j] == rows[..j];
    if FirstHeader(rows[..j]).Some? {
      var h := FirstHeader(rows[..j]).value;
      SectionAroundInsert(rows, j, row);
      var a, b := rows[h + 1..j], rows[j..];
      ShortRowsWithout(a, row, b);
      EntriesAppend(a + [row], b);
      EntriesAppend(a, [row]);
      EntriesAppend(a, b);
      assert Entries([row]) == [] by {
        assert [row][..0] == [];
      }
      assert Entries(a + [row]) == Entries(a);
      assert Entries(ClientSection(ins)) == Entries(ClientSection(rows));
    } else {
      assert row == [];
      PreambleSection(rows[..j] + [row], rows[j..]);
      PreambleSection(rows[..j], rows[j..]);
      assert rows[..j] + rows[j..] == rows;
    }
  }

  /** Inserting a row at `j`, after the first header, inserts it into the client section. */
  lemma SectionAroundInsert(rows: seq<Row>, j: nat, row: Row)
    requires j <= |rows| && FirstHeader(rows[..j]).Some?
    ensures var h := FirstHeader(rows[..j]).value;
      && h < j
      && ClientSection(rows[..j] + [row] + rows[j..]) == rows[h + 1..j] + [row] + rows[j..]
      && ClientSection(rows) == rows[h + 1..j] + rows[j..]
  {
    var h := FirstHeader(rows[..j]).value;
    assert h < j;
    FirstHeaderOfExtension(rows, j);
    assert rows[h + 1..] == rows[h + 1..j] + rows[j..] by {
      assert rows == rows[..h + 1] + rows[h + 1..j] + rows[j..];
    }
    var ins := rows[..j] + [row] + rows[j..];
    assert ins[..j] == rows[..j];
    FirstHeaderOfExtension(ins, j);
    assert ins[h + 1..] == rows[h + 1..j] + [row] + rows[j..];
  }

  /** The read fails exactly when some row after the first header has one or
      two fields and is not itself a header row. */
  lemma ParseFailsIff(rows: seq<Row>)
    ensures Parse(rows).Err? <==> exists j :: InClientSection(rows, j) && IsShort(rows[j])
  {
    if FirstHeader(rows).Some? {
      var h := FirstHeader(rows).value;
      var section := ClientSection(rows);
      if HasShortRow(section) {
        var i :| 0 <= i < |section| && IsShort(section[i]);
        assert rows[h + 1 + i] == section[i];
      }
      if j :| InClientSection(rows, j) && IsShort(rows[j]) {
        assert section[j - h - 1] == rows[j];
      }
    }
  }

  /** A MAC is in the result exactly when some client row after the first
      header carries it, trimmed, in its first field: header rows, blank rows
      and the preamble never contribute. */
  lemma ParseHasClient(rows: seq<Row>, k: string)
    requires Parse(rows).Ok?
    ensures k in Parse(rows).value.values
      <==> exists j :: InClientSection(rows, j) && IsClientRow(rows[j]) && Strip(rows[j][0]) == k
  {
    var section := ClientSection(rows);
    FromPairsHasKey(Entries(section), k);
    EntriesAssign(section, k);
    if FirstHeader(rows).Some? {
      var h := FirstHeader(rows).value;
      if i :| 0 <= i < |section| && IsClientRow(section[i]) && Strip(section[i][0]) == k {
        assert rows[h + 1 + i] == section[i];
      }
      if j :| InClientSection(rows, j) && IsClientRow(rows[j]) && Strip(rows[j][0]) == k {
        assert section[j - h - 1] == rows[j];
      }
    }
  }

  /** Some client row after the first header carries `x`, and no client row
      after the header and up to that one carries `y`. */
  ghost predicate FirstSeenBefore(rows: seq<Row>, x: string, y: string)
  {
    exists j ::
      && InClientSection(rows, j) && IsClientRow(rows[j]) && Strip(rows[j][0]) == x
      && forall j' :: InClientSection(rows, j') && j' <= j && IsClientRow(rows[j']) ==> Strip(rows[j'][0]) != y
  }

  /** The MACs of the result are listed in the order of the first client row
      carrying each of them, whatever later rows reassign. */
  lemma ParseKeyOrder(rows: seq<Row>, a: nat, b: nat)
    requires Parse(rows).Ok?
    requires a < b < |Parse(rows).value.keys|
    ensures FirstSeenBefore(rows, Parse(rows).value.keys[a], Parse(rows).value.keys[b])
  {
    var section := ClientSection(rows);
    var es := Entries(section);
    var keys := Parse(rows).value.keys;
    var x, y := keys[a], keys[b];
    FromPairsKeyOrder(es);
    assert FirstAssignedBefore(es, x, y);
    EntriesFirstBefore(section, x, y);
    var i :| && 0 <= i < |section| && IsClientRow(section[i]) && Strip(section[i][0]) == x
             && forall i' :: 0 <= i' <= i && IsClientRow(section[i']) ==> Strip(section[i'][0]) != y;
    var h := FirstHeader(rows).value;
    var j := h + 1 + i;
    assert rows[j] == section[i];
    forall j' | InClientSection(rows, j') && j' <= j && IsClientRow(rows[j'])
      ensures Strip(rows[j'][0]) != y
    {
      assert rows[j'] == section[j' - h - 1];
    }
  }

  /** When `x` is first assigned before `y` among the entries, some client row
      carries `x` before any client row carries `y`. */
  lemma {:induction false} EntriesFirstBefore(section: seq<Row>, x: string, y: string)
    requires FirstAssignedBefore(Entries(section), x, y)
    ensures exists i ::
              && 0 <= i < |section| && IsClientRow(section[i]) && Strip(section[i][0]) == x
              && forall i' :: 0 <= i' <= i && IsClientRow(section[i']) ==> Strip(section[i'][0]) != y
  {
    var es := Entries(section);
    var init := section[..|section| - 1];
    var ei := Entries(init);
    assert es[..|ei|] == ei;
    var fx := FirstIndex(es, x);
    assert fx < |ei| && es[fx] == ei[fx];
    FirstIndexPrefix(es, |ei|, x);
    if Assigns(ei, y) {
      FirstIndexPrefix(es, |ei|, y);
      EntriesFirstBefore(init, x, y);
      var i :| && 0 <= i < |init| && IsClientRow(init[i]) && Strip(init[i][0]) == x
               && forall i' :: 0 <= i' <= i && IsClientRow(init[i']) ==> Strip(init[i'][0]) != y;
      assert section[i] == init[i];
      forall i' | 0 <= i' <= i && IsClientRow(section[i']) ensures Strip(section[i'][0]) != y {
        assert section[i'] == init[i'];
      }
    } else {
      EntriesAssign(init, x);
      EntriesAssign(init, y);
      var i :| 0 <= i < |init| && IsClientRow(init[i]) && Strip(init[i][0]) == x;
      assert section[i] == init[i];
      forall i' | 0 <= i' <= i && IsClientRow(section[i']) ensures Strip(section[i'][0]) != y {
        assert section[i'] == init[i'];
      }
    }
  }

  /** The value recorded for a MAC is the trimmed third field of the last
      client row carrying it: a later row with the same MAC overwrites it. */
  lemma ParseLastRowWins(rows: seq<Row>, j: nat)
    requires Parse(rows).Ok?
    requires InClientSection(rows, j) && IsClientRow(rows[j])
    requires forall j' :: j < j' < |rows| && IsClientRow(rows[j']) ==> Strip(rows[j'][0]) != Strip(rows[j][0])
    ensures Strip(rows[j][0]) in Parse(rows).value.values
    ensures Parse(rows).value.values[Strip(rows[j][0])] == Strip(rows[j][2])
  {
    var h := FirstHeader(rows).value;
    var section := ClientSection(rows);
    var i := j - h - 1;
    assert section[i] == rows[j];
    forall i' | i < i' < |section| && IsClientRow(section[i'])
      ensures Strip(section[i'][0]) != Strip(section[i][0])
    {
      assert section[i'] == rows[h + 1 + i'];
    }
    EntriesLast(section, i);
    var es := Entries(section);
    var p :| 0 <= p < |es| && es[p] == EntryOf(section[i])
      && forall q :: p < q < |es| ==> es[q].0 != EntryOf(section[i]).0;
    FromPairsLastWins(es, p);
  }
}
