/** The web handlers of the spreadsheet backend (webapp/apps_script_code.js:58-271).
    `doGet` lists the unbought rows of the requested sheets, and `doPost` marks
    or clears the sold-out cell of booth rows. The spreadsheet is a `Workbook`:
    an in-memory list of sheets. Each sheet is a grid of cell texts whose first
    row holds the headers. A cell beyond the end of a short row reads as the
    empty text, as every blank cell of a sheet's data range does. */
module SheetHandlers {
  import opened JsValues
  import Ledger

  datatype Sheet = Sheet(name: string, rows: seq<seq<string>>)

  const DefaultSheetNames: seq<string> := ["day1_1"]
  const SpaceColumnName: string := "space"
  const StatusColumnName: string := "soldout"
  const PurchasedStatusText: string := "x"

  /** `row[j]` of a data range. */
  function Cell(row: seq<string>, j: nat): string
  {
    if j < |row| then row[j] else ""
  }

  // ---------------------------------------------------------------------------
  // Text helpers: split(","), trim(), toLowerCase(), replace(/\s+/g, "")
  // ---------------------------------------------------------------------------

  /** The characters JavaScript's `\s` and `trim` treat as white space. */
  predicate IsJsSpace(c: char)
  {
    c == '\t' || c == '\n' || c == '\U{000B}' || c == '\U{000C}' || c == '\r' || c == ' ' ||
    c == '\U{00A0}' || c == '\U{1680}' || '\U{2000}' <= c <= '\U{200A}' || c == '\U{2028}' ||
    c == '\U{2029}' || c == '\U{202F}' || c == '\U{205F}' || c == '\U{3000}' || c == '\U{FEFF}'
  }

  /** `s.split(",")`: the texts between the commas, empty ones included. */
  function Split(s: string): (r: seq<string>)
    ensures |r| >= 1
    ensures forall i :: 0 <= i < |r| ==> ',' !in r[i]
  {
    if s == [] then [""]
    else if s[0] == ',' then [""] + Split(s[1..])
    else
      var t := Split(s[1..]);
      [[s[0]] + t[0]] + t[1..]
  }

  /** `parts.join(",")`. */
  function Join(parts: seq<string>): string
    requires |parts| >= 1
  {
    if |parts| == 1 then parts[0] else parts[0] + "," + Join(parts[1..])
  }

  lemma Assoc<T>(x: seq<T>, y: seq<T>, z: seq<T>)
    ensures (x + y) + z == x + (y + z)
  {
  }

  lemma JoinConsHead(c: char, t: seq<string>)
    requires |t| >= 1
    ensures Join([[c] + t[0]] + t[1..]) == [c] + Join(t)
  {
    var u := [[c] + t[0]] + t[1..];
    if |t| > 1 {
      var rest := Join(t[1..]);
      assert u[1..] == t[1..];
      assert Join(u) == (([c] + t[0]) + ",") + rest;
      assert Join(t) == (t[0] + ",") + rest;
      Assoc([c], t[0], ",");
      Assoc([c], t[0] + ",", rest);
    }
  }

  /** Joining the pieces again gives back the text. */
  lemma {:induction false} SplitJoin(s: string)
    ensures Join(Split(s)) == s
  {
    if s != [] {
      SplitJoin(s[1..]);
      if s[0] == ',' {
        assert ([""] + Split(s[1..]))[1..] == Split(s[1..]);
        assert s == "," + s[1..];
      } else {
        JoinConsHead(s[0], Split(s[1..]));
        assert s == [s[0]] + s[1..];
      }
    }
  }

  lemma {:induction false} SplitAfterPiece(a: string, b: string)
    requires ',' !in a
    ensures Split(a + "," + b) == [a] + Split(b)
    ensures Split(a) == [a]
  {
    if a != [] {
      SplitAfterPiece(a[1..], b);
      assert (a + "," + b)[1..] == a[1..] + "," + b;
      assert a == [a[0]] + a[1..];
    } else {
      assert (a + "," + b)[1..] == b;
    }
  }

  /** Splitting a join of comma-free texts gives back the texts. */
  lemma {:induction false} JoinSplit(parts: seq<string>)
    requires |parts| >= 1 && forall i :: 0 <= i < |parts| ==> ',' !in parts[i]
    ensures Split(Join(parts)) == parts
  {
    if |parts| == 1 {
      SplitAfterPiece(parts[0], "");
    } else {
      JoinSplit(parts[1..]);
      SplitAfterPiece(parts[0], Join(parts[1..]));
    }
  }

  function TrimStart(s: string): string
  {
    if s != [] && IsJsSpace(s[0]) then TrimStart(s[1..]) else s
  }

  function TrimEnd(s: string): string
  {
    if s != [] && IsJsSpace(s[|s| - 1]) then TrimEnd(s[..|s| - 1]) else s
  }

  /** `s.trim()`. */
  function Trim(s: string): string
  {
    TrimEnd(TrimStart(s))
  }

  lemma {:induction false} TrimStartMeaning(s: string)
    ensures exists i: nat :: i <= |s| && TrimStart(s) == s[i..] && forall k :: 0 <= k < i ==> IsJsSpace(s[k])
    ensures TrimStart(s) == [] || !IsJsSpace(TrimStart(s)[0])
  {
    if s != [] && IsJsSpace(s[0]) {
      TrimStartMeaning(s[1..]);
      var i: nat :| i <= |s[1..]| && TrimStart(s[1..]) == s[1..][i..] && forall k :: 0 <= k < i ==> IsJsSpace(s[1..][k]);
      assert s[1..][i..] == s[i + 1..];
      assert forall k :: 0 <= k < i + 1 ==> IsJsSpace(s[k]) by {
        forall k | 0 <= k < i + 1
          ensures IsJsSpace(s[k])
        {
          if k > 0 {
            assert s[k] == s[1..][k - 1];
          }
        }
      }
    } else {
      assert TrimStart(s) == s[0..];
    }
  }

  lemma {:induction false} TrimEndMeaning(s: string)
    ensures exists j: nat :: j <= |s| && TrimEnd(s) == s[..j] && forall k :: j <= k < |s| ==> IsJsSpace(s[k])
    ensures TrimEnd(s) == [] || !IsJsSpace(TrimEnd(s)[|TrimEnd(s)| - 1])
  {
    if s != [] && IsJsSpace(s[|s| - 1]) {
      var t := s[..|s| - 1];
      TrimEndMeaning(t);
      var j: nat :| j <= |t| && TrimEnd(t) == t[..j] && forall k :: j <= k < |t| ==> IsJsSpace(t[k]);
      assert t[..j] == s[..j];
      assert forall k :: j <= k < |s| ==> IsJsSpace(s[k]) by {
        forall k | j <= k < |s|
          ensures IsJsSpace(s[k])
        {
          if k < |t| {
            assert s[k] == t[k];
          }
        }
      }
    } else {
      assert TrimEnd(s) == s[..|s|];
    }
  }

  /** `trim` keeps a middle piece of the text and drops only white space
      around it. */
  lemma TrimMeaning(s: string)
    ensures exists i: nat, j: nat ::
      i <= j <= |s| && Trim(s) == s[i..j] &&
      (forall k :: 0 <= k < i ==> IsJsSpace(s[k])) && (forall k :: j <= k < |s| ==> IsJsSpace(s[k]))
  {
    TrimStartMeaning(s);
    var i: nat :| i <= |s| && TrimStart(s) == s[i..] && forall k :: 0 <= k < i ==> IsJsSpace(s[k]);
    TrimEndMeaning(s[i..]);
    var j: nat :| j <= |s[i..]| && TrimEnd(s[i..]) == s[i..][..j] && forall k :: j <= k < |s[i..]| ==> IsJsSpace(s[i..][k]);
    TrimPieces(s, i, j);
  }

  lemma TrimPieces(s: string, i: nat, j: nat)
    requires i <= |s| && j <= |s| - i
    requires forall k :: j <= k < |s[i..]| ==> IsJsSpace(s[i..][k])
    ensures s[i..][..j] == s[i..i + j]
    ensures forall k :: i + j <= k < |s| ==> IsJsSpace(s[k])
  {
    forall k | i + j <= k < |s|
      ensures IsJsSpace(s[k])
    {
      assert s[k] == s[i..][k - i];
    }
  }

  /** The trimmed text neither starts nor ends with white space. */
  lemma TrimEdges(s: string)
    ensures Trim(s) == [] || (!IsJsSpace(Trim(s)[0]) && !IsJsSpace(Trim(s)[|Trim(s)| - 1]))
  {
    var t := TrimStart(s);
    TrimStartMeaning(s);
    TrimEndMeaning(t);
    var j: nat :| j <= |t| && TrimEnd(t) == t[..j];
    if Trim(s) != [] {
      assert Trim(s)[0] == t[0];
    }
  }

  /** ASCII `toLowerCase`. */
  function LowerAscii(c: char): char
  {
    if 'A' <= c <= 'Z' then (c as int + 32) as char else c
  }

  /** `String(h).toLowerCase().replace(/\s+/g, "")`: the header key of a column. */
  function NormalizeHeader(h: string): (r: string)
    ensures |r| <= |h|
    ensures forall i :: 0 <= i < |r| ==> !IsJsSpace(r[i]) && !('A' <= r[i] <= 'Z')
  {
    if h == [] then []
    else if IsJsSpace(h[0]) then NormalizeHeader(h[1..])
    else [LowerAscii(h[0])] + NormalizeHeader(h[1..])
  }

  /** A key that is already normal stays as it is, so the exact column names of
      `doPost` are also the keys `doGet` gives those columns. */
  lemma {:induction false} NormalizeNormal(h: string)
    requires forall i :: 0 <= i < |h| ==> !IsJsSpace(h[i]) && !('A' <= h[i] <= 'Z')
    ensures NormalizeHeader(h) == h
  {
    if h != [] {
      NormalizeNormal(h[1..]);
      assert h == [h[0]] + h[1..];
    }
  }

  lemma {:induction false} NormalizeIdempotent(h: string)
    ensures NormalizeHeader(NormalizeHeader(h)) == NormalizeHeader(h)
  {
    NormalizeNormal(NormalizeHeader(h));
  }

  lemma NormalizeExample()
    ensures NormalizeHeader("So Ld") == "sold"
  {
    assert NormalizeHeader("d") == "d";
    assert NormalizeHeader("Ld") == "ld";
    assert NormalizeHeader(" Ld") == "ld";
    assert NormalizeHeader("o Ld") == "old";
  }

  // ---------------------------------------------------------------------------
  // doGet
  // ---------------------------------------------------------------------------

  /** The names `doGet` reads: the default list without a `sheets` parameter (or
      with an empty one), otherwise its comma-separated pieces, trimmed. */
  function TargetNames(sheetsParam: Option<string>): (r: seq<string>)
    ensures sheetsParam.None? || sheetsParam == Some("") ==> r == DefaultSheetNames
  {
    if sheetsParam.None? || sheetsParam.value == "" then DefaultSheetNames
    else
      var parts := Split(sheetsParam.value);
      seq(|parts|, i requires 0 <= i < |parts| => Trim(parts[i]))
  }

  /** A list of names written with commas is read back name by name. */
  lemma TargetNamesOfJoin(names: seq<string>)
    requires |names| >= 1 && forall i :: 0 <= i < |names| ==> ',' !in names[i]
    requires Join(names) != ""
    ensures TargetNames(Some(Join(names))) == seq(|names|, i requires 0 <= i < |names| => Trim(names[i]))
  {
    JoinSplit(names);
  }

  /** The row object of a data row: `obj[headers[i]] = row[i]` for the first `n`
      headers, in column order. */
  function RowObject(headers: seq<string>, row: seq<string>, n: nat): map<string, string>
    requires n <= |headers|
  {
    if n == 0 then map[] else RowObject(headers, row, n - 1)[headers[n - 1] := Cell(row, n - 1)]
  }

  /** The keys of the row object are the headers. */
  lemma {:induction false} RowObjectKeys(headers: seq<string>, row: seq<string>, n: nat)
    requires n <= |headers|
    ensures forall k :: k in RowObject(headers, row, n) <==> k in headers[..n]
  {
    if n > 0 {
      RowObjectKeys(headers, row, n - 1);
      assert headers[..n] == headers[..n - 1] + [headers[n - 1]];
    }
  }

  /** A header met twice keeps the cell of its last column. */
  lemma {:induction false} RowObjectLast(headers: seq<string>, row: seq<string>, n: nat, j: nat)
    requires j < n <= |headers| && forall j' :: j < j' < n ==> headers[j'] != headers[j]
    ensures headers[j] in RowObject(headers, row, n) && RowObject(headers, row, n)[headers[j]] == Cell(row, j)
  {
    if j < n - 1 {
      RowObjectLast(headers, row, n - 1, j);
      assert headers[n - 1] != headers[j];
    }
  }

  /** The filter of `doGet`: the space cell is not empty and the sold-out cell
      is not "x". */
  predicate Visible(obj: map<string, string>)
  {
    SpaceColumnName in obj && obj[SpaceColumnName] != "" &&
    !(StatusColumnName in obj && obj[StatusColumnName] == PurchasedStatusText)
  }

  function Headers(header: seq<string>): (r: seq<string>)
    ensures |r| == |header| && forall i :: 0 <= i < |header| ==> r[i] == NormalizeHeader(header[i])
  {
    seq(|header|, i requires 0 <= i < |header| => NormalizeHeader(header[i]))
  }

  /** The row objects of the data rows of a grid. */
  function Objects(headers: seq<string>, data: seq<seq<string>>): (r: seq<map<string, string>>)
    ensures |r| == |data| && forall i :: 0 <= i < |data| ==> r[i] == RowObject(headers, data[i], |headers|)
  {
    seq(|data|, i requires 0 <= i < |data| => RowObject(headers, data[i], |headers|))
  }

  /** What one sheet adds to the answer: nothing for an empty sheet, otherwise
      the visible row objects of its data rows, in row order. */
  function SheetResult(sheet: Sheet): seq<map<string, string>>
  {
    if sheet.rows == [] then [] else Ledger.Filter(Objects(Headers(sheet.rows[0]), sheet.rows[1..]), Visible)
  }

  /** A sheet lists exactly its visible data rows. */
  lemma SheetResultMeaning(sheet: Sheet)
    ensures forall x :: x in SheetResult(sheet) ==> Visible(x)
    ensures sheet.rows != [] ==> forall i :: 1 <= i < |sheet.rows| ==>
      var obj := RowObject(Headers(sheet.rows[0]), sheet.rows[i], |sheet.rows[0]|);
      Visible(obj) ==> obj in SheetResult(sheet)
  {
    if sheet.rows != [] {
      var objs := Objects(Headers(sheet.rows[0]), sheet.rows[1..]);
      FilterKeeps(objs, Visible);
      forall i | 1 <= i < |sheet.rows|
        ensures var obj := RowObject(Headers(sheet.rows[0]), sheet.rows[i], |sheet.rows[0]|);
          Visible(obj) ==> obj in SheetResult(sheet)
      {
        assert objs[i - 1] == RowObject(Headers(sheet.rows[0]), sheet.rows[i], |sheet.rows[0]|);
      }
    }
  }

  lemma {:induction false} FilterKeeps<T>(s: seq<T>, keep: T -> bool)
    ensures forall i :: 0 <= i < |s| && keep(s[i]) ==> s[i] in Ledger.Filter(s, keep)
  {
    if s != [] {
      FilterKeeps(s[1..], keep);
      forall i | 0 <= i < |s| && keep(s[i])
        ensures s[i] in Ledger.Filter(s, keep)
      {
        if i > 0 {
          assert s[i] == s[1..][i - 1];
        }
      }
    }
  }

  /** `getSheetByName`: the first sheet of that name. */
  function Lookup(sheets: seq<Sheet>, name: string): (r: Option<Sheet>)
    ensures r.Some? ==> r.value in sheets && r.value.name == name
    ensures r.None? <==> forall k :: 0 <= k < |sheets| ==> sheets[k].name != name
  {
    if sheets == [] then None
    else if sheets[0].name == name then Some(sheets[0])
    else Lookup(sheets[1..], name)
  }

  /** What one requested name adds: nothing when no sheet has that name. */
  function NameResult(sheets: seq<Sheet>, name: string): seq<map<string, string>>
  {
    match Lookup(sheets, name)
    case None => []
    case Some(sheet) => SheetResult(sheet)
  }

  /** The rows `doGet` returns for `names`: each name's rows, in request order. */
  function Fetch(sheets: seq<Sheet>, names: seq<string>): seq<map<string, string>>
  {
    if names == [] then [] else Fetch(sheets, names[..|names| - 1]) + NameResult(sheets, names[|names| - 1])
  }

  /** Every row `doGet` lists is visible. */
  lemma {:induction false} FetchVisible(sheets: seq<Sheet>, names: seq<string>)
    ensures forall x :: x in Fetch(sheets, names) ==> Visible(x)
  {
    if names != [] {
      FetchVisible(sheets, names[..|names| - 1]);
      var name := names[|names| - 1];
      if Lookup(sheets, name).Some? {
        SheetResultMeaning(Lookup(sheets, name).value);
      }
    }
  }

  /** The answer for two name lists is the answers one after the other. */
  lemma {:induction false} FetchAppend(sheets: seq<Sheet>, a: seq<string>, b: seq<string>)
    ensures Fetch(sheets, a + b) == Fetch(sheets, a) + Fetch(sheets, b)
    decreases |b|
  {
    if b == [] {
      assert a + b == a;
    } else {
      var b' := b[..|b| - 1];
      var last := NameResult(sheets, b[|b| - 1]);
      assert (a + b)[..|a + b| - 1] == a + b';
      assert (a + b)[|a + b| - 1] == b[|b| - 1];
      assert Fetch(sheets, a + b) == Fetch(sheets, a + b') + last;
      assert Fetch(sheets, b) == Fetch(sheets, b') + last;
      FetchAppend(sheets, a, b');
      Assoc(Fetch(sheets, a), Fetch(sheets, b'), last);
    }
  }

  lemma FetchStep(sheets: seq<Sheet>, names: seq<string>, n: nat)
    requires n < |names|
    ensures Fetch(sheets, names[..n + 1]) == Fetch(sheets, names[..n]) + NameResult(sheets, names[n])
  {
    assert names[..n + 1][..n] == names[..n];
  }

  /** A name no sheet has is skipped. */
  lemma MissingSheetSkipped(sheets: seq<Sheet>, a: seq<string>, name: string, b: seq<string>)
    requires forall k :: 0 <= k < |sheets| ==> sheets[k].name != name
    ensures Fetch(sheets, a + [name] + b) == Fetch(sheets, a + b)
  {
    assert NameResult(sheets, name) == [];
    assert Fetch(sheets, a + [name]) == Fetch(sheets, a) by {
      assert (a + [name])[..|a|] == a;
    }
    FetchAppend(sheets, a + [name], b);
    FetchAppend(sheets, a, b);
  }

  /** Every visible data row of a requested sheet is in the answer. */
  lemma {:induction false} FetchHasVisibleRows(sheets: seq<Sheet>, names: seq<string>, n: nat, i: nat)
    requires n < |names| && Lookup(sheets, names[n]).Some?
    requires var sheet := Lookup(sheets, names[n]).value;
      sheet.rows != [] && 1 <= i < |sheet.rows| &&
      Visible(RowObject(Headers(sheet.rows[0]), sheet.rows[i], |sheet.rows[0]|))
    ensures var sheet := Lookup(sheets, names[n]).value;
      RowObject(Headers(sheet.rows[0]), sheet.rows[i], |sheet.rows[0]|) in Fetch(sheets, names)
  {
    var sheet := Lookup(sheets, names[n]).value;
    var obj := RowObject(Headers(sheet.rows[0]), sheet.rows[i], |sheet.rows[0]|);
    assert names == names[..n] + [names[n]] + names[n + 1..];
    FetchAppend(sheets, names[..n] + [names[n]], names[n + 1..]);
    FetchAppend(sheets, names[..n], [names[n]]);
    assert [names[n]][..0] == [];
    SheetResultMeaning(sheet);
    assert Fetch(sheets, [names[n]]) == [] + SheetResult(sheet);
  }

  // ---------------------------------------------------------------------------
  // The cells doPost reads and writes
  // ---------------------------------------------------------------------------

  /** `headers.indexOf(x)`. */
  function IndexOf(headers: seq<string>, x: string): (r: int)
    ensures -1 <= r < |headers|
    ensures r == -1 <==> x !in headers
    ensures r >= 0 ==> headers[r] == x && x !in headers[..r]
  {
    if headers == [] then -1
    else if headers[0] == x then 0
    else
      var k := IndexOf(headers[1..], x);
      assert headers[1..][..if k < 0 then 0 else k] == headers[1..if k < 0 then 1 else k + 1];
      if k == -1 then -1 else k + 1
  }

  /** The space and status columns of a sheet, when its header row has both
      names exactly. */
  function Columns(sheet: Sheet): (r: Option<(nat, nat)>)
    ensures r.Some? ==>
      sheet.rows != [] && r.value.0 != r.value.1 &&
      Cell(sheet.rows[0], r.value.0) == SpaceColumnName && Cell(sheet.rows[0], r.value.1) == StatusColumnName
    ensures r.None? <==> sheet.rows == [] || SpaceColumnName !in sheet.rows[0] || StatusColumnName !in sheet.rows[0]
  {
    if sheet.rows == [] then None
    else
      var sc := IndexOf(sheet.rows[0], SpaceColumnName);
      var st := IndexOf(sheet.rows[0], StatusColumnName);
      if sc == -1 || st == -1 then None else Some((sc, st))
  }

  /** `getRange(i + 1, j + 1).setValue(v)` on row `row`: a write past the end of
      a short row fills the gap with empty cells. */
  function SetCell(row: seq<string>, j: nat, v: string): (r: seq<string>)
    ensures |r| == if j < |row| then |row| else j + 1
    ensures Cell(r, j) == v && forall j' :: j' != j ==> Cell(r, j') == Cell(row, j')
  {
    if j < |row| then row[j := v]
    else row + seq(j - |row|, _ => "") + [v]
  }

  lemma SetCellTwice(row: seq<string>, j: nat, v: string, w: string)
    ensures SetCell(SetCell(row, j, v), j, w) == SetCell(row, j, w)
  {
  }

  /** The sheet with the cell in row `i`, column `j` set to `v`. */
  function Write(sheet: Sheet, i: nat, j: nat, v: string): Sheet
    requires i < |sheet.rows|
  {
    sheet.(rows := sheet.rows[i := SetCell(sheet.rows[i], j, v)])
  }

  /** A write to a status cell leaves the header row when it is not the header
      row, and the space column everywhere, as they were. */
  lemma WriteKeepsColumns(sheet: Sheet, i: nat, j: nat, v: string)
    requires 1 <= i < |sheet.rows| && Columns(sheet).Some? && Columns(sheet).value.1 == j
    ensures Columns(Write(sheet, i, j, v)) == Columns(sheet)
    ensures forall i' :: 0 <= i' < |sheet.rows| ==>
      Cell(Write(sheet, i, j, v).rows[i'], Columns(sheet).value.0) == Cell(sheet.rows[i'], Columns(sheet).value.0)
  {
    assert Write(sheet, i, j, v).rows[0] == sheet.rows[0];
  }

  // ---------------------------------------------------------------------------
  // doPost, batch mode
  // ---------------------------------------------------------------------------

  /** A data row after the batch: its status cell is emptied when its space is
      one of `spaces`. */
  function ResetRow(row: seq<string>, sc: nat, st: nat, spaces: seq<string>): seq<string>
  {
    if Cell(row, sc) in spaces then SetCell(row, st, "") else row
  }

  /** A sheet after the batch: unchanged without both columns; otherwise the
      header row stays and every data row is reset. */
  function ResetSheet(sheet: Sheet, spaces: seq<string>): (r: Sheet)
    ensures r.name == sheet.name && |r.rows| == |sheet.rows|
  {
    match Columns(sheet)
    case None => sheet
    case Some(c) =>
      sheet.(rows := seq(|sheet.rows|, j requires 0 <= j < |sheet.rows| =>
        if j == 0 then sheet.rows[0] else ResetRow(sheet.rows[j], c.0, c.1, spaces)))
  }

  function ResetAll(sheets: seq<Sheet>, spaces: seq<string>): (r: seq<Sheet>)
    ensures |r| == |sheets| && forall k :: 0 <= k < |sheets| ==> r[k] == ResetSheet(sheets[k], spaces)
  {
    seq(|sheets|, k requires 0 <= k < |sheets| => ResetSheet(sheets[k], spaces))
  }

  /** The number of data rows among the first `n` rows whose space is one of
      `spaces`. */
  function HitCount(rows: seq<seq<string>>, sc: nat, spaces: seq<string>, n: nat): (r: nat)
    requires n <= |rows|
    ensures r <= if n == 0 then 0 else n - 1
  {
    if n <= 1 then 0
    else HitCount(rows, sc, spaces, n - 1) + (if Cell(rows[n - 1], sc) in spaces then 1 else 0)
  }

  function SheetHits(sheet: Sheet, spaces: seq<string>): nat
  {
    match Columns(sheet)
    case None => 0
    case Some(c) => HitCount(sheet.rows, c.0, spaces, |sheet.rows|)
  }

  /** The count the batch reports for the first `n` sheets. */
  function TotalHits(sheets: seq<Sheet>, spaces: seq<string>, n: nat): nat
    requires n <= |sheets|
  {
    if n == 0 then 0 else TotalHits(sheets, spaces, n - 1) + SheetHits(sheets[n - 1], spaces)
  }

  /** After the batch, a listed booth's row of a sheet with both columns reads
      "" as its status, and every other row and every sheet without both
      columns is as it was. */
  lemma ResetMeaning(sheet: Sheet, spaces: seq<string>, i: nat)
    requires i < |sheet.rows|
    ensures Columns(sheet).Some? && 1 <= i && Cell(sheet.rows[i], Columns(sheet).value.0) in spaces ==>
      Cell(ResetSheet(sheet, spaces).rows[i], Columns(sheet).value.1) == ""
    ensures Columns(sheet).None? || i == 0 || Cell(sheet.rows[i], Columns(sheet).value.0) !in spaces ==>
      ResetSheet(sheet, spaces).rows[i] == sheet.rows[i]
  {
  }

  /** Running the batch twice is running it once. */
  lemma ResetIdempotent(sheet: Sheet, spaces: seq<string>)
    ensures ResetSheet(ResetSheet(sheet, spaces), spaces) == ResetSheet(sheet, spaces)
  {
    var once := ResetSheet(sheet, spaces);
    if Columns(sheet).Some? {
      var c := Columns(sheet).value;
      assert once.rows[0] == sheet.rows[0];
      assert Columns(once) == Columns(sheet);
      var twice := ResetSheet(once, spaces);
      forall j | 0 <= j < |sheet.rows|
        ensures twice.rows[j] == once.rows[j]
      {
        if j > 0 && Cell(sheet.rows[j], c.0) in spaces {
          assert Cell(once.rows[j], c.0) == Cell(sheet.rows[j], c.0);
        }
      }
    }
  }

  // ---------------------------------------------------------------------------
  // doPost, single mode
  // ---------------------------------------------------------------------------

  /** The first row from `i` on whose space cell is `space`. */
  function FirstRow(rows: seq<seq<string>>, sc: nat, space: string, i: nat): (r: Option<nat>)
    ensures r.Some? ==>
      i <= r.value < |rows| && Cell(rows[r.value], sc) == space &&
      forall j :: i <= j < r.value ==> Cell(rows[j], sc) != space
    ensures r.None? ==> forall j :: i <= j < |rows| ==> Cell(rows[j], sc) != space
    decreases |rows| - i
  {
    if i >= |rows| then None
    else if Cell(rows[i], sc) == space then Some(i)
    else FirstRow(rows, sc, space, i + 1)
  }

  /** The row of a sheet the single mode would write: its first data row with
      that space, when the sheet has both columns. */
  function SheetHit(sheet: Sheet, space: string): Option<nat>
  {
    match Columns(sheet)
    case None => None
    case Some(c) => FirstRow(sheet.rows, c.0, space, 1)
  }

  /** Each sheet's first matching data row, sheet by sheet. */
  function HitList(sheets: seq<Sheet>, space: string): (r: seq<Option<nat>>)
    ensures |r| == |sheets| && forall m :: 0 <= m < |sheets| ==> r[m] == SheetHit(sheets[m], space)
  {
    seq(|sheets|, m requires 0 <= m < |sheets| => SheetHit(sheets[m], space))
  }

  /** The first entry from `k` on that has a row, with its index. */
  function FirstSome(hs: seq<Option<nat>>, k: nat): (r: Option<(nat, nat)>)
    ensures r.Some? ==> k <= r.value.0 < |hs| && hs[r.value.0] == Some(r.value.1)
    decreases |hs| - k
  {
    if k >= |hs| then None
    else if hs[k].Some? then Some((k, hs[k].value))
    else FirstSome(hs, k + 1)
  }

  lemma {:induction false} FirstSomeMeaning(hs: seq<Option<nat>>, k: nat)
    ensures FirstSome(hs, k).Some? ==> forall m :: k <= m < FirstSome(hs, k).value.0 ==> hs[m].None?
    ensures FirstSome(hs, k).None? ==> forall m :: k <= m < |hs| ==> hs[m].None?
    decreases |hs| - k
  {
    if k < |hs| && hs[k].None? {
      FirstSomeMeaning(hs, k + 1);
    }
  }

  /** The sheet and row the single mode writes, searching from sheet `k` on. */
  function Hit(sheets: seq<Sheet>, space: string, k: nat): (r: Option<(nat, nat)>)
    ensures r.Some? ==> k <= r.value.0 < |sheets| && SheetHit(sheets[r.value.0], space) == Some(r.value.1)
  {
    FirstSome(HitList(sheets, space), k)
  }

  /** No sheet before the hit has a hit, and without a hit no sheet has one. */
  lemma HitMeaning(sheets: seq<Sheet>, space: string, k: nat)
    ensures Hit(sheets, space, k).Some? ==> forall m :: k <= m < Hit(sheets, space, k).value.0 ==> SheetHit(sheets[m], space).None?
    ensures Hit(sheets, space, k).None? ==> forall m :: k <= m < |sheets| ==> SheetHit(sheets[m], space).None?
  {
    FirstSomeMeaning(HitList(sheets, space), k);
  }

  /** The written cell is the first match in sheet order, then row order: no
      earlier data row of a sheet with both columns has that space, and
      without a hit no data row anywhere has it. */
  lemma HitIsFirst(sheets: seq<Sheet>, space: string)
    ensures Hit(sheets, space, 0).Some? ==>
      var h := Hit(sheets, space, 0).value;
      var c := Columns(sheets[h.0]).value;
      1 <= h.1 < |sheets[h.0].rows| && Cell(sheets[h.0].rows[h.1], c.0) == space &&
      (forall i :: 1 <= i < h.1 ==> Cell(sheets[h.0].rows[i], c.0) != space) &&
      (forall m, i :: 0 <= m < h.0 && Columns(sheets[m]).Some? && 1 <= i < |sheets[m].rows| ==>
        Cell(sheets[m].rows[i], Columns(sheets[m]).value.0) != space)
    ensures Hit(sheets, space, 0).None? ==>
      forall m, i :: 0 <= m < |sheets| && Columns(sheets[m]).Some? && 1 <= i < |sheets[m].rows| ==>
        Cell(sheets[m].rows[i], Columns(sheets[m]).value.0) != space
  {
    HitMeaning(sheets, space, 0);
  }

  /** The status text the single mode writes. */
  function Mark(undo: bool): string
  {
    if undo then "" else PurchasedStatusText
  }

  /** The workbook after the single mode: the hit row's status set to the mark,
      or no change without a hit. */
  function Marked(sheets: seq<Sheet>, space: string, undo: bool): (r: seq<Sheet>)
    ensures |r| == |sheets|
  {
    match Hit(sheets, space, 0)
    case None => sheets
    case Some(h) => sheets[h.0 := Write(sheets[h.0], h.1, Columns(sheets[h.0]).value.1, Mark(undo))]
  }

  /** Exactly one cell changes, and it then holds the mark. */
  lemma MarkedMeaning(sheets: seq<Sheet>, space: string, undo: bool)
    ensures Hit(sheets, space, 0).None? ==> Marked(sheets, space, undo) == sheets
    ensures Hit(sheets, space, 0).Some? ==>
      var h := Hit(sheets, space, 0).value;
      var st := Columns(sheets[h.0]).value.1;
      var after := Marked(sheets, space, undo);
      Cell(after[h.0].rows[h.1], st) == Mark(undo) &&
      (forall m :: 0 <= m < |sheets| && m != h.0 ==> after[m] == sheets[m]) &&
      after[h.0].name == sheets[h.0].name && |after[h.0].rows| == |sheets[h.0].rows| &&
      (forall i :: 0 <= i < |sheets[h.0].rows| && i != h.1 ==> after[h.0].rows[i] == sheets[h.0].rows[i]) &&
      (forall j :: j != st ==> Cell(after[h.0].rows[h.1], j) == Cell(sheets[h.0].rows[h.1], j))
  {
  }

  /** Sending the same update twice leaves the workbook as sending it once. */
  lemma MarkedIdempotent(sheets: seq<Sheet>, space: string, undo: bool)
    ensures Marked(Marked(sheets, space, undo), space, undo) == Marked(sheets, space, undo)
  {
    var h := Hit(sheets, space, 0);
    if h.Some? {
      var k := h.value.0;
      var i := h.value.1;
      var st := Columns(sheets[k]).value.1;
      var once := Marked(sheets, space, undo);
      WriteKeepsColumns(sheets[k], i, st, Mark(undo));
      assert forall m :: 0 <= m < |sheets| ==> SheetHit(once[m], space) == SheetHit(sheets[m], space) by {
        forall m | 0 <= m < |sheets|
          ensures SheetHit(once[m], space) == SheetHit(sheets[m], space)
        {
          if m == k {
            FirstRowSameColumn(sheets[k].rows, once[k].rows, Columns(sheets[k]).value.0, space, 1);
          }
        }
      }
      HitSame(sheets, once, space, 0);
      SetCellTwice(sheets[k].rows[i], st, Mark(undo), Mark(undo));
      assert once[k].rows[i := SetCell(once[k].rows[i], st, Mark(undo))] == once[k].rows;
    }
  }

  lemma {:induction false} FirstRowSameColumn(a: seq<seq<string>>, b: seq<seq<string>>, sc: nat, space: string, i: nat)
    requires |a| == |b| && forall j :: 0 <= j < |a| ==> Cell(a[j], sc) == Cell(b[j], sc)
    ensures FirstRow(a, sc, space, i) == FirstRow(b, sc, space, i)
    decreases |a| - i
  {
    if i < |a| {
      FirstRowSameColumn(a, b, sc, space, i + 1);
    }
  }

  lemma HitSame(a: seq<Sheet>, b: seq<Sheet>, space: string, k: nat)
    requires |a| == |b| && forall m :: 0 <= m < |a| ==> SheetHit(a[m], space) == SheetHit(b[m], space)
    ensures Hit(a, space, k) == Hit(b, space, k)
  {
    assert HitList(a, space) == HitList(b, space);
  }

  // ---------------------------------------------------------------------------
  // From doPost to doGet
  // ---------------------------------------------------------------------------

  /** A row marked "x" by `doPost` is no longer listed by `doGet`: the exact
      "soldout" header is also its key there, unless a later column's header
      becomes the same key. */
  lemma MarkedRowHidden(header: seq<string>, row: seq<string>, st: nat)
    requires st < |header| && header[st] == StatusColumnName
    requires forall j :: st < j < |header| ==> NormalizeHeader(header[j]) != StatusColumnName
    ensures !Visible(RowObject(Headers(header), SetCell(row, st, PurchasedStatusText), |header|))
  {
    SoldOutKey(header, st);
    var hs := Headers(header);
    RowObjectLast(hs, SetCell(row, st, PurchasedStatusText), |header|, st);
  }

  lemma SoldOutKey(header: seq<string>, st: nat)
    requires st < |header| && header[st] == StatusColumnName
    requires forall j :: st < j < |header| ==> NormalizeHeader(header[j]) != StatusColumnName
    ensures Headers(header)[st] == StatusColumnName
    ensures forall j :: st < j < |header| ==> Headers(header)[j] != Headers(header)[st]
  {
    NormalizeNormal(StatusColumnName);
  }

  /** ... and a row cleared by an undo has the empty text as its sold-out key. */
  lemma ClearedRowNotSoldOut(header: seq<string>, row: seq<string>, st: nat)
    requires st < |header| && header[st] == StatusColumnName
    requires forall j :: st < j < |header| ==> NormalizeHeader(header[j]) != StatusColumnName
    ensures var obj := RowObject(Headers(header), SetCell(row, st, ""), |header|);
      StatusColumnName in obj && obj[StatusColumnName] == ""
  {
    SoldOutKey(header, st);
    var hs := Headers(header);
    RowObjectLast(hs, SetCell(row, st, ""), |header|, st);
  }

  // ---------------------------------------------------------------------------
  // The handlers
  // ---------------------------------------------------------------------------

  /** What `doGet` answers: the sheet names, or the rows to buy. */
  datatype GetReply = SheetNames(names: seq<string>) | WantToBuy(rows: seq<map<string, string>>)

  /** The parsed body of a POST. A `space` that is not there and a `spaces`
      that is not an array are `None`; `undo` is `postData.undo || false`. */
  datatype PostData = PostData(space: Option<string>, spaces: Option<seq<string>>, undo: bool)

  /** The status and message of a POST reply. */
  datatype PostReply =
    | BatchResetDone(count: nat)
    | Updated(space: string, undo: bool)
    | NoSpace
    | NotFound(space: string)
    | Unparsable

  class Workbook {
    var sheets: seq<Sheet>

    constructor(sheets: seq<Sheet>)
      ensures this.sheets == sheets
    {
      this.sheets := sheets;
    }

    /** `doGet(e)` with the `action` and `sheets` parameters. */
    method DoGet(action: Option<string>, sheetsParam: Option<string>) returns (reply: GetReply)
      ensures action == Some("getSheets") ==>
        reply.SheetNames? && |reply.names| == |sheets| &&
        forall k :: 0 <= k < |sheets| ==> reply.names[k] == sheets[k].name
      ensures action != Some("getSheets") ==> reply == WantToBuy(Fetch(sheets, TargetNames(sheetsParam)))
    {
      if action == Some("getSheets") {
        var allSheets := sheets;
        var names := seq(|allSheets|, k requires 0 <= k < |allSheets| => allSheets[k].name);
        return SheetNames(names);
      }
      var targetSheets := DefaultSheetNames;
      if sheetsParam.Some? && sheetsParam.value != "" {
        var parts := Split(sheetsParam.value);
        targetSheets := seq(|parts|, i requires 0 <= i < |parts| => Trim(parts[i]));
      }
      var combinedResult := [];
      assert targetSheets == TargetNames(sheetsParam);
      for n := 0 to |targetSheets|
        invariant combinedResult == Fetch(sheets, targetSheets[..n])
      {
        FetchStep(sheets, targetSheets, n);
        var sheet := Lookup(sheets, targetSheets[n]);
        if sheet.None? {
          continue;
        }
        var data := sheet.value.rows;
        if |data| == 0 {
          continue;
        }
        combinedResult := combinedResult + SheetResult(sheet.value);
      }
      assert targetSheets[..|targetSheets|] == targetSheets;
      return WantToBuy(combinedResult);
    }

    /** `sheet.getRange(i + 1, j + 1).setValue(v)` on sheet `k`. */
    method SetValue(k: nat, i: nat, j: nat, v: string)
      requires k < |sheets| && i < |sheets[k].rows|
      modifies this
      ensures sheets == old(sheets)[k := Write(old(sheets)[k], i, j, v)]
    {
      sheets := sheets[k := Write(sheets[k], i, j, v)];
    }

    /** The batch mode of `doPost`: in every sheet with both columns, the status
        of each data row whose space is listed is emptied, and the count of
        those rows is returned. */
    method BatchReset(spacesToReset: seq<string>) returns (resetCount: nat)
      modifies this
      ensures sheets == ResetAll(old(sheets), spacesToReset)
      ensures resetCount == TotalHits(old(sheets), spacesToReset, |old(sheets)|)
    {
      resetCount := 0;
      ghost var original := sheets;
      for k := 0 to |sheets|
        invariant |sheets| == |original|
        invariant forall m :: 0 <= m < |sheets| ==>
          sheets[m] == if m < k then ResetSheet(original[m], spacesToReset) else original[m]
        invariant resetCount == TotalHits(original, spacesToReset, k)
      {
        assert TotalHits(original, spacesToReset, k + 1) == TotalHits(original, spacesToReset, k) + SheetHits(original[k], spacesToReset);
        var data := sheets[k].rows;
        if |data| == 0 {
          assert ResetSheet(original[k], spacesToReset) == original[k];
          continue;
        }
        var headers := data[0];
        var spaceColumnIndex := IndexOf(headers, SpaceColumnName);
        var statusColumnIndex := IndexOf(headers, StatusColumnName);
        if spaceColumnIndex == -1 || statusColumnIndex == -1 {
          assert ResetSheet(original[k], spacesToReset) == original[k];
          continue;
        }
        assert Columns(original[k]) == Some((spaceColumnIndex as nat, statusColumnIndex as nat));
        var count := ResetRows(k, spaceColumnIndex, statusColumnIndex, spacesToReset);
        resetCount := resetCount + count;
      }
    }

    /** The row loop of the batch mode on sheet `k`, whose space and status
        columns are `sc` and `st`. */
    method ResetRows(k: nat, sc: nat, st: nat, spacesToReset: seq<string>) returns (count: nat)
      requires k < |sheets| && Columns(sheets[k]) == Some((sc, st))
      modifies this
      ensures sheets == old(sheets)[k := ResetSheet(old(sheets)[k], spacesToReset)]
      ensures count == SheetHits(old(sheets)[k], spacesToReset)
    {
      count := 0;
      var data := sheets[k].rows;
      ghost var before := sheets;
      for i := 1 to |data|
        invariant |sheets| == |before| && sheets[k].name == before[k].name
        invariant forall m :: 0 <= m < |sheets| && m != k ==> sheets[m] == before[m]
        invariant |sheets[k].rows| == |data|
        invariant forall j :: 0 <= j < |data| ==>
          sheets[k].rows[j] == if 1 <= j < i then ResetRow(data[j], sc, st, spacesToReset) else data[j]
        invariant count == HitCount(data, sc, spacesToReset, i)
      {
        if Cell(data[i], sc) in spacesToReset {
          SetValue(k, i, st, "");
          count := count + 1;
        }
      }
      assert sheets[k] == ResetSheet(before[k], spacesToReset);
      assert sheets == before[k := ResetSheet(before[k], spacesToReset)];
    }

    /** The single mode of `doPost`: the first data row, in sheet order and then
        row order, whose space is `spaceToUpdate` gets "x", or "" on undo. */
    method UpdateOne(spaceToUpdate: string, undo: bool) returns (foundAndUpdated: bool)
      modifies this
      ensures foundAndUpdated <==> Hit(old(sheets), spaceToUpdate, 0).Some?
      ensures sheets == Marked(old(sheets), spaceToUpdate, undo)
    {
      foundAndUpdated := false;
      ghost var original := sheets;
      for k := 0 to |sheets|
        invariant sheets == original
        invariant Hit(original, spaceToUpdate, 0) == Hit(original, spaceToUpdate, k)
      {
        var data := sheets[k].rows;
        if |data| == 0 {
          continue;
        }
        var headers := data[0];
        var spaceColumnIndex := IndexOf(headers, SpaceColumnName);
        var statusColumnIndex := IndexOf(headers, StatusColumnName);
        if spaceColumnIndex == -1 || statusColumnIndex == -1 {
          continue;
        }
        assert Columns(original[k]) == Some((spaceColumnIndex as nat, statusColumnIndex as nat));
        for i := 1 to |data|
          invariant sheets == original && !foundAndUpdated
          invariant FirstRow(data, spaceColumnIndex, spaceToUpdate, 1) == FirstRow(data, spaceColumnIndex, spaceToUpdate, i)
        {
          if Cell(data[i], spaceColumnIndex) == spaceToUpdate {
            assert Hit(original, spaceToUpdate, k) == Some((k, i));
            SetValue(k, i, statusColumnIndex, Mark(undo));
            foundAndUpdated := true;
            break;
          }
        }
        if foundAndUpdated {
          break;
        }
      }
    }

    /** `doPost(e)`: `body` is `None` when the posted text is not JSON. */
    method DoPost(body: Option<PostData>) returns (reply: PostReply)
      modifies this
      ensures body.None? ==> reply == Unparsable && sheets == old(sheets)
      ensures body.Some? && body.value.spaces.Some? && body.value.undo ==>
        reply == BatchResetDone(TotalHits(old(sheets), body.value.spaces.value, |old(sheets)|)) &&
        sheets == ResetAll(old(sheets), body.value.spaces.value)
      ensures body.Some? && !(body.value.spaces.Some? && body.value.undo) && body.value.space in {None, Some("")} ==>
        reply == NoSpace && sheets == old(sheets)
      ensures body.Some? && !(body.value.spaces.Some? && body.value.undo) && body.value.space !in {None, Some("")} ==>
        var space := body.value.space.value;
        sheets == Marked(old(sheets), space, body.value.undo) &&
        reply == if Hit(old(sheets), space, 0).Some? then Updated(space, body.value.undo) else NotFound(space)
    {
      if body.None? {
        return Unparsable;
      }
      var postData := body.value;
      var undo := postData.undo;
      if postData.spaces.Some? && undo {
        var resetCount := BatchReset(postData.spaces.value);
        return BatchResetDone(resetCount);
      }
      if postData.space.None? || postData.space.value == "" {
        return NoSpace;
      }
      var spaceToUpdate := postData.space.value;
      var foundAndUpdated := UpdateOne(spaceToUpdate, undo);
      if foundAndUpdated {
        reply := Updated(spaceToUpdate, undo);
      } else {
        reply := NotFound(spaceToUpdate);
      }
    }
  }
}
