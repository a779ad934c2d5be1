/**
 The text of the table `printAllData` writes: cells right-aligned to the
 column width with the "missing" marker, the header of locations, the division
 bar, one line per stored row key, and the pages that make up the output.
 */
module Render {
  import opened Status
  import opened Seqs
  import opened Text
  import opened StableSort
  import opened Selection
  import opened Paging
  import opened Names
  import opened Materialise

  /** `util::missingValue<T>()` for each printable type. */
  datatype MissingValues = MissingValues(integer: int, float: real, str: string, dateTime: int)

  /** The missing value of the type a kind is printed as; booleans and unknown kinds have none. */
  function MissingOf(kind: Kind, m: MissingValues): Option<Value> {
    match kind
    case Integer => Some(IntV(m.integer))
    case Float => Some(FloatV(m.float))
    case String => Some(StringV(m.str))
    case DateTime => Some(DateTimeV(m.dateTime))
    case Bool => None
    case Other => None
  }

  const MissingText := "missing"

  /**
   The payload a stored value of `kind` carries: an integer, a string, or
   for a boolean the 0 or 1 it was stored as. A read of any other payload
   fails the typed lookup of the filter data.
   */
  predicate StoredAs(kind: Kind, x: Value) {
    match kind
    case Integer => x.IntV?
    case String => x.StringV?
    case Bool => x.IntV?
    case _ => true
  }

  /**
   The text of a cell before alignment. Integers print as their decimal
   digits and strings unchanged; only floats and date-times go through the
   library formatting, which is left abstract as `format`.
   */
  function CellText(kind: Kind, x: Value, m: MissingValues, format: Value -> string): string
    requires StoredAs(kind, x)
  {
    match kind
    case Other => ""
    case Bool => IntToString(x.i)
    case Integer => if MissingOf(kind, m) == Some(x) then MissingText else IntToString(x.i)
    case String => if MissingOf(kind, m) == Some(x) then MissingText else x.s
    case _ => if MissingOf(kind, m) == Some(x) then MissingText else format(x)
  }

  /**
   `printVariable`: the cell right-aligned in a field of the column width. A
   value equal to its type's missing value reads "missing"; a boolean cell is
   its stored 0 or 1 with no missing check; a kind without a case prints
   nothing.
   */
  function Cell(kind: Kind, x: Value, width: int, m: MissingValues, format: Value -> string): (c: string)
    requires StoredAs(kind, x)
    ensures kind != Other ==> |c| == Max(width, |CellText(kind, x, m, format)|)
    ensures kind != Other ==> c[|c| - |CellText(kind, x, m, format)|..] == CellText(kind, x, m, format)
    ensures kind != Other ==> forall i :: 0 <= i < |c| - |CellText(kind, x, m, format)| ==> c[i] == ' '
    ensures kind == Other ==> c == ""
  {
    if kind == Other then "" else PadLeft(width, CellText(kind, x, m, format))
  }

  /** A value equal to the missing value of its type renders as "missing", right-aligned. */
  lemma MissingCell(kind: Kind, x: Value, width: int, m: MissingValues, format: Value -> string)
    requires kind in {Integer, Float, String, DateTime}
    requires MissingOf(kind, m) == Some(x)
    ensures |Cell(kind, x, width, m, format)| == Max(width, |MissingText|)
    ensures Cell(kind, x, width, m, format)[|Cell(kind, x, width, m, format)| - |MissingText|..] == MissingText
  {
  }

  /**
   A boolean cell is never the "missing" marker, whatever the missing
   values are: its text is the stored integer, which reads back unchanged.
   */
  lemma BoolCellIsItsValue(x: Value, width: int, m: MissingValues, format: Value -> string)
    requires x.IntV?
    ensures var c := Cell(Bool, x, width, m, format);
      var t := IntToString(x.i);
      && c[|c| - |t|..] == t
      && ParseInt(t) == x.i
      && t != MissingText
  {
    IntToStringRoundTrip(x.i);
    var t := IntToString(x.i);
    if x.i < 0 {
      assert t[0] == '-';
    } else {
      assert t == NatToString(x.i);
      assert IsDigit(t[0]);
    }
    assert t[0] != MissingText[0];
  }

  /**
   An integer other than the missing value prints as its decimal digits,
   right-aligned, and the digits read back as the integer.
   */
  lemma IntegerCellIsItsValue(x: Value, width: int, m: MissingValues, format: Value -> string)
    requires x.IntV? && x.i != m.integer
    ensures var c := Cell(Integer, x, width, m, format);
      var t := IntToString(x.i);
      && |c| == Max(width, |t|)
      && c[|c| - |t|..] == t
      && ParseInt(t) == x.i
  {
    assert MissingOf(Integer, m) != Some(x);
    assert CellText(Integer, x, m, format) == IntToString(x.i);
    IntToStringRoundTrip(x.i);
  }

  /** A string other than the missing value prints unchanged, right-aligned. */
  lemma StringCellIsItsValue(x: Value, width: int, m: MissingValues, format: Value -> string)
    requires x.StringV? && x.s != m.str
    ensures var c := Cell(String, x, width, m, format);
      && |c| == Max(width, |x.s|)
      && c[|c| - |x.s|..] == x.s
  {
    assert CellText(String, x, m, format) == x.s;
  }

  // ------------------------------------------------------------- line geometry

  /** The cells, each followed by `sep`, as the table loops write them. */
  function Joined(cells: seq<string>, sep: string): string {
    if |cells| == 0 then "" else Joined(cells[..|cells| - 1], sep) + cells[|cells| - 1] + sep
  }

  predicate AllOfWidth(cells: seq<string>, w: int) {
    forall i :: 0 <= i < |cells| ==> |cells[i]| == w
  }

  /** Cells of one width, each with its separator, take that width plus the separator's per cell. */
  lemma {:induction false} JoinedLength(cells: seq<string>, sep: string, w: nat)
    requires AllOfWidth(cells, w)
    ensures |Joined(cells, sep)| == |cells| * (w + |sep|)
  {
    if |cells| != 0 {
      JoinedLength(cells[..|cells| - 1], sep, w);
    }
  }

  /** Joining the first `k` cells gives the beginning of joining them all. */
  lemma {:induction false} JoinedPrefix(cells: seq<string>, sep: string, k: nat)
    requires k <= |cells|
    ensures Joined(cells[..k], sep) <= Joined(cells, sep)
    decreases |cells|
  {
    if k < |cells| {
      var init := cells[..|cells| - 1];
      assert init[..k] == cells[..k];
      JoinedPrefix(init, sep, k);
    } else {
      assert cells[..k] == cells;
    }
  }

  /** Joining cells of one width takes, cell by cell, that width plus the separator's. */
  lemma {:induction false} JoinedLengthFrom(cells: seq<string>, sep: string, w: nat)
    requires AllOfWidth(cells, w)
    ensures |Joined(cells, sep)| == RowStart(|cells|, w + |sep|)
  {
    if |cells| != 0 {
      JoinedLengthFrom(cells[..|cells| - 1], sep, w);
    }
  }

  /** Cell `i` and its separator follow the first `i` cells and their separators. */
  lemma {:induction false} JoinedFieldFrom(cells: seq<string>, sep: string, w: nat, i: nat)
    requires AllOfWidth(cells, w)
    requires i < |cells|
    ensures RowStart(i, w + |sep|) + w + |sep| <= |Joined(cells, sep)|
    ensures Joined(cells, sep)[RowStart(i, w + |sep|)..RowStart(i, w + |sep|) + w + |sep|] == cells[i] + sep
  {
    var init := cells[..|cells| - 1];
    var q := RowStart(i, w + |sep|);
    var last := cells[|cells| - 1] + sep;
    assert AllOfWidth(init, w);
    JoinedLengthFrom(init, sep, w);
    assert Joined(cells, sep) == Joined(init, sep) + last;
    if i == |cells| - 1 {
      SliceOfAppend(Joined(init, sep), last, q, q + w + |sep|);
      assert last[0..w + |sep|] == last;
    } else {
      JoinedFieldFrom(init, sep, w, i);
      SliceOfFront(Joined(init, sep), last, q, q + w + |sep|);
    }
  }

  /** The two parts of a field: the cell, then its separator. */
  lemma FieldParts(line: string, lo: nat, cell: string, sep: string)
    requires lo + |cell| + |sep| <= |line|
    requires line[lo..lo + |cell| + |sep|] == cell + sep
    ensures line[lo..lo + |cell|] == cell
    ensures line[lo + |cell|..lo + |cell| + |sep|] == sep
  {
    assert line[lo..lo + |cell|] == line[lo..lo + |cell| + |sep|][..|cell|];
    assert line[lo + |cell|..lo + |cell| + |sep|] == line[lo..lo + |cell| + |sep|][|cell|..];
  }

  /** Cell `i` starts at `i * (w + |sep|)`, and character `t` of its separator follows the cell. */
  lemma JoinedSepAt(cells: seq<string>, sep: string, w: nat, i: nat, t: nat)
    requires AllOfWidth(cells, w)
    requires i < |cells| && t < |sep|
    ensures |Joined(cells, sep)| == |cells| * (w + |sep|)
    ensures 0 <= i * (w + |sep|) && i * (w + |sep|) + w + t < |cells| * (w + |sep|)
    ensures Joined(cells, sep)[i * (w + |sep|) + w + t] == sep[t]
  {
    var q := RowStart(i, w + |sep|);
    JoinedFieldFrom(cells, sep, w, i);
    JoinedLengthFrom(cells, sep, w);
    FieldParts(Joined(cells, sep), q, cells[i], sep);
    assert Joined(cells, sep)[q + w + t] == Joined(cells, sep)[q + w..q + w + |sep|][t];
    RowStartIsProduct(i, w + |sep|);
    RowStartIsProduct(|cells|, w + |sep|);
  }

  /** Cell `i` occupies the `w` characters from `i * (w + |sep|)` on. */
  lemma JoinedCellAt(cells: seq<string>, sep: string, w: nat, i: nat)
    requires AllOfWidth(cells, w)
    requires i < |cells|
    ensures |Joined(cells, sep)| == |cells| * (w + |sep|)
    ensures 0 <= i * (w + |sep|) && i * (w + |sep|) + w <= |cells| * (w + |sep|)
    ensures Joined(cells, sep)[i * (w + |sep|)..i * (w + |sep|) + w] == cells[i]
  {
    JoinedFieldFrom(cells, sep, w, i);
    JoinedLengthFrom(cells, sep, w);
    FieldParts(Joined(cells, sep), RowStart(i, w + |sep|), cells[i], sep);
    RowStartIsProduct(i, w + |sep|);
    RowStartIsProduct(|cells|, w + |sep|);
  }

  /** The header cells: every location of the row, right-aligned. */
  function LocationCells(cw: int, locs: seq<int>): (cells: seq<string>)
    ensures |cells| == |locs|
  {
    seq(|locs|, i requires 0 <= i < |locs| => PadLeft(cw, IntToString(locs[i])))
  }

  /** Locations whose text fits the column width give cells of exactly that width. */
  lemma LocationCellsFit(cw: nat, locs: seq<int>)
    requires forall c :: 0 <= c < |locs| ==> |IntToString(locs[c])| <= cw
    ensures AllOfWidth(LocationCells(cw, locs), cw)
  {
  }

  /** The header: "Location" and every location of the row, right-aligned, each followed by " | ". */
  function HeaderLine(nameLen: int, cw: int, locs: seq<int>): string {
    PadLeft(nameLen, LocationHeading) + " | " + Joined(LocationCells(cw, locs), " | ")
  }

  /** The division bar: dashes under every field, `-+-` where the header has ` | `. */
  function SeparatorLine(nameLen: nat, cw: nat, k: nat): (s: string)
    ensures |s| == nameLen + 3 + k * (cw + 3)
  {
    var bars := seq(k, _ => Repeat('-', cw));
    JoinedLength(bars, "-+-", cw);
    Repeat('-', nameLen) + "-+-" + Joined(bars, "-+-")
  }

  /** A table row: the row key right-aligned in the name column, then the cells. */
  function RowLine(nameLen: int, key: string, cells: seq<string>): string {
    PadLeft(nameLen, key) + " | " + Joined(cells, " | ")
  }

  /**
   A row key that fits the name column ends where the column ends, with spaces
   before it, and the cells start after a ` | `.
   */
  lemma RowLineKey(nameLen: nat, key: string, cells: seq<string>)
    requires |key| <= nameLen
    ensures nameLen + 3 <= |RowLine(nameLen, key, cells)|
    ensures RowLine(nameLen, key, cells)[nameLen - |key|..nameLen] == key
    ensures forall t :: 0 <= t < nameLen - |key| ==> RowLine(nameLen, key, cells)[t] == ' '
    ensures RowLine(nameLen, key, cells)[nameLen..nameLen + 3] == " | "
  {
    var r := RowLine(nameLen, key, cells);
    var head := PadLeft(nameLen, key);
    assert r == head + " | " + Joined(cells, " | ");
    assert r[..nameLen] == head;
  }

  /** When the cells share the column width, cell `c` of a row is in field `c + 1`, followed by ` | `. */
  lemma RowLineCell(nameLen: nat, cw: nat, key: string, cells: seq<string>, c: nat)
    requires |key| <= nameLen
    requires AllOfWidth(cells, cw)
    requires c < |cells|
    ensures |RowLine(nameLen, key, cells)| == nameLen + 3 + |cells| * (cw + 3)
    ensures nameLen + 3 + c * (cw + 3) + cw + 3 <= |RowLine(nameLen, key, cells)|
    ensures RowLine(nameLen, key, cells)[nameLen + 3 + c * (cw + 3)..nameLen + 3 + c * (cw + 3) + cw] == cells[c]
    ensures RowLine(nameLen, key, cells)[nameLen + 3 + c * (cw + 3) + cw..nameLen + 3 + c * (cw + 3) + cw + 3] == " | "
  {
    RowLineFieldFrom(nameLen, cw, key, cells, c);
    RowStartIsProduct(c, cw + 3);
    RowStartIsProduct(|cells|, cw + 3);
  }

  /** Cell `c` of a row and the bar after it, placed by counting fields one by one. */
  lemma RowLineFieldFrom(nameLen: nat, cw: nat, key: string, cells: seq<string>, c: nat)
    requires |key| <= nameLen
    requires AllOfWidth(cells, cw)
    requires c < |cells|
    ensures |RowLine(nameLen, key, cells)| == nameLen + 3 + RowStart(|cells|, cw + 3)
    ensures nameLen + 3 + RowStart(c, cw + 3) + cw + 3 <= |RowLine(nameLen, key, cells)|
    ensures RowLine(nameLen, key, cells)[nameLen + 3 + RowStart(c, cw + 3)..nameLen + 3 + RowStart(c, cw + 3) + cw]
      == cells[c]
    ensures RowLine(nameLen, key, cells)[nameLen + 3 + RowStart(c, cw + 3) + cw..nameLen + 3 + RowStart(c, cw + 3) + cw + 3]
      == " | "
  {
    var r := RowLine(nameLen, key, cells);
    var head := PadLeft(nameLen, key) + " | ";
    var tail := Joined(cells, " | ");
    assert r == head + tail;
    var q := RowStart(c, cw + 3);
    JoinedFieldFrom(cells, " | ", cw, c);
    JoinedLengthFrom(cells, " | ", cw);
    SliceOfAppend(head, tail, nameLen + 3 + q, nameLen + 3 + q + cw + 3);
    FieldParts(r, nameLen + 3 + q, cells[c], " | ");
  }

  /**
   The header cell of a location that fits the column width is the location's
   text right-aligned in exactly that width.
   */
  lemma LocationCellText(cw: nat, locs: seq<int>, c: nat)
    requires c < |locs| && |IntToString(locs[c])| <= cw
    ensures |LocationCells(cw, locs)[c]| == cw
    ensures LocationCells(cw, locs)[c][cw - |IntToString(locs[c])|..] == IntToString(locs[c])
    ensures forall t :: 0 <= t < cw - |IntToString(locs[c])| ==> LocationCells(cw, locs)[c][t] == ' '
  {
  }

  /** The position of the bar after field `i` of a line, counting the name field as field 0. */
  function BarAt(nameLen: nat, cw: nat, i: nat): nat {
    if i == 0 then nameLen + 1 else nameLen + 3 + (i - 1) * (cw + 3) + cw + 1
  }

  /** The bar after any field of a line of `k` cells lies inside the line. */
  lemma BarInside(nameLen: nat, cw: nat, k: nat, i: nat)
    requires i <= k
    ensures BarAt(nameLen, cw, i) < nameLen + 3 + k * (cw + 3)
  {
    if i > 0 {
      MulMono(i, k, cw + 3);
      assert (i - 1) * (cw + 3) + cw + 3 == i * (cw + 3);
    }
  }

  /** The bar after field `i` of a row is its `|`. */
  lemma RowBar(nameLen: nat, cw: nat, key: string, cells: seq<string>, i: nat)
    requires |key| <= nameLen
    requires AllOfWidth(cells, cw)
    requires i <= |cells|
    ensures |RowLine(nameLen, key, cells)| == nameLen + 3 + |cells| * (cw + 3)
    ensures BarAt(nameLen, cw, i) < |RowLine(nameLen, key, cells)|
    ensures RowLine(nameLen, key, cells)[BarAt(nameLen, cw, i)] == '|'
  {
    BarInside(nameLen, cw, |cells|, i);
    var head := PadLeft(nameLen, key) + " | ";
    var tail := Joined(cells, " | ");
    assert RowLine(nameLen, key, cells) == head + tail;
    JoinedLength(cells, " | ", cw);
    assert |head| == nameLen + 3;
    if i == 0 {
      assert head[nameLen + 1] == '|';
    } else {
      JoinedSepAt(cells, " | ", cw, i - 1, 1);
      var p := (i - 1) * (cw + 3) + cw;
      assert (head + tail)[|head| + p + 1] == tail[p + 1];
    }
  }

  /** The bar after field `i` of the division bar is its `+`. */
  lemma SeparatorBar(nameLen: nat, cw: nat, k: nat, i: nat)
    requires i <= k
    ensures BarAt(nameLen, cw, i) < |SeparatorLine(nameLen, cw, k)|
    ensures SeparatorLine(nameLen, cw, k)[BarAt(nameLen, cw, i)] == '+'
  {
    BarInside(nameLen, cw, k, i);
    var bars := seq(k, _ => Repeat('-', cw));
    var head := Repeat('-', nameLen) + "-+-";
    var tail := Joined(bars, "-+-");
    assert SeparatorLine(nameLen, cw, k) == head + tail;
    JoinedLength(bars, "-+-", cw);
    assert |head| == nameLen + 3;
    if i == 0 {
      assert head[nameLen + 1] == '+';
    } else {
      assert AllOfWidth(bars, cw);
      JoinedSepAt(bars, "-+-", cw, i - 1, 1);
      var p := (i - 1) * (cw + 3) + cw;
      assert (head + tail)[|head| + p + 1] == tail[p + 1];
    }
  }

  /**
   The division bar lines up with a row whose key and cells fit their fields:
   both have the same length, and under every `|` of the row the bar has `+`.
   */
  lemma RowAlignsWithSeparator(nameLen: nat, cw: nat, key: string, cells: seq<string>, i: nat)
    requires |key| <= nameLen
    requires AllOfWidth(cells, cw)
    requires i <= |cells|
    ensures |RowLine(nameLen, key, cells)| == |SeparatorLine(nameLen, cw, |cells|)|
    ensures BarAt(nameLen, cw, i) < |SeparatorLine(nameLen, cw, |cells|)|
    ensures RowLine(nameLen, key, cells)[BarAt(nameLen, cw, i)] == '|'
    ensures SeparatorLine(nameLen, cw, |cells|)[BarAt(nameLen, cw, i)] == '+'
  {
    BarInside(nameLen, cw, |cells|, i);
    RowBar(nameLen, cw, key, cells, i);
    SeparatorBar(nameLen, cw, |cells|, i);
  }

  /** The header is a row keyed "Location" whose cells are the locations. */
  lemma HeaderIsRow(nameLen: int, cw: int, locs: seq<int>)
    ensures HeaderLine(nameLen, cw, locs) == RowLine(nameLen, LocationHeading, LocationCells(cw, locs))
  {
  }

  // ------------------------------------------------------------------ pages

  /** A table row to print: its key in the filter data and the type its cells are printed as. */
  datatype RowSpec = RowSpec(key: string, kind: Kind)

  /** The keys among `keys` that have been stored, in their order. */
  function StoredOnly(keys: seq<string>, stored: set<string>): (r: seq<string>)
    ensures forall k :: k in r <==> k in keys && k in stored
  {
    if |keys| == 0 then []
    else
      var prev := StoredOnly(keys[..|keys| - 1], stored);
      var key := keys[|keys| - 1];
      assert keys == keys[..|keys| - 1] + [key];
      if key in stored then prev + [key] else prev
  }

  /**
   The rows one print request contributes to every page: none for a variable
   absent from the filter data; a float row per stored level, in ascending
   level order, for a multi-level variable; otherwise a row per stored channel,
   in channel order, printed as the variable's type.
   */
  function VariableRowSpecs(p: PrintParams, src: Sources, data: map<string, seq<Value>>): (r: seq<RowSpec>)
    ensures !src.has(p.variable) ==> r == []
    ensures forall j :: 0 <= j < |r| ==> r[j].key in data
  {
    var v := p.variable;
    if !src.has(v) then []
    else if IsMultiLevel(v) then
      var keys := StoredLevelKeys(FullName(v), Ascending(p.levels), data.Keys);
      seq(|keys|, j requires 0 <= j < |keys| => RowSpec(keys[j], Float))
    else
      var keys := StoredOnly(ChannelKeys(v, Size(v)), data.Keys);
      seq(|keys|, j requires 0 <= j < |keys| => RowSpec(keys[j], src.dtype(v)))
  }

  /** The rows of every page, request by request. */
  function RowSpecs(params: seq<PrintParams>, src: Sources, data: map<string, seq<Value>>): seq<RowSpec> {
    Flatten(seq(|params|, i requires 0 <= i < |params| => VariableRowSpecs(params[i], src, data)))
  }

  /** Every row printed is keyed by a stored name. */
  lemma RowSpecsStored(params: seq<PrintParams>, src: Sources, data: map<string, seq<Value>>, s: RowSpec)
    requires s in RowSpecs(params, src, data)
    ensures s.key in data
  {
    var rows := seq(|params|, i requires 0 <= i < |params| => VariableRowSpecs(params[i], src, data));
    FlattenMemberOf(rows, s);
  }

  /** Every stored level of a present multi-level variable has a float row. */
  lemma LevelRowPrinted(params: seq<PrintParams>, src: Sources, data: map<string, seq<Value>>, i: nat, l: int)
    requires i < |params|
    requires src.has(params[i].variable) && IsMultiLevel(params[i].variable)
    requires l in params[i].levels && LevelKey(FullName(params[i].variable), l) in data
    ensures RowSpec(LevelKey(FullName(params[i].variable), l), Float) in RowSpecs(params, src, data)
  {
    var v := params[i].variable;
    var keys := StoredLevelKeys(FullName(v), Ascending(params[i].levels), data.Keys);
    var key := LevelKey(FullName(v), l);
    assert key in keys;
    var j :| 0 <= j < |keys| && keys[j] == key;
    assert VariableRowSpecs(params[i], src, data)[j] == RowSpec(key, Float);
    var rows := seq(|params|, i requires 0 <= i < |params| => VariableRowSpecs(params[i], src, data));
    FlattenMember(rows, i, RowSpec(key, Float));
  }

  /** Every stored channel of a present variable without levels has a row of the variable's type. */
  lemma ChannelRowPrinted(params: seq<PrintParams>, src: Sources, data: map<string, seq<Value>>, i: nat, ich: nat)
    requires i < |params|
    requires src.has(params[i].variable) && !IsMultiLevel(params[i].variable)
    requires ich < Size(params[i].variable) && ChannelKey(params[i].variable, ich) in data
    ensures RowSpec(ChannelKey(params[i].variable, ich), src.dtype(params[i].variable)) in RowSpecs(params, src, data)
  {
    var v := params[i].variable;
    var keys := StoredOnly(ChannelKeys(v, Size(v)), data.Keys);
    var key := ChannelKey(v, ich);
    assert ChannelKeys(v, Size(v))[ich] == key;
    assert key in keys;
    var j :| 0 <= j < |keys| && keys[j] == key;
    assert VariableRowSpecs(params[i], src, data)[j] == RowSpec(key, src.dtype(v));
    var rows := seq(|params|, i requires 0 <= i < |params| => VariableRowSpecs(params[i], src, data));
    FlattenMember(rows, i, RowSpec(key, src.dtype(v)));
  }

  /**
   Every row key of a print request fits the name column, except that the
   key of a variable with neither group nor channels is one character wider.
   */
  lemma RowKeyFits(params: seq<PrintParams>, src: Sources, data: map<string, seq<Value>>, i: nat, s: RowSpec)
    requires i < |params|
    requires s in VariableRowSpecs(params[i], src, data)
    ensures |s.key| <= NameColumnWidth(params, data.Keys) +
      (if params[i].variable.group == "" && |params[i].variable.channels| == 0 then 1 else 0)
  {
    var v := params[i].variable;
    var specs := VariableRowSpecs(params[i], src, data);
    var j :| 0 <= j < |specs| && specs[j] == s;
    RowKeysFit(params, data.Keys, i);
    if IsMultiLevel(v) {
      var keys := StoredLevelKeys(FullName(v), Ascending(params[i].levels), data.Keys);
      assert s.key == keys[j];
      assert s.key in keys;
      var l :| l in Ascending(params[i].levels) && s.key == LevelKey(FullName(v), l);
      assert l in params[i].levels;
    } else {
      var keys := StoredOnly(ChannelKeys(v, Size(v)), data.Keys);
      assert s.key == keys[j];
      assert s.key in ChannelKeys(v, Size(v));
      var ich :| 0 <= ich < Size(v) && ChannelKeys(v, Size(v))[ich] == s.key;
      assert s.key == ChannelKey(v, ich);
    }
  }

  /**
   Every row key is stored with a column of `n` values, and a row printed as
   a boolean holds the integers the booleans were stored as.
   */
  predicate Printable(specs: seq<RowSpec>, data: map<string, seq<Value>>, n: nat) {
    forall j :: 0 <= j < |specs| ==>
      && specs[j].key in data
      && |data[specs[j].key]| == n
      && (forall t :: 0 <= t < n ==> StoredAs(specs[j].kind, data[specs[j].key][t]))
  }

  /** The cells of one row of a page: the row's column read at the page's flat indices. */
  function RowCells(s: RowSpec, column: seq<Value>, idxGroup: seq<nat>, cw: int, m: MissingValues, format: Value -> string)
    : (cells: seq<string>)
    requires AllBelow(idxGroup, |column|)
    requires forall t :: 0 <= t < |column| ==> StoredAs(s.kind, column[t])
    ensures |cells| == |idxGroup|
    ensures forall j :: 0 <= j < |idxGroup| ==> cells[j] == Cell(s.kind, column[idxGroup[j]], cw, m, format)
  {
    seq(|idxGroup|, j requires 0 <= j < |idxGroup| => Cell(s.kind, column[idxGroup[j]], cw, m, format))
  }

  /** The line of every row key of a page, in order. */
  function RowLines(nameLen: nat, cw: nat, specs: seq<RowSpec>, data: map<string, seq<Value>>, n: nat,
                    idxGroup: seq<nat>, m: MissingValues, format: Value -> string)
    : (lines: seq<string>)
    requires Printable(specs, data, n)
    requires AllBelow(idxGroup, n)
    ensures |lines| == |specs|
    ensures forall j :: 0 <= j < |specs| ==>
      lines[j] == RowLine(nameLen, specs[j].key, RowCells(specs[j], data[specs[j].key], idxGroup, cw, m, format))
  {
    seq(|specs|, j requires 0 <= j < |specs| =>
      RowLine(nameLen, specs[j].key, RowCells(specs[j], data[specs[j].key], idxGroup, cw, m, format)))
  }

  /** One page: the header, the division bar, a line per row key and an empty line. */
  function Page(nameLen: nat, cw: nat, specs: seq<RowSpec>, data: map<string, seq<Value>>, n: nat,
                locGroup: seq<int>, idxGroup: seq<nat>, m: MissingValues, format: Value -> string)
    : (lines: seq<string>)
    requires Printable(specs, data, n)
    requires AllBelow(idxGroup, n)
    ensures |lines| == |specs| + 3
    ensures lines[0] == HeaderLine(nameLen, cw, locGroup)
    ensures lines[1] == SeparatorLine(nameLen, cw, |locGroup|)
    ensures forall j :: 0 <= j < |specs| ==> lines[j + 2] == RowLines(nameLen, cw, specs, data, n, idxGroup, m, format)[j]
    ensures lines[|specs| + 2] == ""
  {
    var rows := RowLines(nameLen, cw, specs, data, n, idxGroup, m, format);
    Framed(HeaderLine(nameLen, cw, locGroup), SeparatorLine(nameLen, cw, |locGroup|), rows, "");
    [HeaderLine(nameLen, cw, locGroup), SeparatorLine(nameLen, cw, |locGroup|)] + rows + [""]
  }

  /** The pages, one per row of locations, one after the other. */
  function Pages(nameLen: nat, cw: nat, specs: seq<RowSpec>, data: map<string, seq<Value>>, n: nat,
                 locRows: seq<seq<int>>, idxRows: seq<seq<nat>>, m: MissingValues, format: Value -> string)
    : seq<string>
    requires |locRows| == |idxRows|
    requires Printable(specs, data, n)
    requires forall i :: 0 <= i < |idxRows| ==> AllBelow(idxRows[i], n)
  {
    Flatten(PageList(nameLen, cw, specs, data, n, locRows, idxRows, m, format))
  }

  /** The pages before they are joined: page `i` holds the locations of row `i`. */
  function PageList(nameLen: nat, cw: nat, specs: seq<RowSpec>, data: map<string, seq<Value>>, n: nat,
                    locRows: seq<seq<int>>, idxRows: seq<seq<nat>>, m: MissingValues, format: Value -> string)
    : (pages: seq<seq<string>>)
    requires |locRows| == |idxRows|
    requires Printable(specs, data, n)
    requires forall i :: 0 <= i < |idxRows| ==> AllBelow(idxRows[i], n)
    ensures |pages| == |locRows|
    ensures forall i :: 0 <= i < |pages| ==> |pages[i]| == |specs| + 3
    ensures forall i :: 0 <= i < |pages| ==> pages[i] == Page(nameLen, cw, specs, data, n, locRows[i], idxRows[i], m, format)
  {
    seq(|locRows|, i requires 0 <= i < |locRows| => Page(nameLen, cw, specs, data, n, locRows[i], idxRows[i], m, format))
  }

  /** Line `t` of page `i` is line `i * (|specs| + 3) + t` of the output. */
  lemma PagesAt(nameLen: nat, cw: nat, specs: seq<RowSpec>, data: map<string, seq<Value>>, n: nat,
                locRows: seq<seq<int>>, idxRows: seq<seq<nat>>, m: MissingValues, format: Value -> string, i: nat, t: nat)
    requires |locRows| == |idxRows|
    requires Printable(specs, data, n)
    requires forall i :: 0 <= i < |idxRows| ==> AllBelow(idxRows[i], n)
    requires i < |locRows| && t < |specs| + 3
    ensures |Pages(nameLen, cw, specs, data, n, locRows, idxRows, m, format)| == |locRows| * (|specs| + 3)
    ensures 0 <= i * (|specs| + 3) && i * (|specs| + 3) + t < |locRows| * (|specs| + 3)
    ensures Pages(nameLen, cw, specs, data, n, locRows, idxRows, m, format)[i * (|specs| + 3) + t]
      == Page(nameLen, cw, specs, data, n, locRows[i], idxRows[i], m, format)[t]
  {
    var pages := PageList(nameLen, cw, specs, data, n, locRows, idxRows, m, format);
    FlattenUniformAt(pages, |specs| + 3, i, t);
    assert Pages(nameLen, cw, specs, data, n, locRows, idxRows, m, format) == Flatten(pages);
    assert Flatten(pages)[i * (|specs| + 3) + t] == Page(nameLen, cw, specs, data, n, locRows[i], idxRows[i], m, format)[t];
  }

  /** The elements of the rows of a concatenation obey any bound the concatenation obeys. */
  lemma RowsAllBelow(rows: seq<seq<nat>>, s: seq<nat>, n: nat)
    requires Flatten(rows) == s
    requires AllBelow(s, n)
    ensures forall i :: 0 <= i < |rows| ==> AllBelow(rows[i], n)
  {
    forall i, j | 0 <= i < |rows| && 0 <= j < |rows[i]|
      ensures rows[i][j] < n
    {
      FlattenMember(rows, i, rows[i][j]);
    }
  }

  /** The pages of the locations `locs` (at flat indices `indices`), cut into rows of `perRow`. */
  function ChunkedPages(nameLen: nat, cw: nat, specs: seq<RowSpec>, data: map<string, seq<Value>>, n: nat,
                        locs: seq<int>, indices: seq<nat>, perRow: int, m: MissingValues, format: Value -> string)
    : seq<string>
    requires |locs| == |indices| && 1 <= perRow
    requires Printable(specs, data, n)
    requires AllBelow(indices, n)
  {
    ChunkSameShape(locs, indices, perRow);
    RowsAllBelow(Chunk(indices, perRow), indices, n);
    Pages(nameLen, cw, specs, data, n, Chunk(locs, perRow), Chunk(indices, perRow), m, format)
  }

  /** One page of `|specs| + 3` lines per row of `perRow` locations. */
  lemma ChunkedPagesLength(nameLen: nat, cw: nat, specs: seq<RowSpec>, data: map<string, seq<Value>>, n: nat,
                           locs: seq<int>, indices: seq<nat>, perRow: int, m: MissingValues, format: Value -> string,
                           out: seq<string>)
    requires |locs| == |indices| && 1 <= perRow
    requires Printable(specs, data, n)
    requires AllBelow(indices, n)
    requires out == ChunkedPages(nameLen, cw, specs, data, n, locs, indices, perRow, m, format)
    ensures |out| == |Chunk(locs, perRow)| * (|specs| + 3)
  {
    ChunkSameShape(locs, indices, perRow);
    RowsAllBelow(Chunk(indices, perRow), indices, n);
    var pages := PageList(nameLen, cw, specs, data, n, Chunk(locs, perRow), Chunk(indices, perRow), m, format);
    FullRowsLength(pages, |specs| + 3);
  }

  /**
   Page `i` of the chunked pages prints row `i` of the locations: its header,
   the division bar, and after the row lines an empty line.
   */
  lemma ChunkedPageAt(nameLen: nat, cw: nat, specs: seq<RowSpec>, data: map<string, seq<Value>>, n: nat,
                      locs: seq<int>, indices: seq<nat>, perRow: int, m: MissingValues, format: Value -> string,
                      out: seq<string>, i: nat)
    requires |locs| == |indices| && 1 <= perRow
    requires Printable(specs, data, n)
    requires AllBelow(indices, n)
    requires out == ChunkedPages(nameLen, cw, specs, data, n, locs, indices, perRow, m, format)
    requires i < |Chunk(locs, perRow)|
    ensures 0 <= i * (|specs| + 3) && i * (|specs| + 3) + |specs| + 2 < |out|
    ensures out[i * (|specs| + 3)] == HeaderLine(nameLen, cw, Chunk(locs, perRow)[i])
    ensures out[i * (|specs| + 3) + 1] == SeparatorLine(nameLen, cw, |Chunk(locs, perRow)[i]|)
    ensures out[i * (|specs| + 3) + |specs| + 2] == ""
  {
    var locRows, idxRows := Chunk(locs, perRow), Chunk(indices, perRow);
    ChunkSameShape(locs, indices, perRow);
    RowsAllBelow(idxRows, indices, n);
    PageHeaderAt(nameLen, cw, specs, data, n, locRows, idxRows, m, format, i);
    PageEndAt(nameLen, cw, specs, data, n, locRows, idxRows, m, format, i);
  }

  /** Line `j + 2` of page `i` is the line of row key `j`, its cells read at row `i` of the flat indices. */
  lemma ChunkedRowAt(nameLen: nat, cw: nat, specs: seq<RowSpec>, data: map<string, seq<Value>>, n: nat,
                     locs: seq<int>, indices: seq<nat>, perRow: int, m: MissingValues, format: Value -> string,
                     out: seq<string>, i: nat, j: nat)
    requires |locs| == |indices| && 1 <= perRow
    requires Printable(specs, data, n)
    requires AllBelow(indices, n)
    requires out == ChunkedPages(nameLen, cw, specs, data, n, locs, indices, perRow, m, format)
    requires i < |Chunk(indices, perRow)| && j < |specs|
    ensures AllBelow(Chunk(indices, perRow)[i], |data[specs[j].key]|)
    ensures 0 <= i * (|specs| + 3) && i * (|specs| + 3) + j + 2 < |out|
    ensures out[i * (|specs| + 3) + j + 2]
      == RowLine(nameLen, specs[j].key, RowCells(specs[j], data[specs[j].key], Chunk(indices, perRow)[i], cw, m, format))
  {
    var locRows, idxRows := Chunk(locs, perRow), Chunk(indices, perRow);
    ChunkSameShape(locs, indices, perRow);
    RowsAllBelow(idxRows, indices, n);
    PageRowAt(nameLen, cw, specs, data, n, locRows, idxRows, m, format, i, j);
  }

  // ------------------------------------------------------------ printAllData

  /** The configured appearance: text width, column width and the location window. */
  datatype Layout = Layout(maxTextWidth: int, columnWidth: int, locmin: int, locmax: int)

  /** The locations `printAllData` prints and their flat indices, for a normalised window. */
  function PrintedSelection(globalIndex: seq<int>, globalApply: seq<int>, w: Window): (r: Selection)
    requires |globalApply| == |globalIndex|
    requires WindowReadsInRange(PermutedGlobalIndex(globalIndex), StableSortIndices(globalIndex), w)
    ensures |r.locs| == |r.indices|
    ensures AllBelow(r.indices, |globalIndex|)
  {
    Select(PermutedGlobalIndex(globalIndex), StableSortIndices(globalIndex), globalApply, w)
  }

  /** The number of locations per page for this layout and filter data. */
  function PerRow(params: seq<PrintParams>, data: map<string, seq<Value>>, layout: Layout): (k: int)
    requires 0 <= layout.columnWidth
    ensures 1 <= k
  {
    LocationsPerRow(layout.maxTextWidth, NameColumnWidth(params, data.Keys), layout.columnWidth)
  }

  /** The printed table for a window that has been normalised. */
  function Table(params: seq<PrintParams>, src: Sources, data: map<string, seq<Value>>, layout: Layout,
                 globalIndex: seq<int>, globalApply: seq<int>, w: Window, m: MissingValues, format: Value -> string)
    : seq<string>
    requires |globalApply| == |globalIndex|
    requires 0 <= layout.columnWidth
    requires Printable(RowSpecs(params, src, data), data, |globalIndex|)
    requires WindowReadsInRange(PermutedGlobalIndex(globalIndex), StableSortIndices(globalIndex), w)
  {
    var sel := PrintedSelection(globalIndex, globalApply, w);
    ChunkedPages(NameColumnWidth(params, data.Keys), layout.columnWidth, RowSpecs(params, src, data), data, |globalIndex|,
                 sel.locs, sel.indices, PerRow(params, data, layout), m, format)
  }

  /**
   `printAllData`: normalise the window, select the locations in global
   order, cut them into pages of `nlocsPerRow` and print each page. The
   location indices and `where` flags are the gathered ones; the missing
   values and the formatting of non-missing values are parameters.
   */
  function PrintAllData(params: seq<PrintParams>, src: Sources, data: map<string, seq<Value>>, layout: Layout,
                        globalIndex: seq<int>, globalApply: seq<int>, m: MissingValues, format: Value -> string)
    : (r: Result<seq<string>>)
    requires |globalApply| == |globalIndex|
    requires 0 <= layout.columnWidth
    requires Printable(RowSpecs(params, src, data), data, |globalIndex|)
    requires NormaliseWindow(layout.locmin, layout.locmax, |globalIndex|).Success? ==>
      WindowReadsInRange(PermutedGlobalIndex(globalIndex), StableSortIndices(globalIndex),
                         NormaliseWindow(layout.locmin, layout.locmax, |globalIndex|).value)
    ensures r.Failure? <==> NormaliseWindow(layout.locmin, layout.locmax, |globalIndex|).Failure?
    ensures r.Failure? ==> r.error.BadValue?
  {
    match NormaliseWindow(layout.locmin, layout.locmax, |globalIndex|)
    case Failure(e) => Failure(e)
    case Success(w) => Success(Table(params, src, data, layout, globalIndex, globalApply, w, m, format))
  }

  /** A window that normalises to an empty range prints nothing at all, not even a header. */
  lemma EmptyWindowPrintsNothing(params: seq<PrintParams>, src: Sources, data: map<string, seq<Value>>, layout: Layout,
                                 globalIndex: seq<int>, globalApply: seq<int>, m: MissingValues, format: Value -> string)
    requires |globalApply| == |globalIndex|
    requires 0 <= layout.columnWidth
    requires Printable(RowSpecs(params, src, data), data, |globalIndex|)
    requires NormaliseWindow(layout.locmin, layout.locmax, |globalIndex|).Success?
    requires NormaliseWindow(layout.locmin, layout.locmax, |globalIndex|).value.min
      == NormaliseWindow(layout.locmin, layout.locmax, |globalIndex|).value.max
    ensures PrintAllData(params, src, data, layout, globalIndex, globalApply, m, format) == Success([])
  {
    var w := NormaliseWindow(layout.locmin, layout.locmax, |globalIndex|).value;
    EmptyWindowSelectsNothing(PermutedGlobalIndex(globalIndex), StableSortIndices(globalIndex), globalApply, w);
  }

  /** The first line of page `i` is the header of its locations. */
  lemma PageHeaderAt(nameLen: nat, cw: nat, specs: seq<RowSpec>, data: map<string, seq<Value>>, n: nat,
                     locRows: seq<seq<int>>, idxRows: seq<seq<nat>>, m: MissingValues, format: Value -> string, i: nat)
    requires |locRows| == |idxRows|
    requires Printable(specs, data, n)
    requires forall i :: 0 <= i < |idxRows| ==> AllBelow(idxRows[i], n)
    requires i < |locRows|
    ensures |Pages(nameLen, cw, specs, data, n, locRows, idxRows, m, format)| == |locRows| * (|specs| + 3)
    ensures 0 <= i * (|specs| + 3) && i * (|specs| + 3) + 1 < |Pages(nameLen, cw, specs, data, n, locRows, idxRows, m, format)|
    ensures Pages(nameLen, cw, specs, data, n, locRows, idxRows, m, format)[i * (|specs| + 3)]
      == HeaderLine(nameLen, cw, locRows[i])
    ensures Pages(nameLen, cw, specs, data, n, locRows, idxRows, m, format)[i * (|specs| + 3) + 1]
      == SeparatorLine(nameLen, cw, |locRows[i]|)
  {
    PagesAt(nameLen, cw, specs, data, n, locRows, idxRows, m, format, i, 0);
    PagesAt(nameLen, cw, specs, data, n, locRows, idxRows, m, format, i, 1);
  }

  /** Line `j + 2` of page `i` is the line of row key `j`, its cells read at the page's flat indices. */
  lemma PageRowAt(nameLen: nat, cw: nat, specs: seq<RowSpec>, data: map<string, seq<Value>>, n: nat,
                  locRows: seq<seq<int>>, idxRows: seq<seq<nat>>, m: MissingValues, format: Value -> string, i: nat, j: nat)
    requires |locRows| == |idxRows|
    requires Printable(specs, data, n)
    requires forall i :: 0 <= i < |idxRows| ==> AllBelow(idxRows[i], n)
    requires i < |locRows| && j < |specs|
    ensures 0 <= i * (|specs| + 3) && i * (|specs| + 3) + j + 2 < |Pages(nameLen, cw, specs, data, n, locRows, idxRows, m, format)|
    ensures Pages(nameLen, cw, specs, data, n, locRows, idxRows, m, format)[i * (|specs| + 3) + j + 2]
      == RowLine(nameLen, specs[j].key, RowCells(specs[j], data[specs[j].key], idxRows[i], cw, m, format))
  {
    PagesAt(nameLen, cw, specs, data, n, locRows, idxRows, m, format, i, j + 2);
  }

  /** Every page ends with an empty line. */
  lemma PageEndAt(nameLen: nat, cw: nat, specs: seq<RowSpec>, data: map<string, seq<Value>>, n: nat,
                  locRows: seq<seq<int>>, idxRows: seq<seq<nat>>, m: MissingValues, format: Value -> string, i: nat)
    requires |locRows| == |idxRows|
    requires Printable(specs, data, n)
    requires forall i :: 0 <= i < |idxRows| ==> AllBelow(idxRows[i], n)
    requires i < |locRows|
    ensures 0 <= i * (|specs| + 3) && i * (|specs| + 3) + |specs| + 2 < |Pages(nameLen, cw, specs, data, n, locRows, idxRows, m, format)|
    ensures Pages(nameLen, cw, specs, data, n, locRows, idxRows, m, format)[i * (|specs| + 3) + |specs| + 2] == ""
  {
    PagesAt(nameLen, cw, specs, data, n, locRows, idxRows, m, format, i, |specs| + 2);
  }

  /** For a window that normalises, `printAllData` prints the chunked pages of the selection. */
  lemma PrintedIsChunked(params: seq<PrintParams>, src: Sources, data: map<string, seq<Value>>, layout: Layout,
                         globalIndex: seq<int>, globalApply: seq<int>, m: MissingValues, format: Value -> string)
    requires |globalApply| == |globalIndex|
    requires 0 <= layout.columnWidth
    requires Printable(RowSpecs(params, src, data), data, |globalIndex|)
    requires NormaliseWindow(layout.locmin, layout.locmax, |globalIndex|).Success?
    requires WindowReadsInRange(PermutedGlobalIndex(globalIndex), StableSortIndices(globalIndex),
                                NormaliseWindow(layout.locmin, layout.locmax, |globalIndex|).value)
    ensures var sel := PrintedSelection(globalIndex, globalApply, NormaliseWindow(layout.locmin, layout.locmax, |globalIndex|).value);
      PrintAllData(params, src, data, layout, globalIndex, globalApply, m, format)
        == Success(ChunkedPages(NameColumnWidth(params, data.Keys), layout.columnWidth, RowSpecs(params, src, data), data,
                                |globalIndex|, sel.locs, sel.indices, PerRow(params, data, layout), m, format))
  {
  }

  /**
   For a window that normalises, `printAllData` prints one page of
   `|specs| + 3` lines per row of `nlocsPerRow` selected locations. The
   selection `sel`, the page width `perRow`, the row keys `specs` and the
   name-column width `nameLen` are named for readability.
   */
  lemma PrintedLength(params: seq<PrintParams>, src: Sources, data: map<string, seq<Value>>, layout: Layout,
                    globalIndex: seq<int>, globalApply: seq<int>, m: MissingValues, format: Value -> string,
                    out: seq<string>, sel: Selection, perRow: int, specs: seq<RowSpec>, nameLen: nat)
    requires |globalApply| == |globalIndex|
    requires 0 <= layout.columnWidth
    requires Printable(RowSpecs(params, src, data), data, |globalIndex|)
    requires NormaliseWindow(layout.locmin, layout.locmax, |globalIndex|).Success?
    requires WindowReadsInRange(PermutedGlobalIndex(globalIndex), StableSortIndices(globalIndex),
                                NormaliseWindow(layout.locmin, layout.locmax, |globalIndex|).value)
    requires PrintAllData(params, src, data, layout, globalIndex, globalApply, m, format) == Success(out)
    requires sel == PrintedSelection(globalIndex, globalApply, NormaliseWindow(layout.locmin, layout.locmax, |globalIndex|).value)
    requires perRow == PerRow(params, data, layout) && specs == RowSpecs(params, src, data)
    requires nameLen == NameColumnWidth(params, data.Keys)
    ensures 1 <= perRow
    ensures |out| == |Chunk(sel.locs, perRow)| * (|specs| + 3)
  {
    PrintedIsChunked(params, src, data, layout, globalIndex, globalApply, m, format);
    ChunkedPagesLength(nameLen, layout.columnWidth, specs, data, |globalIndex|, sel.locs, sel.indices, perRow, m, format, out);
  }

  /**
   Page `i` of the output is made of row `i` of the selected locations (the
   `nlocsPerRow` of them from `i * nlocsPerRow` on): their header, the
   division bar and, after the row lines, an empty line.
   */
  lemma PrintedPageAt(params: seq<PrintParams>, src: Sources, data: map<string, seq<Value>>, layout: Layout,
                    globalIndex: seq<int>, globalApply: seq<int>, m: MissingValues, format: Value -> string,
                    out: seq<string>, sel: Selection, perRow: int, specs: seq<RowSpec>, nameLen: nat, i: nat)
    requires |globalApply| == |globalIndex|
    requires 0 <= layout.columnWidth
    requires Printable(RowSpecs(params, src, data), data, |globalIndex|)
    requires NormaliseWindow(layout.locmin, layout.locmax, |globalIndex|).Success?
    requires WindowReadsInRange(PermutedGlobalIndex(globalIndex), StableSortIndices(globalIndex),
                                NormaliseWindow(layout.locmin, layout.locmax, |globalIndex|).value)
    requires PrintAllData(params, src, data, layout, globalIndex, globalApply, m, format) == Success(out)
    requires sel == PrintedSelection(globalIndex, globalApply, NormaliseWindow(layout.locmin, layout.locmax, |globalIndex|).value)
    requires perRow == PerRow(params, data, layout) && specs == RowSpecs(params, src, data)
    requires nameLen == NameColumnWidth(params, data.Keys)
    requires 1 <= perRow && i < |Chunk(sel.locs, perRow)|
    ensures 0 <= i * (|specs| + 3) && i * (|specs| + 3) + |specs| + 2 < |out|
    ensures out[i * (|specs| + 3)] == HeaderLine(nameLen, layout.columnWidth, Chunk(sel.locs, perRow)[i])
    ensures out[i * (|specs| + 3) + 1] == SeparatorLine(nameLen, layout.columnWidth, |Chunk(sel.locs, perRow)[i]|)
    ensures out[i * (|specs| + 3) + |specs| + 2] == ""
  {
    PrintedIsChunked(params, src, data, layout, globalIndex, globalApply, m, format);
    ChunkedPageAt(nameLen, layout.columnWidth, specs, data, |globalIndex|, sel.locs, sel.indices, perRow, m, format, out, i);
  }

  /**
   Line `j + 2` of page `i` of the output is the line of row key `j`, its
   cells the values of that key's column at the flat indices of row `i` of
   the selected locations.
   */
  lemma PrintedRowAt(params: seq<PrintParams>, src: Sources, data: map<string, seq<Value>>, layout: Layout,
                    globalIndex: seq<int>, globalApply: seq<int>, m: MissingValues, format: Value -> string,
                    out: seq<string>, sel: Selection, perRow: int, specs: seq<RowSpec>, nameLen: nat, i: nat, j: nat)
    requires |globalApply| == |globalIndex|
    requires 0 <= layout.columnWidth
    requires Printable(RowSpecs(params, src, data), data, |globalIndex|)
    requires NormaliseWindow(layout.locmin, layout.locmax, |globalIndex|).Success?
    requires WindowReadsInRange(PermutedGlobalIndex(globalIndex), StableSortIndices(globalIndex),
                                NormaliseWindow(layout.locmin, layout.locmax, |globalIndex|).value)
    requires PrintAllData(params, src, data, layout, globalIndex, globalApply, m, format) == Success(out)
    requires sel == PrintedSelection(globalIndex, globalApply, NormaliseWindow(layout.locmin, layout.locmax, |globalIndex|).value)
    requires perRow == PerRow(params, data, layout) && specs == RowSpecs(params, src, data)
    requires nameLen == NameColumnWidth(params, data.Keys)
    requires 1 <= perRow && i < |Chunk(sel.indices, perRow)| && j < |specs|
    ensures specs[j].key in data && AllBelow(Chunk(sel.indices, perRow)[i], |data[specs[j].key]|)
    ensures 0 <= i * (|specs| + 3) && i * (|specs| + 3) + j + 2 < |out|
    ensures forall t :: 0 <= t < |data[specs[j].key]| ==> StoredAs(specs[j].kind, data[specs[j].key][t])
    ensures out[i * (|specs| + 3) + j + 2]
      == RowLine(nameLen, specs[j].key, RowCells(specs[j], data[specs[j].key], Chunk(sel.indices, perRow)[i],
                                                 layout.columnWidth, m, format))
  {
    PrintedIsChunked(params, src, data, layout, globalIndex, globalApply, m, format);
    ChunkedRowAt(nameLen, layout.columnWidth, specs, data, |globalIndex|, sel.locs, sel.indices, perRow, m, format, out, i, j);
  }

  /** The row keys depend on the filter data only through which keys it stores. */
  lemma RowSpecsSameKeys(params: seq<PrintParams>, src: Sources, data1: map<string, seq<Value>>,
                         data2: map<string, seq<Value>>)
    requires data2.Keys == data1.Keys
    ensures RowSpecs(params, src, data2) == RowSpecs(params, src, data1)
  {
    var rows1 := seq(|params|, i requires 0 <= i < |params| => VariableRowSpecs(params[i], src, data1));
    var rows2 := seq(|params|, i requires 0 <= i < |params| => VariableRowSpecs(params[i], src, data2));
    assert rows2 == rows1;
  }

  /** Two columns read at indices that pick out the same values give the same cells. */
  lemma RowCellsRelabelled(s: RowSpec, column1: seq<Value>, column2: seq<Value>, idx1: seq<nat>, idx2: seq<nat>,
                           cw: int, m: MissingValues, format: Value -> string)
    requires AllBelow(idx1, |column1|) && AllBelow(idx2, |column2|) && |idx2| == |idx1|
    requires forall t :: 0 <= t < |column1| ==> StoredAs(s.kind, column1[t])
    requires forall t :: 0 <= t < |column2| ==> StoredAs(s.kind, column2[t])
    requires forall j :: 0 <= j < |idx1| ==> column2[idx2[j]] == column1[idx1[j]]
    ensures RowCells(s, column2, idx2, cw, m, format) == RowCells(s, column1, idx1, cw, m, format)
  {
  }

  /**
   Pages read through different flat indices are the same pages when every
   column holds, at the indices of the second, the values the first reads.
   */
  lemma PagesRelabelled(nameLen: nat, cw: nat, specs: seq<RowSpec>, data1: map<string, seq<Value>>,
                        data2: map<string, seq<Value>>, n: nat, locRows: seq<seq<int>>,
                        idx1: seq<seq<nat>>, idx2: seq<seq<nat>>, m: MissingValues, format: Value -> string)
    requires |locRows| == |idx1| == |idx2|
    requires Printable(specs, data1, n) && Printable(specs, data2, n)
    requires forall i :: 0 <= i < |idx1| ==> |idx2[i]| == |idx1[i]|
    requires forall i, j :: 0 <= i < |idx1| && 0 <= j < |idx1[i]| ==> idx1[i][j] < n && idx2[i][j] < n
    requires forall s, i, j :: 0 <= s < |specs| && 0 <= i < |idx1| && 0 <= j < |idx1[i]| ==>
      data2[specs[s].key][idx2[i][j]] == data1[specs[s].key][idx1[i][j]]
    ensures Pages(nameLen, cw, specs, data2, n, locRows, idx2, m, format)
      == Pages(nameLen, cw, specs, data1, n, locRows, idx1, m, format)
  {
    assert forall i :: 0 <= i < |idx1| ==> AllBelow(idx1[i], n) && AllBelow(idx2[i], n);
    var pages1 := PageList(nameLen, cw, specs, data1, n, locRows, idx1, m, format);
    var pages2 := PageList(nameLen, cw, specs, data2, n, locRows, idx2, m, format);
    forall i | 0 <= i < |locRows|
      ensures pages2[i] == pages1[i]
    {
      var rows1 := RowLines(nameLen, cw, specs, data1, n, idx1[i], m, format);
      var rows2 := RowLines(nameLen, cw, specs, data2, n, idx2[i], m, format);
      forall s | 0 <= s < |specs|
        ensures rows2[s] == rows1[s]
      {
        var key := specs[s].key;
        RowCellsRelabelled(specs[s], data1[key], data2[key], idx1[i], idx2[i], cw, m, format);
      }
      assert rows2 == rows1;
    }
    assert pages2 == pages1;
  }

  /**
   The chunked pages of the same locations are the same when the flat
   indices of the second run, carried by `perm`, are those of the first, and
   every column of the second holds at `p` what the first holds at `perm[p]`.
   */
  lemma ChunkedPagesRelabelled(nameLen: nat, cw: nat, specs: seq<RowSpec>, data1: map<string, seq<Value>>,
                               data2: map<string, seq<Value>>, n: nat, locs: seq<int>,
                               ind1: seq<nat>, ind2: seq<nat>, perm: seq<nat>, perRow: int,
                               m: MissingValues, format: Value -> string)
    requires |locs| == |ind1| == |ind2| && 1 <= perRow
    requires Printable(specs, data1, n) && Printable(specs, data2, n)
    requires AllBelow(ind1, n) && AllBelow(ind2, n)
    requires |perm| == n && AllBelow(perm, n)
    requires forall t :: 0 <= t < |ind2| ==> perm[ind2[t]] == ind1[t]
    requires forall s, p :: 0 <= s < |specs| && 0 <= p < n ==> data2[specs[s].key][p] == data1[specs[s].key][perm[p]]
    ensures ChunkedPages(nameLen, cw, specs, data2, n, locs, ind2, perRow, m, format)
      == ChunkedPages(nameLen, cw, specs, data1, n, locs, ind1, perRow, m, format)
  {
    var c1, c2 := Chunk(ind1, perRow), Chunk(ind2, perRow);
    ChunkSameShape(locs, ind1, perRow);
    ChunkSameShape(ind2, ind1, perRow);
    ChunkRelabelled(ind2, ind1, perm, perRow);
    RowsAllBelow(c1, ind1, n);
    RowsAllBelow(c2, ind2, n);
    forall s, i, j | 0 <= s < |specs| && 0 <= i < |c1| && 0 <= j < |c1[i]|
      ensures data2[specs[s].key][c2[i][j]] == data1[specs[s].key][c1[i][j]]
    {
      assert perm[c2[i][j]] == c1[i][j];
    }
    PagesRelabelled(nameLen, cw, specs, data1, data2, n, Chunk(locs, perRow), c1, c2, m, format);
  }

  /** Filter data read through a relabelling of its locations is printable wherever the original is. */
  lemma PrintableRelabelled(specs: seq<RowSpec>, data1: map<string, seq<Value>>, data2: map<string, seq<Value>>,
                            n: nat, perm: seq<nat>)
    requires Printable(specs, data1, n)
    requires |perm| == n && AllBelow(perm, n)
    requires data2.Keys == data1.Keys
    requires forall key :: key in data1 ==> |data2[key]| == |data1[key]|
    requires forall key, p :: key in data1 && |data1[key]| == n && 0 <= p < n ==> data2[key][p] == data1[key][perm[p]]
    ensures Printable(specs, data2, n)
  {
    forall j, t | 0 <= j < |specs| && 0 <= t < n
      ensures StoredAs(specs[j].kind, data2[specs[j].key][t])
    {
      assert data2[specs[j].key][t] == data1[specs[j].key][perm[t]];
    }
  }

  /**
   What `printAllData` prints does not depend on how the locations were
   distributed over the ranks, as long as the global indices are distinct
   and every rank prints: if the second gather holds at position `p` the
   global index, the `where` flag and the filter data the first holds at
   `perm[p]`, both print the same lines, or fail alike.
   */
  lemma PrintedIndependentOfDistribution(params: seq<PrintParams>, src: Sources, layout: Layout,
                                         data1: map<string, seq<Value>>, g1: seq<int>, a1: seq<int>,
                                         data2: map<string, seq<Value>>, g2: seq<int>, a2: seq<int>,
                                         perm: seq<nat>, m: MissingValues, format: Value -> string)
    requires |a1| == |g1| && |g2| == |g1| && |a2| == |g1|
    requires 0 <= layout.columnWidth
    requires Printable(RowSpecs(params, src, data1), data1, |g1|)
    requires NormaliseWindow(layout.locmin, layout.locmax, |g1|).Success? ==>
      WindowReadsInRange(PermutedGlobalIndex(g1), StableSortIndices(g1), NormaliseWindow(layout.locmin, layout.locmax, |g1|).value)
    requires Distinct(g1) && IsPermutationOfRange(perm, |g1|)
    requires forall p :: 0 <= p < |g1| ==> g2[p] == g1[perm[p]] && a2[p] == a1[perm[p]]
    requires data2.Keys == data1.Keys
    requires forall key :: key in data1 ==> |data2[key]| == |data1[key]|
    requires forall key, p :: key in data1 && |data1[key]| == |g1| && 0 <= p < |g1| ==> data2[key][p] == data1[key][perm[p]]
    ensures Printable(RowSpecs(params, src, data2), data2, |g2|)
    ensures NormaliseWindow(layout.locmin, layout.locmax, |g2|).Success? ==>
      WindowReadsInRange(PermutedGlobalIndex(g2), StableSortIndices(g2), NormaliseWindow(layout.locmin, layout.locmax, |g2|).value)
    ensures PrintAllData(params, src, data2, layout, g2, a2, m, format) == PrintAllData(params, src, data1, layout, g1, a1, m, format)
  {
    var n := |g1|;
    var specs := RowSpecs(params, src, data1);
    RowSpecsSameKeys(params, src, data1, data2);
    PrintableRelabelled(specs, data1, data2, n, perm);
    var normalised := NormaliseWindow(layout.locmin, layout.locmax, n);
    if normalised.Success? {
      var w := normalised.value;
      SelectionIndependentOfDistribution(g1, a1, g2, a2, perm, w);
      PrintedIsChunked(params, src, data1, layout, g1, a1, m, format);
      PrintedIsChunked(params, src, data2, layout, g2, a2, m, format);
      var sel1, sel2 := PrintedSelection(g1, a1, w), PrintedSelection(g2, a2, w);
      ChunkedPagesRelabelled(NameColumnWidth(params, data1.Keys), layout.columnWidth, specs, data1, data2, n,
                             sel1.locs, sel1.indices, sel2.indices, perm, PerRow(params, data1, layout), m, format);
    }
  }

  /**
   The header lines up with the division bar below it when every location
   fits the column width: same length, and a `+` under every `|`.
   */
  lemma HeaderAligned(nameLen: nat, cw: nat, locGroup: seq<int>, f: nat)
    requires |LocationHeading| <= nameLen
    requires forall c :: 0 <= c < |locGroup| ==> |IntToString(locGroup[c])| <= cw
    requires f <= |locGroup|
    ensures |HeaderLine(nameLen, cw, locGroup)| == |SeparatorLine(nameLen, cw, |locGroup|)|
    ensures BarAt(nameLen, cw, f) < |SeparatorLine(nameLen, cw, |locGroup|)|
    ensures HeaderLine(nameLen, cw, locGroup)[BarAt(nameLen, cw, f)] == '|'
    ensures SeparatorLine(nameLen, cw, |locGroup|)[BarAt(nameLen, cw, f)] == '+'
  {
    var cells := LocationCells(cw, locGroup);
    HeaderIsRow(nameLen, cw, locGroup);
    LocationCellsFit(cw, locGroup);
    BarInside(nameLen, cw, |locGroup|, f);
    RowAlignsWithSeparator(nameLen, cw, LocationHeading, cells, f);
  }

  /** The cells of a row all have the column width when every cell text fits it. */
  lemma RowCellsFit(s: RowSpec, column: seq<Value>, idxGroup: seq<nat>, cw: nat, m: MissingValues, format: Value -> string)
    requires AllBelow(idxGroup, |column|)
    requires forall t :: 0 <= t < |column| ==> StoredAs(s.kind, column[t])
    requires s.kind != Other
    requires forall j :: 0 <= j < |idxGroup| ==> |CellText(s.kind, column[idxGroup[j]], m, format)| <= cw
    ensures AllOfWidth(RowCells(s, column, idxGroup, cw, m, format), cw)
  {
  }

  /**
   A row lines up with the division bar when its key fits the name column
   and every cell text fits the column width.
   */
  lemma RowAligned(nameLen: nat, cw: nat, s: RowSpec, column: seq<Value>, idxGroup: seq<nat>,
                   m: MissingValues, format: Value -> string, f: nat)
    requires AllBelow(idxGroup, |column|)
    requires forall t :: 0 <= t < |column| ==> StoredAs(s.kind, column[t])
    requires s.kind != Other
    requires |s.key| <= nameLen
    requires forall j :: 0 <= j < |idxGroup| ==> |CellText(s.kind, column[idxGroup[j]], m, format)| <= cw
    requires f <= |idxGroup|
    ensures |RowLine(nameLen, s.key, RowCells(s, column, idxGroup, cw, m, format))| == |SeparatorLine(nameLen, cw, |idxGroup|)|
    ensures BarAt(nameLen, cw, f) < |SeparatorLine(nameLen, cw, |idxGroup|)|
    ensures RowLine(nameLen, s.key, RowCells(s, column, idxGroup, cw, m, format))[BarAt(nameLen, cw, f)] == '|'
    ensures SeparatorLine(nameLen, cw, |idxGroup|)[BarAt(nameLen, cw, f)] == '+'
  {
    var cells := RowCells(s, column, idxGroup, cw, m, format);
    RowCellsFit(s, column, idxGroup, cw, m, format);
    BarInside(nameLen, cw, |idxGroup|, f);
    RowAlignsWithSeparator(nameLen, cw, s.key, cells, f);
  }
}
