/**
 The names of the table's rows: the key under which a fetched vector is stored
 and printed (`group/variable_channel` or `fullName (level L)`), the groups
 whose variables are printed level by level, and the width of the name column.
 */
module Names {
  import opened Seqs
  import opened Text

  /**
   A variable to print: its group, its name and the channels requested (none
   for a variable without channels).
   */
  datatype Variable = Variable(group: string, name: string, channels: seq<int>)

  /** `Variable::size()`: one row for a variable without channels, one per channel otherwise. */
  function Size(v: Variable): (n: nat)
    ensures 1 <= n
    ensures |v.channels| <= n
  {
    if |v.channels| == 0 then 1 else |v.channels|
  }

  /** `Variable::variable(ich)`: the name, suffixed with `_` and the channel number when there are channels. */
  function VariableName(v: Variable, ich: nat): string
    requires ich < Size(v)
  {
    if |v.channels| == 0 then v.name else v.name + "_" + IntToString(v.channels[ich])
  }

  /** `Variable::fullName()`: `group/name`, or the bare name when the group is empty. */
  function FullName(v: Variable): string {
    if v.group == "" then v.name else v.group + "/" + v.name
  }

  /**
   `getVariableNameWithChannel`: the key of channel `ich` of `v`, the group,
   a slash, and the channel-qualified variable name.
   */
  function ChannelKey(v: Variable, ich: nat): string
    requires ich < Size(v)
  {
    v.group + "/" + VariableName(v, ich)
  }

  /**
   A channel key reads back as its parts: the group and a slash, then the
   name, then (for a variable with channels) `_` and the channel number.
   */
  lemma ChannelKeyParts(v: Variable, ich: nat)
    requires ich < Size(v)
    ensures var r := ChannelKey(v, ich);
      |v.group| + 1 + |v.name| <= |r| && r[..|v.group| + 1] == v.group + "/" &&
      (|v.channels| == 0 ==> r[|v.group| + 1..] == v.name) &&
      (|v.channels| != 0 ==>
        r[|v.group| + 1..|v.group| + |v.name| + 2] == v.name + "_" &&
        ParseInt(r[|v.group| + |v.name| + 2..]) == v.channels[ich])
  {
    var r := ChannelKey(v, ich);
    if |v.channels| != 0 {
      var num := IntToString(v.channels[ich]);
      IntToStringRoundTrip(v.channels[ich]);
      assert r == (v.group + "/") + (v.name + "_") + num;
      assert r[|v.group| + |v.name| + 2..] == num;
    } else {
      assert r == (v.group + "/") + v.name;
    }
  }

  /** `getVariableNameAtLevel`: `fullName (level L)`. */
  function LevelKey(fullName: string, level: int): string {
    fullName + " (level " + IntToString(level) + ")"
  }

  /** A level key reads back as the full name, ` (level `, the level number and a closing parenthesis. */
  lemma LevelKeyParts(fullName: string, level: int)
    ensures var r := LevelKey(fullName, level);
      |fullName| + |" (level "| < |r| && r[..|fullName| + |" (level "|] == fullName + " (level " &&
      r[|r| - 1] == ')' && ParseInt(r[|fullName| + |" (level "|..|r| - 1]) == level
  {
    var r := LevelKey(fullName, level);
    IntToStringRoundTrip(level);
    assert r[|fullName| + |" (level "|..|r| - 1] == IntToString(level);
  }

  /** The groups whose float variables are read level by level. */
  const MultiLevelGroups: seq<string> := ["GeoVaLs", "ObsDiag", "ObsBiasTerm"]

  /** `isMultiLevelData`: true for exactly the three groups of geovals, diagnostics and bias terms. */
  predicate IsMultiLevel(v: Variable): (b: bool)
    ensures b <==> v.group == "GeoVaLs" || v.group == "ObsDiag" || v.group == "ObsBiasTerm"
  {
    v.group in MultiLevelGroups
  }

  /**
   The key of a variable without channels is its full name whenever the group
   is not empty; with an empty group it is one character longer (the slash).
   */
  lemma ChannelKeyOfPlainVariable(v: Variable)
    requires |v.channels| == 0
    ensures v.group != "" ==> ChannelKey(v, 0) == FullName(v)
    ensures v.group == "" ==> ChannelKey(v, 0) == "/" + FullName(v)
    ensures |ChannelKey(v, 0)| == |FullName(v)| + (if v.group == "" then 1 else 0)
  {
  }

  /** Two channels with different numbers get different keys. */
  lemma ChannelKeyInjective(v: Variable, i: nat, j: nat)
    requires i < |v.channels| && j < |v.channels|
    requires v.channels[i] != v.channels[j]
    ensures ChannelKey(v, i) != ChannelKey(v, j)
  {
    var k1, k2 := ChannelKey(v, i), ChannelKey(v, j);
    var p := |v.group| + 1 + |v.name| + 1;
    IntToStringInjective(v.channels[i], v.channels[j]);
    assert k1[p..] == IntToString(v.channels[i]);
    assert k2[p..] == IntToString(v.channels[j]);
  }

  /** Two different levels of the same variable get different keys. */
  lemma LevelKeyInjective(fullName: string, l1: int, l2: int)
    requires l1 != l2
    ensures LevelKey(fullName, l1) != LevelKey(fullName, l2)
  {
    var k1, k2 := LevelKey(fullName, l1), LevelKey(fullName, l2);
    var p := |fullName| + |" (level "|;
    IntToStringInjective(l1, l2);
    if |k1| == |k2| {
      assert k1[p..|k1| - 1] == IntToString(l1);
      assert k2[p..|k2| - 1] == IntToString(l2);
    }
  }

  /** The worked key: level 3 of `GeoVaLs/air_temperature`. */
  lemma LevelKeyExample(fullName: string)
    requires fullName == "GeoVaLs/air_temperature"
    ensures LevelKey(fullName, 3) == "GeoVaLs/air_temperature (level 3)"
    ensures LevelKey(fullName, -1) == "GeoVaLs/air_temperature (level -1)"
  {
    assert IntToString(3) == "3";
    assert IntToString(-1) == "-1";
  }

  /**
   A print request: the variable and the levels asked for, as listed in the
   configuration; the filter reads the levels through a `std::set<int>`.
   */
  datatype PrintParams = PrintParams(variable: Variable, levels: seq<int>)

  predicate StrictlyIncreasing(s: seq<int>) {
    forall i, j :: 0 <= i < j < |s| ==> s[i] < s[j]
  }

  /** Inserting `x` into an ascending sequence without duplicates, as a set insertion does. */
  function InsertLevel(x: int, s: seq<int>): (r: seq<int>)
    requires StrictlyIncreasing(s)
    ensures StrictlyIncreasing(r)
    ensures forall y :: y in r <==> y == x || y in s
    ensures |r| <= |s| + 1
  {
    if |s| == 0 || x < s[0] then [x] + s
    else if x == s[0] then s
    else
      var rest := InsertLevel(x, s[1..]);
      assert s == [s[0]] + s[1..];
      HeadBelowTail(s);
      ConsIncreasing(s[0], rest);
      [s[0]] + rest
  }

  /** The head of an ascending sequence is below every later element. */
  lemma HeadBelowTail(s: seq<int>)
    requires StrictlyIncreasing(s) && 0 < |s|
    ensures StrictlyIncreasing(s[1..])
    ensures forall y :: y in s[1..] ==> s[0] < y
  {
    forall y | y in s[1..]
      ensures s[0] < y
    {
      var k :| 0 <= k < |s[1..]| && s[1..][k] == y;
      assert s[k + 1] == y;
    }
  }

  /** Putting an element below all of an ascending sequence in front keeps it ascending. */
  lemma ConsIncreasing(h: int, t: seq<int>)
    requires StrictlyIncreasing(t)
    requires forall y :: y in t ==> h < y
    ensures StrictlyIncreasing([h] + t)
  {
    var s := [h] + t;
    forall i, j | 0 <= i < j < |s|
      ensures s[i] < s[j]
    {
      assert s[j] == t[j - 1] && t[j - 1] in t;
      if i != 0 {
        assert s[i] == t[i - 1];
      }
    }
  }

  /**
   The levels in the order the filter visits them: the iteration order of the
   `std::set<int>` built from the list, ascending and without duplicates.
   */
  function Ascending(levels: seq<int>): (r: seq<int>)
    ensures StrictlyIncreasing(r)
    ensures forall x :: x in r <==> x in levels
    ensures |r| <= |levels|
  {
    if |levels| == 0 then []
    else
      var prev := Ascending(levels[..|levels| - 1]);
      assert levels == levels[..|levels| - 1] + [levels[|levels| - 1]];
      InsertLevel(levels[|levels| - 1], prev)
  }

  /** The heading of the name column, which is never narrower than this. */
  const LocationHeading: string := "Location"

  /** The level keys of `fullName` for `levels` that have been stored. */
  function StoredLevelKeys(fullName: string, levels: seq<int>, stored: set<string>): (r: seq<string>)
    ensures forall k :: k in r <==> k in stored && exists l :: l in levels && k == LevelKey(fullName, l)
    ensures |r| <= |levels|
  {
    if |levels| == 0 then []
    else
      var prev := StoredLevelKeys(fullName, levels[..|levels| - 1], stored);
      var key := LevelKey(fullName, levels[|levels| - 1]);
      if key in stored then prev + [key] else prev
  }

  /** The keys of every channel of `v`. */
  function ChannelKeys(v: Variable, n: nat): (r: seq<string>)
    requires n <= Size(v)
    ensures |r| == n
    ensures forall ich :: 0 <= ich < n ==> r[ich] == ChannelKey(v, ich)
  {
    seq(n, ich requires 0 <= ich < n => ChannelKey(v, ich))
  }

  /**
   The names one print request contributes to the width of the name column:
   the stored level keys of a multi-level variable, the full name of a
   variable without channels, or every channel key.
   */
  function WidthNames(p: PrintParams, stored: set<string>): seq<string> {
    var v := p.variable;
    if IsMultiLevel(v) then StoredLevelKeys(FullName(v), Ascending(p.levels), stored)
    else if |v.channels| == 0 then [FullName(v)]
    else ChannelKeys(v, Size(v))
  }

  /** The width names of every print request, one row per request. */
  function WidthNameRows(params: seq<PrintParams>, stored: set<string>): (rows: seq<seq<string>>)
    ensures |rows| == |params|
    ensures forall i :: 0 <= i < |params| ==> rows[i] == WidthNames(params[i], stored)
  {
    seq(|params|, i requires 0 <= i < |params| => WidthNames(params[i], stored))
  }

  /** The width names of all print requests, in order. */
  function AllWidthNames(params: seq<PrintParams>, stored: set<string>): seq<string> {
    Flatten(WidthNameRows(params, stored))
  }

  lemma AllWidthNamesStep(params: seq<PrintParams>, stored: set<string>, i: nat)
    requires i < |params|
    ensures AllWidthNames(params[..i + 1], stored) == AllWidthNames(params[..i], stored) + WidthNames(params[i], stored)
  {
    var longer := WidthNameRows(params[..i + 1], stored);
    var rows := WidthNameRows(params[..i], stored);
    forall k | 0 <= k < i
      ensures longer[k] == rows[k]
    {
      assert params[..i + 1][k] == params[..i][k];
    }
    FlattenExtend(longer, rows);
  }

  /** The length of the longest of `names`, and never less than that of the "Location" heading. */
  function Widest(names: seq<string>): (r: int)
    ensures |LocationHeading| <= r
    ensures forall i :: 0 <= i < |names| ==> |names[i]| <= r
    ensures r == |LocationHeading| || exists i :: 0 <= i < |names| && r == |names[i]|
  {
    if |names| == 0 then |LocationHeading|
    else
      var prev := Widest(names[..|names| - 1]);
      assert forall i :: 0 <= i < |names| - 1 ==> names[..|names| - 1][i] == names[i];
      Max(prev, |names[|names| - 1]|)
  }

  lemma WidestAppend(names: seq<string>, x: string)
    ensures Widest(names + [x]) == Max(Widest(names), |x|)
  {
    assert (names + [x])[..|names|] == names;
  }

  /** One more name taken into account widens to its length. */
  lemma WidenStep(before: seq<string>, names: seq<string>, i: nat)
    requires i < |names|
    ensures Widest(before + names[..i + 1]) == Max(Widest(before + names[..i]), |names[i]|)
  {
    TakeStep(names, i);
    assert before + names[..i + 1] == (before + names[..i]) + [names[i]];
    WidestAppend(before + names[..i], names[i]);
  }

  /** The name-column width the table uses. */
  function NameColumnWidth(params: seq<PrintParams>, stored: set<string>): int {
    Widest(AllWidthNames(params, stored))
  }

  /**
   The name column is wide enough for every row printed: for a multi-level
   variable every stored level key, and otherwise every channel key, except
   the key of a variable that has neither channels nor a group, which is one
   character wider than the full name counted for it.
   */
  lemma RowKeysFit(params: seq<PrintParams>, stored: set<string>, i: nat)
    requires i < |params|
    ensures IsMultiLevel(params[i].variable) ==>
      forall l :: l in params[i].levels && LevelKey(FullName(params[i].variable), l) in stored ==>
        |LevelKey(FullName(params[i].variable), l)| <= NameColumnWidth(params, stored)
    ensures !IsMultiLevel(params[i].variable) ==>
      forall ich :: 0 <= ich < Size(params[i].variable) ==>
        |ChannelKey(params[i].variable, ich)| <=
          NameColumnWidth(params, stored) +
            (if params[i].variable.group == "" && |params[i].variable.channels| == 0 then 1 else 0)
  {
    var v := params[i].variable;
    var names := AllWidthNames(params, stored);
    if IsMultiLevel(v) {
      forall l | l in params[i].levels && LevelKey(FullName(v), l) in stored
        ensures |LevelKey(FullName(v), l)| <= Widest(names)
      {
        FlattenMember(WidthNameRows(params, stored), i, LevelKey(FullName(v), l));
      }
    } else {
      forall ich | 0 <= ich < Size(v)
        ensures |ChannelKey(v, ich)| <= Widest(names) + (if v.group == "" && |v.channels| == 0 then 1 else 0)
      {
        if |v.channels| == 0 {
          ChannelKeyOfPlainVariable(v);
          FlattenMember(WidthNameRows(params, stored), i, FullName(v));
        } else {
          assert ChannelKeys(v, Size(v))[ich] == ChannelKey(v, ich);
          FlattenMember(WidthNameRows(params, stored), i, ChannelKey(v, ich));
        }
      }
    }
  }

  /**
   The level loop of `getMaxVariableNameLength`: `r0` widened to every key of
   a stored level.
   */
  method WidenByLevels(r0: int, ghost before: seq<string>, fullName: string, levels: seq<int>, stored: set<string>)
    returns (r: int)
    requires r0 == Widest(before)
    ensures r == Widest(before + StoredLevelKeys(fullName, levels, stored))
  {
    r := r0;
    var j := 0;
    assert before + StoredLevelKeys(fullName, levels[..0], stored) == before;
    while j < |levels|
      invariant 0 <= j <= |levels|
      invariant r == Widest(before + StoredLevelKeys(fullName, levels[..j], stored))
    {
      var key := LevelKey(fullName, levels[j]);
      WidenLevelStep(before, fullName, levels, stored, j);
      if key in stored {
        r := Max(r, |key|);
      }
      j := j + 1;
    }
    assert levels[..j] == levels;
  }

  /** One more level taken into account widens to its key when that key is stored. */
  lemma WidenLevelStep(before: seq<string>, fullName: string, levels: seq<int>, stored: set<string>, j: nat)
    requires j < |levels|
    ensures var key := LevelKey(fullName, levels[j]);
      Widest(before + StoredLevelKeys(fullName, levels[..j + 1], stored)) ==
        if key in stored then Max(Widest(before + StoredLevelKeys(fullName, levels[..j], stored)), |key|)
        else Widest(before + StoredLevelKeys(fullName, levels[..j], stored))
  {
    var key := LevelKey(fullName, levels[j]);
    var prev := StoredLevelKeys(fullName, levels[..j], stored);
    TakeStep(levels, j);
    assert levels[..j + 1][..j] == levels[..j];
    if key in stored {
      assert StoredLevelKeys(fullName, levels[..j + 1], stored) == prev + [key];
      assert before + (prev + [key]) == (before + prev) + [key];
      WidestAppend(before + prev, key);
    } else {
      assert StoredLevelKeys(fullName, levels[..j + 1], stored) == prev;
    }
  }

  /** A running maximum `r0` widened, name by name, to every one of `names`. */
  method WidenByNames(r0: int, ghost before: seq<string>, names: seq<string>) returns (r: int)
    requires r0 == Widest(before)
    ensures r == Widest(before + names)
  {
    r := r0;
    var i := 0;
    assert before + names[..0] == before;
    while i < |names|
      invariant 0 <= i <= |names|
      invariant r == Widest(before + names[..i])
    {
      WidenStep(before, names, i);
      r := Max(r, |names[i]|);
      i := i + 1;
    }
    assert names[..i] == names;
  }

  /**
   The channel loop of `getMaxVariableNameLength`: `r0` widened to every
   channel key, whether or not that channel was stored.
   */
  method WidenByChannels(r0: int, ghost before: seq<string>, v: Variable) returns (r: int)
    requires r0 == Widest(before)
    ensures r == Widest(before + ChannelKeys(v, Size(v)))
  {
    r := WidenByNames(r0, before, ChannelKeys(v, Size(v)));
  }

  /**
   `getMaxVariableNameLength`: the loop over the print requests, taking the
   maximum of the "Location" heading and every width name.
   */
  method MaxVariableNameLength(params: seq<PrintParams>, stored: set<string>) returns (r: int)
    ensures r == NameColumnWidth(params, stored)
    ensures |LocationHeading| <= r
    ensures forall k :: k in AllWidthNames(params, stored) ==> |k| <= r
  {
    r := |LocationHeading|;
    var i := 0;
    while i < |params|
      invariant 0 <= i <= |params|
      invariant r == Widest(AllWidthNames(params[..i], stored))
    {
      r := WidenByRequest(r, AllWidthNames(params[..i], stored), params[i], stored);
      AllWidthNamesStep(params, stored, i);
      i := i + 1;
    }
    assert params[..i] == params;
  }

  /** One pass of the loop of `getMaxVariableNameLength`: `r0` widened to the width names of `p`. */
  method WidenByRequest(r0: int, ghost before: seq<string>, p: PrintParams, stored: set<string>) returns (r: int)
    requires r0 == Widest(before)
    ensures r == Widest(before + WidthNames(p, stored))
  {
    var v := p.variable;
    if IsMultiLevel(v) {
      r := WidenByLevels(r0, before, FullName(v), Ascending(p.levels), stored);
    } else if |v.channels| == 0 {
      WidestAppend(before, FullName(v));
      r := if |FullName(v)| > r0 then |FullName(v)| else r0;
    } else {
      r := WidenByChannels(r0, before, v);
    }
  }
}
