/**
 `getAllData` and the fetch routines it dispatches to: every requested
 variable is read, gathered over the ranks and stored in the filter data under
 its row key, or a "not present" notice is written instead.
 */
module Materialise {
  import opened Status
  import opened Seqs
  import opened Text
  import opened Names

  /** `ioda::ObsDtype`, as far as the filter distinguishes it. */
  datatype Kind = Integer | Float | String | DateTime | Bool | Other

  /**
   One fetched value. The text of floats and date-times is produced by
   library formatting the model leaves abstract, so their payloads are kept
   abstract too: a real number and a count of seconds.
   */
  datatype Value = IntV(i: int) | FloatV(f: real) | StringV(s: string) | DateTimeV(t: int) | BoolV(b: bool)

  /**
   The services the filter reads through, each returning one local vector per
   rank: `has` and `dtype` of the filter data; `get` for a variable without
   channels; `getDb` for one channel-qualified name of a group, `None` when the
   read throws; `nlevs` and `getLevel` for level-resolved variables.
   */
  datatype Sources = Sources(
    has: Variable -> bool,
    dtype: Variable -> Kind,
    get: Variable -> seq<seq<Value>>,
    getDb: (string, string) -> Option<seq<seq<Value>>>,
    nlevs: Variable -> int,
    getLevel: (Variable, int) -> seq<seq<Value>>)

  /** The filter data (`filterData_`) and the notices written so far. */
  datatype Fetched = Fetched(data: map<string, seq<Value>>, notices: seq<string>)

  /** The notice written for a name that could not be read. */
  function Notice(name: string): string {
    name + " not present in filter data"
  }

  lemma NoticeInjective(a: string, b: string)
    requires a != b
    ensures Notice(a) != Notice(b)
  {
    if |a| == |b| {
      assert Notice(a)[..|a|] == a;
      assert Notice(b)[..|b|] == b;
    } else {
      assert |Notice(a)| != |Notice(b)|;
    }
  }

  /** A value as it is stored: booleans become the integers 0 and 1; other values are kept. */
  function Stored(kind: Kind, x: Value): Value {
    if kind == Bool && x.BoolV? then IntV(if x.b then 1 else 0) else x
  }

  /** The gathered vector of a fetch, converted to its stored form. */
  function Column(kind: Kind, perRank: seq<seq<Value>>): (c: seq<Value>)
    ensures |c| == TotalLength(perRank)
  {
    FlattenLength(perRank);
    var g := Flatten(perRank);
    seq(|g|, i requires 0 <= i < |g| => Stored(kind, g[i]))
  }

  /**
   A boolean vector is stored as integers: every entry is 0 or 1, 1 exactly
   where the boolean was true, in gather order.
   */
  lemma BoolColumnIsZeroOne(perRank: seq<seq<Value>>)
    requires forall i :: 0 <= i < |Flatten(perRank)| ==> Flatten(perRank)[i].BoolV?
    ensures forall i :: 0 <= i < |Column(Bool, perRank)| ==>
      && Column(Bool, perRank)[i].IntV?
      && (Column(Bool, perRank)[i] == IntV(1) <==> Flatten(perRank)[i] == BoolV(true))
      && (Column(Bool, perRank)[i] == IntV(0) <==> Flatten(perRank)[i] == BoolV(false))
  {
  }

  /** Vectors of any other kind are stored exactly as gathered. */
  lemma OtherColumnIsGathered(kind: Kind, perRank: seq<seq<Value>>)
    requires kind != Bool
    ensures Column(kind, perRank) == Flatten(perRank)
  {
  }

  // ------------------------------------------------------------ outcomes

  /** What one fetch does to the filter data: store a vector under a key, or write a notice. */
  datatype Outcome = Store(key: string, column: seq<Value>) | Skip(notice: string)

  /** The outcomes applied in order to the filter data: a later store of a key replaces an earlier one. */
  function Apply(st: Fetched, outs: seq<Outcome>): Fetched {
    if |outs| == 0 then st
    else
      var prev := Apply(st, outs[..|outs| - 1]);
      match outs[|outs| - 1]
      case Store(k, c) => Fetched(prev.data[k := c], prev.notices)
      case Skip(n) => Fetched(prev.data, prev.notices + [n])
  }

  /** The notices of the skipped fetches, in order. */
  function SkipNotices(outs: seq<Outcome>): (r: seq<string>)
    ensures |r| <= |outs|
  {
    if |outs| == 0 then []
    else
      var prev := SkipNotices(outs[..|outs| - 1]);
      if outs[|outs| - 1].Skip? then prev + [outs[|outs| - 1].notice] else prev
  }

  /** The keys some fetch stores. */
  function StoredKeys(outs: seq<Outcome>): set<string> {
    set j | 0 <= j < |outs| && outs[j].Store? :: outs[j].key
  }

  /** The notices written are the earlier ones followed by one per skipped fetch, in order. */
  lemma {:induction false} ApplyNotices(st: Fetched, outs: seq<Outcome>)
    ensures Apply(st, outs).notices == st.notices + SkipNotices(outs)
  {
    if |outs| != 0 {
      ApplyNotices(st, outs[..|outs| - 1]);
    }
  }

  /**
   Afterwards a key is present exactly when it was before or some fetch stores
   it, and a key no fetch stores keeps its vector.
   */
  lemma {:induction false} ApplyKeys(st: Fetched, outs: seq<Outcome>)
    ensures forall k :: k in Apply(st, outs).data <==> k in st.data || k in StoredKeys(outs)
    ensures forall k :: k in st.data && k !in StoredKeys(outs) ==> Apply(st, outs).data[k] == st.data[k]
  {
    if |outs| != 0 {
      var init := outs[..|outs| - 1];
      ApplyKeys(st, init);
      assert forall j :: 0 <= j < |init| ==> init[j] == outs[j];
      assert StoredKeys(outs) == StoredKeys(init) + (if outs[|outs| - 1].Store? then {outs[|outs| - 1].key} else {});
    }
  }

  /**
   A stored vector survives to the end when every later store of the same key
   carries the same vector.
   */
  lemma {:induction false} ApplyValue(st: Fetched, outs: seq<Outcome>, j: nat)
    requires j < |outs| && outs[j].Store?
    requires forall j' :: j < j' < |outs| && outs[j'].Store? && outs[j'].key == outs[j].key ==>
      outs[j'].column == outs[j].column
    ensures outs[j].key in Apply(st, outs).data
    ensures Apply(st, outs).data[outs[j].key] == outs[j].column
  {
    var m := |outs| - 1;
    if j < m {
      var init := outs[..m];
      assert forall i :: 0 <= i < |init| ==> init[i] == outs[i];
      ApplyValue(st, init, j);
    }
  }

  /** The positions of the skipped fetches, in order. */
  function SkipIndices(outs: seq<Outcome>): (r: seq<nat>)
    ensures forall j :: 0 <= j < |r| ==> r[j] < |outs| && outs[r[j]].Skip?
    ensures forall i :: 0 <= i < |outs| && outs[i].Skip? ==> i in r
    ensures forall j, k :: 0 <= j < k < |r| ==> r[j] < r[k]
  {
    if |outs| == 0 then []
    else
      var init := outs[..|outs| - 1];
      var prev := SkipIndices(init);
      if outs[|outs| - 1].Skip? then
        prev + [|outs| - 1]
      else prev
  }

  /** The `j`-th notice written is the notice of the `j`-th skipped fetch. */
  lemma {:induction false} SkipNoticesAt(outs: seq<Outcome>)
    ensures |SkipNotices(outs)| == |SkipIndices(outs)|
    ensures forall j :: 0 <= j < |SkipIndices(outs)| ==> SkipNotices(outs)[j] == outs[SkipIndices(outs)[j]].notice
  {
    if |outs| != 0 {
      var init := outs[..|outs| - 1];
      assert forall i :: 0 <= i < |init| ==> init[i] == outs[i];
      SkipNoticesAt(init);
    }
  }

  /**
   Applying the outcomes writes, after the earlier notices, exactly the notice
   of each skipped fetch, in order.
   */
  lemma ApplyNoticesAt(st: Fetched, outs: seq<Outcome>)
    ensures |Apply(st, outs).notices| == |st.notices| + |SkipIndices(outs)|
    ensures Apply(st, outs).notices[..|st.notices|] == st.notices
    ensures forall j :: 0 <= j < |SkipIndices(outs)| ==>
      Apply(st, outs).notices[|st.notices| + j] == outs[SkipIndices(outs)[j]].notice
  {
    ApplyNotices(st, outs);
    SkipNoticesAt(outs);
  }

  // ---------------------------------------------------------------- levels

  predicate LevelInRange(src: Sources, v: Variable, level: int) {
    0 <= level < src.nlevs(v)
  }

  /** One level of `getMultiLevelData`: the bounds check, then a notice or a stored vector. */
  function LevelOutcome(v: Variable, level: int, src: Sources): Outcome {
    var key := LevelKey(FullName(v), level);
    if level < 0 || level >= src.nlevs(v) then Skip(Notice(key))
    else Store(key, Column(Float, src.getLevel(v, level)))
  }

  function LevelOutcomes(v: Variable, levels: seq<int>, src: Sources): (r: seq<Outcome>)
    ensures |r| == |levels|
    ensures forall j :: 0 <= j < |levels| ==> r[j] == LevelOutcome(v, levels[j], src)
  {
    seq(|levels|, j requires 0 <= j < |levels| => LevelOutcome(v, levels[j], src))
  }

  /** The keys of the levels of `v` that pass the bounds check. */
  function LevelKeysInRange(src: Sources, v: Variable, levels: seq<int>): (r: set<string>)
    ensures forall k :: k in r <==> exists l :: l in levels && LevelInRange(src, v, l) && k == LevelKey(FullName(v), l)
  {
    set l | l in levels && LevelInRange(src, v, l) :: LevelKey(FullName(v), l)
  }

  /** The level outcomes store exactly the keys of the levels in range. */
  lemma LevelOutcomesStored(v: Variable, levels: seq<int>, src: Sources)
    ensures StoredKeys(LevelOutcomes(v, levels, src)) == LevelKeysInRange(src, v, levels)
  {
    var outs := LevelOutcomes(v, levels, src);
    forall k | k in StoredKeys(outs)
      ensures k in LevelKeysInRange(src, v, levels)
    {
      var j :| 0 <= j < |outs| && outs[j].Store? && outs[j].key == k;
      assert LevelInRange(src, v, levels[j]);
    }
    forall k | k in LevelKeysInRange(src, v, levels)
      ensures k in StoredKeys(outs)
    {
      var l :| l in levels && LevelInRange(src, v, l) && k == LevelKey(FullName(v), l);
      var j :| 0 <= j < |levels| && levels[j] == l;
      assert outs[j].Store? && outs[j].key == k;
    }
  }

  /**
   `getMultiLevelData`: the levels in the order given. The keys present
   afterwards are the earlier ones and the keys of the levels in range; every
   other key keeps its vector, and notices are only appended.
   */
  function LevelPass(v: Variable, levels: seq<int>, src: Sources, st: Fetched): (r: Fetched)
    ensures forall k :: k in r.data <==> k in st.data || k in LevelKeysInRange(src, v, levels)
    ensures forall k :: k in st.data && k !in LevelKeysInRange(src, v, levels) ==> r.data[k] == st.data[k]
    ensures |st.notices| <= |r.notices| && r.notices[..|st.notices|] == st.notices
  {
    var outs := LevelOutcomes(v, levels, src);
    LevelOutcomesStored(v, levels, src);
    ApplyKeys(st, outs);
    ApplyNotices(st, outs);
    Apply(st, outs)
  }

  /**
   Every level in range is stored under its own key with the gathered vector
   of that level, whatever the other levels are.
   */
  lemma LevelPassStores(v: Variable, levels: seq<int>, src: Sources, st: Fetched, l: int)
    requires l in levels && LevelInRange(src, v, l)
    ensures LevelKey(FullName(v), l) in LevelPass(v, levels, src, st).data
    ensures LevelPass(v, levels, src, st).data[LevelKey(FullName(v), l)] == Column(Float, src.getLevel(v, l))
  {
    var outs := LevelOutcomes(v, levels, src);
    var j :| 0 <= j < |levels| && levels[j] == l;
    forall j' | j < j' < |outs| && outs[j'].Store? && outs[j'].key == outs[j].key
      ensures outs[j'].column == outs[j].column
    {
      if levels[j'] != l {
        LevelKeyInjective(FullName(v), levels[j'], l);
      }
    }
    ApplyValue(st, outs, j);
  }

  /**
   The notices written are, after the earlier ones, one per level that fails
   the bounds check, naming its key, in the order of the levels.
   */
  lemma LevelPassNotices(v: Variable, levels: seq<int>, src: Sources, st: Fetched)
    ensures var r := LevelPass(v, levels, src, st);
      var bad := SkipIndices(LevelOutcomes(v, levels, src));
      && (forall i :: i in bad <==> 0 <= i < |levels| && !LevelInRange(src, v, levels[i]))
      && |r.notices| == |st.notices| + |bad|
      && r.notices[..|st.notices|] == st.notices
      && forall j :: 0 <= j < |bad| ==> r.notices[|st.notices| + j] == Notice(LevelKey(FullName(v), levels[bad[j]]))
  {
    ApplyNoticesAt(st, LevelOutcomes(v, levels, src));
  }

  /**
   A level that fails the bounds check stores nothing: its key is present
   afterwards only if it was before, and a notice names it.
   */
  lemma OutOfRangeLevelStoresNothing(v: Variable, levels: seq<int>, src: Sources, st: Fetched, l: int)
    requires l in levels && !LevelInRange(src, v, l)
    ensures LevelKey(FullName(v), l) in LevelPass(v, levels, src, st).data <==> LevelKey(FullName(v), l) in st.data
    ensures Notice(LevelKey(FullName(v), l)) in LevelPass(v, levels, src, st).notices
  {
    if LevelKey(FullName(v), l) in LevelKeysInRange(src, v, levels) {
      var l' :| l' in levels && LevelInRange(src, v, l') && LevelKey(FullName(v), l) == LevelKey(FullName(v), l');
      LevelKeyInjective(FullName(v), l, l');
    }
    LevelPassNotices(v, levels, src, st);
    var bad := SkipIndices(LevelOutcomes(v, levels, src));
    var i :| 0 <= i < |levels| && levels[i] == l;
    var j :| 0 <= j < |bad| && bad[j] == i;
    assert LevelPass(v, levels, src, st).notices[|st.notices| + j] == Notice(LevelKey(FullName(v), l));
  }

  // -------------------------------------------------------------- channels

  /** The `get_db` read of channel `ich` of `v`. */
  function ChannelFetch(src: Sources, v: Variable, ich: nat): Option<seq<seq<Value>>>
    requires ich < Size(v)
  {
    src.getDb(v.group, VariableName(v, ich))
  }

  /** One channel of `getData`: a failing read writes a notice and the loop goes on. */
  function ChannelOutcome(v: Variable, kind: Kind, ich: nat, src: Sources): Outcome
    requires ich < Size(v)
  {
    match ChannelFetch(src, v, ich)
    case None => Skip(Notice(ChannelKey(v, ich)))
    case Some(d) => Store(ChannelKey(v, ich), Column(kind, d))
  }

  function ChannelOutcomes(v: Variable, kind: Kind, src: Sources): (r: seq<Outcome>)
    ensures |r| == Size(v)
    ensures forall ich :: 0 <= ich < Size(v) ==> r[ich] == ChannelOutcome(v, kind, ich, src)
  {
    seq(Size(v), ich requires 0 <= ich < Size(v) => ChannelOutcome(v, kind, ich, src))
  }

  /** The keys of the channels whose read succeeds. */
  function ChannelKeysFetched(src: Sources, v: Variable): (r: set<string>)
    ensures forall k :: k in r <==> exists ich: nat :: ich < Size(v) && ChannelFetch(src, v, ich).Some? && k == ChannelKey(v, ich)
  {
    set ich: nat | ich < Size(v) && ChannelFetch(src, v, ich).Some? :: ChannelKey(v, ich)
  }

  /** The channel outcomes store exactly the keys of the channels read successfully. */
  lemma ChannelOutcomesStored(v: Variable, kind: Kind, src: Sources)
    ensures StoredKeys(ChannelOutcomes(v, kind, src)) == ChannelKeysFetched(src, v)
  {
    var outs := ChannelOutcomes(v, kind, src);
    forall k | k in StoredKeys(outs)
      ensures k in ChannelKeysFetched(src, v)
    {
      var j :| 0 <= j < |outs| && outs[j].Store? && outs[j].key == k;
      assert ChannelFetch(src, v, j).Some?;
    }
    forall k | k in ChannelKeysFetched(src, v)
      ensures k in StoredKeys(outs)
    {
      var ich: nat :| ich < Size(v) && ChannelFetch(src, v, ich).Some? && k == ChannelKey(v, ich);
      assert outs[ich].Store? && outs[ich].key == k;
    }
  }

  /**
   The channel loop of `getData`. The keys present afterwards are the earlier
   ones and the keys of the channels read successfully; every other key keeps
   its vector, and notices are only appended.
   */
  function ChannelPass(v: Variable, kind: Kind, src: Sources, st: Fetched): (r: Fetched)
    ensures forall k :: k in r.data <==> k in st.data || k in ChannelKeysFetched(src, v)
    ensures forall k :: k in st.data && k !in ChannelKeysFetched(src, v) ==> r.data[k] == st.data[k]
    ensures |st.notices| <= |r.notices| && r.notices[..|st.notices|] == st.notices
  {
    var outs := ChannelOutcomes(v, kind, src);
    ChannelOutcomesStored(v, kind, src);
    ApplyKeys(st, outs);
    ApplyNotices(st, outs);
    Apply(st, outs)
  }

  /**
   Every channel whose read succeeds is stored under its key with its gathered
   vector. Two channels with the same key read the same name, so a later store
   of a shared key writes the same vector.
   */
  lemma ChannelPassStores(v: Variable, kind: Kind, src: Sources, st: Fetched, ich: nat)
    requires ich < Size(v) && ChannelFetch(src, v, ich).Some?
    ensures ChannelKey(v, ich) in ChannelPass(v, kind, src, st).data
    ensures ChannelPass(v, kind, src, st).data[ChannelKey(v, ich)] == Column(kind, ChannelFetch(src, v, ich).value)
  {
    var outs := ChannelOutcomes(v, kind, src);
    forall j' | ich < j' < |outs| && outs[j'].Store? && outs[j'].key == outs[ich].key
      ensures outs[j'].column == outs[ich].column
    {
      assert VariableName(v, ich) == ChannelKey(v, ich)[|v.group| + 1..];
      assert VariableName(v, j') == ChannelKey(v, j')[|v.group| + 1..];
    }
    ApplyValue(st, outs, ich);
  }

  /**
   The notices written are, after the earlier ones, one per channel whose read
   fails, naming its key, in channel order; the loop goes on past a failure.
   */
  lemma ChannelPassNotices(v: Variable, kind: Kind, src: Sources, st: Fetched)
    ensures var r := ChannelPass(v, kind, src, st);
      var bad := SkipIndices(ChannelOutcomes(v, kind, src));
      && (forall ich :: ich in bad <==> 0 <= ich < Size(v) && ChannelFetch(src, v, ich).None?)
      && |r.notices| == |st.notices| + |bad|
      && r.notices[..|st.notices|] == st.notices
      && forall j :: 0 <= j < |bad| ==> r.notices[|st.notices| + j] == Notice(ChannelKey(v, bad[j]))
  {
    ApplyNoticesAt(st, ChannelOutcomes(v, kind, src));
  }

  /** A failing channel read is named by a notice. */
  lemma FailingChannelIsNoticed(v: Variable, kind: Kind, src: Sources, st: Fetched, ich: nat)
    requires ich < Size(v) && ChannelFetch(src, v, ich).None?
    ensures Notice(ChannelKey(v, ich)) in ChannelPass(v, kind, src, st).notices
  {
    ChannelPassNotices(v, kind, src, st);
    var bad := SkipIndices(ChannelOutcomes(v, kind, src));
    var j :| 0 <= j < |bad| && bad[j] == ich;
    assert ChannelPass(v, kind, src, st).notices[|st.notices| + j] == Notice(ChannelKey(v, ich));
  }

  // --------------------------------------------------------------- getData

  /** The keys `getData` may store: the key of channel 0 without channels, else those of the channels read. */
  function GetDataKeys(v: Variable, src: Sources): set<string> {
    if |v.channels| == 0 then {ChannelKey(v, 0)} else ChannelKeysFetched(src, v)
  }

  /**
   `getData` (both the template and the `bool` overload): a variable without
   channels is read with `get` and stored under the key of channel 0, writing
   no notice; one with channels goes through the channel loop.
   */
  function GetData(v: Variable, kind: Kind, src: Sources, st: Fetched): (r: Fetched)
    ensures forall k :: k in r.data <==> k in st.data || k in GetDataKeys(v, src)
    ensures forall k :: k in st.data && k !in GetDataKeys(v, src) ==> r.data[k] == st.data[k]
    ensures |st.notices| <= |r.notices| && r.notices[..|st.notices|] == st.notices
    ensures |v.channels| == 0 ==>
      r.notices == st.notices && ChannelKey(v, 0) in r.data && r.data[ChannelKey(v, 0)] == Column(kind, src.get(v))
  {
    if |v.channels| == 0 then Fetched(st.data[ChannelKey(v, 0) := Column(kind, src.get(v))], st.notices)
    else ChannelPass(v, kind, src, st)
  }

  const InvalidType := "Invalid variable type for printing"

  /** A print request `getAllData` throws on: a present variable of a type it cannot print. */
  predicate Unprintable(p: PrintParams, src: Sources) {
    src.has(p.variable) && src.dtype(p.variable) == Other
  }

  /**
   The keys one print request stores: none for an absent variable, the level
   keys in range for a multi-level float, otherwise those of `getData`.
   */
  function RequestKeys(p: PrintParams, src: Sources): set<string> {
    var v := p.variable;
    if !src.has(v) then {}
    else if IsMultiLevel(v) && src.dtype(v) == Float then LevelKeysInRange(src, v, Ascending(p.levels))
    else GetDataKeys(v, src)
  }

  /**
   One print request of `getAllData`: the dispatch on presence and on the
   stored type. Only a float of a multi-level group is read level by level, at
   the listed levels in ascending order without repeats; every other printable
   type goes through `getData` for its own kind.
   */
  function FetchOne(p: PrintParams, src: Sources, st: Fetched): (r: Result<Fetched>)
    ensures r.Failure? <==> Unprintable(p, src)
    ensures r.Failure? ==> r.error == BadParameter(InvalidType)
    ensures r.Success? && !src.has(p.variable) ==>
      r.value == Fetched(st.data, st.notices + [Notice(FullName(p.variable))])
    ensures r.Success? && src.has(p.variable) && IsMultiLevel(p.variable) && src.dtype(p.variable) == Float ==>
      r.value == LevelPass(p.variable, Ascending(p.levels), src, st)
    ensures r.Success? && src.has(p.variable) && !(IsMultiLevel(p.variable) && src.dtype(p.variable) == Float) ==>
      r.value == GetData(p.variable, src.dtype(p.variable), src, st)
    ensures r.Success? ==> forall k :: k in r.value.data <==> k in st.data || k in RequestKeys(p, src)
    ensures r.Success? ==> |st.notices| <= |r.value.notices| && r.value.notices[..|st.notices|] == st.notices
  {
    var v := p.variable;
    if !src.has(v) then Success(Fetched(st.data, st.notices + [Notice(FullName(v))]))
    else
      match src.dtype(v)
      case Integer => Success(GetData(v, Integer, src, st))
      case Float =>
        if IsMultiLevel(v) then Success(LevelPass(v, Ascending(p.levels), src, st))
        else Success(GetData(v, Float, src, st))
      case String => Success(GetData(v, String, src, st))
      case DateTime => Success(GetData(v, DateTime, src, st))
      case Bool => Success(GetData(v, Bool, src, st))
      case Other => Failure(BadParameter(InvalidType))
  }

  /**
   A boolean variable without channels is stored under the key of channel 0
   as integers: 1 exactly where the gathered value was true, 0 where it was
   false.
   */
  lemma FetchOneBoolStored(p: PrintParams, src: Sources, st: Fetched)
    requires src.has(p.variable) && src.dtype(p.variable) == Bool && |p.variable.channels| == 0
    requires forall i :: 0 <= i < |Flatten(src.get(p.variable))| ==> Flatten(src.get(p.variable))[i].BoolV?
    ensures FetchOne(p, src, st).Success?
    ensures ChannelKey(p.variable, 0) in FetchOne(p, src, st).value.data
    ensures var c := FetchOne(p, src, st).value.data[ChannelKey(p.variable, 0)];
      && |c| == |Flatten(src.get(p.variable))|
      && forall i :: 0 <= i < |c| ==>
        && (c[i] == IntV(1) <==> Flatten(src.get(p.variable))[i] == BoolV(true))
        && (c[i] == IntV(0) <==> Flatten(src.get(p.variable))[i] == BoolV(false))
  {
    BoolColumnIsZeroOne(src.get(p.variable));
    FlattenLength(src.get(p.variable));
  }

  /** What `getAllData` leaves behind: the filter data and notices written, and the exception thrown, if any. */
  datatype Gathered = Gathered(fetched: Fetched, error: Option<Error>)

  /**
   One pass of the loop of `getAllData`: nothing more happens after a throw;
   otherwise the request either throws, leaving the filter data and notices as
   they were, or stores its keys and only appends notices.
   */
  function Step(g: Gathered, p: PrintParams, src: Sources): (r: Gathered)
    ensures g.error.Some? ==> r == g
    ensures g.error.None? ==> (r.error.Some? <==> Unprintable(p, src))
    ensures g.error.None? && r.error.Some? ==> r == Gathered(g.fetched, Some(BadParameter(InvalidType)))
    ensures r.error.None? ==> forall k :: k in r.fetched.data <==> k in g.fetched.data || k in RequestKeys(p, src)
    ensures |g.fetched.notices| <= |r.fetched.notices| && r.fetched.notices[..|g.fetched.notices|] == g.fetched.notices
  {
    if g.error.Some? then g
    else
      match FetchOne(p, src, g.fetched)
      case Failure(e) => Gathered(g.fetched, Some(e))
      case Success(next) => Gathered(next, None)
  }

  /**
   `getAllData`: the print requests in order, stopping at the first present
   variable whose type cannot be printed. The notices written before the
   throw stay written; notices are only ever appended.
   */
  function GetAllData(params: seq<PrintParams>, src: Sources, st: Fetched): (r: Gathered)
    ensures r.error.Some? <==> exists i :: 0 <= i < |params| && Unprintable(params[i], src)
    ensures r.error.Some? ==> r.error.value == BadParameter(InvalidType)
    ensures |st.notices| <= |r.fetched.notices| && r.fetched.notices[..|st.notices|] == st.notices
  {
    if |params| == 0 then Gathered(st, None)
    else
      var init := params[..|params| - 1];
      UnprintableSplit(params, init, src);
      Step(GetAllData(init, src, st), params[|params| - 1], src)
  }

  /** Some request is unprintable exactly when one before the last is, or the last is. */
  lemma UnprintableSplit(params: seq<PrintParams>, init: seq<PrintParams>, src: Sources)
    requires 0 < |params| && init == params[..|params| - 1]
    ensures (exists i :: 0 <= i < |params| && Unprintable(params[i], src)) <==>
      (exists i :: 0 <= i < |init| && Unprintable(init[i], src)) || Unprintable(params[|params| - 1], src)
  {
    if i :| 0 <= i < |params| && Unprintable(params[i], src) {
      if i < |init| {
        assert Unprintable(init[i], src);
      }
    }
    if i :| 0 <= i < |init| && Unprintable(init[i], src) {
      assert Unprintable(params[i], src);
    }
  }

  /** The keys of each print request, request by request. */
  function RequestKeySets(params: seq<PrintParams>, src: Sources): (r: seq<set<string>>)
    ensures |r| == |params|
    ensures forall i :: 0 <= i < |params| ==> r[i] == RequestKeys(params[i], src)
  {
    seq(|params|, i requires 0 <= i < |params| => RequestKeys(params[i], src))
  }

  /** The keys stored by the print requests `params`. */
  function AllRequestKeys(params: seq<PrintParams>, src: Sources): set<string> {
    UnionAll(RequestKeySets(params, src))
  }

  /** A key is stored by the requests exactly when it is stored by one of them. */
  lemma AllRequestKeysMembers(params: seq<PrintParams>, src: Sources, k: string)
    ensures k in AllRequestKeys(params, src) <==> exists i :: 0 <= i < |params| && k in RequestKeys(params[i], src)
  {
    UnionAllMembers(RequestKeySets(params, src), k);
  }

  /**
   When `getAllData` completes, the keys present are the earlier ones and the
   keys of every print request.
   */
  lemma {:induction false} GetAllDataKeys(params: seq<PrintParams>, src: Sources, st: Fetched)
    ensures GetAllData(params, src, st).error.None? ==>
      forall k :: k in GetAllData(params, src, st).fetched.data <==> k in st.data || k in AllRequestKeys(params, src)
  {
    if |params| != 0 {
      var init := params[..|params| - 1];
      GetAllDataKeys(init, src, st);
      var sets := RequestKeySets(params, src);
      assert sets[..|init|] == RequestKeySets(init, src);
    }
  }

  /**
   At the first unprintable request `getAllData` throws, leaving the filter
   data and notices exactly as the requests before it left them.
   */
  lemma {:induction false} GetAllDataStopsAtThrow(params: seq<PrintParams>, src: Sources, st: Fetched, i: nat)
    requires i < |params| && Unprintable(params[i], src)
    requires forall j :: 0 <= j < i ==> !Unprintable(params[j], src)
    ensures GetAllData(params, src, st) == Gathered(GetAllData(params[..i], src, st).fetched, Some(BadParameter(InvalidType)))
  {
    var init := params[..|params| - 1];
    if i == |params| - 1 {
      assert forall j :: 0 <= j < |init| ==> init[j] == params[j];
    } else {
      assert init[i] == params[i];
      GetAllDataStopsAtThrow(init, src, st, i);
      assert init[..i] == params[..i];
    }
  }
}
