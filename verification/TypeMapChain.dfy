/**
 Chains of default type maps over a result (ext/pg_type_map_by_oid.c, ext/pg_type_map_by_column.c,
 ext/pg_type_map_all_strings.c). Fitting a chain to a result may replace OID lookups for each value by a decoder for
 each column.
 */
module TypeMapChain {
  import opened Bytes
  import opened TypeMapByOid

  /**
   A type map and its default type map. `Unsuited` stands for the maps that only serve queries. The hashes of a map
   by OID are those of its two formats.
   */
  datatype Chain =
    | AllStrings
    | Unsuited
    | ByOid(hashes: (Hash, Hash), maxRows: int, next: Chain)
    | ByColumn(coders: seq<Option<Coder>>, next: Chain)

  datatype Cell = Null | Value(bytes: seq<byte>)

  /** A result: its columns and its rows. */
  datatype Table = Table(fields: seq<Field>, rows: seq<seq<Cell>>)
  {
    predicate Valid() {
      forall t :: 0 <= t < |rows| ==> |rows[t]| == |fields|
    }

    predicate HasFormats() {
      forall k :: 0 <= k < |fields| ==> IsFormat(fields[k].format)
    }
  }

  function HashesOf(hashes: (Hash, Hash)): (r: seq<Hash>)
    ensures |r| == 2
  {
    [hashes.0, hashes.1]
  }

  // ---------------------------------------------------------------- fitting

  /** `fit_to_result` along the chain. */
  function Fit(m: Chain, table: Table): Result<Chain> {
    match m
    case AllStrings => Ok(AllStrings)
    case Unsuited => Err(WrongType)
    case ByOid(hashes, maxRows, next) =>
      var sub :- Fit(next, table);
      if |table.rows| <= maxRows then Ok(ByOid(hashes, maxRows, sub))
      else
        var coders :- Columns(HashesOf(hashes), table.fields);
        Ok(ByColumn(coders, sub))
    case ByColumn(coders, next) =>
      if |coders| != |table.fields| then Err(WrongDimensions)
      else
        var sub :- Fit(next, table);
        Ok(ByColumn(coders, sub))
  }

  // ---------------------------------------------------------------- selecting

  /** What becomes of a cell: nil, a decoder's work, the default conversion of its format, or an exception. */
  datatype Selected = Nil | Decoded(coder: Coder, format: int) | AsString(format: int) | Raised

  /** `typecast_result_value` along the chain. */
  function Select(m: Chain, table: Table, t: nat, f: nat): Selected
    requires table.Valid() && t < |table.rows| && f < |table.fields|
  {
    var format := table.fields[f].format;
    match m
    case AllStrings => if table.rows[t][f].Null? then Nil else AsString(format)
    case Unsuited => Raised
    case ByOid(hashes, _, next) =>
      if table.rows[t][f].Null? then Nil
      else if !IsFormat(format) then Raised
      else
        var found := Find(HashesOf(hashes)[format], table.fields[f].oid);
        if found.Some? then Decoded(found.value, format) else Select(next, table, t, f)
    case ByColumn(coders, next) =>
      if table.rows[t][f].Null? then Nil
      else if f >= |coders| then Raised
      else if coders[f].Some? then Decoded(coders[f].value, format)
      else Select(next, table, t, f)
  }

  // ---------------------------------------------------------------- the chain map by map

  /** How many default maps there are behind the first one. */
  function Depth(m: Chain): nat {
    match m
    case ByOid(_, _, next) => 1 + Depth(next)
    case ByColumn(_, next) => 1 + Depth(next)
    case _ => 0
  }

  /** The chain from its `k`-th map on. */
  function From(m: Chain, k: nat): Chain
    requires k <= Depth(m)
  {
    if k == 0 then m else From(m.next, k - 1)
  }

  /** The hash of the text format or of the binary one. */
  function HashFor(hashes: (Hash, Hash), format: int): Hash {
    if format == 0 then hashes.0 else hashes.1
  }

  /** A map without a coder for the field passes it on to its default map. */
  predicate PassesOn(m: Chain, field: Field, f: nat) {
    match m
    case ByOid(hashes, _, _) => (field.format == 0 || field.format == 1) && field.oid !in HashFor(hashes, field.format)
    case ByColumn(coders, _) => f < |coders| && coders[f] == None
    case _ => false
  }

  /** A map that does not is the one that decides. */
  ghost predicate Decides(m: Chain, field: Field, f: nat, s: Selected) {
    match m
    case AllStrings => s == AsString(field.format)
    case Unsuited => s == Raised
    case ByOid(hashes, _, _) =>
      if field.format != 0 && field.format != 1 then s == Raised
      else
        var hash := HashFor(hashes, field.format);
        field.oid in hash && s == Decoded(hash[field.oid], field.format)
    case ByColumn(coders, _) =>
      if f >= |coders| then s == Raised else coders[f].Some? && s == Decoded(coders[f].value, field.format)
  }

  /** The first map that does not pass a value on decides what becomes of it. */
  lemma {:induction false} FirstDecides(m: Chain, table: Table, t: nat, f: nat) returns (k: nat)
    requires table.Valid() && t < |table.rows| && f < |table.fields| && table.rows[t][f].Value?
    ensures k <= Depth(m) && forall j :: 0 <= j < k ==> PassesOn(From(m, j), table.fields[f], f)
    ensures Decides(From(m, k), table.fields[f], f, Select(m, table, t, f))
    decreases m
  {
    k := 0;
    if PassesOn(m, table.fields[f], f) {
      k := FirstDecides(m.next, table, t, f);
      forall j | 0 <= j < k + 1
        ensures PassesOn(From(m, j), table.fields[f], f)
      {
        if j > 0 {
          assert From(m, j) == From(m.next, j - 1);
        }
      }
      k := k + 1;
    }
  }

  /** Nil needs no decoder, only a map for results. */
  lemma NilIsNil(m: Chain, table: Table, t: nat, f: nat)
    requires table.Valid() && t < |table.rows| && f < |table.fields| && table.rows[t][f].Null?
    ensures Select(m, table, t, f) == if m.Unsuited? then Raised else Nil
  {
  }

  /**
   Fitting succeeds exactly when the chain ends in a map for results, its column maps have as many columns as the
   result, and all formats are known if a map by OID is to be replaced.
   */
  lemma {:induction false} FitsExactly(m: Chain, table: Table)
    ensures Fit(m, table).Ok? <==> AllFit(m, table)
    decreases m
  {
    assert From(m, 0) == m;
    if m.ByOid? || m.ByColumn? {
      FitsExactly(m.next, table);
      FitsNext(m, table);
      if m.ByOid? {
        ColumnsAt(HashesOf(m.hashes), table.fields);
      }
    }
  }

  /** Every map of the chain fits. */
  ghost predicate AllFit(m: Chain, table: Table) {
    forall k :: 0 <= k <= Depth(m) ==> FitsOne(From(m, k), table)
  }

  lemma FitsNext(m: Chain, table: Table)
    requires m.ByOid? || m.ByColumn?
    ensures AllFit(m, table) <==> FitsOne(m, table) && AllFit(m.next, table)
  {
    hide FitsOne;
    assert From(m, 0) == m;
    forall k | 0 <= k <= Depth(m.next)
      ensures From(m.next, k) == From(m, k + 1)
    {
    }
    if FitsOne(m, table) && AllFit(m.next, table) {
      forall k | 0 <= k <= Depth(m)
        ensures FitsOne(From(m, k), table)
      {
        if k > 0 {
          assert FitsOne(From(m.next, k - 1), table);
        }
      }
    }
    if AllFit(m, table) {
      assert FitsOne(From(m, 0), table);
      forall k | 0 <= k <= Depth(m.next)
        ensures FitsOne(From(m.next, k), table)
      {
        assert FitsOne(From(m, k + 1), table);
      }
    }
  }

  predicate FitsOne(m: Chain, table: Table) {
    match m
    case AllStrings => true
    case Unsuited => false
    case ByOid(_, maxRows, _) =>
      |table.rows| > maxRows ==>
        forall f :: 0 <= f < |table.fields| ==> table.fields[f].format == 0 || table.fields[f].format == 1
    case ByColumn(coders, _) => |coders| == |table.fields|
  }

  /** What fitting makes of one map: more rows than a map by OID looks up for itself make it a column map. */
  ghost predicate Becomes(was: Chain, now: Chain, table: Table) {
    match was
    case ByOid(hashes, maxRows, _) =>
      if |table.rows| <= maxRows then now.ByOid? && now.hashes == hashes && now.maxRows == maxRows
      else
        && now.ByColumn? && |now.coders| == |table.fields|
        && forall f :: 0 <= f < |table.fields| ==>
             var hash := HashFor(hashes, table.fields[f].format);
             now.coders[f] == if table.fields[f].oid in hash then Some(hash[table.fields[f].oid]) else None
    case ByColumn(coders, _) => now.ByColumn? && now.coders == coders
    case _ => now == was
  }

  /** Each map of a fitted chain is that of the chain, or the column map that a map by OID was replaced by. */
  lemma {:induction false} FittedAt(m: Chain, table: Table, k: nat)
    requires Fit(m, table).Ok? && k <= Depth(m)
    ensures Depth(Fit(m, table).value) == Depth(m)
    ensures Becomes(From(m, k), From(Fit(m, table).value, k), table)
    decreases m
  {
    if m.ByOid? || m.ByColumn? {
      FittedAt(m.next, table, if k == 0 then 0 else k - 1);
      if m.ByOid? {
        ColumnsAt(HashesOf(m.hashes), table.fields);
      }
    }
  }

  // ---------------------------------------------------------------- only a speed setting

  /** The fitted chain selects for each cell what the chain itself selects, however the fitting went. */
  lemma {:induction false} FittedSelectsTheSame(m: Chain, table: Table, t: nat, f: nat)
    requires table.Valid() && t < |table.rows| && f < |table.fields| && Fit(m, table).Ok?
    ensures Select(Fit(m, table).value, table, t, f) == Select(m, table, t, f)
    decreases m
  {
    if m.ByOid? {
      FittedSelectsTheSame(m.next, table, t, f);
      ColumnsAt(HashesOf(m.hashes), table.fields);
    } else if m.ByColumn? {
      FittedSelectsTheSame(m.next, table, t, f);
    }
  }

  /** The same chain apart from the row limits. */
  predicate SameButLimits(m: Chain, n: Chain) {
    match (m, n)
    case (AllStrings, AllStrings) => true
    case (Unsuited, Unsuited) => true
    case (ByOid(h, _, m'), ByOid(g, _, n')) => h == g && SameButLimits(m', n')
    case (ByColumn(c, m'), ByColumn(d, n')) => c == d && SameButLimits(m', n')
    case _ => false
  }

  /** A chain selects without looking at its row limits. */
  lemma {:induction false} LimitsDoNotSelect(m: Chain, n: Chain, table: Table, t: nat, f: nat)
    requires table.Valid() && t < |table.rows| && f < |table.fields| && SameButLimits(m, n)
    ensures Select(m, table, t, f) == Select(n, table, t, f)
    decreases m
  {
    if m.ByOid? || m.ByColumn? {
      LimitsDoNotSelect(m.next, n.next, table, t, f);
    }
  }

  /** Whatever the row limits are, the fitted chains select the same for each cell. */
  lemma LimitIsOnlySpeed(m: Chain, n: Chain, table: Table, t: nat, f: nat)
    requires table.Valid() && t < |table.rows| && f < |table.fields| && SameButLimits(m, n)
    requires Fit(m, table).Ok? && Fit(n, table).Ok?
    ensures Select(Fit(m, table).value, table, t, f) == Select(Fit(n, table).value, table, t, f)
  {
    FittedSelectsTheSame(m, table, t, f);
    FittedSelectsTheSame(n, table, t, f);
    LimitsDoNotSelect(m, n, table, t, f);
  }

  /** For a result of known formats neither do the limits decide whether the chain fits. */
  lemma {:induction false} LimitsDoNotRefuse(m: Chain, n: Chain, table: Table)
    requires SameButLimits(m, n) && table.HasFormats()
    ensures Fit(m, table).Ok? <==> Fit(n, table).Ok?
    decreases m
  {
    if m.ByOid? {
      LimitsDoNotRefuse(m.next, n.next, table);
      ColumnsAt(HashesOf(m.hashes), table.fields);
    } else if m.ByColumn? {
      LimitsDoNotRefuse(m.next, n.next, table);
    }
  }

  predicate FitAlike(m: Chain, n: Chain, table: Table) {
    Fit(m, table).Ok? <==> Fit(n, table).Ok?
  }

  /**
   The limit is only a speed setting in this sense exactly for results of known formats: a column of an unknown one
   is refused when the chain is fitted with a decoder for each column, and only when one of its values is read
   otherwise.
   */
  lemma FormatsDecide(table: Table)
    ensures table.HasFormats() <==> forall m, n :: SameButLimits(m, n) ==> FitAlike(m, n, table)
  {
    if table.HasFormats() {
      forall m, n | SameButLimits(m, n)
        ensures FitAlike(m, n, table)
      {
        LimitsDoNotRefuse(m, n, table);
      }
    } else {
      var hashes: (Hash, Hash) := (map[], map[]);
      var online, columns := ByOid(hashes, |table.rows|, AllStrings), ByOid(hashes, |table.rows| - 1, AllStrings);
      ColumnsAt(HashesOf(hashes), table.fields);
      assert SameButLimits(online, columns);
      assert Fit(online, table).Ok? && Fit(columns, table).Err?;
      assert !FitAlike(online, columns, table);
    }
  }

  /** A fitted chain fits the same result again, and stays what it is. */
  lemma {:induction false} FittedOnce(m: Chain, table: Table)
    requires Fit(m, table).Ok?
    ensures Fit(Fit(m, table).value, table) == Fit(m, table)
    decreases m
  {
    if m.ByOid? {
      FittedOnce(m.next, table);
      ColumnsAt(HashesOf(m.hashes), table.fields);
    } else if m.ByColumn? {
      FittedOnce(m.next, table);
    }
  }

  /** An exception for a cell can only come from a map that serves queries only, or from a format. */
  lemma {:induction false} FittedDoesNotRaise(m: Chain, table: Table, t: nat, f: nat)
    requires table.Valid() && t < |table.rows| && f < |table.fields| && Fit(m, table).Ok? && table.HasFormats()
    ensures Select(Fit(m, table).value, table, t, f) != Raised
    decreases m
  {
    if m.ByOid? {
      FittedDoesNotRaise(m.next, table, t, f);
      ColumnsAt(HashesOf(m.hashes), table.fields);
    } else if m.ByColumn? {
      FittedDoesNotRaise(m.next, table, t, f);
    }
  }

  // ---------------------------------------------------------------- chains of cached maps

  /** A chain of the type map objects themselves, each map by OID with its caches. */
  datatype Live =
    | LiveStrings
    | LiveUnsuited
    | LiveByOid(tm: TypeMap, maxRows: int, next: Live)
    | LiveByColumn(coders: seq<Option<Coder>>, next: Live)

  /** The maps and caches of a chain. */
  ghost function Footprint(l: Live): set<object> {
    match l
    case LiveByOid(tm, _, next) => {tm, tm.cache} + Footprint(next)
    case LiveByColumn(_, next) => Footprint(next)
    case _ => {}
  }

  ghost function Caches(l: Live): (r: set<object>)
    ensures r <= Footprint(l)
  {
    match l
    case LiveByOid(tm, _, next) => {tm.cache} + Caches(next)
    case LiveByColumn(_, next) => Caches(next)
    case _ => {}
  }

  /** Every map's caches agree with its hashes, and no map occurs twice. */
  ghost predicate Sound(l: Live)
    reads Footprint(l)
  {
    match l
    case LiveByOid(tm, _, next) => tm.Valid() && tm !in Footprint(next) && tm.cache !in Footprint(next) && Sound(next)
    case LiveByColumn(_, next) => Sound(next)
    case _ => true
  }

  /** The chain without caches. */
  ghost function Plain(l: Live): Chain
    requires Sound(l)
    reads Footprint(l)
  {
    match l
    case LiveStrings => AllStrings
    case LiveUnsuited => Unsuited
    case LiveByOid(tm, maxRows, next) => ByOid((tm.hashes[0], tm.hashes[1]), maxRows, Plain(next))
    case LiveByColumn(coders, next) => ByColumn(coders, Plain(next))
  }

  /** The maps and caches of a chain at hand exist, so that what is changed apart from them leaves the chain alone. */
  lemma {:induction false} Exists(l: Live)
    ensures forall o :: o in Footprint(l) ==> allocated(o)
    decreases l
  {
    match l
    case LiveByOid(tm, _, next) => Exists(next);
    case LiveByColumn(_, next) => Exists(next);
    case _ =>
  }

  /** A lookup in one map leaves its default maps alone. */
  method LookupAbove(tm: TypeMap, ghost next: Live, format: int, oid: nat) returns (coder: Option<Coder>)
    requires tm.Valid() && tm !in Footprint(next) && tm.cache !in Footprint(next) && Sound(next) && IsFormat(format)
    modifies tm.cache
    ensures tm.Valid() && Sound(next) && Plain(next) == old(Plain(next)) && coder == Find(tm.hashes[format], oid)
  {
    Exists(next);
    coder := tm.LookupOid(format, oid);
  }

  method BuildColumnsAbove(tm: TypeMap, ghost next: Live, fields: seq<Field>) returns (r: Result<seq<Option<Coder>>>)
    requires tm.Valid() && tm !in Footprint(next) && tm.cache !in Footprint(next) && Sound(next)
    modifies tm.cache
    ensures tm.Valid() && Sound(next) && Plain(next) == old(Plain(next)) && r == Columns(tm.hashes, fields)
  {
    Exists(next);
    r := tm.BuildColumns(fields);
  }

  /** `fit_to_result` through the caches of all maps gives what the hashes alone give. */
  method FitLive(l: Live, table: Table) returns (r: Result<Chain>)
    requires Sound(l)
    modifies Caches(l)
    ensures Sound(l) && Plain(l) == old(Plain(l)) && r == Fit(Plain(l), table)
    decreases l
  {
    match l
    case LiveStrings => r := Ok(AllStrings);
    case LiveUnsuited => r := Err(WrongType);
    case LiveByOid(tm, maxRows, next) =>
      var sub :- FitLive(next, table);
      if |table.rows| <= maxRows {
        r := Ok(ByOid((tm.hashes[0], tm.hashes[1]), maxRows, sub));
      } else {
        assert HashesOf((tm.hashes[0], tm.hashes[1])) == tm.hashes;
        var coders :- BuildColumnsAbove(tm, next, table.fields);
        r := Ok(ByColumn(coders, sub));
      }
    case LiveByColumn(coders, next) =>
      if |coders| != |table.fields| {
        return Err(WrongDimensions);
      }
      var sub :- FitLive(next, table);
      r := Ok(ByColumn(coders, sub));
  }

  /** And so does `typecast_result_value`, from one map to its default map. */
  method SelectLive(l: Live, table: Table, t: nat, f: nat) returns (s: Selected)
    requires Sound(l) && table.Valid() && t < |table.rows| && f < |table.fields|
    modifies Caches(l)
    ensures Sound(l) && Plain(l) == old(Plain(l)) && s == Select(Plain(l), table, t, f)
    decreases l
  {
    if l.LiveUnsuited? {
      return Raised;
    }
    if table.rows[t][f].Null? {
      return Nil;
    }
    var format := table.fields[f].format;
    match l
    case LiveStrings => s := AsString(format);
    case LiveByOid(tm, _, next) =>
      if !IsFormat(format) {
        return Raised;
      }
      assert HashesOf((tm.hashes[0], tm.hashes[1])) == tm.hashes;
      var coder := LookupAbove(tm, next, format, table.fields[f].oid);
      if coder.Some? {
        return Decoded(coder.value, format);
      }
      s := SelectLive(next, table, t, f);
    case LiveByColumn(coders, next) =>
      if f >= |coders| {
        return Raised;
      }
      if coders[f].Some? {
        return Decoded(coders[f].value, format);
      }
      s := SelectLive(next, table, t, f);
  }
}
