/** The type map that selects decoders by type OID (ext/pg_type_map_by_oid.c): a hash behind a direct-mapped cache. */
module TypeMapByOid {
  import opened Bytes

  /** A coder object, with the format and OID it has when it is added. */
  datatype Coder = Coder(id: nat, format: int, oid: nat)

  type Hash = map<nat, Coder>

  /** A slot of the cache. OID 0 without a coder is an empty slot. */
  datatype Slot = Slot(oid: nat, coder: Option<Coder>)

  const CACHE_SIZE := 0x100

  /** The hash on its own. */
  function Find(hash: Hash, oid: nat): Option<Coder> {
    if oid in hash then Some(hash[oid]) else None
  }

  function Put(hash: Hash, coder: Coder): Hash { hash[coder.oid := coder] }

  function Without(hash: Hash, oid: nat): Hash { hash - {oid} }

  /** What the slot at `index` may hold: nothing, or the hash's answer for an OID that belongs there. */
  ghost predicate SlotAgrees(hash: Hash, slot: Slot, index: nat) {
    slot != Slot(0, None) ==> slot.oid % CACHE_SIZE == index && slot.coder == Find(hash, slot.oid)
  }

  predicate IsFormat(format: int) { format == 0 || format == 1 }

  /** `NUM2UINT` takes these, and wraps the negative ones around. */
  predicate IsOid(x: int) { -0x8000_0000 <= x < 0x1_0000_0000 }

  function ToOid(x: int): nat { U32(x) }

  // ---------------------------------------------------------------- the map without a cache

  datatype Operation = Look(format: int, oid: nat) | Add(coder: Coder) | Remove(format: int, number: int)

  datatype Answer = Found(coder: Option<Coder>) | Done | Invalid

  /** The hashes of both formats after an operation. */
  function After(hashes: seq<Hash>, op: Operation): (r: seq<Hash>)
    requires |hashes| == 2
    ensures |r| == 2
  {
    match op
    case Look(_, _) => hashes
    case Add(coder) =>
      if !IsFormat(coder.format) then hashes
      else hashes[coder.format := Put(hashes[coder.format], coder)]
    case Remove(format, oid) =>
      if !IsFormat(format) || !IsOid(oid) || oid < 0 then hashes
      else hashes[format := Without(hashes[format], oid)]
  }

  /** What an operation answers, by the hashes alone. */
  function AnswerOf(hashes: seq<Hash>, op: Operation): Answer
    requires |hashes| == 2
  {
    match op
    case Look(format, oid) => if IsFormat(format) then Found(Find(hashes[format], oid)) else Invalid
    case Add(coder) => if IsFormat(coder.format) then Done else Invalid
    case Remove(format, oid) =>
      if !IsFormat(format) || !IsOid(oid) then Invalid
      else Found(if oid < 0 then None else Find(hashes[format], oid))
  }

  function Answers(hashes: seq<Hash>, ops: seq<Operation>): seq<Answer>
    requires |hashes| == 2
    decreases |ops|
  {
    if |ops| == 0 then [] else [AnswerOf(hashes, ops[0])] + Answers(After(hashes, ops[0]), ops[1..])
  }

  /** The hashes after all of the operations. */
  function AfterAll(hashes: seq<Hash>, ops: seq<Operation>): (r: seq<Hash>)
    requires |hashes| == 2
    ensures |r| == 2
    decreases |ops|
  {
    if |ops| == 0 then hashes else AfterAll(After(hashes, ops[0]), ops[1..])
  }

  /** The coder added last among the first `k` operations for a format and an OID, unless it was removed since. */
  function Latest(ops: seq<Operation>, k: nat, format: int, oid: nat): Option<Coder>
    requires k <= |ops|
  {
    if k == 0 then None
    else
      match ops[k - 1]
      case Add(coder) =>
        if coder.format == format && coder.oid == oid then Some(coder) else Latest(ops, k - 1, format, oid)
      case Remove(f, number) =>
        if f == format && number == oid then None else Latest(ops, k - 1, format, oid)
      case Look(_, _) => Latest(ops, k - 1, format, oid)
  }

  lemma {:induction false} AfterOneMore(hashes: seq<Hash>, ops: seq<Operation>, k: nat)
    requires |hashes| == 2 && k < |ops|
    ensures AfterAll(hashes, ops[..k + 1]) == After(AfterAll(hashes, ops[..k]), ops[k])
    decreases |ops|
  {
    hide After;
    if k == 0 {
      assert ops[..1][1..] == [] && ops[..0] == [];
    } else {
      AfterOneMore(After(hashes, ops[0]), ops[1..], k - 1);
      assert ops[..k + 1][1..] == ops[1..][..k] && ops[..k][1..] == ops[1..][..k - 1];
    }
  }

  lemma {:induction false} AnswerAt(hashes: seq<Hash>, ops: seq<Operation>, k: nat)
    requires |hashes| == 2 && k < |ops|
    ensures |Answers(hashes, ops)| == |ops|
    ensures Answers(hashes, ops)[k] == AnswerOf(AfterAll(hashes, ops[..k]), ops[k])
    decreases |ops|
  {
    hide After, AnswerOf;
    if |ops| > 1 {
      AnswerAt(After(hashes, ops[0]), ops[1..], if k == 0 then 0 else k - 1);
    }
    if k > 0 {
      assert ops[..k][1..] == ops[1..][..k - 1];
    }
  }

  lemma {:induction false} HashHoldsLatest(ops: seq<Operation>, k: nat, format: int, oid: nat)
    requires k <= |ops| && (format == 0 || format == 1) && oid < 0x1_0000_0000
    ensures Find(AfterAll([map[], map[]], ops[..k])[format], oid) == Latest(ops, k, format, oid)
    decreases k
  {
    if k > 0 {
      HashHoldsLatest(ops, k - 1, format, oid);
      AfterOneMore([map[], map[]], ops, k - 1);
    } else {
      assert ops[..0] == [];
    }
  }

  /**
   The answer to an operation by what was asked for before: a lookup finds the coder that was added last for the format
   and the OID, if it was not removed since; a removal answers with the one it removes. Formats are 0 and 1. A removal
   takes the numbers of 32 bits, signed or unsigned, and finds nothing under the negative ones.
   */
  function AnswerByHistory(ops: seq<Operation>, k: nat): Answer
    requires k < |ops|
  {
    match ops[k]
    case Look(format, oid) =>
      if format == 0 || format == 1 then Found(Latest(ops, k, format, oid)) else Invalid
    case Add(coder) => if coder.format == 0 || coder.format == 1 then Done else Invalid
    case Remove(format, number) =>
      if format != 0 && format != 1 then Invalid
      else if number < -2147483648 || number > 4294967295 then Invalid
      else if number < 0 then Found(None)
      else Found(Latest(ops, k, format, number))
  }

  /** Over every run of operations on a new map each answer is the one by history. */
  lemma AnswersAre(ops: seq<Operation>, k: nat)
    requires k < |ops| && (ops[k].Look? ==> ops[k].oid < 0x1_0000_0000)
    ensures |Answers([map[], map[]], ops)| == |ops|
    ensures Answers([map[], map[]], ops)[k] == AnswerByHistory(ops, k)
  {
    hide AfterAll, Latest;
    AnswerAt([map[], map[]], ops, k);
    var op := ops[k];
    if op.Look? && (op.format == 0 || op.format == 1) {
      HashHoldsLatest(ops, k, op.format, op.oid);
    } else if op.Remove? && (op.format == 0 || op.format == 1) && 0 <= op.number < 0x1_0000_0000 {
      HashHoldsLatest(ops, k, op.format, op.number);
    }
  }

  // ---------------------------------------------------------------- the map

  class TypeMap {
    var hashes: seq<Hash>
    const cache: array2<Slot>

    /** Both caches agree with their hashes, for OID 0 too. A coder in a cache is always in its hash. */
    ghost predicate Valid()
      reads this, cache
    {
      && |hashes| == 2
      && cache.Length0 == 2 && cache.Length1 == CACHE_SIZE
      && forall f, i :: 0 <= f < 2 && 0 <= i < CACHE_SIZE ==> SlotAgrees(hashes[f], cache[f, i], i)
    }

    constructor ()
      ensures Valid() && fresh(cache) && hashes == [map[], map[]]
    {
      hashes := [map[], map[]];
      cache := new Slot[2, CACHE_SIZE]((_, _) => Slot(0, None));
    }

    /** `pg_tmbo_lookup_oid`. */
    method LookupOid(format: int, oid: nat) returns (coder: Option<Coder>)
      requires Valid() && IsFormat(format)
      modifies cache
      ensures Valid() && coder == Find(hashes[format], oid)
    {
      var entry := cache[format, oid % CACHE_SIZE];
      if entry.oid == oid && (oid != 0 || entry.coder.Some?) {
        coder := entry.coder;
      } else {
        coder := Find(hashes[format], oid);
        cache[format, oid % CACHE_SIZE] := Slot(oid, coder);
      }
    }

    /** `pg_tmbo_add_coder`. */
    method AddCoder(coder: Coder) returns (answer: Answer)
      requires Valid()
      modifies this`hashes, cache
      ensures Valid() && hashes == After(old(hashes), Add(coder)) && answer == AnswerOf(old(hashes), Add(coder))
    {
      if !IsFormat(coder.format) {
        return Invalid;
      }
      cache[coder.format, coder.oid % CACHE_SIZE] := Slot(coder.oid, Some(coder));
      hashes := hashes[coder.format := Put(hashes[coder.format], coder)];
      answer := Done;
    }

    /** `pg_tmbo_rm_coder`: the slot is the one of the unsigned number, the key the number as it is. */
    method RmCoder(format: int, oid: int) returns (answer: Answer)
      requires Valid()
      modifies this`hashes, cache
      ensures Valid() && hashes == After(old(hashes), Remove(format, oid))
      ensures answer == AnswerOf(old(hashes), Remove(format, oid))
    {
      if !IsFormat(format) || !IsOid(oid) {
        return Invalid;
      }
      cache[format, ToOid(oid) % CACHE_SIZE] := Slot(0, None);
      if oid < 0 {
        return Found(None);
      }
      answer := Found(Find(hashes[format], oid));
      hashes := hashes[format := Without(hashes[format], oid)];
    }

    method Perform(op: Operation) returns (answer: Answer)
      requires Valid()
      modifies this`hashes, cache
      ensures Valid() && hashes == After(old(hashes), op) && answer == AnswerOf(old(hashes), op)
    {
      match op
      case Look(format, oid) =>
        if IsFormat(format) {
          var coder := LookupOid(format, oid);
          answer := Found(coder);
        } else {
          answer := Invalid;
        }
      case Add(coder) => answer := AddCoder(coder);
      case Remove(format, number) => answer := RmCoder(format, number);
    }

    /** Over every run of operations the cached map answers what the hashes alone answer. */
    method Run(ops: seq<Operation>) returns (answers: seq<Answer>)
      requires Valid()
      modifies this`hashes, cache
      ensures Valid() && answers == Answers(old(hashes), ops)
    {
      hide After, AnswerOf;
      answers := [];
      ghost var start := hashes;
      assert ops[0..] == ops;
      for k := 0 to |ops|
        invariant Valid()
        invariant Answers(start, ops) == answers + Answers(hashes, ops[k..])
      {
        ghost var before := hashes;
        var answer := Perform(ops[k]);
        assert ops[k..][1..] == ops[k + 1..];
        ghost var rest := Answers(hashes, ops[k + 1..]);
        assert answers + ([answer] + rest) == answers + [answer] + rest;
        answers := answers + [answer];
      }
    }

    /** `pg_tmbo_build_type_map_for_result2`: the decoders of a result's columns. */
    method BuildColumns(fields: seq<Field>) returns (r: Result<seq<Option<Coder>>>)
      requires Valid()
      modifies cache
      ensures Valid() && r == Columns(hashes, fields)
    {
      var convs: seq<Option<Coder>> := [];
      assert fields[0..] == fields;
      PrefixedNothing([], Columns(hashes, fields));
      for i := 0 to |fields|
        invariant Valid()
        invariant Columns(hashes, fields) == Prefixed(convs, Columns(hashes, fields[i..]))
      {
        assert fields[i..][1..] == fields[i + 1..];
        if !IsFormat(fields[i].format) {
          return Err(WrongType);
        }
        var coder := LookupOid(fields[i].format, fields[i].oid);
        PrefixedNext(convs, coder, Columns(hashes, fields[i + 1..]));
        convs := convs + [coder];
      }
      PrefixedNothing(convs, Ok([]));
      r := Ok(convs);
    }
  }

  // ---------------------------------------------------------------- columns of a result

  /** A column of a result, as libpq describes it. */
  datatype Field = Field(format: int, oid: nat)

  /** The hashes' decoder for each of the columns. */
  function Columns(hashes: seq<Hash>, fields: seq<Field>): Result<seq<Option<Coder>>>
    requires |hashes| == 2
  {
    if |fields| == 0 then Ok([])
    else if !IsFormat(fields[0].format) then Err(WrongType)
    else Prefixed([Find(hashes[fields[0].format], fields[0].oid)], Columns(hashes, fields[1..]))
  }

  /** A column map succeeds when all formats are known, and holds for each column what a lookup finds. */
  lemma {:induction false} ColumnsAt(hashes: seq<Hash>, fields: seq<Field>)
    requires |hashes| == 2
    ensures Columns(hashes, fields).Ok? <==> forall k :: 0 <= k < |fields| ==> IsFormat(fields[k].format)
    ensures Columns(hashes, fields).Ok? ==> |Columns(hashes, fields).value| == |fields|
    ensures Columns(hashes, fields).Ok? ==>
              forall k :: 0 <= k < |fields| ==>
                Columns(hashes, fields).value[k] == Find(hashes[fields[k].format], fields[k].oid)
  {
    if |fields| > 0 {
      ColumnsAt(hashes, fields[1..]);
      assert forall k :: 1 <= k < |fields| ==> fields[k] == fields[1..][k - 1];
      assert forall k :: 0 <= k < |fields| - 1 ==> fields[1..][k] == fields[k + 1];
    }
  }
}
