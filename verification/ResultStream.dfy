/**
 Streaming of results (ext/pg_result.c): one wrapper object passes from libpq result to libpq result, and gives some
 of them away to copies. Who owns which result, and what the garbage collector is told about memory, is kept in the
 books of a session.
 */
module ResultStream {
  import opened Bytes

  type Row = seq<Option<seq<byte>>>

  datatype Status = TuplesOk | CommandOk | SingleTuple | TuplesChunk | Failed | OtherStatus

  /** A libpq result. */
  datatype PgResult = PgResult(status: Status, nfields: nat, rows: seq<Row>)
  {
    /** Its rows are passed on. Statuses like that of COPY are no error and are treated in the same way. */
    predicate Streams() { status == SingleTuple || status == TuplesChunk || status == OtherStatus }

    /** It ends the stream. */
    predicate Ends() { (status == TuplesOk || status == CommandOk) && |rows| == 0 }
  }

  /** The struct behind a result object. A handle says which of the results it owns. */
  datatype Wrapper = Wrapper(handle: Option<nat>, size: nat, nfields: int)

  /** The three ways to yield rows: `yield_hash`, `yield_array` and `yield_tuple`. */
  datatype Kind = Hashes | Arrays | Tuples

  /**
   What happens around one row: it is yielded and the block returns, raises, clears the result, or lets the garbage
   collector free a copy of an earlier result; or its conversion raises before the block is called.
   */
  datatype Reaction = Continue | Raise | ClearResult | Collect(copy: nat) | ConversionFails

  type Block = nat -> Reaction

  datatype Outcome = Finished | NotInSingleRowMode | ServerError | FieldsChanged | NoResult | BlockRaised | WasCleared

  // ---------------------------------------------------------------- what a run yields

  /** The rows a yielder has passed on, and the exception that ended it. */
  datatype Part = Part(rows: seq<Row>, stop: Option<Outcome>)

  function Prepend(rows: seq<Row>, part: Part): Part {
    Part(rows + part.rows, part.stop)
  }

  lemma PrependSize(before: seq<Row>, part: Part, now: seq<Row>, stop: Option<Outcome>)
    requires Prepend(before, part) == Part(now, stop)
    ensures |now| == |before| + |part.rows| && now == before + part.rows && part.stop == stop
  {
  }

  function NilRow(n: nat): Row { seq(n, _ => None) }

  /**
   One result's rows from the `n`-th reaction on. Once the block has cleared the result (`gone`), hashes cannot be
   read and arrays hold nils; tuples come from the copy that owns the result.
   */
  function RowsOf(kind: Kind, rows: seq<Row>, nfields: nat, block: Block, n: nat, gone: bool): Part
    decreases |rows|
  {
    if |rows| == 0 then Part([], None)
    else if gone && kind == Hashes then Part([], Some(WasCleared))
    else if block(n) == ConversionFails then Part([], Some(BlockRaised))
    else
      var row := if gone && kind == Arrays then NilRow(nfields) else rows[0];
      if block(n) == Raise then Part([row], Some(BlockRaised))
      else Prepend([row], RowsOf(kind, rows[1..], nfields, block, n + 1, gone || block(n) == ClearResult))
  }

  /** How a result ends the stream before any of its rows is yielded, if it does. */
  function Verdict(r: PgResult, nfields: nat): Option<Outcome> {
    if r.Ends() then Some(Finished)
    else if r.status == TuplesOk || r.status == CommandOk then Some(NotInSingleRowMode)
    else if r.status == Failed then Some(ServerError)
    else if r.nfields != nfields then Some(FieldsChanged)
    else None
  }

  /** The whole stream: from a result and those that are still to come, the rows and how it ends. */
  function Run(kind: Kind, r: PgResult, nfields: nat, incoming: seq<PgResult>, block: Block, n: nat): Part
    decreases |incoming|
  {
    if Verdict(r, nfields).Some? then Part([], Verdict(r, nfields))
    else
      var part := RowsOf(kind, r.rows, nfields, block, n, false);
      if part.stop.Some? then part
      else if |incoming| == 0 then Part(part.rows, Some(NoResult))
      else Prepend(part.rows, Run(kind, incoming[0], nfields, incoming[1..], block, n + |part.rows|))
  }

  /** A block that neither raises nor clears the result, over rows that can be converted. */
  ghost predicate Calm(block: Block) {
    forall n :: block(n) == Continue || block(n).Collect?
  }

  function Concat(results: seq<PgResult>): seq<Row> {
    if |results| == 0 then [] else results[0].rows + Concat(results[1..])
  }

  lemma {:induction false} CalmRows(kind: Kind, rows: seq<Row>, nfields: nat, block: Block, n: nat)
    requires Calm(block)
    ensures RowsOf(kind, rows, nfields, block, n, false) == Part(rows, None)
    decreases |rows|
  {
    if |rows| > 0 {
      assert block(n) == Continue || block(n).Collect?;
      CalmRows(kind, rows[1..], nfields, block, n + 1);
      assert [rows[0]] + rows[1..] == rows;
    }
  }

  /** The first `k` results stream with the given number of fields, and the next one ends the stream. */
  predicate Streamed(all: seq<PgResult>, nfields: nat, k: nat) {
    k < |all| && all[k].Ends() && forall j :: 0 <= j < k ==> all[j].Streams() && all[j].nfields == nfields
  }

  lemma StreamedNext(all: seq<PgResult>, nfields: nat, k: nat)
    requires |all| > 1 && k > 0 && all[0].Streams() && all[0].nfields == nfields
    ensures Streamed(all, nfields, k) <==> Streamed(all[1..], nfields, k - 1)
  {
    var rest := all[1..];
    assert forall j :: 0 <= j < |rest| ==> rest[j] == all[j + 1];
    assert forall j :: 1 <= j < |all| ==> all[j] == rest[j - 1];
  }

  /** Under a calm block the rows come in order: those of one result behind those of the other, up to the end. */
  lemma {:induction false} YieldsInOrder(kind: Kind, all: seq<PgResult>, nfields: nat, block: Block, n: nat, k: nat)
    requires Calm(block) && Streamed(all, nfields, k)
    ensures Run(kind, all[0], nfields, all[1..], block, n) == Part(Concat(all[..k]), Some(Finished))
    decreases k
  {
    hide RowsOf, Calm;
    if k == 0 {
      assert all[..0] == [];
    } else {
      var r := all[0];
      assert r.Streams() && r.nfields == nfields;
      CalmRows(kind, r.rows, nfields, block, n);
      StreamedNext(all, nfields, k);
      YieldsInOrder(kind, all[1..], nfields, block, n + |r.rows|, k - 1);
      assert all[..k][1..] == all[1..][..k - 1];
    }
  }

  /** And there is no other way to finish, whatever the block does. */
  lemma {:induction false} FinishesAtEnd(kind: Kind, all: seq<PgResult>, nfields: nat, block: Block, n: nat)
    returns (k: nat)
    requires |all| > 0 && Run(kind, all[0], nfields, all[1..], block, n).stop == Some(Finished)
    ensures Streamed(all, nfields, k)
    decreases |all|
  {
    hide RowsOf;
    var r := all[0];
    if r.Ends() {
      k := 0;
    } else {
      var part := RowsOf(kind, r.rows, nfields, block, n, false);
      RowsDoNotFinish(kind, r.rows, nfields, block, n, false);
      k := FinishesAtEnd(kind, all[1..], nfields, block, n + |part.rows|);
      k := k + 1;
      StreamedNext(all, nfields, k);
    }
  }

  lemma {:induction false} RowsDoNotFinish(kind: Kind, rows: seq<Row>, nfields: nat, block: Block, n: nat, gone: bool)
    ensures RowsOf(kind, rows, nfields, block, n, gone).stop != Some(Finished)
    decreases |rows|
  {
    if |rows| > 0 {
      RowsDoNotFinish(kind, rows[1..], nfields, block, n + 1, gone || block(n) == ClearResult);
    }
  }

  /**
   A stream under a calm block finishes exactly when, behind results that stream with the same fields, an empty one
   ends it.
   */
  lemma FinishedStream(kind: Kind, all: seq<PgResult>, nfields: nat, block: Block, n: nat)
    requires Calm(block) && |all| > 0
    ensures Run(kind, all[0], nfields, all[1..], block, n).stop == Some(Finished) <==>
            exists k: nat :: Streamed(all, nfields, k)
  {
    hide Run, Streamed, Calm;
    if Run(kind, all[0], nfields, all[1..], block, n).stop == Some(Finished) {
      var k := FinishesAtEnd(kind, all, nfields, block, n);
    }
    forall k: nat | Streamed(all, nfields, k)
      ensures Run(kind, all[0], nfields, all[1..], block, n).stop == Some(Finished)
    {
      YieldsInOrder(kind, all, nfields, block, n, k);
    }
  }

  /**
   Under a calm block the first result that does not stream, with the fields of the first one, decides how the stream
   ends, and the rows before it are yielded. The names of the statuses and exceptions are those of the source.
   */
  lemma {:induction false} CalmRun(kind: Kind, all: seq<PgResult>, nfields: nat, block: Block, n: nat)
    returns (k: nat)
    requires Calm(block) && |all| > 0
    ensures k <= |all|
    ensures forall j :: 0 <= j < k ==>
              && all[j].nfields == nfields
              && (all[j].status == SingleTuple || all[j].status == TuplesChunk || all[j].status == OtherStatus)
    ensures Run(kind, all[0], nfields, all[1..], block, n) ==
            Part(Concat(all[..k]),
                 Some(if k == |all| then NoResult
                      else if all[k].status == Failed then ServerError
                      else if all[k].status == TuplesOk || all[k].status == CommandOk then
                        if |all[k].rows| == 0 then Finished else NotInSingleRowMode
                      else FieldsChanged))
    ensures k < |all| && all[k].status != Failed && all[k].status != TuplesOk && all[k].status != CommandOk ==>
              all[k].nfields != nfields
    decreases |all|
  {
    hide RowsOf, Calm;
    var r := all[0];
    if Verdict(r, nfields).Some? {
      k := 0;
      assert all[..0] == [];
    } else {
      CalmRows(kind, r.rows, nfields, block, n);
      if |all| == 1 {
        k := 1;
        assert all[..1] == all && all[1..] == [];
        assert r.rows + [] == r.rows;
      } else {
        k := CalmRun(kind, all[1..], nfields, block, n + |r.rows|);
        assert all[..k + 1][1..] == all[1..][..k];
        k := k + 1;
      }
    }
  }

  /** The result is cleared before its `j`-th row, at the latest by the block. */
  ghost predicate ClearedBefore(block: Block, n: nat, gone: bool, j: nat) {
    gone || exists m: nat :: n <= m < n + j && block(m) == ClearResult
  }

  /**
   What is yielded of one result, whatever the block does. The rows come in order; those of arrays are empty once the
   result is cleared. It ends early when the block raises, when a row cannot be converted, or when a hash is read from
   a cleared result, and nothing is yielded after that.
   */
  ghost predicate Yields(kind: Kind, rows: seq<Row>, nfields: nat, block: Block, n: nat, gone: bool, part: Part) {
    var k := |part.rows|;
    && k <= |rows|
    && (forall j :: 0 <= j < k ==> YieldsRow(kind, rows[j], nfields, block, n, gone, j, part.rows[j]))
    && (forall m: nat :: n <= m < n + k - 1 ==> block(m) != Raise)
    && match part.stop
       case None => k == |rows| && (k > 0 ==> block(n + k - 1) != Raise)
       case Some(WasCleared) =>
         && k < |rows| && kind == Hashes && ClearedBefore(block, n, gone, k)
         && (k > 0 ==> block(n + k - 1) != Raise)
       case Some(BlockRaised) =>
         || (k > 0 && block(n + k - 1) == Raise)
         || (k < |rows| && block(n + k) == ConversionFails && !(kind == Hashes && ClearedBefore(block, n, gone, k)))
       case Some(_) => false
  }

  ghost predicate YieldsRow(kind: Kind, row: Row, nfields: nat, block: Block, n: nat, gone: bool, j: nat, got: Row) {
    var cleared := ClearedBefore(block, n, gone, j);
    && block(n + j) != ConversionFails
    && !(kind == Hashes && cleared)
    && got == if kind == Arrays && cleared then NilRow(nfields) else row
  }

  lemma ClearedNext(block: Block, n: nat, gone: bool, j: nat)
    requires j > 0
    ensures ClearedBefore(block, n, gone, j) <==>
            ClearedBefore(block, n + 1, gone || block(n) == ClearResult, j - 1)
  {
  }

  lemma NothingYielded(kind: Kind, rows: seq<Row>, nfields: nat, block: Block, n: nat, gone: bool)
    requires |rows| == 0 || (gone && kind == Hashes) || block(n) == ConversionFails || block(n) == Raise
    ensures Yields(kind, rows, nfields, block, n, gone, RowsOf(kind, rows, nfields, block, n, gone))
  {
    hide NilRow;
    assert ClearedBefore(block, n, gone, 0) <==> gone;
  }

  lemma YieldsNext(kind: Kind, rows: seq<Row>, nfields: nat, block: Block, n: nat, gone: bool, rest: Part)
    requires |rows| > 0 && !(gone && kind == Hashes) && block(n) != ConversionFails && block(n) != Raise
    requires Yields(kind, rows[1..], nfields, block, n + 1, gone || block(n) == ClearResult, rest)
    ensures var row := if gone && kind == Arrays then NilRow(nfields) else rows[0];
            Yields(kind, rows, nfields, block, n, gone, Prepend([row], rest))
  {
    hide NilRow, ClearedBefore;
    var gone' := gone || block(n) == ClearResult;
    var row := if gone && kind == Arrays then NilRow(nfields) else rows[0];
    var part := Prepend([row], rest);
    var k := |part.rows|;
    ClearedNext(block, n, gone, k);
    forall j | 0 <= j < k
      ensures YieldsRow(kind, rows[j], nfields, block, n, gone, j, part.rows[j])
    {
      if j == 0 {
        NoneBefore(block, n, gone);
      } else {
        ClearedNext(block, n, gone, j);
        assert YieldsRow(kind, rows[1..][j - 1], nfields, block, n + 1, gone', j - 1, rest.rows[j - 1]);
        assert n + j == n + 1 + (j - 1);
      }
    }
    assert n + k == n + 1 + (k - 1);
  }

  lemma NoneBefore(block: Block, n: nat, gone: bool)
    ensures ClearedBefore(block, n, gone, 0) <==> gone
  {
  }

  lemma {:induction false} RowsExact(kind: Kind, rows: seq<Row>, nfields: nat, block: Block, n: nat, gone: bool)
    ensures Yields(kind, rows, nfields, block, n, gone, RowsOf(kind, rows, nfields, block, n, gone))
    decreases |rows|
  {
    hide Yields, NilRow;
    if |rows| == 0 || (gone && kind == Hashes) || block(n) == ConversionFails || block(n) == Raise {
      NothingYielded(kind, rows, nfields, block, n, gone);
    } else {
      RowsExact(kind, rows[1..], nfields, block, n + 1, gone || block(n) == ClearResult);
      YieldsNext(kind, rows, nfields, block, n, gone,
                 RowsOf(kind, rows[1..], nfields, block, n + 1, gone || block(n) == ClearResult));
    }
  }

  // ---------------------------------------------------------------- the books

  function SizeSum(wrappers: seq<Wrapper>): nat {
    if |wrappers| == 0 then 0 else wrappers[0].size + SizeSum(wrappers[1..])
  }

  lemma {:induction false} SizeSumUpdate(wrappers: seq<Wrapper>, i: nat, w: Wrapper)
    requires i < |wrappers|
    ensures SizeSum(wrappers[i := w]) == SizeSum(wrappers) - wrappers[i].size + w.size
  {
    if i > 0 {
      assert wrappers[i := w][1..] == wrappers[1..][i - 1 := w];
      SizeSumUpdate(wrappers[1..], i - 1, w);
    } else {
      assert wrappers[0 := w][1..] == wrappers[1..];
    }
  }

  lemma {:induction false} SizeSumAppend(wrappers: seq<Wrapper>, w: Wrapper)
    ensures SizeSum(wrappers + [w]) == SizeSum(wrappers) + w.size
  {
    if |wrappers| == 0 {
      assert wrappers + [w] == [w] && [w][1..] == [];
    } else {
      assert (wrappers + [w])[1..] == wrappers[1..] + [w];
      SizeSumAppend(wrappers[1..], w);
    }
  }

  /** The owner of each result: a wrapper, or none once the result has been cleared. */
  type Owners = seq<Option<nat>>

  /** Each result has one owner and has not been cleared, or has no owner and has been cleared once. */
  ghost predicate Owned(owners: Owners, wrappers: seq<Wrapper>, cleared: multiset<nat>, count: nat) {
    && |owners| == count
    && (forall h :: 0 <= h < count ==>
          match owners[h]
          case Some(i) => i < |wrappers| && wrappers[i].handle == Some(h) && cleared[h] == 0
          case None => cleared[h] == 1)
    && (forall i :: 0 <= i < |wrappers| ==>
          match wrappers[i].handle
          case Some(h) => h < count && owners[h] == Some(i)
          case None => wrappers[i].size == 0)
    && (forall h :: h in cleared ==> h < count)
  }

  /** A wrapper is cleared. */
  lemma OwnedClear(owners: Owners, wrappers: seq<Wrapper>, cleared: multiset<nat>, count: nat, w: nat, nfields: int)
    requires Owned(owners, wrappers, cleared, count) && w < |wrappers|
    ensures match wrappers[w].handle
            case None => Owned(owners, wrappers[w := Wrapper(None, 0, nfields)], cleared, count)
            case Some(h) => h < count && Owned(owners[h := None], wrappers[w := Wrapper(None, 0, nfields)],
                                               cleared + multiset{h}, count)
  {
  }

  /** A wrapper's result passes to a new wrapper. */
  lemma OwnedTakeOver(owners: Owners, wrappers: seq<Wrapper>, cleared: multiset<nat>, count: nat, w: nat)
    requires Owned(owners, wrappers, cleared, count) && w < |wrappers| && wrappers[w].handle.Some?
    ensures var h := wrappers[w].handle.value;
            h < count && Owned(owners[h := Some(|wrappers|)],
                               wrappers[w := wrappers[w].(handle := None, size := 0)] + [wrappers[w]], cleared, count)
  {
  }

  /** A new result for a wrapper that has none. */
  lemma OwnedReceive(owners: Owners, wrappers: seq<Wrapper>, cleared: multiset<nat>, count: nat, w: nat)
    requires Owned(owners, wrappers, cleared, count) && w < |wrappers| && wrappers[w].handle.None?
    ensures Owned(owners + [Some(w)], wrappers[w := wrappers[w].(handle := Some(count))], cleared, count + 1)
  {
  }

  /** A block that leaves results alone, though it may raise. */
  ghost predicate LeavesAlone(block: Block) {
    forall n :: block(n) != ClearResult && !block(n).Collect?
  }

  /** The results of a stream by number: the one it began with, and those that came in. */
  function HandleAt(first: nat, count: nat, j: nat): nat {
    if j == 0 then first else count + j - 1
  }

  /**
   Who owns the first `k` results of a stream once the next one has come, if the block leaves them alone: for tuples a
   copy of its own each, and none has been cleared; otherwise nobody, since each was cleared once. The other wrappers
   are as they were.
   */
  ghost predicate HandedOver(kind: Kind, first: nat, count: nat, k: nat, was: seq<Wrapper>, now: seq<Wrapper>,
                             wasCleared: multiset<nat>, nowCleared: multiset<nat>) {
    && |was| > 0 && |now| == |was| + (if kind == Tuples then k else 0)
    && now[0].handle == Some(HandleAt(first, count, k))
    && (forall i :: 1 <= i < |was| ==> now[i] == was[i])
    && if kind == Tuples then
         && nowCleared == wasCleared
         && forall j :: 0 <= j < k ==> now[|was| + j].handle == Some(HandleAt(first, count, j))
       else nowCleared == wasCleared + multiset(seq(k, j requires j >= 0 => HandleAt(first, count, j)))
  }

  lemma HandedNext(kind: Kind, first: nat, count: nat, k: nat, was: seq<Wrapper>, now: seq<Wrapper>,
                   next: seq<Wrapper>, wasCleared: multiset<nat>, nowCleared: multiset<nat>, nextCleared: multiset<nat>)
    requires HandedOver(kind, first, count, k, was, now, wasCleared, nowCleared)
    requires Passed(kind, count + k, now, next, nowCleared, nextCleared)
    ensures HandedOver(kind, first, count, k + 1, was, next, wasCleared, nextCleared)
  {
    var handles := seq(k, j requires j >= 0 => HandleAt(first, count, j));
    var more := seq(k + 1, j requires j >= 0 => HandleAt(first, count, j));
    assert more == handles + [HandleAt(first, count, k)];
    assert multiset(more) == multiset(handles) + multiset{HandleAt(first, count, k)};
  }

  lemma NothingHanded(kind: Kind, first: nat, count: nat, was: seq<Wrapper>, cleared: multiset<nat>)
    requires |was| > 0 && was[0].handle == Some(first)
    ensures HandedOver(kind, first, count, 0, was, was, cleared, cleared)
  {
  }

  /** One result is done with, and the next one has come. */
  ghost predicate Passed(kind: Kind, handle: nat, was: seq<Wrapper>, now: seq<Wrapper>, wasCleared: multiset<nat>,
                         nowCleared: multiset<nat>) {
    && |was| > 0 && was[0].handle.Some?
    && |now| == |was| + (if kind == Tuples then 1 else 0)
    && now[0].handle == Some(handle)
    && (forall i :: 1 <= i < |was| ==> now[i] == was[i])
    && if kind == Tuples then nowCleared == wasCleared && now[|was|] == was[0]
       else nowCleared == wasCleared + multiset{was[0].handle.value}
  }

  class Session {
    var incoming: seq<PgResult>
    var results: seq<PgResult>
    var wrappers: seq<Wrapper>
    var cleared: multiset<nat>
    var accounted: int
    var yielded: seq<Row>
    var calls: nat
    ghost var owners: Owners

    /** Every live result has exactly one owner, none is cleared twice, and the memory told of is that of the owners. */
    ghost predicate Valid()
      reads this
    {
      Owned(owners, wrappers, cleared, |results|) && accounted == SizeSum(wrappers) && |wrappers| > 0
    }

    /** `pg_new_result`: the first result of a stream, of which the garbage collector is told. */
    constructor (first: PgResult, size: nat, incoming: seq<PgResult>)
      ensures Valid() && results == [first] && wrappers == [Wrapper(Some(0), size, -1)] && yielded == [] && calls == 0
      ensures this.incoming == incoming && cleared == multiset{}
    {
      this.incoming := incoming;
      results := [first];
      wrappers := [Wrapper(Some(0), size, -1)];
      cleared := multiset{};
      accounted := size;
      yielded := [];
      calls := 0;
      owners := [Some(0)];
    }

    /** `pgresult_clear`. */
    method Clear(w: nat)
      requires Valid() && w < |wrappers|
      modifies this`wrappers, this`cleared, this`accounted, this`owners
      ensures Valid() && wrappers == old(wrappers)[w := Wrapper(None, 0, -1)]
      ensures cleared == old(cleared) + if old(wrappers[w].handle).None? then multiset{}
                                        else multiset{old(wrappers[w].handle.value)}
    {
      hide Owned;
      OwnedClear(owners, wrappers, cleared, |results|, w, -1);
      SizeSumUpdate(wrappers, w, Wrapper(None, 0, -1));
      Owning(w);
      if wrappers[w].handle.Some? {
        var h := wrappers[w].handle.value;
        cleared := cleared + multiset{h};
        accounted := accounted - wrappers[w].size;
        owners := owners[h := None];
      }
      wrappers := wrappers[w := Wrapper(None, 0, -1)];
    }

    /** What the books say about one wrapper. */
    lemma Owning(w: nat)
      requires Valid() && w < |wrappers|
      ensures |owners| == |results|
      ensures wrappers[w].handle.Some? ==> wrappers[w].handle.value < |results|
      ensures wrappers[w].handle.None? ==> wrappers[w].size == 0
    {
    }

    /** `pg_copy_result`, and the line behind it in `yield_tuple` that leaves the copy as the only owner. */
    method TakeOver(w: nat) returns (copy: nat)
      requires Valid() && w < |wrappers| && wrappers[w].handle.Some?
      modifies this`wrappers, this`owners
      ensures Valid() && copy == |old(wrappers)|
      ensures wrappers == old(wrappers)[w := old(wrappers[w]).(handle := None, size := 0)] + [old(wrappers[w])]
    {
      hide Owned;
      Owning(w);
      copy := |wrappers|;
      var was := wrappers[w];
      OwnedTakeOver(owners, wrappers, cleared, |results|, w);
      SizeSumUpdate(wrappers, w, was.(handle := None, size := 0));
      SizeSumAppend(wrappers[w := was.(handle := None, size := 0)], was);
      wrappers := wrappers + [was];
      wrappers := wrappers[w := wrappers[w].(size := 0)];
      wrappers := wrappers[w := wrappers[w].(handle := None)];
      assert wrappers == old(wrappers)[w := was.(handle := None, size := 0)] + [was];
      owners := owners[was.handle.value := Some(copy)];
    }

    /** `PQgetResult`, and the assignment of what it returns: the wrapper must not own a result any more. */
    method Receive() returns (got: bool)
      requires Valid() && wrappers[0].handle.None?
      modifies this`incoming, this`results, this`wrappers, this`owners
      ensures Valid() && got == (|old(incoming)| > 0)
      ensures got ==>
        && incoming == old(incoming)[1..]
        && results == old(results) + [old(incoming)[0]]
        && wrappers == old(wrappers)[0 := old(wrappers[0]).(handle := Some(|old(results)|))]
      ensures !got ==> incoming == old(incoming) && results == old(results) && wrappers == old(wrappers)
    {
      hide Owned;
      got := |incoming| > 0;
      if got {
        OwnedReceive(owners, wrappers, cleared, |results|, 0);
        SizeSumUpdate(wrappers, 0, wrappers[0].(handle := Some(|results|)));
        wrappers := wrappers[0 := wrappers[0].(handle := Some(|results|))];
        results := results + [incoming[0]];
        incoming := incoming[1..];
        owners := owners + [Some(0)];
      }
    }

    /** What the block does to the wrappers while it has wrapper `w`'s row in hand. */
    method React(reaction: Reaction, w: nat)
      requires Valid() && w < |wrappers|
      modifies this`wrappers, this`cleared, this`accounted, this`owners
      ensures Valid() && |wrappers| == |old(wrappers)|
      ensures w > 0 ==> wrappers[w] == old(wrappers[w])
      ensures wrappers[0] == if reaction == ClearResult then Wrapper(None, 0, -1) else old(wrappers[0])
      ensures reaction != ClearResult && !reaction.Collect? ==> wrappers == old(wrappers) && cleared == old(cleared)
    {
      hide Owned;
      if reaction == ClearResult {
        Clear(0);
      } else if reaction.Collect? && 0 < reaction.copy < |wrappers| && reaction.copy != w {
        Clear(reaction.copy);
      }
    }

    /** One turn of these loops: the row is read through the wrapper, and passed to the block. */
    method YieldRow(kind: Kind, w: nat, row: Row, nfields: nat, reaction: Reaction) returns (stop: Option<Outcome>)
      requires Valid() && w < |wrappers|
      modifies this`wrappers, this`cleared, this`accounted, this`owners, this`yielded, this`calls
      ensures Valid() && |wrappers| == |old(wrappers)|
      ensures w > 0 ==> wrappers[w] == old(wrappers[w])
      ensures wrappers[0] == if stop.None? && reaction == ClearResult then Wrapper(None, 0, -1) else old(wrappers[0])
      ensures reaction != ClearResult && !reaction.Collect? ==> wrappers == old(wrappers) && cleared == old(cleared)
      ensures var gone := old(wrappers[w].handle).None?;
              if gone && kind == Hashes then stop == Some(WasCleared) && yielded == old(yielded)
              else if reaction == ConversionFails then stop == Some(BlockRaised) && yielded == old(yielded)
              else
                && yielded == old(yielded) + [if gone then NilRow(nfields) else row]
                && calls == old(calls) + 1
                && stop == if reaction == Raise then Some(BlockRaised) else None
    {
      hide Owned, NilRow;
      var owner := wrappers[w].handle;
      if owner.None? && kind == Hashes {
        return Some(WasCleared);
      }
      if reaction == ConversionFails {
        return Some(BlockRaised);
      }
      yielded := yielded + [if owner.None? then NilRow(nfields) else row];
      calls := calls + 1;
      if reaction == Raise {
        return Some(BlockRaised);
      }
      React(reaction, w);
      stop := None;
    }

    /**
     The loops of `yield_hash`, `yield_array` and `yield_tuple` over the rows of the result that wrapper `w` owns;
     for tuples that is the copy.
     */
    method YieldFrom(kind: Kind, w: nat, nfields: nat, block: Block) returns (stop: Option<Outcome>)
      requires Valid() && w < |wrappers| && wrappers[w].handle.Some? && (w == 0 <==> kind != Tuples)
      requires w > 0 ==> wrappers[0].handle.None?
      modifies this`wrappers, this`cleared, this`accounted, this`owners, this`yielded, this`calls
      ensures Valid() && |wrappers| == |old(wrappers)|
      ensures wrappers[0].handle.None? || wrappers[0].handle == old(wrappers[0].handle)
      ensures LeavesAlone(block) ==> wrappers == old(wrappers) && cleared == old(cleared)
      ensures old(wrappers[w].handle.value) < |results|
      ensures var part := RowsOf(kind, results[old(wrappers[w].handle.value)].rows, nfields, block, old(calls), false);
              && Prepend(old(yielded), part) == Part(yielded, stop)
              && (stop.None? ==> calls == old(calls) + |part.rows|)
    {
      hide Owned, RowsOf, SizeSum, NilRow, Prepend;
      Owning(w);
      var handle := wrappers[w].handle.value;
      var ntuples := |results[handle].rows|;
      ghost var rows, before, start, gone := results[handle].rows, yielded, calls, false;
      ghost var all := RowsOf(kind, rows, nfields, block, start, false);
      assert rows[0..] == rows;
      stop := None;
      for i := 0 to ntuples
        invariant calls == start + i && stop.None?
        invariant Valid() && |wrappers| == |old(wrappers)|
        invariant w > 0 ==> wrappers[w].handle == Some(handle) && wrappers[0].handle.None?
        invariant w == 0 ==> wrappers[0].handle == if gone then None else Some(handle)
        invariant Prepend(before, all) == Prepend(yielded, RowsOf(kind, rows[i..], nfields, block, calls, gone))
        invariant |yielded| == |before| + i
        invariant LeavesAlone(block) ==> wrappers == old(wrappers) && cleared == old(cleared)
      {
        assert rows[i..][1..] == rows[i + 1..] && rows[i..][0] == rows[i];
        if (gone && kind == Hashes) || block(calls) == ConversionFails || block(calls) == Raise {
          RowsStop(kind, rows[i..], nfields, block, calls, gone, yielded);
        } else {
          RowsNext(kind, rows[i..], nfields, block, calls, gone, yielded);
        }
        gone := gone || block(calls) == ClearResult;
        stop := YieldRow(kind, w, results[handle].rows[i], nfields, block(calls));
        if stop.Some? {
          return;
        }
      }
      RowsDone(kind, rows[ntuples..], nfields, block, calls, gone, yielded);
      PrependSize(before, all, yielded, None);
    }

    /** A yielder: tuples take over the result first; hashes and arrays leave it to be cleared. */
    method Yield(kind: Kind, nfields: nat, block: Block) returns (stop: Option<Outcome>, clear: bool)
      requires Valid() && wrappers[0].handle.Some?
      modifies this`wrappers, this`cleared, this`accounted, this`owners, this`yielded, this`calls
      ensures Valid() && (wrappers[0].handle.None? || (clear && wrappers[0].handle == old(wrappers[0].handle)))
      ensures clear == (kind != Tuples)
      ensures LeavesAlone(block) ==>
        && cleared == old(cleared)
        && wrappers == if kind == Tuples then
                         old(wrappers)[0 := old(wrappers[0]).(handle := None, size := 0)] + [old(wrappers[0])]
                       else old(wrappers)
      ensures old(wrappers[0].handle.value) < |results|
      ensures var part := RowsOf(kind, results[old(wrappers[0].handle.value)].rows, nfields, block, old(calls), false);
              && Prepend(old(yielded), part) == Part(yielded, stop)
              && (stop.None? ==> calls == old(calls) + |part.rows|)
    {
      Owning(0);
      hide Owned, RowsOf;
      if kind == Tuples {
        var copy := TakeOver(0);
        stop := YieldFrom(kind, copy, nfields, block);
        clear := false;
      } else {
        stop := YieldFrom(kind, 0, nfields, block);
        clear := true;
      }
    }

    /** One streaming result: its rows are yielded, it is cleared unless it was taken over, and the next one comes. */
    method Next(kind: Kind, nfields: nat, block: Block) returns (stop: Option<Outcome>)
      requires Valid() && wrappers[0].handle.Some? && wrappers[0].handle.value < |results|
      modifies this
      ensures Valid() && stop != Some(Finished)
      ensures var part := RowsOf(kind, old(results[wrappers[0].handle.value]).rows, nfields, block, old(calls), false);
              && yielded == old(yielded) + part.rows
              && (part.stop.Some? ==> stop == part.stop)
              && (part.stop.None? && |old(incoming)| == 0 ==> stop == Some(NoResult))
              && (part.stop.None? && |old(incoming)| > 0 ==>
                    && stop == None && calls == old(calls) + |part.rows| && incoming == old(incoming)[1..]
                    && wrappers[0].handle.Some? && wrappers[0].handle.value < |results|
                    && results[wrappers[0].handle.value] == old(incoming)[0])
      ensures stop.None? ==> |results| == |old(results)| + 1
      ensures stop.None? && LeavesAlone(block) ==>
        Passed(kind, |old(results)|, old(wrappers), wrappers, old(cleared), cleared)
    {
      hide Owned, RowsOf, Prepend;
      ghost var rows, before, start := results[wrappers[0].handle.value].rows, yielded, calls;
      var clear;
      stop, clear := Yield(kind, nfields, block);
      PrependSize(before, RowsOf(kind, rows, nfields, block, start, false), yielded, stop);
      RowsDoNotFinish(kind, rows, nfields, block, start, false);
      if stop.Some? {
        return;
      }
      if clear {
        Clear(0);
      }
      var got := Receive();
      if !got {
        return Some(NoResult);
      }
    }

    /** `pgresult_stream_any`: whatever the server sends and the block does, the books stay in order. */
    method Stream(kind: Kind, block: Block) returns (outcome: Outcome)
      requires Valid()
      modifies this
      ensures Valid()
      ensures old(wrappers[0].handle).None? ==> outcome == WasCleared && yielded == old(yielded)
      ensures old(wrappers[0].handle).Some? ==>
        && old(wrappers[0].handle.value) < |old(results)|
        && var r := old(results[wrappers[0].handle.value]);
           Prepend(old(yielded), Run(kind, r, r.nfields, old(incoming), block, old(calls))) ==
           Part(yielded, Some(outcome))
      ensures outcome == Finished ==>
        wrappers[0].handle.Some? && wrappers[0].handle.value < |results| && results[wrappers[0].handle.value].Ends()
      ensures outcome == Finished && LeavesAlone(block) ==>
        && |results| >= |old(results)|
        && HandedOver(kind, old(wrappers[0].handle.value), |old(results)|, |results| - |old(results)|, old(wrappers),
                      wrappers, old(cleared), cleared)
    {
      hide Owned, RowsOf, SizeSum, Run, Prepend, Verdict, HandedOver, Passed, LeavesAlone;
      Owning(0);
      if wrappers[0].handle.None? {
        return WasCleared;
      }
      NothingHanded(kind, wrappers[0].handle.value, |results|, wrappers, cleared);
      var pgresult := results[wrappers[0].handle.value];
      var nfields := pgresult.nfields;
      ghost var all, before := Run(kind, pgresult, nfields, incoming, block, calls), yielded;
      while true
        invariant Valid() && wrappers[0].handle.Some? && wrappers[0].handle.value < |results|
        invariant pgresult == results[wrappers[0].handle.value]
        invariant Prepend(before, all) == Prepend(yielded, Run(kind, pgresult, nfields, incoming, block, calls))
        invariant |results| >= |old(results)|
        invariant LeavesAlone(block) ==>
          HandedOver(kind, old(wrappers[0].handle.value), |old(results)|, |results| - |old(results)|, old(wrappers),
                     wrappers, old(cleared), cleared)
        decreases |incoming|
      {
        ghost var wrappersThen, clearedThen, k := wrappers, cleared, |results| - |old(results)|;
        RunHere(kind, pgresult, nfields, incoming, block, calls, yielded);
        var verdict := Check(nfields);
        if verdict.Some? {
          return verdict.value;
        }
        var stop := Next(kind, nfields, block);
        if stop.Some? {
          return stop.value;
        }
        if LeavesAlone(block) {
          HandedNext(kind, old(wrappers[0].handle.value), |old(results)|, k, old(wrappers), wrappersThen, wrappers,
                     old(cleared), clearedThen, cleared);
        }
        pgresult := results[wrappers[0].handle.value];
      }
    }

    /** The switch over the result's status, and the check of its number of fields. */
    method Check(nfields: nat) returns (verdict: Option<Outcome>)
      requires Valid() && wrappers[0].handle.Some? && wrappers[0].handle.value < |results|
      modifies this`wrappers, this`cleared, this`accounted, this`owners
      ensures Valid() && verdict == Verdict(results[old(wrappers[0].handle.value)], nfields)
      ensures verdict != Some(FieldsChanged) ==> wrappers == old(wrappers) && cleared == old(cleared)
      ensures verdict == Some(FieldsChanged) ==>
        && wrappers == old(wrappers)[0 := Wrapper(None, 0, -1)]
        && cleared == old(cleared) + multiset{old(wrappers[0].handle.value)}
      ensures verdict == Some(Finished) ==> results[old(wrappers[0].handle.value)].Ends()
      ensures verdict.None? ==> results[old(wrappers[0].handle.value)].nfields == nfields
    {
      hide Owned;
      var pgresult := results[wrappers[0].handle.value];
      match pgresult.status {
        case TuplesOk => return Some(if |pgresult.rows| == 0 then Finished else NotInSingleRowMode);
        case CommandOk => return Some(if |pgresult.rows| == 0 then Finished else NotInSingleRowMode);
        case Failed => return Some(ServerError);
        case SingleTuple =>
        case TuplesChunk =>
        case OtherStatus =>
      }
      if nfields != pgresult.nfields {
        Clear(0);
        return Some(FieldsChanged);
      }
      verdict := None;
    }

    /** When the garbage collector has freed all wrappers, every result has been cleared once and no memory is left. */
    method FreeAll()
      requires Valid()
      modifies this`wrappers, this`cleared, this`accounted, this`owners
      ensures accounted == 0 && forall h :: 0 <= h < |results| ==> cleared[h] == 1
    {
      for w := 0 to |wrappers|
        invariant Valid() && |wrappers| == |old(wrappers)|
        invariant forall k :: 0 <= k < w ==> wrappers[k].handle.None?
      {
        Clear(w);
      }
      NothingOwned(wrappers);
    }
  }

  lemma {:induction false} NothingOwned(wrappers: seq<Wrapper>)
    requires forall k :: 0 <= k < |wrappers| ==> wrappers[k].size == 0
    ensures SizeSum(wrappers) == 0
  {
    if |wrappers| > 0 {
      NothingOwned(wrappers[1..]);
    }
  }

  /** What is left of a run at one result, in terms of what has been yielded already. */
  lemma RunHere(kind: Kind, r: PgResult, nfields: nat, incoming: seq<PgResult>, block: Block, n: nat, before: seq<Row>)
    ensures var run := Prepend(before, Run(kind, r, nfields, incoming, block, n));
            var part := RowsOf(kind, r.rows, nfields, block, n, false);
            if Verdict(r, nfields).Some? then run == Part(before, Verdict(r, nfields))
            else if part.stop.Some? then run == Part(before + part.rows, part.stop)
            else if |incoming| == 0 then run == Part(before + part.rows, Some(NoResult))
            else run == Prepend(before + part.rows,
                                Run(kind, incoming[0], nfields, incoming[1..], block, n + |part.rows|))
  {
    hide RowsOf;
    var part := RowsOf(kind, r.rows, nfields, block, n, false);
    assert before + [] == before;
    if Verdict(r, nfields).None? && part.stop.None? && |incoming| > 0 {
      var rest := Run(kind, incoming[0], nfields, incoming[1..], block, n + |part.rows|);
      assert before + (part.rows + rest.rows) == before + part.rows + rest.rows;
    }
  }

  lemma RowsNext(kind: Kind, rows: seq<Row>, nfields: nat, block: Block, n: nat, gone: bool, before: seq<Row>)
    requires |rows| > 0 && !(gone && kind == Hashes) && block(n) != ConversionFails && block(n) != Raise
    ensures var row := if gone && kind == Arrays then NilRow(nfields) else rows[0];
            Prepend(before, RowsOf(kind, rows, nfields, block, n, gone)) ==
            Prepend(before + [row], RowsOf(kind, rows[1..], nfields, block, n + 1, gone || block(n) == ClearResult))
  {
    hide NilRow;
    var row := if gone && kind == Arrays then NilRow(nfields) else rows[0];
    var rest := RowsOf(kind, rows[1..], nfields, block, n + 1, gone || block(n) == ClearResult);
    assert before + ([row] + rest.rows) == before + [row] + rest.rows;
  }

  lemma RowsStop(kind: Kind, rows: seq<Row>, nfields: nat, block: Block, n: nat, gone: bool, before: seq<Row>)
    requires |rows| > 0 && ((gone && kind == Hashes) || block(n) == ConversionFails || block(n) == Raise)
    ensures var row := if gone && kind == Arrays then NilRow(nfields) else rows[0];
            Prepend(before, RowsOf(kind, rows, nfields, block, n, gone)) ==
            if gone && kind == Hashes then Part(before, Some(WasCleared))
            else if block(n) == ConversionFails then Part(before, Some(BlockRaised))
            else Part(before + [row], Some(BlockRaised))
  {
    hide NilRow;
    assert before + [] == before;
  }

  lemma RowsDone(kind: Kind, rows: seq<Row>, nfields: nat, block: Block, n: nat, gone: bool, before: seq<Row>)
    requires |rows| == 0
    ensures Prepend(before, RowsOf(kind, rows, nfields, block, n, gone)) == Part(before, None)
  {
    assert before + [] == before;
  }
}
