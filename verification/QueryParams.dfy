/**
 The memory of query parameters (`alloc_query_params` in ext/pg_connection.c): the parameter arrays and the type cast
 values share a pool of fixed size, and what does not fit goes into chunks from the heap. One counter decides about
 both, although the write pointer may already stand in a chunk.
 */
module QueryParams {
  import opened Bytes
  import opened RubyString

  /** `QUERYDATA_BUFFER_SIZE`. */
  const POOL_SIZE := 4000

  /** The coder that the type map selects. */
  datatype Choice = Choice(format: int, oid: int)

  /** A parameter from user space: a value, or a hash that may name a format and a type. */
  datatype Given = Bare | Hashed(format: Option<int>, oid: Option<int>)

  /**
   What becomes of the value: nil, a string that is used where it is, or a text that the second encoder pass writes
   into the `len` bytes the first one asked for.
   */
  datatype Encoding = NoValue | Direct(text: seq<byte>) | Written(len: nat, text: seq<byte>)

  datatype Param = Param(coder: Option<Choice>, given: Given, encoding: Encoding)
  {
    function Format(): int {
      if coder.Some? then coder.value.format
      else if given.Hashed? && given.format.Some? then given.format.value
      else 0
    }

    function Oid(): int {
      if coder.Some? then coder.value.oid
      else if given.Hashed? && given.oid.Some? then given.oid.value
      else 0
    }

    /** The second pass keeps to what the first one asked for. */
    predicate Valid() { encoding.Written? ==> |encoding.text| <= encoding.len }

    /** libpq cannot take the text: it would end at a zero byte. */
    predicate Refused() { encoding.Direct? && Format() == 0 && 0 in encoding.text }

    /** A written value in memory; in text format it is zero terminated. */
    function Stored(): seq<byte>
      requires encoding.Written?
    {
      encoding.text + (if Format() == 0 then [0] else [])
    }
  }

  /** Where a value is: nowhere, in a Ruby string, or in one of the buffers. Buffer 0 is the pool. */
  datatype Pointer = NullPointer | InString(text: seq<byte>) | InBuffer(buffer: nat, offset: nat)

  /** One entry of the parameter arrays. */
  datatype Entry = Entry(value: Pointer, length: int, format: int, oid: int)

  /** The bytes at an entry's pointer, and the entry itself, are what libpq is to be given. */
  ghost predicate Placed(memory: seq<seq<byte>>, withTypes: bool, p: Param, e: Entry) {
    && e.format == p.Format()
    && (withTypes ==> e.oid == p.Oid())
    && match p.encoding {
         case NoValue => e.value == NullPointer && e.length == 0
         case Direct(text) => e.value == InString(text) && e.length == |text|
         case Written(_, text) =>
           && e.value.InBuffer?
           && e.value.buffer < |memory|
           && Occurs(memory[e.value.buffer], e.value.offset, p.Stored())
           && (p.Format() != 0 ==> e.length == |text|)
       }
  }

  /** The place behind a written value. */
  function End(p: Param, e: Entry): nat
    requires p.encoding.Written? && e.value.InBuffer?
  {
    e.value.offset + |p.Stored()|
  }

  /** Two written values do not overlap: the second is in a later buffer, or behind the first. */
  ghost predicate Apart(p: Param, e: Entry, q: Param, f: Entry) {
    p.encoding.Written? && q.encoding.Written? && e.value.InBuffer? && f.value.InBuffer? ==>
      e.value.buffer < f.value.buffer || (e.value.buffer == f.value.buffer && End(p, e) <= f.value.offset)
  }

  /** A written value leaves the parameter arrays alone, which take the first bytes of the pool. */
  ghost predicate Clear(arrays: nat, p: Param, e: Entry) {
    p.encoding.Written? && e.value.InBuffer? && e.value.buffer == 0 ==> arrays <= e.value.offset
  }

  /** A written value ends before the write pointer. */
  ghost predicate Behind(cur: nat, pos: nat, p: Param, e: Entry) {
    p.encoding.Written? && e.value.InBuffer? ==>
      e.value.buffer < cur || (e.value.buffer == cur && End(p, e) <= pos)
  }

  /** All of the parameters so far. */
  ghost predicate AllPlaced(memory: seq<seq<byte>>, arrays: nat, withTypes: bool, params: seq<Param>,
                            entries: seq<Entry>) {
    && |entries| <= |params|
    && (forall i :: 0 <= i < |entries| ==>
          Placed(memory, withTypes, params[i], entries[i]) && Clear(arrays, params[i], entries[i]))
    && (forall i, j :: 0 <= i < j < |entries| ==> Apart(params[i], entries[i], params[j], entries[j]))
  }

  /** The bytes that the parameter arrays take. */
  function ArraysSize(n: nat, withTypes: bool): nat {
    n * (8 + 4 + 4 + (if withTypes then 4 else 0))
  }

  // ---------------------------------------------------------------- one value more

  /** Memory behind the write pointer changes, and buffers are added: what was placed stays. */
  lemma StillPlaced(memory: seq<seq<byte>>, memory': seq<seq<byte>>, cur: nat, pos: nat, withTypes: bool, p: Param,
                    e: Entry)
    requires Placed(memory, withTypes, p, e) && Behind(cur, pos, p, e)
    requires Grown(memory, memory', cur, pos)
    ensures Placed(memory', withTypes, p, e)
  {
    if p.encoding.Written? && e.value.buffer == cur {
      var o, n := e.value.offset, |p.Stored()|;
      assert memory[cur][o..o + n] == memory[cur][..pos][o..o + n];
      assert memory'[cur][o..o + n] == memory'[cur][..pos][o..o + n];
    }
  }

  /** Only what lies behind position `pos` of buffer `cur` has changed. */
  ghost predicate Grown(memory: seq<seq<byte>>, memory': seq<seq<byte>>, cur: nat, pos: nat) {
    && cur < |memory| <= |memory'|
    && pos <= |memory[cur]| == |memory'[cur]|
    && memory'[cur][..pos] == memory[cur][..pos]
    && forall b :: 0 <= b < cur ==> memory'[b] == memory[b]
  }

  /** All values lie before the write pointer. */
  ghost predicate AllBehind(cur: nat, pos: nat, params: seq<Param>, entries: seq<Entry>) {
    |entries| <= |params| && forall i :: 0 <= i < |entries| ==> Behind(cur, pos, params[i], entries[i])
  }

  lemma AllStillPlaced(memory: seq<seq<byte>>, memory': seq<seq<byte>>, cur: nat, pos: nat, arrays: nat,
                       withTypes: bool, params: seq<Param>, entries: seq<Entry>)
    requires AllPlaced(memory, arrays, withTypes, params, entries) && AllBehind(cur, pos, params, entries)
    requires Grown(memory, memory', cur, pos)
    ensures AllPlaced(memory', arrays, withTypes, params, entries)
  {
    hide Placed, Grown, Behind, Apart, Clear;
    forall i | 0 <= i < |entries|
      ensures Placed(memory', withTypes, params[i], entries[i])
    {
      StillPlaced(memory, memory', cur, pos, withTypes, params[i], entries[i]);
    }
  }

  /** The next entry, placed at the write pointer or without memory of its own. */
  lemma OneMore(memory: seq<seq<byte>>, cur: nat, pos: nat, pos': nat, arrays: nat, withTypes: bool,
                params: seq<Param>, entries: seq<Entry>, e: Entry)
    requires AllPlaced(memory, arrays, withTypes, params, entries) && AllBehind(cur, pos, params, entries)
    requires |entries| < |params| && pos <= pos' && (cur == 0 ==> arrays <= pos)
    requires Placed(memory, withTypes, params[|entries|], e)
    requires params[|entries|].encoding.Written? ==>
               e.value == InBuffer(cur, pos) && pos' == pos + |params[|entries|].Stored()|
    ensures AllPlaced(memory, arrays, withTypes, params, entries + [e])
    ensures AllBehind(cur, pos', params, entries + [e])
  {
    hide Placed;
    var n, entries' := |entries|, entries + [e];
    forall i, j | 0 <= i < j < |entries'|
      ensures Apart(params[i], entries'[i], params[j], entries'[j])
    {
      if j == n {
        assert Behind(cur, pos, params[i], entries[i]);
      } else {
        assert Apart(params[i], entries[i], params[j], entries[j]);
      }
    }
    forall i | 0 <= i < |entries'|
      ensures Behind(cur, pos', params[i], entries'[i])
    {
      if i < n {
        assert Behind(cur, pos, params[i], entries[i]);
      }
    }
  }

  /** When the write pointer moves to a new buffer, everything is behind it. */
  lemma AllBehindNew(cur: nat, pos: nat, params: seq<Param>, entries: seq<Entry>)
    requires AllBehind(cur, pos, params, entries)
    ensures AllBehind(cur + 1, 0, params, entries)
  {
    forall i | 0 <= i < |entries|
      ensures Behind(cur + 1, 0, params[i], entries[i])
    {
      assert Behind(cur, pos, params[i], entries[i]);
    }
  }

  /**
   The invariant of the allocator: whatever buffer the write pointer stands in, what is left there and the counter
   together are at least the size of the pool.
   */
  ghost predicate Enough(left: int, required: nat) {
    0 <= left && left + required >= POOL_SIZE
  }

  /** So a value for which the counter sees room in the pool has room at the write pointer, and keeps the invariant. */
  lemma CounterIsSound(left: int, required: nat, len: nat, used: nat)
    requires Enough(left, required) && used <= len + 1
    ensures required + len + 1 <= POOL_SIZE ==> len + 1 <= left && Enough(left - used, required + used)
    ensures required + len + 1 > POOL_SIZE ==> Enough(len + 1 - used, required + used)
  {
  }

  /** A value: the length the first pass asked for, and the bytes it takes in the end. */
  datatype Request = Request(len: nat, used: nat)

  /** The allocator's decisions over a whole run: does each value fit where it is written? */
  predicate EachFits(left: int, required: nat, requests: seq<Request>)
    decreases |requests|
  {
    |requests| == 0 ||
    var r := requests[0];
    var room := if POOL_SIZE < required + r.len + 1 then r.len + 1 else left;
    r.used <= room && EachFits(room - r.used, required + r.used, requests[1..])
  }

  /** Over every run of values each fits, from a pool or from a chunk left over by a long one. */
  lemma {:induction false} AlwaysFits(left: int, required: nat, requests: seq<Request>)
    requires Enough(left, required)
    requires forall i :: 0 <= i < |requests| ==> requests[i].used <= requests[i].len + 1
    ensures EachFits(left, required, requests)
    decreases |requests|
  {
    if |requests| > 0 {
      var r := requests[0];
      CounterIsSound(left, required, r.len, r.used);
      var room := if POOL_SIZE < required + r.len + 1 then r.len + 1 else left;
      AlwaysFits(room - r.used, required + r.used, requests[1..]);
    }
  }

  class ParamsData {
    const pool: array<byte>
    var chunks: seq<array<byte>>
    var entries: seq<Entry>
    var heapPool: bool

    // Where the parameter arrays begin, in the pool or, if they do not fit there, in memory of their own.
    var values: nat
    var lengths: nat
    var formats: nat
    var types: nat

    ghost predicate Valid()
      reads this`chunks
    {
      && pool.Length == POOL_SIZE
      && pool !in chunks
      && forall i, j :: 0 <= i < j < |chunks| ==> chunks[i] != chunks[j]
    }

    /** The contents of the pool and of the chunks. */
    ghost function Memory(): (r: seq<seq<byte>>)
      reads this`chunks, pool, chunks
      ensures |r| == |chunks| + 1
    {
      var c := chunks;
      [pool[..]] + seq(|c|, k requires 0 <= k < |c| reads c => c[k][..])
    }

    constructor ()
      ensures Valid() && chunks == [] && entries == [] && fresh(pool)
    {
      pool := new byte[POOL_SIZE];
      chunks := [];
      entries := [];
      heapPool := false;
      values, lengths, formats, types := 0, 0, 0, 0;
    }

    /** `alloc_typecast_buf`. */
    method AddChunk(len: nat)
      requires Valid()
      modifies this`chunks
      ensures Valid() && |chunks| == |old(chunks)| + 1 && chunks[..|old(chunks)|] == old(chunks)
      ensures fresh(chunks[|chunks| - 1]) && chunks[|chunks| - 1].Length == len
      ensures Memory()[..|old(chunks)| + 1] == old(Memory())
    {
      var chunk := new byte[len](_ => 0);
      chunks := chunks + [chunk];
    }

    /** The second encoder pass at the write pointer, in the last buffer. */
    method WriteValue(p: Param, pos: nat) returns (end: nat)
      requires Valid() && p.encoding.Written? && pos + |p.Stored()| <= |Memory()[|chunks|]|
      modifies pool, chunks
      ensures Valid() && end == pos + |p.Stored()|
      ensures Memory() == old(Memory())[|chunks| := Splice(old(Memory()[|chunks|]), pos, p.Stored())]
    {
      hide Splice;
      var buffer := if |chunks| == 0 then pool else chunks[|chunks| - 1];
      ghost var before := buffer[..];
      var text := p.encoding.text;
      StoreText(text, buffer, pos);
      end := pos + |text|;
      if p.Format() == 0 {
        StoreText([0], buffer, end);
        SpliceRight(before, pos, text, [0]);
        end := end + 1;
      } else {
        NoText(text);
      }
    }

    /** What the loop over the parameters keeps, with the entries that are done. */
    ghost predicate Sound(pos: nat, required: nat, arrays: nat, withTypes: bool, params: seq<Param>, done: seq<Entry>)
      reads this`chunks, pool, chunks
    {
      && Valid()
      && pos <= |Memory()[|chunks|]| && Enough(|Memory()[|chunks|]| - pos, required)
      && arrays <= POOL_SIZE && (|chunks| == 0 ==> arrays <= pos)
      && AllPlaced(Memory(), arrays, withTypes, params, done)
      && AllBehind(|chunks|, pos, params, done)
    }

    /** A new chunk of `len` bytes: the write pointer moves to its start. */
    method MoveToChunk(len: nat, ghost pos: nat, ghost required: nat, ghost arrays: nat, ghost withTypes: bool,
                       ghost params: seq<Param>)
      requires Sound(pos, required, arrays, withTypes, params, entries) && len + required > POOL_SIZE
      modifies this`chunks
      ensures Sound(0, required, arrays, withTypes, params, entries)
      ensures |chunks| == |old(chunks)| + 1 && chunks[..|old(chunks)|] == old(chunks)
      ensures fresh(chunks[|chunks| - 1]) && |Memory()[|chunks|]| == len
    {
      hide AllPlaced, AllBehind;
      AllBehindNew(|chunks|, pos, params, entries);
      ghost var memory := Memory();
      AddChunk(len);
      assert Grown(memory, Memory(), |memory| - 1, pos) by { KeptBelow(memory, Memory(), pos); }
      AllStillPlaced(memory, Memory(), |memory| - 1, pos, arrays, withTypes, params, entries);
    }

    /** A value that needs memory: in the last buffer, or in a new chunk. */
    method PlaceWritten(p: Param, start: nat, counter: nat, ghost arrays: nat, withTypes: bool,
                        ghost params: seq<Param>)
      returns (e: Entry, pos: nat, required: nat)
      requires Sound(start, counter, arrays, withTypes, params, entries)
      requires |entries| < |params| && p == params[|entries|] && p.encoding.Written? && p.Valid()
      modifies this`chunks, pool, chunks
      ensures Sound(pos, required, arrays, withTypes, params, entries + [e])
      ensures fresh(set c | c in chunks && c !in old(chunks))
      ensures pool[..arrays] == old(pool[..arrays])
    {
      hide AllPlaced, AllBehind, Splice;
      var len := p.encoding.len;
      pos, required := start, counter;
      CounterIsSound(|Memory()[|chunks|]| - pos, required, len, |p.Stored()|);
      if POOL_SIZE < required + len + 1 {
        MoveToChunk(len + 1, pos, required, arrays, withTypes, params);
        pos := 0;
      }
      e := Entry(InBuffer(|chunks|, pos), if p.Format() == 0 then 0 else |p.encoding.text|, p.Format(),
                 if withTypes then p.Oid() else 0);
      ghost var memory, from := Memory(), pos;
      pos := WriteValue(p, pos);
      required := required + |p.Stored()|;
      ValueWritten(memory, Memory(), |chunks|, from, withTypes, p, e);
      AllStillPlaced(memory, Memory(), |chunks|, from, arrays, withTypes, params, entries);
      OneMore(Memory(), |chunks|, from, pos, arrays, withTypes, params, entries, e);
      PoolKept(memory, Memory(), |chunks|, from, arrays, p.Stored());
    }

    /** An entry that needs no memory. */
    lemma SoundWithout(pos: nat, required: nat, arrays: nat, withTypes: bool, params: seq<Param>, e: Entry)
      requires Sound(pos, required, arrays, withTypes, params, entries)
      requires |entries| < |params| && !params[|entries|].encoding.Written?
      requires Placed(Memory(), withTypes, params[|entries|], e)
      ensures Sound(pos, required, arrays, withTypes, params, entries + [e])
    {
      hide AllPlaced, AllBehind, Placed;
      OneMore(Memory(), |chunks|, pos, pos, arrays, withTypes, params, entries, e);
    }

    lemma SoundAtEnd(pos: nat, required: nat, arrays: nat, withTypes: bool, params: seq<Param>)
      requires Sound(pos, required, arrays, withTypes, params, entries)
      ensures Valid() && arrays <= POOL_SIZE && AllPlaced(Memory(), arrays, withTypes, params, entries)
    {
    }

    lemma SoundAtStart(pos: nat, withTypes: bool, params: seq<Param>)
      requires Valid() && chunks == [] && pos <= POOL_SIZE
      ensures Sound(pos, pos, pos, withTypes, params, [])
    {
    }

    /** `alloc_query_params`. */
    method Alloc(params: seq<Param>, withTypes: bool) returns (r: Result<nat>)
      requires Valid() && chunks == []
      requires forall i :: 0 <= i < |params| ==> params[i].Valid()
      modifies this, pool
      ensures r.Err? <==> exists i :: 0 <= i < |params| && params[i].Refused()
      ensures r.Ok? ==> r.value == |params| == |entries| && Valid()
      ensures r.Ok? ==>
        var n := |params|;
        && values == 0 && lengths == values + 8 * n && formats == lengths + 4 * n && types == formats + 4 * n
        && heapPool == (types + (if withTypes then 4 * n else 0) > 4000)
      ensures r.Ok? ==>
        var arrays := if heapPool then 0 else ArraysSize(|params|, withTypes);
        && AllPlaced(Memory(), arrays, withTypes, params, entries)
        && pool[..arrays] == old(pool[..arrays])
      ensures r.Ok? && !heapPool ==>
        var end := types + (if withTypes then 4 * |params| else 0);
        && end <= pool.Length && pool[..end] == old(pool[..end])
        && forall i :: 0 <= i < |entries| && entries[i].value.InBuffer? && entries[i].value.buffer == 0 ==>
             end <= entries[i].value.offset
    {
      hide AllPlaced, AllBehind, Placed, Sound;
      var required := ArraysSize(|params|, withTypes);
      heapPool := POOL_SIZE < required;
      if heapPool {
        required := 0;
      }
      ghost var arrays := required;
      values := 0;
      lengths := values + 8 * |params|;
      formats := lengths + 4 * |params|;
      types := formats + 4 * |params|;
      var pos := required;
      entries := [];
      SoundAtStart(pos, withTypes, params);
      for i := 0 to |params|
        invariant |entries| == i && heapPool == (ArraysSize(|params|, withTypes) > POOL_SIZE)
        invariant values == 0 && lengths == 8 * |params| && formats == 12 * |params| && types == 16 * |params|
        invariant Sound(pos, required, arrays, withTypes, params, entries)
        invariant fresh(set c | c in chunks)
        invariant pool[..arrays] == old(pool[..arrays])
        invariant forall k :: 0 <= k < i ==> !params[k].Refused()
      {
        var p := params[i];
        if p.Refused() {
          return Err(Malformed);
        }
        if p.encoding.Written? {
          var e;
          e, pos, required := PlaceWritten(p, pos, required, arrays, withTypes, params);
          entries := entries + [e];
        } else {
          var e := Entry(NullPointer, 0, p.Format(), if withTypes then p.Oid() else 0);
          if p.encoding.Direct? {
            e := e.(value := InString(p.encoding.text), length := |p.encoding.text|);
          }
          PlacedOutside(Memory(), withTypes, p, e);
          SoundWithout(pos, required, arrays, withTypes, params, e);
          entries := entries + [e];
        }
      }
      SoundAtEnd(pos, required, arrays, withTypes, params);
      AllClear(Memory(), arrays, withTypes, params, entries);
      r := Ok(|params|);
    }
  }

  /** Only written values are in buffers, and those in the pool lie behind the parameter arrays. */
  lemma AllClear(memory: seq<seq<byte>>, arrays: nat, withTypes: bool, params: seq<Param>, entries: seq<Entry>)
    requires AllPlaced(memory, arrays, withTypes, params, entries)
    ensures forall i :: 0 <= i < |entries| && entries[i].value.InBuffer? && entries[i].value.buffer == 0 ==>
              arrays <= entries[i].value.offset
  {
    forall i | 0 <= i < |entries| && entries[i].value.InBuffer? && entries[i].value.buffer == 0
      ensures arrays <= entries[i].value.offset
    {
      assert Placed(memory, withTypes, params[i], entries[i]) && Clear(arrays, params[i], entries[i]);
    }
  }

  /** Format and type of an entry: those of the coder, or else what a hash names of them, or else text and no type. */
  predicate Described(withTypes: bool, p: Param, e: Entry) {
    match (p.coder, p.given)
    case (Some(coder), _) => e.format == coder.format && (withTypes ==> e.oid == coder.oid)
    case (None, Bare) => e.format == 0 && (withTypes ==> e.oid == 0)
    case (None, Hashed(format, oid)) =>
      && e.format == (if format.Some? then format.value else 0)
      && (withTypes ==> e.oid == if oid.Some? then oid.value else 0)
  }

  /**
   What libpq is given for a parameter. The coder decides about format and type; without one a hash does, as far as it
   names them, and text without a type is the default. In text format the value in memory ends with a zero byte.
   */
  lemma PlacedIs(memory: seq<seq<byte>>, withTypes: bool, p: Param, e: Entry)
    requires Placed(memory, withTypes, p, e)
    ensures Described(withTypes, p, e)
    ensures p.encoding.NoValue? ==> e.value.NullPointer? && e.length == 0
    ensures p.encoding.Direct? ==> e.value == InString(p.encoding.text) && e.length == |p.encoding.text|
    ensures p.encoding.Written? ==>
              var text := p.encoding.text;
              && e.value.InBuffer? && e.value.buffer < |memory|
              && e.value.offset + |text| <= |memory[e.value.buffer]|
              && memory[e.value.buffer][e.value.offset..e.value.offset + |text|] == text
              && (e.format == 0 ==>
                    e.value.offset + |text| < |memory[e.value.buffer]| &&
                    memory[e.value.buffer][e.value.offset + |text|] == 0)
              && (e.format != 0 ==> e.length == |text|)
  {
    if p.encoding.Written? {
      var m, o, text := memory[e.value.buffer], e.value.offset, p.encoding.text;
      if p.Format() == 0 {
        OccursConcat(m, o, text, [0]);
        OccursFirst(m, o + |text|, [0]);
      } else {
        NoText(text);
      }
    }
  }

  /** Two of these never share a byte, and zero bytes are refused in text that is used where it is. */
  lemma ApartIs(params: seq<Param>, entries: seq<Entry>, memory: seq<seq<byte>>, arrays: nat, withTypes: bool, i: nat,
                j: nat)
    requires AllPlaced(memory, arrays, withTypes, params, entries) && i < j < |entries|
    requires params[i].encoding.Written? && params[j].encoding.Written?
    ensures var e, f := entries[i], entries[j];
            e.value.buffer == f.value.buffer ==>
              e.value.offset + |params[i].encoding.text| + (if e.format == 0 then 1 else 0) <= f.value.offset
  {
    assert Placed(memory, withTypes, params[i], entries[i]) && Placed(memory, withTypes, params[j], entries[j]);
    assert Apart(params[i], entries[i], params[j], entries[j]);
  }

  /** What is refused: text format, by whatever decides about it, and a zero byte in a string that is not copied. */
  lemma RefusedIs(p: Param)
    ensures p.Refused() <==>
              && p.encoding.Direct?
              && (exists k :: 0 <= k < |p.encoding.text| && p.encoding.text[k] == 0)
              && (p.coder.Some? ==> p.coder.value.format == 0)
              && (p.coder.None? && p.given.Hashed? && p.given.format.Some? ==> p.given.format.value == 0)
  {
  }

  lemma PlacedOutside(memory: seq<seq<byte>>, withTypes: bool, p: Param, e: Entry)
    requires e.format == p.Format() && (withTypes ==> e.oid == p.Oid()) && !p.encoding.Written?
    requires p.encoding.NoValue? ==> e.value == NullPointer && e.length == 0
    requires p.encoding.Direct? ==> e.value == InString(p.encoding.text) && e.length == |p.encoding.text|
    ensures Placed(memory, withTypes, p, e)
  {
  }

  lemma KeptBelow(memory: seq<seq<byte>>, memory': seq<seq<byte>>, pos: nat)
    requires |memory| > 0 && |memory'| >= |memory| && memory'[..|memory|] == memory && pos <= |memory[|memory| - 1]|
    ensures Grown(memory, memory', |memory| - 1, pos)
  {
    assert forall b :: 0 <= b < |memory| ==> memory'[b] == memory'[..|memory|][b];
  }

  /** What has been written is where the entry points, and nothing before it has changed. */
  lemma ValueWritten(memory: seq<seq<byte>>, memory': seq<seq<byte>>, cur: nat, pos: nat, withTypes: bool, p: Param,
                     e: Entry)
    requires cur < |memory| && p.encoding.Written? && pos + |p.Stored()| <= |memory[cur]|
    requires memory' == memory[cur := Splice(memory[cur], pos, p.Stored())]
    requires e.value == InBuffer(cur, pos) && e.format == p.Format() && (withTypes ==> e.oid == p.Oid())
    requires p.Format() != 0 ==> e.length == |p.encoding.text|
    ensures Grown(memory, memory', cur, pos) && Placed(memory', withTypes, p, e)
  {
    SplicePart(memory[cur], pos, p.Stored());
    assert Splice(memory[cur], pos, p.Stored())[..pos] == memory[cur][..pos];
  }

  lemma PoolKept(memory: seq<seq<byte>>, memory': seq<seq<byte>>, cur: nat, pos: nat, arrays: nat, text: seq<byte>)
    requires cur < |memory| && pos + |text| <= |memory[cur]| && arrays <= |memory[0]| && (cur == 0 ==> arrays <= pos)
    requires memory' == memory[cur := Splice(memory[cur], pos, text)]
    ensures memory'[0][..arrays] == memory[0][..arrays]
  {
  }
}
