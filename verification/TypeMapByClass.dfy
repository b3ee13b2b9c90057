/**
 The type map that selects encoders by class (ext/pg_type_map_by_class.c): a hash from classes, searched along the
 ancestors, behind a direct-mapped cache that also remembers where nothing was found.
 */
module TypeMapByClass {
  import opened Bytes

  /** A class by its address, which is never 0; 0 marks an empty slot. */
  type Class = k: nat | k > 0 witness 1

  type Coder = nat

  /** What can be assigned to a class: a coder, or the name of a method or a Proc that is called for each value. */
  datatype Assigned = Fixed(coder: Coder) | Symbol(name: nat) | Proc(id: nat)

  type Hash = map<Class, Assigned>

  /** The classes' ancestors, the first of which is expected to be the class itself. */
  type Hierarchy = Class -> seq<Class>

  datatype Slot = Slot(klass: nat, coder: Option<Coder>)

  const CACHE_SIZE := 0x100

  function Index(klass: nat): (i: nat)
    ensures i < CACHE_SIZE
  {
    klass / 0x100 % 0x100
  }

  // ---------------------------------------------------------------- the search without a cache

  function FirstIn(hash: Hash, classes: seq<Class>): Option<Assigned> {
    if |classes| == 0 then None
    else if classes[0] in hash then Some(hash[classes[0]])
    else FirstIn(hash, classes[1..])
  }

  /** The class itself, then its ancestors without the first. */
  function Search(hash: Hash, ancestors: Hierarchy, klass: Class): Option<Assigned> {
    if klass in hash then Some(hash[klass])
    else
      var all := ancestors(klass);
      if |all| == 0 then None else FirstIn(hash, all[1..])
  }

  /** The coder for a value of a class, where Ruby code that has to be asked answers `answer`. */
  function CoderFor(hash: Hash, ancestors: Hierarchy, klass: Class, answer: Option<Coder>): Option<Coder> {
    match Search(hash, ancestors, klass)
    case None => None
    case Some(Fixed(coder)) => Some(coder)
    case Some(_) => answer
  }

  /** Whether Ruby code has to be asked. */
  predicate AsksRuby(hash: Hash, ancestors: Hierarchy, klass: Class) {
    var found := Search(hash, ancestors, klass);
    found.Some? && !found.value.Fixed?
  }

  /** The search finds what its first class in the hash is assigned, and nothing exactly when there is none. */
  lemma {:induction false} FirstInIs(hash: Hash, classes: seq<Class>)
    ensures FirstIn(hash, classes).None? <==> forall k :: 0 <= k < |classes| ==> classes[k] !in hash
    ensures FirstIn(hash, classes).Some? ==>
              exists k :: 0 <= k < |classes| && classes[k] in hash && FirstIn(hash, classes).value == hash[classes[k]]
                          && forall j :: 0 <= j < k ==> classes[j] !in hash
  {
    if |classes| > 0 && classes[0] !in hash {
      var rest := classes[1..];
      FirstInIs(hash, rest);
      assert forall k :: 1 <= k < |classes| ==> classes[k] == rest[k - 1];
      if FirstIn(hash, classes).Some? {
        var k :| 0 <= k < |rest| && rest[k] in hash && FirstIn(hash, rest).value == hash[rest[k]]
                 && forall j :: 0 <= j < k ==> rest[j] !in hash;
        assert classes[k + 1] == rest[k];
      }
    }
  }

  /** The most specific assignment wins: an assignment to an ancestor further off changes nothing. */
  lemma {:induction false} FurtherOff(hash: Hash, classes: seq<Class>, klass: Class, target: Assigned, k: nat)
    requires k < |classes| && classes[k] in hash && forall j :: 0 <= j <= k ==> classes[j] != klass
    ensures FirstIn(hash[klass := target], classes) == FirstIn(hash, classes)
    decreases k
  {
    if classes[0] !in hash {
      FurtherOff(hash, classes[1..], klass, target, k - 1);
    }
  }

  datatype Operation =
    | Assign(klass: Class, target: Option<Assigned>)
    | Look(klass: Class, answer: Option<Coder>)
    | Compact

  function After(hash: Hash, op: Operation): Hash {
    match op
    case Assign(klass, None) => hash - {klass}
    case Assign(klass, Some(target)) => hash[klass := target]
    case Look(_, _) => hash
    case Compact => hash
  }

  /** The coders that the lookups among the operations are to answer. */
  function Expected(hash: Hash, ancestors: Hierarchy, ops: seq<Operation>): seq<Option<Coder>>
    decreases |ops|
  {
    if |ops| == 0 then []
    else
      var first := if ops[0].Look? then [CoderFor(hash, ancestors, ops[0].klass, ops[0].answer)] else [];
      first + Expected(After(hash, ops[0]), ancestors, ops[1..])
  }

  /** The hash after all of the operations. */
  function AfterAll(hash: Hash, ops: seq<Operation>): Hash
    decreases |ops|
  {
    if |ops| == 0 then hash else AfterAll(After(hash, ops[0]), ops[1..])
  }

  /** What a class was assigned last; nothing, if the last assignment was nil. */
  function Latest(ops: seq<Operation>, klass: Class): Option<Assigned> {
    if |ops| == 0 then None
    else
      var last := ops[|ops| - 1];
      if last.Assign? && last.klass == klass then last.target else Latest(ops[..|ops| - 1], klass)
  }

  lemma {:induction false} AfterLast(hash: Hash, ops: seq<Operation>)
    requires |ops| > 0
    ensures AfterAll(hash, ops) == After(AfterAll(hash, ops[..|ops| - 1]), ops[|ops| - 1])
    decreases |ops|
  {
    hide After;
    var k := |ops| - 1;
    if k == 0 {
      assert ops[1..] == [] && ops[..0] == [];
    } else {
      AfterLast(After(hash, ops[0]), ops[1..]);
      assert ops[..k][1..] == ops[1..][..k - 1];
    }
  }

  lemma {:induction false} HashHoldsLatest(ops: seq<Operation>, klass: Class)
    ensures var hash := AfterAll(map[], ops);
            Latest(ops, klass) == if klass in hash then Some(hash[klass]) else None
    decreases |ops|
  {
    if |ops| > 0 {
      HashHoldsLatest(ops[..|ops| - 1], klass);
      AfterLast(map[], ops);
    }
  }

  lemma {:induction false} ExpectedLast(hash: Hash, ancestors: Hierarchy, ops: seq<Operation>)
    requires |ops| > 0
    ensures var before, op := ops[..|ops| - 1], ops[|ops| - 1];
            Expected(hash, ancestors, ops) ==
            Expected(hash, ancestors, before) +
            if op.Look? then [CoderFor(AfterAll(hash, before), ancestors, op.klass, op.answer)] else []
    decreases |ops|
  {
    hide After, CoderFor;
    var k := |ops| - 1;
    if k == 0 {
      assert ops[1..] == [] && ops[..0] == [];
    } else {
      ExpectedLast(After(hash, ops[0]), ancestors, ops[1..]);
      assert ops[..k][1..] == ops[1..][..k - 1];
      var first := if ops[0].Look? then [CoderFor(hash, ancestors, ops[0].klass, ops[0].answer)] else [];
      var rest := Expected(After(hash, ops[0]), ancestors, ops[1..][..k - 1]);
      var last := if ops[k].Look? then [CoderFor(AfterAll(After(hash, ops[0]), ops[1..][..k - 1]), ancestors,
                                                 ops[k].klass, ops[k].answer)] else [];
      assert first + (rest + last) == first + rest + last;
    }
  }

  /** The classes in the order they are asked for: the class itself, and its ancestors but for the first. */
  function Asked(ancestors: Hierarchy, klass: Class): (r: seq<Class>)
    ensures |r| > 0
  {
    [klass] + if |ancestors(klass)| == 0 then [] else ancestors(klass)[1..]
  }

  /**
   Over every run of operations on a new map a lookup finds what the first of these classes was assigned that has an
   assignment: a coder, or what Ruby code answers; and nothing if none has.
   */
  lemma LookupIs(ancestors: Hierarchy, ops: seq<Operation>, klass: Class, answer: Option<Coder>)
    returns (k: nat, found: Option<Coder>)
    ensures Expected(map[], ancestors, ops + [Look(klass, answer)]) == Expected(map[], ancestors, ops) + [found]
    ensures var classes := Asked(ancestors, klass);
            && k <= |classes| && (forall j :: 0 <= j < k ==> Latest(ops, classes[j]).None?)
            && (k == |classes| ==> found == None)
            && (k < |classes| ==>
                  && Latest(ops, classes[k]).Some?
                  && match Latest(ops, classes[k]).value
                     case Fixed(coder) => found == Some(coder)
                     case Symbol(_) => found == answer
                     case Proc(_) => found == answer)
  {
    hide After, AfterAll, Latest, Expected;
    var hash, all, classes := AfterAll(map[], ops), ops + [Look(klass, answer)], Asked(ancestors, klass);
    assert all[..|all| - 1] == ops && all[|all| - 1] == Look(klass, answer);
    ExpectedLast(map[], ancestors, all);
    found := CoderFor(hash, ancestors, klass, answer);
    k := 0;
    while k < |classes| && classes[k] !in hash
      invariant k <= |classes| && forall j :: 0 <= j < k ==> classes[j] !in hash
    {
      k := k + 1;
    }
    SearchIs(hash, ancestors, klass, k);
    forall j | 0 <= j < |classes|
      ensures Latest(ops, classes[j]) == if classes[j] in hash then Some(hash[classes[j]]) else None
    {
      HashHoldsLatest(ops, classes[j]);
    }
  }

  lemma SearchIs(hash: Hash, ancestors: Hierarchy, klass: Class, k: nat)
    requires k <= |Asked(ancestors, klass)| && forall j :: 0 <= j < k ==> Asked(ancestors, klass)[j] !in hash
    requires k < |Asked(ancestors, klass)| ==> Asked(ancestors, klass)[k] in hash
    ensures Search(hash, ancestors, klass) ==
            if k < |Asked(ancestors, klass)| then Some(hash[Asked(ancestors, klass)[k]]) else None
  {
    var classes := Asked(ancestors, klass);
    assert classes[0] == klass;
    if k > 0 {
      FirstInAt(hash, classes[1..], k - 1);
    }
  }

  lemma {:induction false} FirstInAt(hash: Hash, classes: seq<Class>, k: nat)
    requires k <= |classes| && forall j :: 0 <= j < k ==> classes[j] !in hash
    requires k < |classes| ==> classes[k] in hash
    ensures FirstIn(hash, classes) == if k < |classes| then Some(hash[classes[k]]) else None
    decreases k
  {
    if k > 0 {
      FirstInAt(hash, classes[1..], k - 1);
    }
  }

  // ---------------------------------------------------------------- the map

  /**
   What a slot may hold: nothing, or the search's result for a class that belongs there, and never a coder that Ruby
   code was asked for.
   */
  ghost predicate SlotAgrees(hash: Hash, ancestors: Hierarchy, slot: Slot, index: nat) {
    slot.klass != 0 ==>
      && Index(slot.klass) == index
      && !AsksRuby(hash, ancestors, slot.klass)
      && slot.coder == CoderFor(hash, ancestors, slot.klass, None)
  }

  class TypeMap {
    const ancestors: Hierarchy
    const cache: array<Slot>
    var hash: Hash

    ghost predicate Valid()
      reads this, cache
    {
      && cache.Length == CACHE_SIZE
      && forall i :: 0 <= i < CACHE_SIZE ==> SlotAgrees(hash, ancestors, cache[i], i)
    }

    constructor (ancestors: Hierarchy)
      ensures Valid() && fresh(cache) && hash == map[] && this.ancestors == ancestors
    {
      this.ancestors := ancestors;
      hash := map[];
      cache := new Slot[CACHE_SIZE](_ => Slot(0, None));
    }

    /** The full lookup of `pg_tmbk_lookup_klass`. */
    method FullLookup(klass: Class) returns (obj: Option<Assigned>)
      ensures obj == Search(hash, ancestors, klass)
    {
      obj := if klass in hash then Some(hash[klass]) else None;
      if obj.None? {
        var all := ancestors(klass);
        var i := 1;
        while i < |all|
          invariant obj.None? && (|all| > 0 ==> 1 <= i <= |all|)
          invariant |all| > 0 ==> Search(hash, ancestors, klass) == FirstIn(hash, all[i..])
        {
          assert all[i..][1..] == all[i + 1..];
          if all[i] in hash {
            obj := Some(hash[all[i]]);
            break;
          }
          i := i + 1;
        }
      }
    }

    /** `pg_tmbk_lookup_klass`; `answer` is what Ruby code returns if it is asked. */
    method LookupKlass(klass: Class, answer: Option<Coder>) returns (coder: Option<Coder>)
      requires Valid()
      modifies cache
      ensures Valid() && coder == CoderFor(hash, ancestors, klass, answer)
      ensures AsksRuby(hash, ancestors, klass) ==> cache[..] == old(cache[..])
    {
      hide Search;
      var entry := cache[Index(klass)];
      if entry.klass == klass {
        assert SlotAgrees(hash, ancestors, entry, Index(klass));
        coder := entry.coder;
      } else {
        var obj := FullLookup(klass);
        match obj
        case None => coder := None;
        case Some(target) =>
          if target.Fixed? {
            coder := Some(target.coder);
          } else {
            return answer;
          }
        cache[Index(klass)] := Slot(klass, coder);
      }
    }

    /** `memset` over the cache, when a class is assigned or moved. */
    method ClearCache()
      requires cache.Length == CACHE_SIZE
      modifies cache
      ensures Valid()
    {
      hide SlotAgrees, AsksRuby, CoderFor, Index;
      for i := 0 to CACHE_SIZE
        invariant forall k :: 0 <= k < i ==> cache[k] == Slot(0, None)
      {
        cache[i] := Slot(0, None);
      }
      forall i | 0 <= i < CACHE_SIZE
        ensures SlotAgrees(hash, ancestors, cache[i], i)
      {
        EmptySlot(hash, ancestors, i);
      }
    }

    /** `pg_tmbk_aset`. */
    method Aset(klass: Class, target: Option<Assigned>)
      requires Valid()
      modifies this`hash, cache
      ensures Valid() && hash == After(old(hash), Assign(klass, target))
    {
      hash := if target.None? then hash - {klass} else hash[klass := target.value];
      ClearCache();
    }

    method Perform(op: Operation) returns (found: seq<Option<Coder>>)
      requires Valid()
      modifies this`hash, cache
      ensures Valid() && hash == After(old(hash), op)
      ensures found == if op.Look? then [CoderFor(old(hash), ancestors, op.klass, op.answer)] else []
    {
      hide CoderFor;
      found := [];
      match op
      case Assign(klass, target) => Aset(klass, target);
      case Look(klass, answer) =>
        var coder := LookupKlass(klass, answer);
        found := [coder];
      case Compact => ClearCache();
    }

    /** Over every run of assignments and lookups the cached map finds what the search without a cache finds. */
    method Run(ops: seq<Operation>) returns (found: seq<Option<Coder>>)
      requires Valid()
      modifies this`hash, cache
      ensures Valid() && found == Expected(old(hash), ancestors, ops)
    {
      hide After, CoderFor;
      found := [];
      ghost var start := hash;
      assert ops[0..] == ops;
      for k := 0 to |ops|
        invariant Valid()
        invariant Expected(start, ancestors, ops) == found + Expected(hash, ancestors, ops[k..])
      {
        var more := Perform(ops[k]);
        assert ops[k..][1..] == ops[k + 1..];
        Regroup(found, more, Expected(hash, ancestors, ops[k + 1..]));
        found := found + more;
      }
    }
  }

  lemma EmptySlot(hash: Hash, ancestors: Hierarchy, i: nat)
    ensures SlotAgrees(hash, ancestors, Slot(0, None), i)
  {
  }

  lemma Regroup(a: seq<Option<Coder>>, b: seq<Option<Coder>>, c: seq<Option<Coder>>)
    ensures a + (b + c) == a + b + c
  {
  }
}
